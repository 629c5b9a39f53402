// SocketQueue: two FIFO queues, one of text messages and one of file chunks,
// and the splitting of a file into chunks.

module SocketQueue {
  import opened Basics
  import opened Streams

  /** The two kinds of SocketMessage; each queue holds one kind. */
  datatype SocketText = Text(text: string)
  datatype Chunk = FileChunk(fileId: string, data: seq<byte>, isLast: bool)

  /** The bytes of a run of chunks, in order. */
  function Concat(chunks: seq<Chunk>): seq<byte>
  {
    if chunks == [] then [] else Concat(chunks[..|chunks| - 1]) + chunks[|chunks| - 1].data
  }

  lemma ConcatAppend(chunks: seq<Chunk>, c: Chunk)
    ensures Concat(chunks + [c]) == Concat(chunks) + c.data
  {
    assert (chunks + [c])[..|chunks|] == chunks;
  }

  /** Chunks enqueued for the first `total` bytes of `file`: together they are
      those bytes, each carries `fileId` and 1 to `chunkSize` bytes, and a chunk
      is flagged last exactly when the running total after it is the file's length. */
  ghost predicate Chunked(chunks: seq<Chunk>, fileId: string, file: seq<byte>, chunkSize: nat, total: nat)
  {
    && total <= |file| && Concat(chunks) == file[..total]
    && (forall i | 0 <= i < |chunks| :: chunks[i].fileId == fileId && 1 <= |chunks[i].data| <= chunkSize)
    && (forall i | 0 <= i < |chunks| :: chunks[i].isLast <==> |Concat(chunks[..i + 1])| == |file|)
  }

  /** All of `file`, chunked. */
  ghost predicate WellChunked(chunks: seq<Chunk>, fileId: string, file: seq<byte>, chunkSize: nat)
  {
    Chunked(chunks, fileId, file, chunkSize, |file|)
  }

  /** One more chunk of the next bytes keeps the chunking. */
  lemma ChunkStep(chunks: seq<Chunk>, fileId: string, file: seq<byte>, chunkSize: nat, total: nat, data: seq<byte>)
    requires Chunked(chunks, fileId, file, chunkSize, total)
    requires 1 <= |data| <= chunkSize && total + |data| <= |file| && data == file[total..total + |data|]
    ensures Chunked(chunks + [FileChunk(fileId, data, total + |data| == |file|)], fileId, file, chunkSize, total + |data|)
  {
    var c := FileChunk(fileId, data, total + |data| == |file|);
    var next := chunks + [c];
    ConcatAppend(chunks, c);
    assert file[..total + |data|] == file[..total] + data;
    forall i | 0 <= i < |next|
      ensures next[i].isLast <==> |Concat(next[..i + 1])| == |file|
    {
      if i < |chunks| {
        assert next[..i + 1] == chunks[..i + 1];
      } else {
        assert next[..i + 1] == next;
      }
    }
  }

  class SocketQueue {
    var textMessages: seq<SocketText>
    var fileChunks: seq<Chunk>

    constructor ()
      ensures textMessages == [] && fileChunks == []
    {
      textMessages := [];
      fileChunks := [];
    }

    predicate HasTextMessage()
      reads this
    {
      textMessages != []
    }

    predicate HasFileChunk()
      reads this
    {
      fileChunks != []
    }

    /** poll on the text queue: the oldest text, or nothing when there is none. */
    method TakeText() returns (r: Option<SocketText>)
      modifies this
      ensures r.None? <==> !old(HasTextMessage())
      ensures r.Some? ==> r.value == old(textMessages)[0] && textMessages == old(textMessages)[1..]
      ensures r.None? ==> textMessages == old(textMessages)
      ensures fileChunks == old(fileChunks)
    {
      if textMessages == [] {
        return None;
      }
      r := Some(textMessages[0]);
      textMessages := textMessages[1..];
    }

    /** poll on the chunk queue: the oldest chunk, or nothing when there is none. */
    method TakeFileChunk() returns (r: Option<Chunk>)
      modifies this
      ensures r.None? <==> !old(HasFileChunk())
      ensures r.Some? ==> r.value == old(fileChunks)[0] && fileChunks == old(fileChunks)[1..]
      ensures r.None? ==> fileChunks == old(fileChunks)
      ensures textMessages == old(textMessages)
    {
      if fileChunks == [] {
        return None;
      }
      r := Some(fileChunks[0]);
      fileChunks := fileChunks[1..];
    }

    /** offer on the text queue. */
    method SendText(text: string)
      modifies this
      ensures textMessages == old(textMessages) + [Text(text)]
      ensures fileChunks == old(fileChunks)
      ensures HasTextMessage() && HasFileChunk() == old(HasFileChunk())
    {
      textMessages := textMessages + [Text(text)];
    }

    /** Reads the file through a `chunkSize`-byte buffer and enqueues a copy of
        each read as a chunk after everything already queued. A chunk size of
        0 would read nothing forever, so it is excluded. */
    method SendFileInChunks(fileId: string, file: seq<byte>, chunkSize: nat) returns (ghost chunks: seq<Chunk>)
      requires chunkSize > 0
      modifies this
      ensures fileChunks == old(fileChunks) + chunks
      ensures WellChunked(chunks, fileId, file, chunkSize)
      ensures textMessages == old(textMessages)
      ensures HasFileChunk() <==> old(HasFileChunk()) || file != []
    {
      var input := new ByteInput(file);
      var buffer := new byte[chunkSize];
      var totalRead := 0;
      var fileSize := |file|;
      chunks := [];
      while true
        invariant totalRead <= |file| && input.rest == file[totalRead..]
        invariant fileChunks == old(fileChunks) + chunks
        invariant Chunked(chunks, fileId, file, chunkSize, totalRead)
        invariant chunks == [] ==> totalRead == 0
        invariant textMessages == old(textMessages)
        decreases |input.rest|
      {
        var read := input.Read(buffer, 0, buffer.Length);
        if read == -1 {
          break;
        }
        var chunkData := buffer[..read];
        assert buffer[0..read] == chunkData;
        assert file[totalRead..][..read] == file[totalRead..totalRead + read];
        ChunkStep(chunks, fileId, file, chunkSize, totalRead, chunkData);
        totalRead := totalRead + read;
        var isLastChunk := totalRead == fileSize;
        var chunk := FileChunk(fileId, chunkData, isLastChunk);
        chunks := chunks + [chunk];
        fileChunks := fileChunks + [chunk];
      }
    }
  }

  /** Only the final chunk of a file is flagged last, and an empty file
      enqueues no chunk at all. */
  lemma OnlyLastChunkFlagged(chunks: seq<Chunk>, fileId: string, file: seq<byte>, chunkSize: nat)
    requires WellChunked(chunks, fileId, file, chunkSize)
    ensures file == [] <==> chunks == []
    ensures chunks != [] ==> chunks[|chunks| - 1].isLast
    ensures forall i | 0 <= i < |chunks| - 1 :: !chunks[i].isLast
  {
    if chunks != [] {
      assert chunks[..|chunks|] == chunks;
      assert |Concat(chunks)| >= |chunks[|chunks| - 1].data| >= 1;
    }
    forall i | 0 <= i < |chunks| - 1
      ensures !chunks[i].isLast
    {
      ConcatGrows(chunks, i);
    }
  }

  /** The bytes of a proper prefix of a run of chunks are fewer than all of them. */
  lemma {:induction false} ConcatGrows(chunks: seq<Chunk>, i: nat)
    requires i < |chunks| - 1
    requires forall k | 0 <= k < |chunks| :: 1 <= |chunks[k].data|
    ensures |Concat(chunks[..i + 1])| < |Concat(chunks)|
    decreases |chunks|
  {
    var init := chunks[..|chunks| - 1];
    assert |Concat(chunks)| == |Concat(init)| + |chunks[|chunks| - 1].data|;
    if i < |init| - 1 {
      ConcatGrows(init, i);
      assert init[..i + 1] == chunks[..i + 1];
    } else {
      assert chunks[..i + 1] == init;
    }
  }

  /** Texts come out in the order they went in, whatever is done to the chunk
      queue in between, and the chunks of a file follow the chunks already queued. */
  method TextsInOrder(first: string, second: string, fileId: string, file: seq<byte>, chunkSize: nat)
    returns (a: Option<SocketText>, b: Option<SocketText>, c: Option<SocketText>, chunk: Option<Chunk>)
    requires chunkSize > 0
    ensures a == Some(Text(first)) && b == Some(Text(second)) && c == None
    ensures file == [] <==> chunk.None?
    ensures chunk.Some? ==> chunk.value.fileId == fileId && |chunk.value.data| <= |file| && chunk.value.data == file[..|chunk.value.data|]
  {
    var queue := new SocketQueue();
    queue.SendText(first);
    ghost var chunks := queue.SendFileInChunks(fileId, file, chunkSize);
    queue.SendText(second);
    chunk := queue.TakeFileChunk();
    a := queue.TakeText();
    b := queue.TakeText();
    c := queue.TakeText();
    OnlyLastChunkFlagged(chunks, fileId, file, chunkSize);
    if chunks != [] {
      assert chunks[..1] == [chunks[0]];
      assert Concat(chunks[..1]) == chunks[0].data;
      ConcatPrefix(chunks, 1);
    }
  }

  /** The bytes of a prefix of a run of chunks begin the bytes of the run. */
  lemma {:induction false} ConcatPrefix(chunks: seq<Chunk>, k: nat)
    requires k <= |chunks|
    ensures |Concat(chunks[..k])| <= |Concat(chunks)|
    ensures Concat(chunks[..k]) == Concat(chunks)[..|Concat(chunks[..k])|]
    decreases |chunks|
  {
    if k < |chunks| {
      var init := chunks[..|chunks| - 1];
      ConcatPrefix(init, k);
      assert init[..k] == chunks[..k];
    } else {
      assert chunks[..k] == chunks;
    }
  }
}
