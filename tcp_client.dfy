// TcpClient: the receive loop (start, receiveFile) and the two senders
// (sendMessage, sendFile) over one socket.
//
// The socket stream is a sequence of pieces: a Frame is one header written by
// writeUTF and read back whole by readUTF, an Octet is one raw byte, and a
// Fault is the point where the connection breaks (every later read fails).
// The end of the sequence is the end of the stream.

module TcpClient {
  import opened Basics
  import opened Headers
  import opened Streams

  datatype Piece = Frame(header: string) | Octet(b: byte) | Fault

  /** The pieces that carry a run of raw bytes. */
  function Octets(bytes: seq<byte>): seq<Piece>
  {
    seq(|bytes|, i requires 0 <= i < |bytes| => Octet(bytes[i]))
  }

  /** The first `k` pieces are raw bytes. */
  predicate OctetsAhead(pieces: seq<Piece>, k: nat)
  {
    k <= |pieces| && forall i | 0 <= i < k :: pieces[i].Octet?
  }

  /** No piece is the point where the connection broke: a read never gets past it. */
  predicate NoFault(pieces: seq<Piece>)
  {
    forall i | 0 <= i < |pieces| :: !pieces[i].Fault?
  }

  /** readUTF took `header` off `pieces`, leaving `rest`: it read at least one
      piece and never past a fault, and when a frame was next it took exactly
      that frame. */
  predicate HeaderTaken(pieces: seq<Piece>, header: string, rest: seq<Piece>)
  {
    var headerEnd := |pieces| - |rest|;
    && |rest| < |pieces| && rest == pieces[headerEnd..] && NoFault(pieces[..headerEnd])
    && (pieces[0].Frame? ==> header == pieces[0].header && rest == pieces[1..])
  }

  /** Size of the buffer receiveFile and sendFile copy through. */
  const BufferSize: nat := 8192

  /** writeUTF refuses a string whose modified UTF-8 form exceeds this many bytes. */
  const MaxUtfLength: nat := 65535

  /** Bytes one character takes in modified UTF-8; a character outside the Basic
      Multilingual Plane is a surrogate pair on the JVM, three bytes each. */
  function CharUtfLength(c: char): nat
  {
    if 1 <= c as int <= 0x7F then 1
    else if c as int <= 0x7FF then 2
    else if c as int <= 0xFFFF then 3
    else 6
  }

  function UtfLength(s: string): nat
  {
    if s == [] then 0 else UtfLength(s[..|s| - 1]) + CharUtfLength(s[|s| - 1])
  }

  /** The outcome of one raw read on the socket: a count, -1, or an IOException. */
  datatype ReadResult = Got(count: nat) | EndOfStream | IoError

  /** The chat message a text header becomes (its timestamp is not modelled). */
  datatype ChatMessage = TextMessage(text: string, isIncoming: bool)

  /** The callbacks the client makes, in the order it makes them. */
  datatype Event =
    | MessageReceived(message: ChatMessage)
    | ReceivingFile(fileName: string, fileSize: int)
    | ProgressUpdate(progress: int)
    | FileReceived(fileName: string, fileLength: int)
    | TransferError(fileName: string)

  /** The socket's input side (a DataInputStream over it). */
  class SocketInput {
    var rest: seq<Piece>

    constructor (pieces: seq<Piece>)
      ensures rest == pieces
    {
      rest := pieces;
    }

    /** readUTF: the next header; `None` stands for the IOException thrown at the
        end of the stream, at a fault, or on bytes that do not form a header.
        Raw bytes where a header is expected are decoded to an arbitrary string
        or rejected: the model does not represent their encoding. */
    method ReadUtf() returns (header: Option<string>)
      modifies this
      ensures old(rest) == [] || old(rest)[0].Fault? ==> header.None?
      ensures old(rest) != [] && old(rest)[0].Frame? ==>
        header == Some(old(rest)[0].header) && rest == old(rest)[1..]
      ensures header.None? ==> rest == old(rest)
      ensures header.Some? ==> HeaderTaken(old(rest), header.value, rest)
    {
      if rest == [] || rest[0].Fault? {
        return None;
      }
      if rest[0].Frame? {
        header := Some(rest[0].header);
        ghost var was := rest;
        rest := rest[1..];
        assert rest == was[|was| - |rest|..];
        assert was[..|was| - |rest|] == [was[0]];
        return;
      }
      var rejected: bool :| true;
      if rejected {
        return None;
      }
      assert NoFault(rest[..1]);
      var k :| 1 <= k <= |rest| && NoFault(rest[..k]);
      var garbage: string :| true;
      header := Some(garbage);
      ghost var was := rest;
      rest := rest[k..];
      assert |was| - |rest| == k;
      assert rest == was[|was| - |rest|..];
    }

    /** read(buffer, 0, len) for 1 <= len: -1 at the end, an IOException at a
        fault, otherwise 1 to `len` bytes. Raw bytes come out exactly; a header
        frame read as raw data yields bytes the model does not represent. */
    method Read(buffer: array<byte>, len: nat) returns (r: ReadResult)
      requires 1 <= len <= buffer.Length
      modifies this, buffer
      ensures old(rest) == [] ==> r == EndOfStream
      ensures old(rest) != [] && old(rest)[0].Fault? ==> r == IoError
      ensures !r.Got? ==> rest == old(rest)
      ensures old(rest) != [] && !old(rest)[0].Fault? ==> r.Got? && 1 <= r.count <= len
      ensures old(rest) != [] && old(rest)[0].Octet? ==>
        OctetsAhead(old(rest), r.count) && Octets(buffer[..r.count]) == old(rest)[..r.count]
        && rest == old(rest)[r.count..]
      ensures old(rest) != [] && old(rest)[0].Frame? ==> rest == old(rest)[1..]
    {
      if rest == [] {
        return EndOfStream;
      }
      if rest[0].Fault? {
        return IoError;
      }
      if rest[0].Octet? {
        var n :| 1 <= n <= len && OctetsAhead(rest, n);
        assert OctetsAhead(rest, n);
        forall i | 0 <= i < n {
          buffer[i] := rest[i].b;
        }
        assert Octets(buffer[..n]) == rest[..n];
        rest := rest[n..];
        r := Got(n);
      } else {
        var n :| 1 <= n <= len;
        rest := rest[1..];
        r := Got(n);
      }
    }
  }

  /** The socket's output side (a DataOutputStream over it). A write may fail
      at any time, as when the peer resets the connection. */
  class SocketOutput {
    var sent: seq<Piece>

    constructor ()
      ensures sent == []
    {
      sent := [];
    }

    /** writeUTF followed by flush. */
    method WriteUtf(s: string) returns (ok: bool)
      modifies this
      ensures UtfLength(s) > MaxUtfLength ==> !ok
      ensures ok ==> sent == old(sent) + [Frame(s)]
      ensures !ok ==> sent == old(sent)
    {
      if UtfLength(s) > MaxUtfLength {
        return false;
      }
      ok :| true;
      if ok {
        sent := sent + [Frame(s)];
      }
    }

    /** write(buffer, 0, len). */
    method Write(buffer: array<byte>, len: nat) returns (ok: bool)
      requires len <= buffer.Length
      modifies this
      ensures ok ==> sent == old(sent) + Octets(buffer[..len])
      ensures !ok ==> sent == old(sent)
    {
      ok :| true;
      if ok {
        sent := sent + Octets(buffer[..len]);
      }
    }
  }

  // ----- Progress

  /** The integer percentage reported after `done` of `fileSize` bytes. */
  function Percent(done: int, fileSize: int): int
    requires fileSize > 0
  {
    done * 100 / fileSize
  }

  /** Running byte totals after each successful read: strictly increasing, each
      between 1 and the file size. */
  predicate RunningTotals(marks: seq<int>, fileSize: int)
  {
    && (forall i | 0 < i < |marks| :: marks[i - 1] < marks[i])
    && (forall i | 0 <= i < |marks| :: 1 <= marks[i] <= fileSize)
  }

  /** The byte count the running totals end at. */
  function Delivered(marks: seq<int>): int
  {
    if marks == [] then 0 else marks[|marks| - 1]
  }

  /** The progress callbacks made for a sequence of running totals. */
  function ProgressEvents(marks: seq<int>, fileSize: int): seq<Event>
    requires marks == [] || fileSize > 0
  {
    seq(|marks|, i requires 0 <= i < |marks| => ProgressUpdate(Percent(marks[i], fileSize)))
  }

  /** What receiving one announced file does to the stream and to the callbacks:
      `before`/`after` are the stream around the call, `received` the bytes
      written to the file, `marks` the running totals and `log` the callbacks. */
  ghost predicate FileReceipt(before: seq<Piece>, after: seq<Piece>, fileName: string, fileSize: int,
                              received: seq<byte>, marks: seq<int>, log: seq<Event>)
  {
    var total := |received|;
    var consumed := |before| - |after|;
    && |after| <= |before| && after == before[consumed..] && NoFault(before[..consumed])
    && (fileSize <= 0 ==> total == 0 && marks == [] && after == before)
    && RunningTotals(marks, fileSize) && Delivered(marks) == total
    && (total < fileSize ==> after == [] || after[0].Fault?)
    && (OctetsAhead(before, consumed) ==> Octets(received) == before[..consumed])
    && (fileSize > 0 && OctetsAhead(before, fileSize) ==> total == fileSize && consumed == fileSize)
    && (marks == [] || fileSize > 0)
    && log == ProgressEvents(marks, fileSize) +
              [if total < fileSize && after != [] then TransferError(fileName) else FileReceived(fileName, total)]
  }

  // ----- Steps of the copy loops

  lemma ProgressEventsAppend(marks: seq<int>, total: int, fileSize: int)
    requires fileSize > 0
    ensures ProgressEvents(marks + [total], fileSize) ==
      ProgressEvents(marks, fileSize) + [ProgressUpdate(Percent(total, fileSize))]
  {
  }

  lemma RunningTotalsAppend(marks: seq<int>, total: int, fileSize: int)
    requires RunningTotals(marks, fileSize)
    requires Delivered(marks) < total <= fileSize && 1 <= total
    ensures RunningTotals(marks + [total], fileSize) && Delivered(marks + [total]) == total
  {
  }

  /** The state of receiveFile's copy loop against the stream it started from:
      `consumed` pieces are gone, and while they were all raw bytes, the bytes
      written are exactly those. */
  ghost predicate CopyInvariant(before: seq<Piece>, consumed: nat, written: seq<byte>, fileSize: int)
  {
    && consumed <= |before| && NoFault(before[..consumed])
    && (fileSize <= 0 ==> consumed == 0)
    && (OctetsAhead(before, consumed) ==> Octets(written) == before[..consumed])
    && (fileSize > 0 && OctetsAhead(before, fileSize) ==> consumed == |written|)
  }

  /** One successful read of `chunk` from `pending` (what was left of `before`)
      keeps the copy invariant. */
  lemma CopyStep(before: seq<Piece>, consumed: nat, written: seq<byte>, chunk: seq<byte>,
                 fileSize: int, pending: seq<Piece>, after: seq<Piece>) returns (next: nat)
    requires CopyInvariant(before, consumed, written, fileSize) && pending == before[consumed..]
    requires pending != [] && !pending[0].Fault?
    requires 1 <= |chunk| && |written| + |chunk| <= fileSize
    requires pending[0].Octet? ==>
      OctetsAhead(pending, |chunk|) && Octets(chunk) == pending[..|chunk|] && after == pending[|chunk|..]
    requires pending[0].Frame? ==> after == pending[1..]
    ensures CopyInvariant(before, next, written + chunk, fileSize) && after == before[next..]
  {
    if pending[0].Octet? {
      next := consumed + |chunk|;
      if OctetsAhead(before, next) {
        assert OctetsAhead(before, consumed);
        assert Octets(written + chunk) == Octets(written) + Octets(chunk);
        assert before[..next] == before[..consumed] + pending[..|chunk|];
      }
      if fileSize > 0 && OctetsAhead(before, fileSize) {
        assert OctetsAhead(before, consumed);
      }
    } else {
      next := consumed + 1;
      assert before[consumed] == pending[0];
      assert !OctetsAhead(before, next);
      assert !(fileSize > 0 && OctetsAhead(before, fileSize));
    }
  }

  /** The loop state of receiveFile apart from the heap: the copy invariant, and
      the running totals ending at the bytes written so far. */
  ghost predicate Receiving(before: seq<Piece>, consumed: nat, written: seq<byte>, marks: seq<int>, fileSize: int)
  {
    && CopyInvariant(before, consumed, written, fileSize)
    && (fileSize > 0 ==> |written| <= fileSize)
    && (fileSize <= 0 ==> |written| == 0)
    && RunningTotals(marks, fileSize) && Delivered(marks) == |written|
    && (marks == [] || fileSize > 0)
  }

  /** One successful read of `chunk` advances the loop state and adds one progress report. */
  lemma ReceiveStep(before: seq<Piece>, consumed: nat, written: seq<byte>, marks: seq<int>, chunk: seq<byte>,
                    fileSize: int, pending: seq<Piece>, after: seq<Piece>) returns (next: nat)
    requires Receiving(before, consumed, written, marks, fileSize) && pending == before[consumed..]
    requires pending != [] && !pending[0].Fault?
    requires 1 <= |chunk| && |written| + |chunk| <= fileSize
    requires pending[0].Octet? ==>
      OctetsAhead(pending, |chunk|) && Octets(chunk) == pending[..|chunk|] && after == pending[|chunk|..]
    requires pending[0].Frame? ==> after == pending[1..]
    ensures Receiving(before, next, written + chunk, marks + [|written| + |chunk|], fileSize)
    ensures after == before[next..]
    ensures ProgressEvents(marks + [|written| + |chunk|], fileSize) ==
      ProgressEvents(marks, fileSize) + [ProgressUpdate(Percent(|written| + |chunk|, fileSize))]
  {
    next := CopyStep(before, consumed, written, chunk, fileSize, pending, after);
    RunningTotalsAppend(marks, |written| + |chunk|, fileSize);
    ProgressEventsAppend(marks, |written| + |chunk|, fileSize);
  }

  /** When the copy loop stops, the whole receipt is as FileReceipt describes. */
  lemma ReceiptAfterCopy(before: seq<Piece>, consumed: nat, after: seq<Piece>, fileName: string,
                         fileSize: int, written: seq<byte>, marks: seq<int>, failed: bool)
    requires Receiving(before, consumed, written, marks, fileSize) && after == before[consumed..]
    requires |written| < fileSize ==> (after == [] && !failed) || (after != [] && after[0].Fault? && failed)
    requires |written| >= fileSize ==> !failed
    ensures FileReceipt(before, after, fileName, fileSize, written, marks,
      ProgressEvents(marks, fileSize) + [if failed then TransferError(fileName) else FileReceived(fileName, |written|)])
  {
    assert |before| - |after| == consumed;
    assert |written| < fileSize ==> !OctetsAhead(before, fileSize);
  }

  // ----- The receive loop and the senders

  /** What handling one header does: `afterHeader` is the stream just past the
      header, `after` the stream when the handling is done. A text header becomes
      one incoming message, a rejected header is skipped, and a file announcement
      is reported and then received. */
  ghost predicate Handled(header: string, afterHeader: seq<Piece>, after: seq<Piece>,
                          events0: seq<Event>, events1: seq<Event>,
                          downloads0: map<string, seq<byte>>, downloads1: map<string, seq<byte>>,
                          marks: seq<int>, log: seq<Event>)
  {
    match Dispatch(header)
    case IncomingText(message) =>
      after == afterHeader && downloads1 == downloads0 &&
      events1 == events0 + [MessageReceived(TextMessage(message, true))]
    case Rejected(_) =>
      after == afterHeader && downloads1 == downloads0 && events1 == events0
    case FileAnnouncement(fileName, fileSize) =>
      && fileName in downloads1 && downloads1 == downloads0[fileName := downloads1[fileName]]
      && events1 == events0 + [ReceivingFile(fileName, fileSize)] + log
      && FileReceipt(afterHeader, after, fileName, fileSize, downloads1[fileName], marks, log)
  }

  /** The callbacks a header that announces no file makes: one incoming
      message for a text header, none for a rejected one. */
  function HeaderEffect(header: string): seq<Event>
  {
    match Dispatch(header)
    case IncomingText(message) => [MessageReceived(TextMessage(message, true))]
    case _ => []
  }

  /** A stream made only of header frames, none of which announces a file. */
  predicate NoFileFrames(pieces: seq<Piece>)
  {
    forall i | 0 <= i < |pieces| :: pieces[i].Frame? && !Dispatch(pieces[i].header).FileAnnouncement?
  }

  /** The callbacks such a stream makes, in order. */
  function HeaderEvents(pieces: seq<Piece>): seq<Event>
    requires NoFileFrames(pieces)
  {
    if pieces == [] then [] else HeaderEffect(pieces[0].header) + HeaderEvents(pieces[1..])
  }

  /** readUTF throws here: the end of the stream, or no header frame next. */
  predicate Stopped(pieces: seq<Piece>)
  {
    pieces == [] || !pieces[0].Frame?
  }

  /** What the receive loop works on: the rest of the stream, the callbacks
      made so far and the download directory. */
  datatype Session = Session(rest: seq<Piece>, events: seq<Event>, downloads: map<string, seq<byte>>)

  /** One pass of the receive loop: the header read, the stream just past it,
      the running totals and callbacks of a received file, and the session
      after the pass. */
  datatype Step = Step(header: string, afterHeader: seq<Piece>, marks: seq<int>, log: seq<Event>, end: Session)

  /** `step` is one pass of the loop from `from`: readUTF took a header off the
      stream without reading past a fault (the next frame whole, when a frame
      is next), and the header was handled. */
  ghost predicate Pass(from: Session, step: Step)
  {
    && HeaderTaken(from.rest, step.header, step.afterHeader)
    && Handled(step.header, step.afterHeader, step.end.rest, from.events, step.end.events,
               from.downloads, step.end.downloads, step.marks, step.log)
  }

  /** `steps` are consecutive passes of the loop from `from`. */
  ghost predicate Run(from: Session, steps: seq<Step>)
    decreases |steps|
  {
    steps == [] || (Pass(from, steps[0]) && Run(steps[0].end, steps[1..]))
  }

  /** The session after a run of passes. */
  function End(from: Session, steps: seq<Step>): Session
  {
    if steps == [] then from else steps[|steps| - 1].end
  }

  /** A pass from where a run ended extends the run. */
  lemma {:induction false} RunAppend(from: Session, steps: seq<Step>, step: Step)
    requires Run(from, steps) && Pass(End(from, steps), step)
    ensures Run(from, steps + [step]) && End(from, steps + [step]) == step.end
    decreases |steps|
  {
    if steps != [] {
      assert End(steps[0].end, steps[1..]) == End(from, steps);
      RunAppend(steps[0].end, steps[1..], step);
      assert (steps + [step])[1..] == steps[1..] + [step];
    }
  }

  /** What sendFile's copy loop does: the first `Delivered(marks)` bytes of the
      file follow `before`, with one progress report per write, and a transfer
      error when a write failed before the end. */
  ghost predicate ContentSent(before: seq<Piece>, after: seq<Piece>, fileName: string, content: seq<byte>,
                              marks: seq<int>, log: seq<Event>)
  {
    && RunningTotals(marks, |content|)
    && (marks == [] || |content| > 0)
    && after == before + Octets(content[..Delivered(marks)])
    && log == ProgressEvents(marks, |content|) +
              (if Delivered(marks) == |content| then [] else [TransferError(fileName)])
  }

  /** The bytes of a local file as sendFile sees them: `None` is a file that
      does not exist, whose length() is 0. */
  function LocalBytes(file: Option<seq<byte>>): seq<byte>
  {
    if file.Some? then file.value else []
  }

  /** What sendFile does to the outgoing stream and to the callbacks. Either the
      header could not be written and one transfer error is reported, or the
      header went out and then either the file could not be opened, with one
      transfer error, or the copy loop followed. */
  ghost predicate FileSending(before: seq<Piece>, after: seq<Piece>, fileName: string, file: Option<seq<byte>>,
                              marks: seq<int>, log: seq<Event>)
  {
    var header := FileHeaderFor(fileName, |LocalBytes(file)|);
    var headerFailed := after == before && marks == [] && log == [TransferError(fileName)];
    var openFailed := after == before + [Frame(header)] && marks == [] && log == [TransferError(fileName)];
    && (UtfLength(header) > MaxUtfLength ==> headerFailed)
    && (headerFailed
        || (file.None? && openFailed)
        || (file.Some? && ContentSent(before + [Frame(header)], after, fileName, file.value, marks, log)))
  }

  class TcpClient {
    const input: SocketInput
    const output: SocketOutput
    /** The callbacks made so far. */
    var events: seq<Event>
    /** The download directory: file name to content. */
    var downloads: map<string, seq<byte>>

    constructor (input: SocketInput, output: SocketOutput)
      ensures this.input == input && this.output == output
      ensures events == [] && downloads == map[]
    {
      this.input := input;
      this.output := output;
      events := [];
      downloads := map[];
    }

    /** receiveFile: copies at most `fileSize` bytes from the socket into the file,
        reporting progress after each read, then reports the file as received,
        also when the stream ended early; an IOException reports a transfer error. */
    method ReceiveFile(fileName: string, fileSize: int) returns (ghost marks: seq<int>, ghost log: seq<Event>)
      modifies this, input
      ensures fileName in downloads && downloads == old(downloads)[fileName := downloads[fileName]]
      ensures events == old(events) + log
      ensures FileReceipt(old(input.rest), input.rest, fileName, fileSize, downloads[fileName], marks, log)
    {
      ghost var before := input.rest;
      ghost var start := events;
      ghost var consumed: nat := 0;
      var buffer := new byte[BufferSize];
      var written: seq<byte> := [];
      var totalRead := 0;
      var failed := false;
      marks := [];
      while totalRead < fileSize
        invariant totalRead == |written| && Receiving(before, consumed, written, marks, fileSize)
        invariant input.rest == before[consumed..]
        invariant events == start + ProgressEvents(marks, fileSize)
        invariant !failed && downloads == old(downloads)
        decreases fileSize - totalRead
      {
        ghost var pending := input.rest;
        var r := input.Read(buffer, Min(BufferSize, fileSize - totalRead));
        if r == EndOfStream {
          break;
        } else if r == IoError {
          failed := true;
          break;
        }
        var n := r.count;
        consumed := ReceiveStep(before, consumed, written, marks, buffer[..n], fileSize, pending, input.rest);
        written := written + buffer[..n];
        totalRead := totalRead + n;
        marks := marks + [totalRead];
        events := events + [ProgressUpdate(Percent(totalRead, fileSize))];
      }
      downloads := downloads[fileName := written];
      var outcome := if failed then TransferError(fileName) else FileReceived(fileName, totalRead);
      events := events + [outcome];
      log := ProgressEvents(marks, fileSize) + [outcome];
      ReceiptAfterCopy(before, consumed, input.rest, fileName, fileSize, written, marks, failed);
    }
    /** One pass of start's loop: read a header and handle it. `more` is false
        when readUTF threw, which ends the loop with nothing changed. */
    method ReceiveNext() returns (more: bool, ghost step: Step)
      modifies this, input
      ensures old(input.rest) == [] || old(input.rest)[0].Fault? ==> !more
      ensures old(input.rest) != [] && old(input.rest)[0].Frame? ==> more
      ensures !more ==> input.rest == old(input.rest) && events == old(events) && downloads == old(downloads)
      ensures more ==>
        && Pass(Session(old(input.rest), old(events), old(downloads)), step)
        && step.end == Session(input.rest, events, downloads)
        && |input.rest| < |old(input.rest)|
        && |old(events)| <= |events| && events[..|old(events)|] == old(events)
    {
      step := Step([], [], [], [], Session(input.rest, events, downloads));
      var read := input.ReadUtf();
      if read.None? {
        return false, step;
      }
      more := true;
      var afterHeader := input.rest;
      ghost var marks: seq<int>, log: seq<Event> := [], [];
      match Dispatch(read.value) {
        case IncomingText(message) =>
          events := events + [MessageReceived(TextMessage(message, true))];
        case Rejected(_) =>
        case FileAnnouncement(fileName, fileSize) =>
          events := events + [ReceivingFile(fileName, fileSize)];
          marks, log := ReceiveFile(fileName, fileSize);
      }
      step := Step(read.value, afterHeader, marks, log, Session(input.rest, events, downloads));
    }

    /** start: handles headers until readUTF throws. The passes made are
        returned as `steps`; the loop stops at the end of the stream or where
        no header frame is next, and the callbacks only grow. A stream of
        headers that announce no file makes exactly their callbacks. */
    method Start() returns (ghost steps: seq<Step>)
      modifies this, input
      ensures Run(Session(old(input.rest), old(events), old(downloads)), steps)
      ensures End(Session(old(input.rest), old(events), old(downloads)), steps) == Session(input.rest, events, downloads)
      ensures Stopped(input.rest)
      ensures |old(events)| <= |events| && events[..|old(events)|] == old(events)
      ensures NoFileFrames(old(input.rest)) ==>
        input.rest == [] && events == old(events) + HeaderEvents(old(input.rest)) && downloads == old(downloads)
    {
      ghost var from := Session(input.rest, events, downloads);
      steps := [];
      while true
        invariant Run(from, steps) && End(from, steps) == Session(input.rest, events, downloads)
        invariant |from.events| <= |events| && events[..|from.events|] == from.events
        decreases |input.rest|
      {
        ghost var pending := events;
        var more, step := ReceiveNext();
        if !more {
          break;
        }
        RunAppend(from, steps, step);
        steps := steps + [step];
        assert events[..|pending|] == pending;
      }
      if NoFileFrames(from.rest) {
        assert from.rest == from.rest + [];
        RunOfHeaders(from, from.rest, [], steps);
      }
    }

    /** sendMessage: one text header; a failed write is only logged. */
    method SendMessage(message: string)
      modifies output
      ensures output.sent == old(output.sent) || output.sent == old(output.sent) + [Frame(TextHeaderFor(message))]
      ensures UtfLength(TextHeaderFor(message)) > MaxUtfLength ==> output.sent == old(output.sent)
    {
      var ok := output.WriteUtf(TextHeaderFor(message));
    }

    /** sendFile: the file header with the file's length, then the file's
        content; a header that cannot be written, or a file that cannot be
        opened (file.inputStream() throws for a missing file), ends the
        transfer with a transfer error. */
    method SendFile(fileName: string, file: Option<seq<byte>>) returns (ghost marks: seq<int>, ghost log: seq<Event>)
      modifies this, output
      ensures downloads == old(downloads)
      ensures events == old(events) + log
      ensures FileSending(old(output.sent), output.sent, fileName, file, marks, log)
    {
      var ok := output.WriteUtf(FileHeaderFor(fileName, |LocalBytes(file)|));
      if !ok || file.None? {
        events := events + [TransferError(fileName)];
        marks, log := [], [TransferError(fileName)];
        return;
      }
      marks, log := SendContent(fileName, file.value);
    }

    /** sendFile's copy loop: the file's bytes through an 8192-byte buffer, with
        a progress report after each write; a failed write ends the transfer
        with a transfer error. */
    method SendContent(fileName: string, content: seq<byte>) returns (ghost marks: seq<int>, ghost log: seq<Event>)
      modifies this, output
      ensures downloads == old(downloads)
      ensures events == old(events) + log
      ensures ContentSent(old(output.sent), output.sent, fileName, content, marks, log)
    {
      var fileSize := |content|;
      marks := [];
      ghost var start := events;
      ghost var base := output.sent;
      var totalSent := 0;
      var failed := false;
      var buffer := new byte[BufferSize];
      var file := new ByteInput(content);
      while true
        invariant Sending(content, totalSent, marks, base, output.sent, start, events)
        invariant file.rest == content[totalSent..] && downloads == old(downloads)
        decreases |file.rest|
      {
        var read := file.Read(buffer, 0, buffer.Length);
        if read == -1 {
          break;
        }
        ghost var chunk := buffer[..read];
        assert buffer[0..read] == chunk;
        assert content[totalSent..][..read] == content[totalSent..totalSent + read];
        ghost var sentBefore := output.sent;
        var written := output.Write(buffer, read);
        if !written {
          failed := true;
          break;
        }
        SendStep(content, totalSent, marks, base, sentBefore, start, events, chunk);
        totalSent := totalSent + read;
        marks := marks + [totalSent];
        events := events + [ProgressUpdate(Percent(totalSent, fileSize))];
      }
      var outcome := if failed then [TransferError(fileName)] else [];
      SendStopped(content, totalSent, marks, base, output.sent, start, events, fileName, outcome);
      events := events + outcome;
      log := ProgressEvents(marks, fileSize) + outcome;
    }
  }

  /** The state of sendFile's copy loop: the first `total` bytes went out after
      `base`, with one progress report per write since `start`. */
  ghost predicate Sending(content: seq<byte>, total: int, marks: seq<int>,
                          base: seq<Piece>, sent: seq<Piece>, start: seq<Event>, events: seq<Event>)
  {
    && 0 <= total <= |content| && total == Delivered(marks)
    && RunningTotals(marks, |content|) && (marks == [] || |content| > 0)
    && sent == base + Octets(content[..total])
    && events == start + ProgressEvents(marks, |content|)
  }

  /** One successful read and write of `chunk` keeps the loop state. */
  lemma SendStep(content: seq<byte>, total: int, marks: seq<int>, base: seq<Piece>, sent: seq<Piece>,
                 start: seq<Event>, events: seq<Event>, chunk: seq<byte>)
    requires Sending(content, total, marks, base, sent, start, events) && 1 <= |chunk|
    requires total + |chunk| <= |content| && chunk == content[total..total + |chunk|]
    ensures Sending(content, total + |chunk|, marks + [total + |chunk|], base, sent + Octets(chunk),
                    start, events + [ProgressUpdate(Percent(total + |chunk|, |content|))])
  {
    assert content[..total + |chunk|] == content[..total] + chunk;
    OctetsAppend(content[..total], chunk);
    RunningTotalsAppend(marks, total + |chunk|, |content|);
    ProgressEventsAppend(marks, total + |chunk|, |content|);
  }

  /** When sendFile's copy loop stops, after the last byte or at a failed
      write, the transfer is as ContentSent describes. */
  lemma SendStopped(content: seq<byte>, total: int, marks: seq<int>, base: seq<Piece>, sent: seq<Piece>,
                    start: seq<Event>, events: seq<Event>, fileName: string, outcome: seq<Event>)
    requires Sending(content, total, marks, base, sent, start, events)
    requires outcome == [] ==> total == |content|
    requires outcome != [] ==> total < |content| && outcome == [TransferError(fileName)]
    ensures ContentSent(base, sent, fileName, content, marks, ProgressEvents(marks, |content|) + outcome)
    ensures events + outcome == start + (ProgressEvents(marks, |content|) + outcome)
  {
  }

  /** A run that ended where readUTF throws, from a stream where it does not,
      made a first pass and continued from there. */
  lemma RunFirst(from: Session, steps: seq<Step>)
    requires Run(from, steps) && Stopped(End(from, steps).rest) && !Stopped(from.rest)
    ensures steps != [] && Pass(from, steps[0]) && Run(steps[0].end, steps[1..])
    ensures End(steps[0].end, steps[1..]) == End(from, steps)
  {
  }

  /** No pass can start at the end of the stream or at a fault: readUTF throws there. */
  lemma RunFromStop(from: Session, steps: seq<Step>)
    requires from.rest == [] || from.rest[0].Fault?
    requires Run(from, steps)
    ensures steps == [] && End(from, steps) == from
  {
  }

  /** A run over header frames that announce no file, followed by the end of
      the stream or a fault, until readUTF throws: it reads all the frames and
      makes exactly their callbacks, downloading nothing, and stops at the
      fault. */
  lemma {:induction false} RunOfHeaders(from: Session, texts: seq<Piece>, tail: seq<Piece>, steps: seq<Step>)
    requires from.rest == texts + tail && NoFileFrames(texts) && (tail == [] || tail[0].Fault?)
    requires Run(from, steps) && Stopped(End(from, steps).rest)
    ensures End(from, steps) == Session(tail, from.events + HeaderEvents(texts), from.downloads)
    decreases |steps|
  {
    if texts == [] {
      RunFromStop(from, steps);
      assert from.events + HeaderEvents(texts) == from.events;
    } else {
      FirstOfHeaders(texts, tail);
      RunOverHeader(from, steps);
      var next := steps[0].end;
      RunOfHeaders(next, texts[1..], tail, steps[1..]);
      HeaderEventsFirst(from.events, texts);
    }
  }


  /** The callbacks of a stream of headers are those of its first header,
      then those of the rest. */
  lemma HeaderEventsFirst(events: seq<Event>, texts: seq<Piece>)
    requires texts != [] && NoFileFrames(texts)
    ensures NoFileFrames(texts[1..])
    ensures events + HeaderEvents(texts) == (events + HeaderEffect(texts[0].header)) + HeaderEvents(texts[1..])
  {
  }

  /** A run that starts at a header frame announcing no file, and ends where
      readUTF throws, first takes just that frame and makes its callbacks. */
  lemma RunOverHeader(from: Session, steps: seq<Step>)
    requires from.rest != [] && from.rest[0].Frame? && !Dispatch(from.rest[0].header).FileAnnouncement?
    requires Run(from, steps) && Stopped(End(from, steps).rest)
    ensures steps != [] && Run(steps[0].end, steps[1..]) && End(steps[0].end, steps[1..]) == End(from, steps)
    ensures steps[0].end == Session(from.rest[1..], from.events + HeaderEffect(from.rest[0].header), from.downloads)
  {
    RunFirst(from, steps);
  }

  /** A stream of headers followed by a tail starts with the first header. */
  lemma FirstOfHeaders(texts: seq<Piece>, tail: seq<Piece>)
    requires texts != [] && NoFileFrames(texts)
    ensures (texts + tail)[0] == texts[0] && (texts + tail)[1..] == texts[1..] + tail
    ensures texts[0].Frame? && !Dispatch(texts[0].header).FileAnnouncement?
  {
    assert (texts + tail)[1..] == texts[1..] + tail;
  }



  lemma OctetsAppend(a: seq<byte>, b: seq<byte>)
    ensures Octets(a + b) == Octets(a) + Octets(b)
  {
  }
}

module TcpClientProperties {
  import opened Basics
  import opened Headers
  import opened TcpClient

  /** A multiple of a positive number `f` is at least `f` away from zero. */
  lemma MultipleBounds(k: int, f: int)
    requires f > 0
    ensures k >= 1 ==> k * f >= f
    ensures k <= -1 ==> k * f <= -f
  {
  }

  /** A percentage is between 0 and 100, and is 100 exactly when all bytes are done. */
  lemma PercentBounds(done: int, fileSize: int)
    requires 0 <= done <= fileSize && fileSize > 0
    ensures 0 <= Percent(done, fileSize) <= 100
    ensures Percent(done, fileSize) == 100 <==> done == fileSize
  {
    var q := done * 100 / fileSize;
    var r := done * 100 % fileSize;
    assert done * 100 == q * fileSize + r && 0 <= r < fileSize;
    MultipleBounds(q, fileSize);
    MultipleBounds(100 - q, fileSize);
    assert (100 - q) * fileSize == 100 * fileSize - q * fileSize;
  }

  /** More bytes never report a smaller percentage. */
  lemma PercentMonotone(a: int, b: int, fileSize: int)
    requires 0 <= a <= b && fileSize > 0
    ensures Percent(a, fileSize) <= Percent(b, fileSize)
  {
    var qa, qb := a * 100 / fileSize, b * 100 / fileSize;
    assert a * 100 == qa * fileSize + a * 100 % fileSize;
    assert b * 100 == qb * fileSize + b * 100 % fileSize;
    MultipleBounds(qa - qb, fileSize);
    assert (qa - qb) * fileSize == qa * fileSize - qb * fileSize;
  }

  /** Running totals grow strictly, not just from one to the next. */
  lemma {:induction false} RunningTotalsIncrease(marks: seq<int>, fileSize: int, i: int, j: int)
    requires RunningTotals(marks, fileSize) && 0 <= i < j < |marks|
    ensures marks[i] < marks[j]
    decreases j - i
  {
    if i + 1 < j {
      RunningTotalsIncrease(marks, fileSize, i, j - 1);
    }
  }

  /** The progress reports of one transfer: each between 0 and 100, never
      decreasing, and 100 only in the last report, exactly when every byte of
      the file is done. */
  lemma ProgressReports(marks: seq<int>, fileSize: int)
    requires fileSize > 0 && RunningTotals(marks, fileSize)
    ensures forall i | 0 <= i < |marks| :: 0 <= ProgressEvents(marks, fileSize)[i].progress <= 100
    ensures forall i, j | 0 <= i <= j < |marks| ::
      ProgressEvents(marks, fileSize)[i].progress <= ProgressEvents(marks, fileSize)[j].progress
    ensures forall i | 0 <= i < |marks| ::
      ProgressEvents(marks, fileSize)[i].progress == 100 <==> i == |marks| - 1 && Delivered(marks) == fileSize
  {
    var events := ProgressEvents(marks, fileSize);
    forall i | 0 <= i < |marks|
      ensures 0 <= events[i].progress <= 100
      ensures events[i].progress == 100 <==> i == |marks| - 1 && Delivered(marks) == fileSize
    {
      PercentBounds(marks[i], fileSize);
      if i < |marks| - 1 {
        RunningTotalsIncrease(marks, fileSize, i, |marks| - 1);
      }
    }
    forall i, j | 0 <= i <= j < |marks|
      ensures events[i].progress <= events[j].progress
    {
      if i < j {
        RunningTotalsIncrease(marks, fileSize, i, j);
      }
      PercentMonotone(marks[i], marks[j], fileSize);
    }
  }

  /** The callbacks of one received file: progress reports as ProgressReports
      describes, then one final report. A transfer error is reported exactly
      when a fault cut the file short; at the end of the stream the file is
      reported as received with the bytes that arrived, even too few; a
      complete file ends with progress 100 and its full length. */
  lemma ReceiptReports(before: seq<Piece>, after: seq<Piece>, fileName: string, fileSize: int,
                       received: seq<byte>, marks: seq<int>, log: seq<Event>)
    requires FileReceipt(before, after, fileName, fileSize, received, marks, log)
    ensures |log| == |marks| + 1
    ensures forall i | 0 <= i < |log| - 1 :: log[i].ProgressUpdate? && 0 <= log[i].progress <= 100
    ensures forall i, j | 0 <= i <= j < |log| - 1 :: log[i].progress <= log[j].progress
    ensures forall i | 0 <= i < |log| - 1 :: log[i].progress == 100 <==> i == |log| - 2 && |received| == fileSize
    ensures log[|log| - 1].TransferError? <==> |received| < fileSize && after != []
    ensures |received| < fileSize && after != [] ==> after[0].Fault?
    ensures after == [] ==> log[|log| - 1] == FileReceived(fileName, |received|)
    ensures fileSize <= 0 ==> log == [FileReceived(fileName, 0)]
    ensures fileSize > 0 && |received| == fileSize ==>
      |log| >= 2 && log[|log| - 2] == ProgressUpdate(100) && log[|log| - 1] == FileReceived(fileName, fileSize)
  {
    if fileSize > 0 {
      ProgressReports(marks, fileSize);
      if |received| == fileSize {
        assert marks != [] && Delivered(marks) == fileSize;
        PercentBounds(fileSize, fileSize);
      }
    }
  }

  /** The callbacks of sendFile's copy loop: progress reports as ProgressReports
      describes, followed by a transfer error exactly when not every byte went out. */
  lemma SendReports(before: seq<Piece>, after: seq<Piece>, fileName: string, content: seq<byte>,
                    marks: seq<int>, log: seq<Event>)
    requires ContentSent(before, after, fileName, content, marks, log)
    ensures forall i | 0 <= i < |marks| :: log[i].ProgressUpdate? && 0 <= log[i].progress <= 100
    ensures forall i, j | 0 <= i <= j < |marks| :: log[i].progress <= log[j].progress
    ensures forall i | 0 <= i < |marks| :: log[i].progress == 100 <==> i == |marks| - 1 && Delivered(marks) == |content|
    ensures Delivered(marks) == |content| ==> log == ProgressEvents(marks, |content|)
    ensures Delivered(marks) < |content| ==> |log| == |marks| + 1 && log[|marks|] == TransferError(fileName)
  {
    if |content| > 0 {
      ProgressReports(marks, |content|);
    }
  }

  /** Distinct byte runs are distinct on the wire. */
  lemma OctetsInjective(a: seq<byte>, b: seq<byte>)
    requires Octets(a) == Octets(b)
    ensures a == b
  {
    assert |a| == |Octets(a)|;
    forall i | 0 <= i < |a|
      ensures a[i] == b[i]
    {
      assert Octets(a)[i] == Octets(b)[i];
    }
  }

  /** A file announced with `fileSize` and followed by at most that many raw
      bytes and then the end of the stream: exactly those bytes are written to
      the file, and it is reported as received with their count. */
  lemma ReceiptOfOctets(bytes: seq<byte>, after: seq<Piece>, fileName: string, fileSize: int,
                        received: seq<byte>, marks: seq<int>, log: seq<Event>)
    requires FileReceipt(Octets(bytes), after, fileName, fileSize, received, marks, log)
    requires |bytes| <= fileSize || (fileSize <= 0 && bytes == [])
    ensures received == bytes && after == []
    ensures log[|log| - 1] == FileReceived(fileName, |bytes|)
  {
    var before := Octets(bytes);
    var consumed := |before| - |after|;
    assert after == before[consumed..];
    if |received| < fileSize {
      assert after == [];
    } else if fileSize > 0 {
      assert OctetsAhead(before, fileSize) ==> consumed == fileSize;
    }
    assert after == [];
    assert OctetsAhead(before, consumed);
    assert before[..consumed] == before;
    OctetsInjective(received, bytes);
  }

  /** A file announced with `fileSize` whose bytes break off with a fault
      before the end: exactly the bytes before the fault are written, the
      fault is not read past, and a transfer error is reported. */
  lemma ReceiptStopsAtFault(bytes: seq<byte>, tail: seq<Piece>, after: seq<Piece>, fileName: string, fileSize: int,
                            received: seq<byte>, marks: seq<int>, log: seq<Event>)
    requires FileReceipt(Octets(bytes) + [Fault] + tail, after, fileName, fileSize, received, marks, log)
    requires |bytes| < fileSize
    ensures received == bytes && after == [Fault] + tail
    ensures log[|log| - 1] == TransferError(fileName)
  {
    var before := Octets(bytes) + [Fault] + tail;
    var consumed := |before| - |after|;
    assert before[|bytes|] == Fault;
    assert OctetsAhead(before, consumed);
    assert |received| == |Octets(received)| == consumed;
    assert after == before[consumed..] && after != [];
    assert consumed == |bytes|;
    assert before[..consumed] == Octets(bytes);
    OctetsInjective(received, bytes);
    assert after == [Fault] + tail;
  }

  /** A file announced with its exact size and followed by all its bytes:
      exactly those bytes are written, whatever follows them stays unread, and
      the file is reported as received with its full length. */
  lemma ReceiptOfWholeFile(bytes: seq<byte>, tail: seq<Piece>, after: seq<Piece>, fileName: string,
                           received: seq<byte>, marks: seq<int>, log: seq<Event>)
    requires FileReceipt(Octets(bytes) + tail, after, fileName, |bytes|, received, marks, log)
    ensures received == bytes && after == tail
    ensures log[|log| - 1] == FileReceived(fileName, |bytes|)
  {
    var before := Octets(bytes) + tail;
    var consumed := |before| - |after|;
    assert OctetsAhead(before, |bytes|);
    assert consumed == |bytes|;
    assert before[..consumed] == Octets(bytes);
    OctetsInjective(received, bytes);
  }

  // ----- The receive loop over a whole connection

  /** How the connection ends after what the sender wrote: cleanly, or, when
      it was `broken` (the reset that makes a write fail), with a fault. */
  function Ending(broken: bool): seq<Piece>
  {
    if broken then [Fault] else []
  }

  /** The stream a complete sendFile leaves: the file header, then every byte. */
  function FileOnWire(fileName: string, content: seq<byte>): seq<Piece>
  {
    [Frame(FileHeaderFor(fileName, |content|))] + Octets(content)
  }

  /** One pass of the loop over a whole file: the file is stored whole and
      reported received, after progress 100 when it is not empty, and the
      loop is left just past its last byte. */
  lemma PassOverFile(fileName: string, content: seq<byte>, tail: seq<Piece>,
                     events: seq<Event>, downloads: map<string, seq<byte>>, step: Step)
    requires ':' !in fileName && |content| <= LongMax
    requires Pass(Session(FileOnWire(fileName, content) + tail, events, downloads), step)
    ensures step.end == Session(tail, events + [ReceivingFile(fileName, |content|)] + step.log,
                                downloads[fileName := content])
    ensures |step.log| >= 1 && step.log[|step.log| - 1] == FileReceived(fileName, |content|)
    ensures content != [] ==> |step.log| >= 2 && step.log[|step.log| - 2] == ProgressUpdate(100)
  {
    FileHeaderRoundTrip(fileName, |content|);
    assert step.afterHeader == Octets(content) + tail;
    var received := step.end.downloads[fileName];
    ReceiptOfWholeFile(content, tail, step.end.rest, fileName, received, step.marks, step.log);
    ReceiptReports(step.afterHeader, step.end.rest, fileName, |content|, received, step.marks, step.log);
  }

  /** start over a whole file followed by headers that announce no file (text
      messages or rejected headers) and then the end of the stream or a fault,
      until readUTF throws: the file is stored whole and reported received,
      after progress 100 when it is not empty, and then the headers make
      exactly their callbacks, in order. */
  lemma FileThenHeaders(fileName: string, content: seq<byte>, texts: seq<Piece>, tail: seq<Piece>,
                        from: Session, steps: seq<Step>)
    returns (fileLog: seq<Event>)
    requires ':' !in fileName && |content| <= LongMax && NoFileFrames(texts) && (tail == [] || tail[0].Fault?)
    requires from.rest == FileOnWire(fileName, content) + texts + tail
    requires Run(from, steps) && Stopped(End(from, steps).rest)
    ensures End(from, steps) ==
      Session(tail, from.events + [ReceivingFile(fileName, |content|)] + fileLog + HeaderEvents(texts),
              from.downloads[fileName := content])
    ensures |fileLog| >= 1 && fileLog[|fileLog| - 1] == FileReceived(fileName, |content|)
    ensures content != [] ==> |fileLog| >= 2 && fileLog[|fileLog| - 2] == ProgressUpdate(100)
  {
    assert from.rest == FileOnWire(fileName, content) + (texts + tail);
    fileLog := RunOverFile(fileName, content, texts + tail, from, steps);
    RunOfHeaders(steps[0].end, texts, tail, steps[1..]);
  }

  /** A run that starts at a file header followed by the whole file takes
      them in its first pass and goes on from what follows. */
  lemma RunOverFile(fileName: string, content: seq<byte>, rest: seq<Piece>, from: Session, steps: seq<Step>)
    returns (fileLog: seq<Event>)
    requires ':' !in fileName && |content| <= LongMax
    requires from.rest == FileOnWire(fileName, content) + rest
    requires Run(from, steps) && Stopped(End(from, steps).rest)
    ensures steps != [] && Run(steps[0].end, steps[1..]) && End(steps[0].end, steps[1..]) == End(from, steps)
    ensures steps[0].end == Session(rest, from.events + [ReceivingFile(fileName, |content|)] + fileLog,
                                    from.downloads[fileName := content])
    ensures |fileLog| >= 1 && fileLog[|fileLog| - 1] == FileReceived(fileName, |content|)
    ensures content != [] ==> |fileLog| >= 2 && fileLog[|fileLog| - 2] == ProgressUpdate(100)
  {
    assert from == Session(FileOnWire(fileName, content) + rest, from.events, from.downloads);
    RunFirst(from, steps);
    PassOverFile(fileName, content, rest, from.events, from.downloads, steps[0]);
    fileLog := steps[0].log;
  }

  /** A connection reset ends the chat: the text before it is delivered, the
      loop stops at the reset, and the text written behind it never arrives. */
  method ResetEndsChat(first: string, lost: string) returns (events: seq<Event>, downloads: map<string, seq<byte>>)
    ensures events == [MessageReceived(TextMessage(first, true))] && downloads == map[]
  {
    var texts := [Frame(TextHeaderFor(first))];
    var tail := [Fault, Frame(TextHeaderFor(lost))];
    ghost var steps;
    events, downloads, steps := ReceiveAll(texts + tail);
    TextRoundTrip(first);
    assert NoFileFrames(texts) && HeaderEvents(texts) == [MessageReceived(TextMessage(first, true))];
    RunOfHeaders(Session(texts + tail, [], map[]), texts, tail, steps);
  }

  /** An unknown header is skipped without a callback, and the loop goes on to
      the text header behind it. */
  method UnknownHeaderSkipped() returns (events: seq<Event>, downloads: map<string, seq<byte>>)
    ensures events == [MessageReceived(TextMessage("hi", true))] && downloads == map[]
  {
    var input := new SocketInput([Frame("Hello"), Frame("Text:hi")]);
    var unused := new SocketOutput();
    var client := new TcpClient(input, unused);
    assert !StartsWith("Hello", TextPrefix) && !StartsWith("Hello", FilePrefix) by {
      assert "Hello"[..5] != TextPrefix && "Hello"[..5] != FilePrefix by { assert "Hello"[0] == 'H'; }
    }
    assert Dispatch("Text:hi") == IncomingText("hi") by { TextRoundTrip("hi"); }
    assert NoFileFrames(input.rest);
    assert HeaderEvents([Frame("Text:hi")]) == [MessageReceived(TextMessage("hi", true))];
    ghost var steps := client.Start();
    events, downloads := client.events, client.downloads;
  }

  // ----- One client sending to another over a fresh connection

  /** A text message sent by one client and read by another: it arrives as
      exactly one incoming message with the same text, unless the write failed,
      which it always does for a message too long for writeUTF. */
  method TextOverSocket(message: string) returns (delivered: bool, receiverEvents: seq<Event>)
    ensures delivered ==> receiverEvents == [MessageReceived(TextMessage(message, true))]
    ensures !delivered ==> receiverEvents == []
    ensures UtfLength(TextHeaderFor(message)) > MaxUtfLength ==> !delivered
  {
    var nothing := new SocketInput([]);
    var wire := new SocketOutput();
    var sender := new TcpClient(nothing, wire);
    sender.SendMessage(message);
    delivered := wire.sent != [];
    var input := new SocketInput(wire.sent);
    var unused := new SocketOutput();
    var receiver := new TcpClient(input, unused);
    TextRoundTrip(message);
    assert NoFileFrames(input.rest);
    ghost var steps := receiver.Start();
    receiverEvents := receiver.events;
  }

  /** What sendFile leaves on a fresh connection: nothing, with one transfer
      error, or the file header followed by the first bytes of the file, with a
      transfer error exactly when not all of them went out or the file could
      not be opened. */
  lemma SentFile(fileName: string, file: Option<seq<byte>>, sent: seq<Piece>, marks: seq<int>, log: seq<Event>)
    requires FileSending([], sent, fileName, file, marks, log)
    ensures sent == [] ==> log == [TransferError(fileName)]
    ensures sent != [] ==>
      && Delivered(marks) <= |LocalBytes(file)|
      && sent == [Frame(FileHeaderFor(fileName, |LocalBytes(file)|))] + Octets(LocalBytes(file)[..Delivered(marks)])
      && (TransferError(fileName) in log <==> file.None? || Delivered(marks) < |LocalBytes(file)|)
  {
    if sent != [] && file.Some? {
      var content := file.value;
      SendReports([Frame(FileHeaderFor(fileName, |content|))], sent, fileName, content, marks, log);
      assert forall e | e in ProgressEvents(marks, |content|) :: e.ProgressUpdate?;
    }
  }

  /** The receiving side of a file sent over a connection that carried only its
      header and the first `bytes` of it, and then ended cleanly or broke: the
      receiver announces the file with its full size and stores exactly those
      bytes. It reports them as received, after a progress report of 100 when
      they are the whole file, unless the connection broke before the whole
      file came, which it reports as a transfer error. */
  lemma ReceivedFile(fileName: string, content: seq<byte>, bytes: seq<byte>, broken: bool, after: seq<Piece>,
                     events: seq<Event>, downloads: map<string, seq<byte>>, marks: seq<int>, log: seq<Event>)
    requires ':' !in fileName && |content| <= LongMax
    requires |bytes| <= |content| && bytes == content[..|bytes|]
    requires Handled(FileHeaderFor(fileName, |content|), Octets(bytes) + Ending(broken), after,
                     [], events, map[], downloads, marks, log)
    ensures fileName in downloads && downloads[fileName] == bytes
    ensures |events| >= 2 && events[0] == ReceivingFile(fileName, |content|)
    ensures events[|events| - 1] ==
      if broken && |bytes| < |content| then TransferError(fileName) else FileReceived(fileName, |bytes|)
    ensures bytes == content && |content| > 0 ==> events[|events| - 2] == ProgressUpdate(100)
  {
    FileHeaderRoundTrip(fileName, |content|);
    ReceiptOverEnding(fileName, |content|, bytes, broken, after, downloads[fileName], marks, log);
  }

  /** A receipt of an announced file over its first `bytes` and the
      connection's ending: exactly those bytes are stored, and the last
      callback is a transfer error when the connection broke before the whole
      file came, "received" with their number otherwise. */
  lemma ReceiptOverEnding(fileName: string, fileSize: int, bytes: seq<byte>, broken: bool, after: seq<Piece>,
                          received: seq<byte>, marks: seq<int>, log: seq<Event>)
    requires |bytes| <= fileSize
    requires FileReceipt(Octets(bytes) + Ending(broken), after, fileName, fileSize, received, marks, log)
    ensures received == bytes && |log| >= 1
    ensures log[|log| - 1] == if broken && |bytes| < fileSize then TransferError(fileName) else FileReceived(fileName, |bytes|)
    ensures |bytes| == fileSize > 0 ==> |log| >= 2 && log[|log| - 2] == ProgressUpdate(100)
  {
    if !broken {
      assert Octets(bytes) + Ending(broken) == Octets(bytes);
      ReceiptOfOctets(bytes, after, fileName, fileSize, received, marks, log);
    } else if |bytes| < fileSize {
      assert Octets(bytes) + Ending(broken) == Octets(bytes) + [Fault] + [];
      ReceiptStopsAtFault(bytes, [], after, fileName, fileSize, received, marks, log);
    } else {
      ReceiptOfWholeFile(bytes, Ending(broken), after, fileName, received, marks, log);
    }
    ReceiptReports(Octets(bytes) + Ending(broken), after, fileName, fileSize, received, marks, log);
  }

  /** ReceivedFile, for the first pass of a receive loop over the header, the
      first `bytes` of the file and the connection's ending. */
  lemma ArrivedFile(fileName: string, content: seq<byte>, bytes: seq<byte>, broken: bool, step: Step)
    requires ':' !in fileName && |content| <= LongMax
    requires |bytes| <= |content| && bytes == content[..|bytes|]
    requires Pass(Session([Frame(FileHeaderFor(fileName, |content|))] + Octets(bytes) + Ending(broken), [], map[]), step)
    ensures fileName in step.end.downloads && step.end.downloads[fileName] == bytes
    ensures |step.end.events| >= 2 && step.end.events[0] == ReceivingFile(fileName, |content|)
    ensures step.end.events[|step.end.events| - 1] ==
      if broken && |bytes| < |content| then TransferError(fileName) else FileReceived(fileName, |bytes|)
    ensures bytes == content && |content| > 0 ==> step.end.events[|step.end.events| - 2] == ProgressUpdate(100)
  {
    var arrived := [Frame(FileHeaderFor(fileName, |content|))] + Octets(bytes) + Ending(broken);
    assert arrived[0].Frame? && arrived[1..] == Octets(bytes) + Ending(broken);
    ReceivedFile(fileName, content, bytes, broken, step.end.rest, step.end.events, step.end.downloads,
                 step.marks, step.log);
  }

  /** A file sent by one client and announced to another, which handles the
      header and the bytes behind it; when `broken`, the connection then ends
      with a reset rather than cleanly. The receiver writes a prefix of the
      file. It reports it as received with that prefix's length, unless the
      reset came before the whole file, which it reports as a transfer error;
      a sender that failed half-way over a connection that ended cleanly
      leaves a receiver that reports the prefix as received. The sender
      reports no error exactly when the whole file arrives, with progress 100
      just before the final report. A missing file is announced with length 0:
      the receiver writes an empty file while the sender reports an error.
      When the header could not be written the receiver sees nothing. */
  method FileTransferOverSocket(fileName: string, file: Option<seq<byte>>, broken: bool)
    returns (senderEvents: seq<Event>, received: Option<seq<byte>>, receiverEvents: seq<Event>)
    requires ':' !in fileName && |LocalBytes(file)| <= LongMax
    ensures received.None? ==> receiverEvents == [] && senderEvents == [TransferError(fileName)]
    ensures UtfLength(FileHeaderFor(fileName, |LocalBytes(file)|)) > MaxUtfLength ==> received.None?
    ensures received.Some? ==>
      && |received.value| <= |LocalBytes(file)| && received.value == LocalBytes(file)[..|received.value|]
      && |receiverEvents| >= 2 && receiverEvents[0] == ReceivingFile(fileName, |LocalBytes(file)|)
      && receiverEvents[|receiverEvents| - 1] ==
           if broken && |received.value| < |LocalBytes(file)| then TransferError(fileName)
           else FileReceived(fileName, |received.value|)
    ensures TransferError(fileName) in senderEvents <==> file.None? || received != file
    ensures file.None? ==> received.None? || received == Some([])
    ensures file.Some? && received == file && file.value != [] ==>
      receiverEvents[|receiverEvents| - 2] == ProgressUpdate(100)
  {
    var sent;
    ghost var delivered;
    senderEvents, sent, delivered := SendFileOnce(fileName, file);
    var more, downloads;
    ghost var step;
    var arrived := sent + Ending(broken);
    more, receiverEvents, downloads, step := ReceiveFirst(arrived);
    received := if fileName in downloads then Some(downloads[fileName]) else None;
    if sent != [] {
      ghost var content := LocalBytes(file);
      ghost var bytes := content[..delivered];
      ArrivedFile(fileName, content, bytes, broken, step);
      assert received == Some(bytes) && |bytes| == delivered;
      if delivered == |content| {
        assert bytes == content;
      }
    } else {
      assert arrived == Ending(broken);
      assert received.None?;
    }
  }

  /** sendFile on a fresh connection, as `SentFile` describes it: what went
      out, the callbacks made, and how many bytes of the file were delivered. */
  method SendFileOnce(fileName: string, file: Option<seq<byte>>)
    returns (senderEvents: seq<Event>, sent: seq<Piece>, ghost delivered: int)
    ensures UtfLength(FileHeaderFor(fileName, |LocalBytes(file)|)) > MaxUtfLength ==> sent == []
    ensures sent == [] ==> senderEvents == [TransferError(fileName)]
    ensures sent != [] ==>
      && 0 <= delivered <= |LocalBytes(file)|
      && sent == [Frame(FileHeaderFor(fileName, |LocalBytes(file)|))] + Octets(LocalBytes(file)[..delivered])
      && (TransferError(fileName) in senderEvents <==> file.None? || delivered < |LocalBytes(file)|)
  {
    var nothing := new SocketInput([]);
    var wire := new SocketOutput();
    var sender := new TcpClient(nothing, wire);
    ghost var marks, log := sender.SendFile(fileName, file);
    senderEvents, sent := sender.events, wire.sent;
    SentFile(fileName, file, sent, marks, log);
    delivered := Delivered(marks);
  }

  /** One pass of the receive loop on a fresh connection carrying `pieces`. */
  method ReceiveFirst(pieces: seq<Piece>)
    returns (more: bool, events: seq<Event>, downloads: map<string, seq<byte>>, ghost step: Step)
    ensures pieces != [] && pieces[0].Frame? ==> more
    ensures pieces == [] || pieces[0].Fault? ==> !more
    ensures !more ==> events == [] && downloads == map[]
    ensures more ==> Pass(Session(pieces, [], map[]), step) && step.end.events == events && step.end.downloads == downloads
  {
    var input := new SocketInput(pieces);
    var unused := new SocketOutput();
    var receiver := new TcpClient(input, unused);
    more, step := receiver.ReceiveNext();
    events, downloads := receiver.events, receiver.downloads;
  }


  /** A sendFile on a fresh connection that reported no error left the whole file on it. */
  lemma WholeFileSent(fileName: string, content: seq<byte>, sent: seq<Piece>, marks: seq<int>, log: seq<Event>)
    requires FileSending([], sent, fileName, Some(content), marks, log) && TransferError(fileName) !in log
    ensures sent == FileOnWire(fileName, content)
  {
    SentFile(fileName, Some(content), sent, marks, log);
    assert content[..Delivered(marks)] == content;
  }

  /** A fresh client runs its receive loop over `pieces`: the passes it makes,
      and the callbacks and downloads they leave. */
  method ReceiveAll(pieces: seq<Piece>) returns (events: seq<Event>, downloads: map<string, seq<byte>>, ghost steps: seq<Step>)
    ensures Run(Session(pieces, [], map[]), steps)
    ensures Stopped(End(Session(pieces, [], map[]), steps).rest)
    ensures End(Session(pieces, [], map[]), steps).events == events
    ensures End(Session(pieces, [], map[]), steps).downloads == downloads
  {
    var input := new SocketInput(pieces);
    var unused := new SocketOutput();
    var receiver := new TcpClient(input, unused);
    steps := receiver.Start();
    events, downloads := receiver.events, receiver.downloads;
  }

  /** sendFile and then sendMessage on a fresh connection. `complete` says
      that no transfer error was reported and the text header went out; the
      connection then carries the whole file and, behind it, the header. */
  method SendFileThenText(fileName: string, content: seq<byte>, message: string)
    returns (complete: bool, sent: seq<Piece>)
    ensures UtfLength(TextHeaderFor(message)) > MaxUtfLength ==> !complete
    ensures complete ==> sent == FileOnWire(fileName, content) + [Frame(TextHeaderFor(message))]
  {
    var nothing := new SocketInput([]);
    var wire := new SocketOutput();
    var sender := new TcpClient(nothing, wire);
    ghost var marks, log := sender.SendFile(fileName, Some(content));
    var fileSent := TransferError(fileName) !in sender.events;
    var afterFile := wire.sent;
    sender.SendMessage(message);
    complete := fileSent && wire.sent != afterFile;
    sent := wire.sent;
    if complete {
      WholeFileSent(fileName, content, afterFile, marks, log);
    }
  }

  /** One client sends a file and then a text message over one connection, and
      another client runs its receive loop over what arrived. When every write
      succeeded, the file is stored whole and reported received, after progress
      100 when it is not empty, and then the message arrives. */
  method FileThenTextOverSocket(fileName: string, content: seq<byte>, message: string)
    returns (complete: bool, receiverEvents: seq<Event>, downloads: map<string, seq<byte>>)
    requires ':' !in fileName && |content| <= LongMax
    ensures UtfLength(TextHeaderFor(message)) > MaxUtfLength ==> !complete
    ensures complete ==>
      && downloads == map[fileName := content]
      && |receiverEvents| >= 3 && receiverEvents[0] == ReceivingFile(fileName, |content|)
      && receiverEvents[|receiverEvents| - 2] == FileReceived(fileName, |content|)
      && receiverEvents[|receiverEvents| - 1] == MessageReceived(TextMessage(message, true))
      && (content != [] ==> receiverEvents[|receiverEvents| - 3] == ProgressUpdate(100))
  {
    var sent;
    complete, sent := SendFileThenText(fileName, content, message);
    ghost var steps;
    receiverEvents, downloads, steps := ReceiveAll(sent);
    if complete {
      ghost var texts := [Frame(TextHeaderFor(message))];
      TextRoundTrip(message);
      assert NoFileFrames(texts) && HeaderEvents(texts) == [MessageReceived(TextMessage(message, true))];
      assert sent == FileOnWire(fileName, content) + texts + [];
      ghost var fileLog := FileThenHeaders(fileName, content, texts, [], Session(sent, [], map[]), steps);
      assert receiverEvents == [ReceivingFile(fileName, |content|)] + fileLog + [MessageReceived(TextMessage(message, true))];
      TextAfterFile(fileName, content, message, fileLog);
    }
  }

  /** The callbacks of a received file followed by one text, in order. */
  lemma TextAfterFile(fileName: string, content: seq<byte>, message: string, fileLog: seq<Event>)
    requires |fileLog| >= 1 && fileLog[|fileLog| - 1] == FileReceived(fileName, |content|)
    requires content != [] ==> |fileLog| >= 2 && fileLog[|fileLog| - 2] == ProgressUpdate(100)
    ensures var events := [ReceivingFile(fileName, |content|)] + fileLog + [MessageReceived(TextMessage(message, true))];
      && |events| >= 3 && events[0] == ReceivingFile(fileName, |content|)
      && events[|events| - 2] == FileReceived(fileName, |content|)
      && events[|events| - 1] == MessageReceived(TextMessage(message, true))
      && (content != [] ==> events[|events| - 3] == ProgressUpdate(100))
  {
  }
}
