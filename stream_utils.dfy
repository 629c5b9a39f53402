// The extension function InputStream.readFullyOrNull.

module StreamUtils {
  import opened Basics
  import opened Streams

  /** Reads until `buffer` is full. Returns `buffer.Length` with the buffer holding
      the next bytes of the stream, or -1 as soon as a read reports the end of the
      stream, even when some bytes were already read. An empty buffer needs no read. */
  method ReadFullyOrNull(input: ByteInput, buffer: array<byte>) returns (r: int)
    modifies input, buffer
    ensures r == buffer.Length || r == -1
    ensures r == -1 <==> |old(input.rest)| < buffer.Length
    ensures r == buffer.Length ==>
      buffer[..] == old(input.rest)[..buffer.Length] && input.rest == old(input.rest)[buffer.Length..]
    ensures r == -1 ==> input.rest == []
    ensures buffer.Length == 0 ==> input.rest == old(input.rest)
  {
    var bytesRead := 0;
    while bytesRead < buffer.Length
      invariant 0 <= bytesRead <= buffer.Length
      invariant bytesRead <= |old(input.rest)|
      invariant buffer[..bytesRead] == old(input.rest)[..bytesRead]
      invariant input.rest == old(input.rest)[bytesRead..]
      decreases buffer.Length - bytesRead
    {
      var read := input.Read(buffer, bytesRead, buffer.Length - bytesRead);
      if read == -1 {
        return -1;
      }
      assert buffer[..bytesRead + read] == buffer[..bytesRead] + buffer[bytesRead..bytesRead + read];
      bytesRead := bytesRead + read;
    }
    assert buffer[..] == buffer[..bytesRead];
    return bytesRead;
  }
}
