// The JVM's java.io.InputStream contract over a finite source of bytes (a
// local file), as the core's loops rely on it.

module Streams {
  import opened Basics

  /** An input stream over the bytes of a file; `rest` is what is left to read. */
  class ByteInput {
    var rest: seq<byte>

    constructor (content: seq<byte>)
      ensures rest == content
    {
      rest := content;
    }

    /** `read(buffer, off, len)`: 0 when `len` is 0, -1 at the end of the stream,
        and otherwise between 1 and `len` of the next bytes, stored from `buffer[off]`.
        How many it delivers is the stream's choice. */
    method Read(buffer: array<byte>, off: nat, len: nat) returns (n: int)
      requires off + len <= buffer.Length
      modifies this, buffer
      ensures len == 0 ==> n == 0
      ensures len > 0 && old(rest) == [] ==> n == -1
      ensures len > 0 && old(rest) != [] ==> 1 <= n <= len && n <= |old(rest)|
      ensures n == -1 ==> rest == old(rest) && buffer[..] == old(buffer[..])
      ensures n >= 0 ==> buffer[off..off + n] == old(rest)[..n] && rest == old(rest)[n..]
      ensures n >= 0 ==> buffer[..off] == old(buffer[..off]) && buffer[off + n..] == old(buffer[off + n..])
    {
      if len == 0 {
        return 0;
      }
      if rest == [] {
        return -1;
      }
      n :| 1 <= n <= len && n <= |rest|;
      forall i | off <= i < off + n {
        buffer[i] := rest[i - off];
      }
      rest := rest[n..];
    }
  }
}
