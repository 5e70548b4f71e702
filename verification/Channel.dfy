/** A stream connection: the bytes written to it and not yet read. */
module Channels {
  import opened Bytes

  class Channel {
    var queue: seq<byte>

    constructor (q: seq<byte>)
      ensures queue == q
    {
      queue := q;
    }

    /** conn_write. */
    method Write(data: seq<byte>)
      modifies this
      ensures queue == old(queue) + data
    {
      queue := queue + data;
    }

    /** conn_read into buffer[at..at + len]: as many bytes as there are, up to len; 0 at the end of the stream. */
    method ReadInto(buffer: array<byte>, at: nat, len: nat) returns (n: nat)
      requires at + len <= buffer.Length
      modifies this`queue, buffer
      ensures n == if |old(queue)| < len then |old(queue)| else len
      ensures queue == old(queue)[n..]
      ensures buffer[..at + n] == old(buffer[..at]) + old(queue)[..n]
      ensures buffer[at + n..] == old(buffer[at + n..])
    {
      n := if |queue| < len then |queue| else len;
      MemCpy(buffer, at, queue[..n]);
      queue := queue[n..];
    }
  }
}
