/** A file descriptor as the daemon uses it through read(2), write(2) and close(2):
    a pipe end or the connection socket. The peer's side is fixed in advance: the
    bytes it will ever send (after which it closes, so reads then return 0). */
module Streams {
  import opened Bytes

  class Stream {
    /** Bytes the peer has sent that have not been read yet; end of stream follows them. */
    var pending: seq<byte>
    /** Bytes written through this descriptor so far. */
    var written: seq<byte>
    var closed: bool
    /** Every chunk a read returned, in order (an empty chunk is a read at end of stream). */
    ghost var chunks: seq<seq<byte>>
    /** Every chunk handed to write, in order. */
    ghost var writes: seq<seq<byte>>

    constructor (input: seq<byte>)
      ensures pending == input && written == [] && !closed
      ensures chunks == [] && writes == []
    {
      pending := input;
      written := [];
      closed := false;
      chunks := [];
      writes := [];
    }

    /** read(fd, buf + off, space): the kernel hands over any non-empty prefix of the
        pending bytes that fits, or 0 bytes at end of stream. */
    method Read(buf: array<byte>, off: nat, space: nat) returns (n: nat)
      requires off + space <= buf.Length
      modifies this`pending, this`chunks, buf
      ensures n <= space && n <= |old(pending)|
      ensures n == 0 <==> space == 0 || old(pending) == []
      ensures pending == old(pending)[n..]
      ensures chunks == old(chunks) + [old(pending)[..n]]
      ensures buf[..off + n] == old(buf[..off]) + old(pending)[..n]
      ensures buf[off + n..] == old(buf[off + n..])
    {
      if space == 0 || pending == [] {
        n := 0;
      } else {
        n :| 0 < n <= space && n <= |pending|;
      }
      var data := pending[..n];
      forall i | off <= i < off + n {
        buf[i] := data[i - off];
      }
      assert buf[..off + n] == old(buf[..off]) + data;
      pending := pending[n..];
      chunks := chunks + [data];
    }

    /** write(fd, data, |data|), complete. */
    method Write(data: seq<byte>)
      requires !closed
      modifies this`written, this`writes
      ensures written == old(written) + data
      ensures writes == old(writes) + [data]
    {
      written := written + data;
      writes := writes + [data];
    }

    /** The write(2) calls of `calls`, one after another, each complete. */
    method WriteAll(calls: seq<seq<byte>>)
      requires !closed
      modifies this`written, this`writes
      ensures written == old(written) + Flatten(calls)
      ensures writes == old(writes) + calls
    {
      var i := 0;
      while i < |calls|
        invariant i <= |calls|
        invariant written == old(written) + Flatten(calls[..i])
        invariant writes == old(writes) + calls[..i]
      {
        Write(calls[i]);
        assert calls[..i + 1] == calls[..i] + [calls[i]];
        FlattenSnoc(calls[..i], calls[i]);
        i := i + 1;
      }
      assert calls[..i] == calls;
    }

    method Close()
      modifies this`closed
      ensures closed
    {
      closed := true;
    }
  }

  /** The bytes of a list of chunks, in order. */
  function Flatten(cs: seq<seq<byte>>): seq<byte>
  {
    if cs == [] then [] else Flatten(cs[..|cs| - 1]) + cs[|cs| - 1]
  }

  /** Concatenation regroups: the logs and buffers here are built by appending. */
  lemma Assoc<T>(a: seq<T>, b: seq<T>, c: seq<T>)
    ensures a + (b + c) == a + b + c
  {
  }

  lemma FlattenSnoc(cs: seq<seq<byte>>, c: seq<byte>)
    ensures Flatten(cs + [c]) == Flatten(cs) + c
  {
    assert (cs + [c])[..|cs|] == cs;
  }

  /** Writing two lists of chunks writes the bytes of the first, then of the second. */
  lemma {:induction false} FlattenAppend(xs: seq<seq<byte>>, ys: seq<seq<byte>>)
    ensures Flatten(xs + ys) == Flatten(xs) + Flatten(ys)
    decreases |ys|
  {
    if ys == [] {
      assert xs + ys == xs;
    } else {
      var init := ys[..|ys| - 1];
      var last := ys[|ys| - 1];
      assert xs + ys == (xs + init) + [last];
      assert ys == init + [last];
      FlattenSnoc(xs + init, last);
      FlattenSnoc(init, last);
      FlattenAppend(xs, init);
    }
  }
}
