/** One connection as the forked handler serves it: read the request, run the command
    through the shell with the payload on its standard input, drain its standard output
    and standard error, and write the reply. The child process itself is not run: what it
    prints and the status waitpid reports are given in advance. */
module Session {
  import opened Bytes
  import opened Streams
  import opened BufferChain
  import opened Response
  import opened RequestFraming
  import RequestReader

  /** sizeof(input_buf) in create_child. */
  const InputBufSize: nat := 2048

  /** SHELL_BIN, "/bin/sh". */
  const ShellBin: seq<byte> := [47, 98, 105, 110, 47, 115, 104]
  /** SHELL_ARG, "-c". */
  const ShellArg: seq<byte> := [45, 99]

  /** The ssize_t that `count = in_byte_count` stores: a size_t of 2^63 or more turns
      negative on a 64-bit target. */
  function ToSsize(n: nat): (c: int)
    requires n < SizeLimit
    ensures 0 <= c + SizeLimit / 2 < SizeLimit && (n - c) % SizeLimit == 0
    ensures c < 0 <==> SizeLimit / 2 <= n
  {
    if n < SizeLimit / 2 then n else n - SizeLimit
  }

  // ---------------------------------------------------------------------------
  // Copying the payload to the child's standard input

  /** `chunks` are what successive read(fd_in, input_buf, 2048) calls return on a stream
      that holds `input`: each the next bytes of the stream, at most 2048 of them, and
      empty exactly when the stream is spent. */
  ghost predicate ReadsOf(input: seq<byte>, chunks: seq<seq<byte>>)
    decreases |chunks|
  {
    if chunks == [] then true
    else
      var init, d := chunks[..|chunks| - 1], chunks[|chunks| - 1];
      var sent := |Flatten(init)|;
      ReadsOf(input, init) && |d| <= InputBufSize && (d == [] <==> sent == |input|) &&
      sent + |d| <= |input| && d == input[sent..][..|d|]
  }

  /** The loop has not stopped after reading `chunks`: every read happened while fewer
      than `count` bytes had been forwarded, and none of them hit end of stream. */
  ghost predicate Running(count: int, chunks: seq<seq<byte>>)
    decreases |chunks|
  {
    if chunks == [] then true
    else
      var init := chunks[..|chunks| - 1];
      Running(count, init) && chunks[|chunks| - 1] != [] && |Flatten(init)| < count
  }

  /** A whole run of the loop: it read while fewer than `count` bytes had gone through,
      and it stopped on a read at end of stream or once `count` bytes were reached. */
  ghost predicate Transferred(count: int, input: seq<byte>, chunks: seq<seq<byte>>)
  {
    ReadsOf(input, chunks) &&
    if chunks == [] then count <= 0
    else
      var init := chunks[..|chunks| - 1];
      Running(count, init) && |Flatten(init)| < count &&
      (chunks[|chunks| - 1] == [] || |Flatten(chunks)| >= count)
  }

  /** What the reads return is the start of the stream, in order. */
  lemma {:induction false} ReadsOfPrefix(input: seq<byte>, chunks: seq<seq<byte>>)
    requires ReadsOf(input, chunks)
    ensures |Flatten(chunks)| <= |input| && Flatten(chunks) == input[..|Flatten(chunks)|]
    decreases |chunks|
  {
    if chunks != [] {
      var init, d := chunks[..|chunks| - 1], chunks[|chunks| - 1];
      ReadsOfPrefix(input, init);
      var sent := |Flatten(init)|;
      assert input[..sent + |d|] == input[..sent] + d;
    }
  }

  /** The buffers handed to write(2): every chunk read but a final empty one. */
  function Forwarded(chunks: seq<seq<byte>>): seq<seq<byte>>
  {
    if chunks != [] && chunks[|chunks| - 1] == [] then chunks[..|chunks| - 1] else chunks
  }

  /** What the loop forwards: nothing when `count` is not positive; otherwise every
      payload byte up to `count` that the client sent, and fewer than 2048 bytes beyond
      `count`, because each read asks for a whole buffer whatever is left to send. */
  lemma TransferBound(count: int, input: seq<byte>, chunks: seq<seq<byte>>)
    requires Transferred(count, input, chunks)
    ensures count <= 0 ==> chunks == []
    ensures count > 0 ==> Min(count, |input|) <= |Flatten(chunks)| < count + InputBufSize
  {
    if chunks != [] {
      var init := chunks[..|chunks| - 1];
      assert Flatten(chunks) == Flatten(init) + chunks[|chunks| - 1];
    }
  }

  /** The overshoot happens: announcing one byte and sending a full buffer forwards all
      2048 bytes to the child. */
  lemma OvershootExample(input: seq<byte>)
    requires |input| == InputBufSize
    ensures Transferred(1, input, [input])
    ensures Flatten(Forwarded([input])) == input
  {
    var chunks := [input];
    assert chunks[..0] == [];
    assert Flatten(chunks) == Flatten(chunks[..0]) + input;
    assert input[..|input|] == input;
  }

  /** A data_len of 2^63 or more, read as size_t, is negative as ssize_t: the loop
      does not run and the child's standard input is closed at once. */
  lemma HugeLengthSendsNothing(n: nat, input: seq<byte>, chunks: seq<seq<byte>>)
    requires SizeLimit / 2 <= n < SizeLimit
    requires Transferred(ToSsize(n), input, chunks)
    ensures chunks == []
  {
    TransferBound(ToSsize(n), input, chunks);
  }

  lemma RunningSnoc(count: int, input: seq<byte>, chunks: seq<seq<byte>>, d: seq<byte>)
    requires ReadsOf(input, chunks) && Running(count, chunks) && |Flatten(chunks)| < count
    requires d != [] && |d| <= InputBufSize
    requires |Flatten(chunks)| + |d| <= |input| && d == input[|Flatten(chunks)|..][..|d|]
    ensures ReadsOf(input, chunks + [d]) && Running(count, chunks + [d])
    ensures Flatten(chunks + [d]) == Flatten(chunks) + d
  {
    assert (chunks + [d])[..|chunks|] == chunks;
    FlattenSnoc(chunks, d);
  }

  /** The loop stops on a read at end of stream. */
  lemma StopAtEnd(count: int, input: seq<byte>, chunks: seq<seq<byte>>)
    requires ReadsOf(input, chunks) && Running(count, chunks) && |Flatten(chunks)| < count
    requires |Flatten(chunks)| == |input|
    ensures Transferred(count, input, chunks + [[]])
    ensures Flatten(chunks + [[]]) == Flatten(chunks) && Forwarded(chunks + [[]]) == chunks
  {
    assert (chunks + [[]])[..|chunks|] == chunks;
    assert input[|Flatten(chunks)|..][..0] == [];
    FlattenSnoc(chunks, []);
  }

  /** The loop stops once `count` bytes have gone through. */
  lemma StopAtLength(count: int, input: seq<byte>, chunks: seq<seq<byte>>)
    requires ReadsOf(input, chunks) && Running(count, chunks) && |Flatten(chunks)| >= count
    ensures Transferred(count, input, chunks)
    ensures Forwarded(chunks) == chunks
  {
  }

  /** The stdin part of create_child's parent branch: when there is an input descriptor
      (`hasInput`, fd_in != -1), copy from it to the child's standard input, one read(2) of up to 2048 bytes at a
      time, until `in_byte_count` bytes have gone through or the descriptor is spent;
      then close the pipe's write end, on every path. */
  method TransferInput(fdIn: Stream, hasInput: bool, childIn: Stream, inByteCount: nat)
    returns (ghost chunks: seq<seq<byte>>)
    requires inByteCount < SizeLimit && fdIn != childIn && !childIn.closed
    modifies fdIn`pending, fdIn`chunks, childIn`written, childIn`writes, childIn`closed
    ensures childIn.closed
    ensures hasInput ==> Transferred(ToSsize(inByteCount), old(fdIn.pending), chunks)
    ensures !hasInput ==> chunks == []
    ensures fdIn.chunks == old(fdIn.chunks) + chunks
    ensures fdIn.pending == old(fdIn.pending)[|Flatten(chunks)|..]
    ensures childIn.written == old(childIn.written) + Flatten(chunks)
    ensures childIn.writes == old(childIn.writes) + Forwarded(chunks)
  {
    chunks := [];
    if hasInput {
      chunks := CopyInput(fdIn, childIn, ToSsize(inByteCount));
    }
    childIn.Close();
  }

  /** The copying loop's state after the reads `chunks`, from the state (`c0`, `w0`, `ws0`)
      it started in. */
  ghost predicate Copying(fdIn: Stream, childIn: Stream, count: int, left: int, input: seq<byte>,
                          chunks: seq<seq<byte>>, c0: seq<seq<byte>>, w0: seq<byte>, ws0: seq<seq<byte>>)
    reads fdIn, childIn
  {
    ReadsOf(input, chunks) && Running(count, chunks) && left == count - |Flatten(chunks)| &&
    fdIn.chunks == c0 + chunks && fdIn.pending == input[|Flatten(chunks)|..] &&
    childIn.written == w0 + Flatten(chunks) && childIn.writes == ws0 + chunks && !childIn.closed
  }

  /** The state the loop leaves behind once it stops after the reads `chunks`. */
  ghost predicate Copied(fdIn: Stream, childIn: Stream, count: int, input: seq<byte>,
                         chunks: seq<seq<byte>>, c0: seq<seq<byte>>, w0: seq<byte>, ws0: seq<seq<byte>>)
    reads fdIn, childIn
  {
    Transferred(count, input, chunks) &&
    fdIn.chunks == c0 + chunks && fdIn.pending == input[|Flatten(chunks)|..] &&
    childIn.written == w0 + Flatten(chunks) && childIn.writes == ws0 + Forwarded(chunks) &&
    !childIn.closed
  }

  /** The copying loop itself, with `count` already converted to ssize_t; `chunks` are
      the reads it makes. */
  method CopyInput(fdIn: Stream, childIn: Stream, count: int) returns (ghost chunks: seq<seq<byte>>)
    requires fdIn != childIn && !childIn.closed
    modifies fdIn`pending, fdIn`chunks, childIn`written, childIn`writes
    ensures Transferred(count, old(fdIn.pending), chunks)
    ensures fdIn.chunks == old(fdIn.chunks) + chunks
    ensures fdIn.pending == old(fdIn.pending)[|Flatten(chunks)|..]
    ensures childIn.written == old(childIn.written) + Flatten(chunks)
    ensures childIn.writes == old(childIn.writes) + Forwarded(chunks)
    ensures !childIn.closed
  {
    ghost var input := fdIn.pending;
    ghost var c0 := fdIn.chunks;
    ghost var w0, ws0 := childIn.written, childIn.writes;
    var left := count;
    var inputBuf := new byte[InputBufSize];
    chunks := [];
    assert fdIn.pending == input[0..];
    while left > 0
      invariant Copying(fdIn, childIn, count, left, input, chunks, c0, w0, ws0)
      decreases |fdIn.pending|
    {
      var done;
      done, left, chunks := CopyStep(fdIn, childIn, inputBuf, count, left, input, chunks, c0, w0, ws0);
      if done {
        return;
      }
    }
    StopAtLength(count, input, chunks);
  }

  /** One pass of the copying loop: read up to 2048 bytes; stop at end of stream, or
      forward them and charge them to `left`. */
  method CopyStep(fdIn: Stream, childIn: Stream, inputBuf: array<byte>, count: int, left: int,
                  ghost input: seq<byte>, ghost chunks: seq<seq<byte>>,
                  ghost c0: seq<seq<byte>>, ghost w0: seq<byte>, ghost ws0: seq<seq<byte>>)
    returns (done: bool, left': int, ghost chunks': seq<seq<byte>>)
    requires fdIn != childIn && inputBuf.Length == InputBufSize && left > 0
    requires Copying(fdIn, childIn, count, left, input, chunks, c0, w0, ws0)
    modifies fdIn`pending, fdIn`chunks, childIn`written, childIn`writes, inputBuf
    ensures done ==> Copied(fdIn, childIn, count, input, chunks', c0, w0, ws0)
    ensures !done ==> Copying(fdIn, childIn, count, left', input, chunks', c0, w0, ws0)
    ensures !done ==> |fdIn.pending| < old(|fdIn.pending|)
  {
    var rc := fdIn.Read(inputBuf, 0, InputBufSize);
    if rc == 0 {
      StopAtEnd(count, input, chunks);
      Assoc(c0, chunks, [[]]);
      return true, left, chunks + [[]];
    }
    var data := inputBuf[..rc];
    childIn.Write(data);
    RunningSnoc(count, input, chunks, data);
    Assoc(c0, chunks, [data]);
    Assoc(ws0, chunks, [data]);
    Assoc(w0, Flatten(chunks), data);
    return false, left - rc, chunks + [data];
  }

  // ---------------------------------------------------------------------------
  // The parent's side of create_child, and the connection handler

  /** A chain read by read_pipe, with the filled parts of its links. */
  ghost predicate Chain(head: Link, links: seq<Link>, parts: seq<seq<byte>>)
    reads links, set l | l in links :: l.bytes
  {
    IsChain(head, links) && parts == Parts(links)
  }

  /** read_pipe on the child's standard output, then on its standard error. */
  method DrainPipes(childOut: Stream, childErr: Stream)
    returns (out: Link, ghost outLinks: seq<Link>, ghost outParts: seq<seq<byte>>,
             err: Link, ghost errLinks: seq<Link>, ghost errParts: seq<seq<byte>>)
    requires childOut != childErr
    modifies childOut`pending, childOut`chunks, childErr`pending, childErr`chunks
    ensures Chain(out, outLinks, outParts) && Flatten(outParts) == old(childOut.pending)
    ensures Chain(err, errLinks, errParts) && Flatten(errParts) == old(childErr.pending)
    ensures childOut.pending == [] && childErr.pending == []
  {
    out, outLinks, outParts := DrainPipe(childOut);
    err, errLinks, errParts := DrainPipe(childErr);
  }

  /** read_pipe on one pipe, with the chain's contents also given as the list of its
      links' filled parts. */
  method DrainPipe(fd: Stream) returns (head: Link, ghost links: seq<Link>, ghost parts: seq<seq<byte>>)
    modifies fd`pending, fd`chunks
    ensures Chain(head, links, parts) && Flatten(parts) == old(fd.pending)
    ensures fd.pending == []
  {
    head, links := ReadPipe(fd);
    ChainBytesParts(links);
    parts := Parts(links);
  }

  /** create_child's parent branch once fork has succeeded: feed the payload to the
      child's standard input and close it, drain standard output then standard error to
      end of stream, and write the reply for the status waitpid gave; then free both
      chains and close the read ends. The child's output is given: `childOut` and
      `childErr` hold what it prints. */
  method CreateChild(conn: Stream, fdIn: Stream, hasInput: bool, inByteCount: nat,
                     childIn: Stream, childOut: Stream, childErr: Stream, status: int)
    returns (ghost sent: seq<seq<byte>>, ghost outParts: seq<seq<byte>>, ghost errParts: seq<seq<byte>>)
    requires IsInt32(status) && inByteCount < SizeLimit
    requires !conn.closed && !childIn.closed
    requires |childOut.pending| < SizeLimit && |childErr.pending| < SizeLimit
    requires conn != childIn && conn != childOut && conn != childErr
    requires fdIn != childIn && fdIn != childOut && fdIn != childErr
    requires childIn != childOut && childIn != childErr && childOut != childErr
    modifies conn`written, conn`writes, fdIn`pending, fdIn`chunks
    modifies childIn`written, childIn`writes, childIn`closed
    modifies childOut`pending, childOut`chunks, childOut`closed, childErr`pending, childErr`chunks, childErr`closed
    ensures conn.written == old(conn.written) + Encode(Reply(status, old(childOut.pending), old(childErr.pending)))
    ensures hasInput ==> Transferred(ToSsize(inByteCount), old(fdIn.pending), sent)
    ensures !hasInput ==> sent == []
    ensures fdIn.pending == old(fdIn.pending)[|Flatten(sent)|..] && fdIn.chunks == old(fdIn.chunks) + sent
    ensures childIn.written == old(childIn.written) + Flatten(sent)
    ensures childIn.writes == old(childIn.writes) + Forwarded(sent)
    ensures childIn.closed && childOut.closed && childErr.closed
    ensures childOut.pending == [] && childErr.pending == []
    ensures Flatten(outParts) == old(childOut.pending) && Flatten(errParts) == old(childErr.pending)
    ensures conn.writes == old(conn.writes) + ReplyCalls(status, outParts, errParts)
  {
    sent := TransferInput(fdIn, hasInput, childIn, inByteCount);
    outParts, errParts := CollectAndReply(conn, childOut, childErr, status);
  }

  /** The rest of create_child's parent branch, once the child's standard input is closed:
      drain both pipes, reply, and close their read ends. */
  method CollectAndReply(conn: Stream, childOut: Stream, childErr: Stream, status: int)
    returns (ghost outParts: seq<seq<byte>>, ghost errParts: seq<seq<byte>>)
    requires IsInt32(status) && !conn.closed
    requires |childOut.pending| < SizeLimit && |childErr.pending| < SizeLimit
    requires conn != childOut && conn != childErr && childOut != childErr
    modifies conn`written, conn`writes
    modifies childOut`pending, childOut`chunks, childOut`closed, childErr`pending, childErr`chunks, childErr`closed
    ensures conn.written == old(conn.written) + Encode(Reply(status, old(childOut.pending), old(childErr.pending)))
    ensures Flatten(outParts) == old(childOut.pending) && Flatten(errParts) == old(childErr.pending)
    ensures conn.writes == old(conn.writes) + ReplyCalls(status, outParts, errParts)
    ensures childOut.closed && childErr.closed
    ensures childOut.pending == [] && childErr.pending == []
  {
    var out, err;
    ghost var outLinks, errLinks;
    out, outLinks, outParts, err, errLinks, errParts := DrainPipes(childOut, childErr);
    SendReply(conn, status, out, outLinks, outParts, err, errLinks, errParts);
    ClosePipes(childOut, childErr);
  }

  /** Close the read ends of the child's standard output and standard error. */
  method ClosePipes(childOut: Stream, childErr: Stream)
    modifies childOut`closed, childErr`closed
    ensures childOut.closed && childErr.closed
  {
    childOut.Close();
    childErr.Close();
  }

  /** Write the reply for `status` and the two drained chains on the connection, and
      free both chains. */
  method SendReply(conn: Stream, status: int,
                   out: Link, ghost outLinks: seq<Link>, ghost outParts: seq<seq<byte>>,
                   err: Link, ghost errLinks: seq<Link>, ghost errParts: seq<seq<byte>>)
    requires IsInt32(status) && !conn.closed
    requires Chain(out, outLinks, outParts) && |Flatten(outParts)| < SizeLimit
    requires Chain(err, errLinks, errParts) && |Flatten(errParts)| < SizeLimit
    modifies conn`written, conn`writes
    ensures conn.written == old(conn.written) + Encode(Reply(status, Flatten(outParts), Flatten(errParts)))
    ensures conn.writes == old(conn.writes) + ReplyCalls(status, outParts, errParts)
  {
    var calls, freedOut, freedErr := ReplyBuffers(status, out, outLinks, outParts, err, errLinks, errParts);
    conn.WriteAll(calls);
  }

  /** Build the reply for `status` and the two drained chains, as the buffers handed to
      write(2) in order, then free both chains. */
  method ReplyBuffers(status: int,
                      out: Link, ghost outLinks: seq<Link>, ghost outParts: seq<seq<byte>>,
                      err: Link, ghost errLinks: seq<Link>, ghost errParts: seq<seq<byte>>)
    returns (calls: seq<seq<byte>>, freedOut: seq<Link>, freedErr: seq<Link>)
    requires IsInt32(status)
    requires Chain(out, outLinks, outParts) && |Flatten(outParts)| < SizeLimit
    requires Chain(err, errLinks, errParts) && |Flatten(errParts)| < SizeLimit
    ensures calls == ReplyCalls(status, outParts, errParts)
    ensures Flatten(calls) == Encode(Reply(status, Flatten(outParts), Flatten(errParts)))
    ensures freedOut == outLinks && freedErr == errLinks
  {
    calls := WriteResponse(status, out, outLinks, outParts, err, errLinks, errParts);
    freedOut := FreeBufferChain(out, outLinks);
    freedErr := FreeBufferChain(err, errLinks);
  }

  /** The forked handler's first half (main's child branch, before create_child): read
      the request and build the argument vector "/bin/sh -c <command>" handed to execve.
      The request's data_len is returned as create_child's in_byte_count, and the payload is
      left unread on the connection, which create_child then reads as fd_in. */
  method ReceiveRequest(conn: Stream, v: Variant) returns (argv: seq<seq<byte>>, inByteCount: nat)
    modifies conn`pending, conn`chunks
    ensures argv == [ShellBin, ShellArg, RequestOf(old(conn.pending), v).command]
    ensures inByteCount == RequestOf(old(conn.pending), v).dataLen && inByteCount < SizeLimit
    ensures conn.pending == old(conn.pending)[Consumed(old(conn.pending), v)..]
  {
    var req := RequestReader.ReadRequest(conn, v);
    argv := [ShellBin, ShellArg, req.command];
    inByteCount := req.dataLen;
  }

  /** What create_child forwards when main passes it an in_byte_count below 2^63: the
      child's standard input receives the payload from its first byte on, all of it up
      to that length when the client sent that much, and less than one buffer beyond it;
      a length of 0 forwards nothing. */
  lemma PayloadTransferred(n: nat, payload: seq<byte>, chunks: seq<seq<byte>>)
    requires n < SizeLimit / 2 && Transferred(ToSsize(n), payload, chunks)
    ensures var sent := Flatten(chunks);
      sent == payload[..|sent|] && Min(n, |payload|) <= |sent| &&
      (n > 0 ==> |sent| < n + InputBufSize) && (n == 0 ==> chunks == [])
  {
    ReadsOfPrefix(payload, chunks);
    TransferBound(n, payload, chunks);
  }
}
