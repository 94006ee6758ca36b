/** The reply the daemon writes back on the connection once the command has finished:
    "status:<exit status>\r\n", then the length of the command's standard output in
    decimal, "\r\n" and the output itself, then the same for its standard error.
    Each header line is formatted with snprintf into a zeroed 32-byte buffer and
    written up to its first NUL. */
module Response {
  import opened Bytes
  import opened Streams
  import opened BufferChain

  /** sizeof(buf) for the header lines. */
  const HeaderSize: nat := 32

  /** "status:" */
  const StatusTag: seq<byte> := [115, 116, 97, 116, 117, 115, 58]

  /** What the client learns: the raw status word waitpid stored, and the two streams. */
  datatype Reply = Reply(status: int, out: seq<byte>, err: seq<byte>)

  /** A value of C's int. */
  predicate IsInt32(x: int) { -0x8000_0000 <= x < 0x8000_0000 }

  /** snprintf(buf, "status:%d\r\n", status) */
  function StatusLine(status: int): seq<byte>
  {
    StatusTag + DecInt(status) + CRLF
  }

  /** snprintf(buf, "%zu\r\n", n) */
  function LengthLine(n: nat): seq<byte>
  {
    Dec(n) + CRLF
  }

  /** The status line opens with "status:" and a non-empty number, and its only CR is
      the one of its closing CRLF; it holds no NUL, so strlen sees all of it. */
  lemma StatusLineShape(status: int)
    ensures var line := StatusLine(status);
      |line| > |StatusTag| + 2 && line[..|StatusTag|] == StatusTag &&
      line[|line| - 2..] == CRLF && CR !in line[..|line| - 2] && NUL !in line
  {
  }

  /** A length line is a non-empty number whose only CR is the one of its closing CRLF;
      it holds no NUL, so strlen sees all of it. */
  lemma LengthLineShape(n: nat)
    ensures var line := LengthLine(n);
      |line| > 2 && line[|line| - 2..] == CRLF && CR !in line[..|line| - 2] && NUL !in line
  {
  }

  /** A stream as the reply carries it: its length line, then its bytes. */
  function Block(b: seq<byte>): seq<byte>
  {
    LengthLine(|b|) + b
  }

  /** Everything written on the connection for one command. */
  function Encode(r: Reply): seq<byte>
  {
    StatusLine(r.status) + Block(r.out) + Block(r.err)
  }

  /** A reply opens with its status line, whose CR is the first in the reply; it ends
      with the standard error bytes themselves, nothing after them; and it is as long as
      its three header lines and the two streams together. */
  lemma EncodeShape(r: Reply)
    ensures var msg, line := Encode(r), StatusLine(r.status);
      msg[..|line|] == line && CR !in msg[..|line| - 2] && msg[|line| - 2] == CR &&
      msg[|msg| - |r.err|..] == r.err &&
      |msg| == |line| + |LengthLine(|r.out|)| + |r.out| + |LengthLine(|r.err|)| + |r.err|
  {
  }

  // ---------------------------------------------------------------------------
  // The 32-byte header buffer

  /** The header buffer after memset(buf, 0, 32) and snprintf(buf, 32, ...) of `text`:
      at most 31 bytes of it, then NULs. */
  function Snprintf(text: seq<byte>): (b: seq<byte>)
    ensures |b| == HeaderSize
  {
    var m := Min(|text|, HeaderSize - 1);
    text[..m] + Zeros(HeaderSize - m)
  }

  /** write(fd, buf, strlen(buf)) sends the whole line when it is shorter than the
      buffer and holds no NUL. */
  lemma HeaderIntact(text: seq<byte>)
    requires |text| < HeaderSize && NUL !in text
    ensures CStr(Snprintf(text)) == text
  {
    assert text[..|text|] == text;
    CStrPadded(text, Zeros(HeaderSize - |text|));
    CStrWhole(text);
  }

  /** The status line of any int status fits the header buffer: at most 7 + 11 + 2 bytes. */
  lemma StatusLineFits(status: int)
    requires IsInt32(status)
    ensures |StatusLine(status)| <= 20 && CStr(Snprintf(StatusLine(status))) == StatusLine(status)
  {
    DecIntLength(status);
    var t := StatusLine(status);
    assert NUL !in t by {
      assert t == StatusTag + (DecInt(status) + CRLF);
    }
    HeaderIntact(t);
  }

  /** The length line of any size_t fits the header buffer: at most 20 + 2 bytes. */
  lemma LengthLineFits(n: nat)
    requires n < SizeLimit
    ensures |LengthLine(n)| <= 22 && CStr(Snprintf(LengthLine(n))) == LengthLine(n)
  {
    DecSizeLength(n);
    HeaderIntact(LengthLine(n));
  }

  // ---------------------------------------------------------------------------
  // Reading a reply back

  /** The text before the first "\r\n" and the bytes after it. */
  function SplitLine(t: seq<byte>): (r: Option<(seq<byte>, seq<byte>)>)
    ensures r.Some? ==> t == r.value.0 + CRLF + r.value.1
  {
    match FindCrLf(t)
    case Some(k) =>
      assert t == t[..k] + CRLF + t[k + 2..] by {
        assert t[k..k + 2] == CRLF;
        assert t == t[..k] + t[k..k + 2] + t[k + 2..];
      }
      Some((t[..k], t[k + 2..]))
    case None => None
  }

  /** A decimal numeral as printf writes it. */
  function ParseNat(line: seq<byte>): Option<nat>
  {
    if Canonical(line) then Some(DigitsValue(line)) else None
  }

  /** A signed decimal numeral as printf's "%d" writes it. */
  function ParseInt(line: seq<byte>): Option<int>
  {
    if |line| > 0 && line[0] == MINUS then
      match ParseNat(line[1..])
      case Some(n) => if n > 0 then Some(-(n as int)) else None
      case None => None
    else
      match ParseNat(line)
      case Some(n) => Some(n)
      case None => None
  }

  /** A length line and that many bytes, and what follows them. */
  function TakeBlock(t: seq<byte>): Option<(seq<byte>, seq<byte>)>
  {
    match SplitLine(t)
    case None => None
    case Some((line, rest)) =>
      match ParseNat(line)
      case None => None
      case Some(n) => if n <= |rest| then Some((rest[..n], rest[n..])) else None
  }

  /** What a client reads from a whole reply; None for anything the daemon does not write. */
  function Decode(msg: seq<byte>): Option<Reply>
  {
    if |msg| < |StatusTag| || msg[..|StatusTag|] != StatusTag then None
    else DecodeStatus(msg[|StatusTag|..])
  }

  /** The rest of a reply after "status:". */
  function DecodeStatus(t: seq<byte>): Option<Reply>
  {
    match SplitLine(t)
    case None => None
    case Some((line, rest)) =>
      match ParseInt(line)
      case None => None
      case Some(status) => DecodeStreams(status, rest)
  }

  /** The two streams, which must end the reply. */
  function DecodeStreams(status: int, t: seq<byte>): Option<Reply>
  {
    match TakeBlock(t)
    case None => None
    case Some((out, r2)) =>
      match TakeBlock(r2)
      case None => None
      case Some((err, r3)) => if r3 == [] then Some(Reply(status, out, err)) else None
  }

  lemma SplitLineOf(line: seq<byte>, rest: seq<byte>)
    requires CR !in line
    ensures SplitLine(line + CRLF + rest) == Some((line, rest))
  {
    var t := line + CRLF + rest;
    assert CrLfAt(t, |line|);
    forall k | 0 <= k < |line|
      ensures !CrLfAt(t, k)
    {
      assert t[k] == line[k];
    }
    assert t[..|line|] == line;
    assert t[|line| + 2..] == rest;
  }

  lemma ParseDec(n: nat)
    ensures ParseNat(Dec(n)) == Some(n)
  {
    DecValue(n);
  }

  lemma ParseDecInt(x: int)
    ensures ParseInt(DecInt(x)) == Some(x)
  {
    if x < 0 {
      var t := DecInt(x);
      assert t[1..] == Dec(-x);
      ParseDec(-x);
    } else {
      ParseDec(x);
      assert Dec(x)[0] != MINUS;
    }
  }

  /** A numeral that parses is the one printf writes for its value. */
  lemma ParsedNat(line: seq<byte>)
    requires ParseNat(line).Some?
    ensures Dec(ParseNat(line).value) == line
  {
    DecOfValue(line);
  }

  lemma ParsedInt(line: seq<byte>)
    requires ParseInt(line).Some?
    ensures DecInt(ParseInt(line).value) == line
  {
    if |line| > 0 && line[0] == MINUS {
      ParsedNat(line[1..]);
      assert line == [MINUS] + line[1..];
    } else {
      ParsedNat(line);
    }
  }

  lemma TakeBlockOf(b: seq<byte>, rest: seq<byte>)
    ensures TakeBlock(Block(b) + rest) == Some((b, rest))
  {
    var t := Block(b) + rest;
    assert t == Dec(|b|) + CRLF + (b + rest);
    SplitLineOf(Dec(|b|), b + rest);
    ParseDec(|b|);
    assert (b + rest)[..|b|] == b;
    assert (b + rest)[|b|..] == rest;
  }

  lemma TakenBlock(t: seq<byte>)
    requires TakeBlock(t).Some?
    ensures t == Block(TakeBlock(t).value.0) + TakeBlock(t).value.1
  {
    var (line, rest) := SplitLine(t).value;
    ParsedNat(line);
    var n := ParseNat(line).value;
    assert rest == rest[..n] + rest[n..];
  }

  /** A client reading the reply gets back exactly the status and the two streams the
      daemon wrote, whatever bytes (including "\r\n") the streams hold. */
  lemma DecodeEncode(r: Reply)
    ensures Decode(Encode(r)) == Some(r)
  {
    var msg := Encode(r);
    var streams := Block(r.out) + Block(r.err);
    var body := DecInt(r.status) + CRLF + streams;
    Assoc(StatusTag + DecInt(r.status) + CRLF, Block(r.out), Block(r.err));
    Assoc(StatusTag, DecInt(r.status), CRLF);
    Assoc(StatusTag, DecInt(r.status) + CRLF, Block(r.out) + Block(r.err));
    assert msg[..|StatusTag|] == StatusTag && msg[|StatusTag|..] == body;
    SplitLineOf(DecInt(r.status), streams);
    ParseDecInt(r.status);
    DecodeStreamsOf(r);
    assert DecodeStatus(body) == Some(r);
  }

  lemma DecodeStreamsOf(r: Reply)
    ensures DecodeStreams(r.status, Block(r.out) + Block(r.err)) == Some(r)
  {
    TakeBlockOf(r.out, Block(r.err));
    TakeBlockOf(r.err, []);
    assert Block(r.err) + [] == Block(r.err);
  }

  /** The decoder accepts nothing but replies the daemon writes. */
  lemma EncodeDecode(msg: seq<byte>)
    requires Decode(msg).Some?
    ensures Encode(Decode(msg).value) == msg
  {
    var body := msg[|StatusTag|..];
    assert Decode(msg) == DecodeStatus(body);
    var r := DecodeStatus(body).value;
    DecodedStatus(body);
    assert msg == msg[..|StatusTag|] + body;
    Assoc(StatusTag + DecInt(r.status) + CRLF, Block(r.out), Block(r.err));
    Assoc(StatusTag, DecInt(r.status), CRLF);
    Assoc(StatusTag, DecInt(r.status) + CRLF, Block(r.out) + Block(r.err));
  }

  lemma DecodedStatus(t: seq<byte>)
    requires DecodeStatus(t).Some?
    ensures var r := DecodeStatus(t).value;
      t == DecInt(r.status) + CRLF + (Block(r.out) + Block(r.err))
  {
    var line := SplitLine(t).value.0;
    var rest := SplitLine(t).value.1;
    ParsedInt(line);
    DecodedStreams(ParseInt(line).value, rest);
  }

  lemma DecodedStreams(status: int, t: seq<byte>)
    requires DecodeStreams(status, t).Some?
    ensures var r := DecodeStreams(status, t).value;
      r.status == status && t == Block(r.out) + Block(r.err)
  {
    TakenBlock(t);
    var r2 := TakeBlock(t).value.1;
    TakenBlock(r2);
    var r3 := TakeBlock(r2).value.1;
    assert r3 == [];
    assert Block(TakeBlock(r2).value.0) + r3 == Block(TakeBlock(r2).value.0);
  }

  // ---------------------------------------------------------------------------
  // Writing the reply

  /** What write(fd, buf, strlen(buf)) sends after memset and snprintf of `text`. */
  function HeaderWrite(text: seq<byte>): seq<byte>
  {
    CStr(Snprintf(text))
  }

  /** The status line as written: snprintf never truncates it. */
  function StatusHeader(status: int): (line: seq<byte>)
    requires IsInt32(status)
    ensures line == StatusLine(status)
  {
    StatusLineFits(status);
    HeaderWrite(StatusLine(status))
  }

  /** A length line as written: snprintf never truncates it. */
  function LengthHeader(total: nat): (line: seq<byte>)
    requires total < SizeLimit
    ensures line == LengthLine(total)
  {
    LengthLineFits(total);
    HeaderWrite(LengthLine(total))
  }

  /** The write(2) buffers for one stream of the reply: its length line, then its parts. */
  function BlockCalls(parts: seq<seq<byte>>): seq<seq<byte>>
  {
    [LengthLine(|Flatten(parts)|)] + parts
  }

  /** The write(2) buffers for a whole reply. */
  function ReplyCalls(status: int, outParts: seq<seq<byte>>, errParts: seq<seq<byte>>): seq<seq<byte>>
  {
    [StatusLine(status)] + (BlockCalls(outParts) + BlockCalls(errParts))
  }

  /** The buffers of a stream carry its length line and then its bytes. */
  lemma BlockCallsBytes(parts: seq<seq<byte>>)
    ensures Flatten(BlockCalls(parts)) == Block(Flatten(parts))
  {
    FlattenOne(LengthLine(|Flatten(parts)|));
    FlattenAppend([LengthLine(|Flatten(parts)|)], parts);
  }

  /** The buffers of a reply carry exactly its encoding, however the streams are split. */
  lemma ReplyCallsBytes(status: int, outParts: seq<seq<byte>>, errParts: seq<seq<byte>>)
    ensures Flatten(ReplyCalls(status, outParts, errParts))
         == Encode(Reply(status, Flatten(outParts), Flatten(errParts)))
  {
    var head := [StatusLine(status)];
    FlattenOne(StatusLine(status));
    FlattenAppend(head, BlockCalls(outParts) + BlockCalls(errParts));
    FlattenAppend(BlockCalls(outParts), BlockCalls(errParts));
    BlockCallsBytes(outParts);
    BlockCallsBytes(errParts);
  }

  lemma FlattenOne(c: seq<byte>)
    ensures Flatten([c]) == c
  {
    assert [c] == [] + [c];
    FlattenSnoc([], c);
  }

  /** The parent's reply once both pipes are drained and the child reaped, as the
      buffers it hands to write(2) on the connection: the status line, then for each
      stream its length (total_bytes) and its links in order (`outParts` and `errParts`,
      the filled parts of the two chains' links). */
  method WriteResponse(status: int, out: Link, ghost outLinks: seq<Link>, ghost outParts: seq<seq<byte>>,
                       err: Link, ghost errLinks: seq<Link>, ghost errParts: seq<seq<byte>>)
    returns (calls: seq<seq<byte>>)
    requires IsInt32(status)
    requires IsChain(out, outLinks) && outParts == Parts(outLinks) && |Flatten(outParts)| < SizeLimit
    requires IsChain(err, errLinks) && errParts == Parts(errLinks) && |Flatten(errParts)| < SizeLimit
    ensures calls == ReplyCalls(status, outParts, errParts)
    ensures Flatten(calls) == Encode(Reply(status, Flatten(outParts), Flatten(errParts)))
  {
    ReplyCallsBytes(status, outParts, errParts);
    var line := StatusHeader(status);
    var streams := WriteStreams(out, outLinks, outParts, err, errLinks, errParts);
    calls := [line] + streams;
  }

  /** Standard output's block, then standard error's. */
  method WriteStreams(out: Link, ghost outLinks: seq<Link>, ghost outParts: seq<seq<byte>>,
                      err: Link, ghost errLinks: seq<Link>, ghost errParts: seq<seq<byte>>)
    returns (calls: seq<seq<byte>>)
    requires IsChain(out, outLinks) && outParts == Parts(outLinks) && |Flatten(outParts)| < SizeLimit
    requires IsChain(err, errLinks) && errParts == Parts(errLinks) && |Flatten(errParts)| < SizeLimit
    ensures calls == BlockCalls(outParts) + BlockCalls(errParts)
  {
    var outCalls := WriteChunk(out, outLinks, outParts);
    var errCalls := WriteChunk(err, errLinks, errParts);
    calls := outCalls + errCalls;
  }

  /** One stream of the reply: its length line, then its links in order. */
  method WriteChunk(head: Link, ghost links: seq<Link>, ghost parts: seq<seq<byte>>)
    returns (calls: seq<seq<byte>>)
    requires IsChain(head, links) && parts == Parts(links) && |Flatten(parts)| < SizeLimit
    ensures calls == BlockCalls(parts)
  {
    ChainBytesParts(links);
    var total := TotalBytes(head, links);
    var line := LengthHeader(total);
    var written := WriteChain(head, links, parts);
    calls := [line] + written;
  }
}
