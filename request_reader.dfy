/** The two loops of the connection handler that read a request from the socket one
    byte at a time into the zeroed buffer `buf`, proved to produce what
    RequestFraming says. */
module RequestReader {
  import opened Bytes
  import opened Streams
  import opened RequestFraming

  /** `buf` once the delimiter's "\r" is overwritten. */
  lemma Splice(a: seq<byte>, b: seq<byte>, off: nat, d: seq<byte>)
    requires |a| == |b| && off + |d| <= |a|
    requires b[..off + |d|] == a[..off] + d && b[off + |d|..] == a[off + |d|..]
    ensures b == a[..off] + d + a[off + |d|..]
  {
    assert b == b[..off + |d|] + b[off + |d|..];
  }

  /** read(cl, p, 1): the next byte of the connection, if any, lands at buf[p]. */
  method ReadByte(conn: Stream, buf: array<byte>, p: nat) returns (rc: nat)
    requires p < buf.Length
    modifies conn`pending, conn`chunks, buf
    ensures rc <= 1 && (rc == 0 <==> old(conn.pending) == [])
    ensures conn.pending == old(conn.pending)[rc..]
    ensures rc == 0 ==> buf[..] == old(buf[..])
    ensures rc == 1 ==> buf[..] == old(buf[..])[..p] + old(conn.pending)[..1] + old(buf[..])[p + 1..]
  {
    ghost var before := buf[..];
    ghost var data := conn.pending[..Min(1, |conn.pending|)];
    rc := conn.Read(buf, p, 1);
    Splice(before, buf[..], p, data[..rc]);
  }

  /** One more byte read into the zeroed part of the buffer. */
  lemma ReadIntoZeros(s: seq<byte>, p: nat, a: seq<byte>, b: seq<byte>)
    requires p < |s| && p < BufSize && a == s[..p] + Zeros(BufSize - p)
    requires b == a[..p] + s[p..][..1] + a[p + 1..]
    ensures b == s[..p + 1] + Zeros(BufSize - (p + 1))
  {
    assert a[..p] == s[..p];
    assert a[p + 1..] == Zeros(BufSize - (p + 1));
    assert s[..p] + s[p..][..1] == s[..p + 1];
  }

  /** strstr over the zeroed buffer sees the delimiter of the bytes read so far. */
  lemma SearchRead(s: seq<byte>, p: nat)
    requires p < |s| && p < Budget
    ensures FindCrLf(CStr(s[..p + 1] + Zeros(BufSize - (p + 1)))) == FindCrLf(CStr(s[..p + 1]))
  {
    CStrPadded(s[..p + 1], Zeros(BufSize - (p + 1)));
  }

  /** Where the first loop leaves the buffer, the connection and its two cursors. */
  ghost predicate AfterCommand(s: seq<byte>, v: Variant, bc: nat, count: int, b: seq<byte>, rest: seq<byte>)
  {
    var e := CommandEndOf(s);
    bc == LengthStart(e) && count == CountAfterCommand(s, e, v) &&
    b == CommandBuffer(s, e) && rest == s[CommandRead(s, e)..]
  }

  /** The first loop sees its first delimiter as soon as the "\n" is read. */
  lemma FirstLoopFound(s: seq<byte>, p: nat, k: nat, v: Variant)
    requires p < Budget && p < |s| && FindCrLf(CStr(s[..p])).None?
    requires FindCrLf(CStr(s[..p + 1])) == Some(k)
    ensures k + 1 == p
    ensures AfterCommand(s, v, k + 2, if v == AsWritten then Budget - p else Budget - (p + 1),
      (s[..p + 1] + Zeros(BufSize - (p + 1)))[k := NUL], s[p + 1..])
  {
    FoundWithin(s, p);
    FoundWithin(s, p + 1);
    var b := s[..p + 1] + Zeros(BufSize - (p + 1));
    assert b[k := NUL] == s[..k] + [NUL, LF] + Zeros(BufSize - (k + 2)) by {
      assert CrLfAt(CStr(s[..p + 1]), k);
      CStrProps(s[..p + 1]);
      assert b[k + 1] == LF;
    }
  }

  /** The first loop meets end of stream before any delimiter. */
  lemma FirstLoopEof(s: seq<byte>, p: nat, v: Variant)
    requires p < Budget && p == |s| && FindCrLf(CStr(s[..p])).None?
    ensures AfterCommand(s, v, 0, Budget - p, s[..p] + Zeros(BufSize - p), [])
  {
    assert s[..p] == s;
  }

  /** The first loop spends its budget before any delimiter. */
  lemma FirstLoopSpent(s: seq<byte>, v: Variant)
    requires Budget <= |s| && FindCrLf(CStr(s[..Budget])).None?
    ensures AfterCommand(s, v, 0, 0, s[..Budget] + Zeros(BufSize - Budget), s[Budget..])
  {
    FoundWithin(s, Budget);
  }

  /** read(cl, p, 1) in the first loop: the next byte of the request lands after those
      already read, in the zeroed part of the buffer. */
  method ReadCommandByte(conn: Stream, buf: array<byte>, p: nat, ghost s: seq<byte>) returns (rc: nat)
    requires buf.Length == BufSize && p < BufSize && p <= |s|
    requires conn.pending == s[p..] && buf[..] == s[..p] + Zeros(BufSize - p)
    modifies conn`pending, conn`chunks, buf
    ensures rc <= 1 && (rc == 0 <==> p == |s|)
    ensures conn.pending == s[p + rc..]
    ensures buf[..] == s[..p + rc] + Zeros(BufSize - (p + rc))
  {
    ghost var before := buf[..];
    rc := ReadByte(conn, buf, p);
    if rc == 1 {
      ReadIntoZeros(s, p, before, buf[..]);
    }
  }

  /** One pass of the first loop's body: read a byte, then search the buffer. */
  method CommandStep(conn: Stream, buf: array<byte>, p: nat, count: int, v: Variant, ghost s: seq<byte>)
    returns (done: bool, bc: nat, p': nat, count': int)
    requires buf.Length == BufSize && count > 0 && p + count == Budget && p <= |s|
    requires conn.pending == s[p..] && buf[..] == s[..p] + Zeros(BufSize - p)
    requires FindCrLf(CStr(s[..p])).None?
    modifies conn`pending, conn`chunks, buf
    ensures done ==> AfterCommand(s, v, bc, count', buf[..], conn.pending)
    ensures !done ==> (bc == 0 && p' == p + 1 && count' == count - 1 && p' <= |s| &&
      conn.pending == s[p'..] && buf[..] == s[..p'] + Zeros(BufSize - p') &&
      FindCrLf(CStr(s[..p'])).None?)
  {
    var rc := ReadCommandByte(conn, buf, p, s);
    if rc == 0 {
      FirstLoopEof(s, p, v);
      return true, 0, p, count;
    }
    SearchRead(s, p);
    var found := FindCrLf(CStr(buf[..]));
    if found.Some? {
      FirstLoopFound(s, p, found.value, v);
      buf[found.value] := NUL;
      bc := found.value + 2;
      count' := count;
      if v == Corrected {
        count' := count - rc;
      }
      return true, bc, p, count';
    }
    return false, 0, p + rc, count - rc;
  }

  /** The first loop (reading the command line): one byte per read, searching the whole
      buffer for "\r\n" after each byte. */
  method ReadCommandLine(conn: Stream, buf: array<byte>, v: Variant) returns (bc: nat, count: int)
    requires buf.Length == BufSize && buf[..] == Zeros(BufSize)
    modifies conn`pending, conn`chunks, buf
    ensures AfterCommand(old(conn.pending), v, bc, count, buf[..], conn.pending)
  {
    ghost var s := conn.pending;
    var p := 0;
    bc := 0;
    count := Budget;
    while count > 0
      invariant 0 <= count && p + count == Budget && p <= |s| && bc == 0
      invariant conn.pending == s[p..]
      invariant buf[..] == s[..p] + Zeros(BufSize - p)
      invariant FindCrLf(CStr(s[..p])).None?
      decreases count
    {
      var done;
      done, bc, p, count := CommandStep(conn, buf, p, count, v, s);
      if done {
        return;
      }
    }
    FirstLoopSpent(s, v);
  }

  // ---------------------------------------------------------------------------
  // The length line

  /** The test at the top of the second loop: after j bytes of the length line, strstr
      finds "\r\n" in the string at `bc` only when the loop has read all it will, and the
      byte about to be read still fits the buffer. */
  lemma TopCheck(s: seq<byte>, e: CommandEnd, v: Variant, j: nat)
    requires e == CommandEndOf(s) && j <= LengthRead(s, e, v)
    requires CountAfterCommand(s, e, v) - j > 0 || (v == AsWritten && j == 0)
    ensures LengthStart(e) + j < BufSize
    ensures var f := FindCrLf(CStr(BufferAt(s, e, j)[LengthStart(e)..]));
      (f.Some? ==> j == LengthRead(s, e, v)) &&
      (f.None? && j < |s| - CommandRead(s, e) ==> j < LengthRead(s, e, v))
  {
    match e
    case Delimited(_) => TopCheckDelimited(s, e, v, j);
    case EndOfStream =>
    case BudgetSpent =>
      if v == AsWritten {
        TopCheckSpent(s, j);
      }
  }

  lemma TopCheckDelimited(s: seq<byte>, e: CommandEnd, v: Variant, j: nat)
    requires Fits(s, e) && e.Delimited? && j <= LengthRead(s, e, v)
    requires CountAfterCommand(s, e, v) - j > 0 || (v == AsWritten && j == 0)
    ensures LengthStart(e) + j < BufSize
    ensures var f := FindCrLf(CStr(BufferAt(s, e, j)[LengthStart(e)..]));
      (f.Some? ==> j == LengthRead(s, e, v)) &&
      (f.None? && j < |s| - CommandRead(s, e) ==> j < LengthRead(s, e, v))
  {
    var r := s[CommandRead(s, e)..];
    var bc := LengthStart(e);
    assert bc + j < BufSize;
    BufferAtShape(s, e, j);
    CommandBufferShape(s, e);
    assert BufferAt(s, e, j)[bc..] == r[..j] + Zeros(BufSize - bc - j);
    CStrPadded(r[..j], Zeros(BufSize - bc - j));
    FoundWithin(r, j);
  }

  lemma TopCheckSpent(s: seq<byte>, j: nat)
    requires CommandEndOf(s) == BudgetSpent && j == 0
    ensures FindCrLf(CStr(BufferAt(s, BudgetSpent, j)[LengthStart(BudgetSpent)..])).None?
  {
    var b := BufferAt(s, BudgetSpent, 0);
    assert b[0..] == s[..Budget] + Zeros(1);
    CStrPadded(s[..Budget], Zeros(1));
    FoundWithin(s, Budget);
  }

  /** The second loop stops when its budget runs out only once it has read all it will. */
  lemma StopAtCount(s: seq<byte>, e: CommandEnd, v: Variant, j: nat)
    requires Fits(s, e) && j <= LengthRead(s, e, v) && (1 <= j || v == Corrected)
    requires CountAfterCommand(s, e, v) - j <= 0
    ensures j == LengthRead(s, e, v)
  {
  }

  /** One more byte of `r` lands at `bc` + j. */
  lemma SplicedStep(cb: seq<byte>, r: seq<byte>, bc: nat, j: nat)
    requires bc + j < |cb| && j < |r|
    ensures var a := Spliced(cb, r, bc, j);
      Spliced(cb, r, bc, j + 1) == a[..bc + j] + r[j..][..1] + a[bc + j + 1..]
  {
    var a := Spliced(cb, r, bc, j);
    assert a[..bc + j] == cb[..bc] + r[..j];
    assert a[bc + j + 1..] == cb[bc + j + 1..];
    assert r[..j + 1] == r[..j] + r[j..][..1];
  }

  /** What the second loop decides after j of its n bytes, when it runs its body then:
      the byte it may read fits the buffer, strstr finds "\r\n" at `bc` only once all
      n bytes are in, and it reads on while the stream has bytes and n is not reached;
      its test at the bottom stops it only once all n bytes are in. */
  ghost predicate StopsAt(cb: seq<byte>, r: seq<byte>, bc: nat, n: nat, count0: int, v: Variant, j: nat)
    requires bc + j <= |cb| && j <= |r|
  {
    ((count0 - j > 0 || (v == AsWritten && j == 0)) ==>
      bc + j < |cb| &&
      (FindCrLf(CStr(Spliced(cb, r, bc, j)[bc..])).Some? ==> j == n) &&
      (FindCrLf(CStr(Spliced(cb, r, bc, j)[bc..])).None? && j < |r| ==> j < n)) &&
    ((1 <= j || v == Corrected) && count0 - j <= 0 ==> j == n)
  }

  /** The second loop's decisions at every point up to the n bytes it reads. */
  ghost predicate LineFacts(cb: seq<byte>, r: seq<byte>, bc: nat, n: nat, count0: int, v: Variant)
  {
    |cb| == BufSize && bc + n <= BufSize && n <= |r| &&
    forall j :: 0 <= j <= n ==> StopsAt(cb, r, bc, n, count0, v, j)
  }

  lemma LineFactsHold(s: seq<byte>, e: CommandEnd, v: Variant)
    requires e == CommandEndOf(s)
    ensures LineFacts(CommandBuffer(s, e), s[CommandRead(s, e)..], LengthStart(e),
      LengthRead(s, e, v), CountAfterCommand(s, e, v), v)
  {
    var cb, r, bc, n := CommandBuffer(s, e), s[CommandRead(s, e)..], LengthStart(e), LengthRead(s, e, v);
    var count0 := CountAfterCommand(s, e, v);
    CommandBufferShape(s, e);
    forall j | 0 <= j <= n
      ensures StopsAt(cb, r, bc, n, count0, v, j)
    {
      assert Spliced(cb, r, bc, j) == BufferAt(s, e, j);
      if count0 - j > 0 || (v == AsWritten && j == 0) {
        TopCheck(s, e, v, j);
      }
      if (1 <= j || v == Corrected) && count0 - j <= 0 {
        StopAtCount(s, e, v, j);
      }
    }
  }

  /** The state of the second loop after p - bc bytes of the length line: `going` is
      whether it runs its body again. */
  ghost predicate LineLoop(cb: seq<byte>, r: seq<byte>, bc: nat, n: nat, count0: int, v: Variant,
                           p: nat, count: int, going: bool, rest: seq<byte>, b: seq<byte>)
  {
    bc <= p && p - bc <= n && n <= |r| && bc + n <= |cb| &&
    count == count0 - (p - bc) && rest == r[p - bc..] && b == Spliced(cb, r, bc, p - bc) &&
    (going ==> count > 0 || (v == AsWritten && p == bc)) &&
    (!going ==> p - bc == n)
  }

  /** The second loop after it reads one more byte. */
  lemma LineRead(cb: seq<byte>, r: seq<byte>, bc: nat, n: nat, count0: int, v: Variant,
                 p: nat, count: int, rest: seq<byte>, b: seq<byte>)
    requires LineFacts(cb, r, bc, n, count0, v)
    requires LineLoop(cb, r, bc, n, count0, v, p, count, true, rest, b)
    requires FindCrLf(CStr(b[bc..])).None? && rest != [] && p + 1 <= |b|
    ensures LineLoop(cb, r, bc, n, count0, v, p + 1, count - 1, count - 1 > 0,
      rest[1..], b[..p] + rest[..1] + b[p + 1..])
  {
    var j := p - bc;
    assert StopsAt(cb, r, bc, n, count0, v, j);
    SplicedStep(cb, r, bc, j);
    assert StopsAt(cb, r, bc, n, count0, v, j + 1);
  }

  /** One pass of the second loop's body, with its test at the bottom. */
  method LengthStep(conn: Stream, buf: array<byte>, bc: nat, count0: int, p: nat, count: int, v: Variant,
                    ghost cb: seq<byte>, ghost r: seq<byte>, ghost n: nat)
    returns (going': bool, p': nat, count': int)
    requires buf.Length == BufSize && LineFacts(cb, r, bc, n, count0, v)
    requires LineLoop(cb, r, bc, n, count0, v, p, count, true, conn.pending, buf[..])
    modifies conn`pending, conn`chunks, buf
    ensures LineLoop(cb, r, bc, n, count0, v, p', count', going', conn.pending, buf[..])
    ensures p' == p + 1 || (p' == p && !going')
  {
    assert StopsAt(cb, r, bc, n, count0, v, p - bc);
    going', p', count' := false, p, count;
    var found := FindCrLf(CStr(buf[bc..]));
    if found.None? {
      ghost var rest, b := conn.pending, buf[..];
      var rc := ReadByte(conn, buf, p);
      if rc != 0 {
        LineRead(cb, r, bc, n, count0, v, p, count, rest, b);
        p' := p + rc;
        count' := count - rc;
        going' := count' > 0;
      }
    }
  }

  /** The second loop (reading the length line) from `bc` on: a do-while as written, a
      while loop when corrected; it stops when strstr finds "\r\n" in the string at `bc`,
      at end of stream, or when `count` is spent. */
  method ReadLengthLine(conn: Stream, buf: array<byte>, bc: nat, count0: int, v: Variant,
                        ghost s: seq<byte>, ghost e: CommandEnd) returns (count: int)
    requires e == CommandEndOf(s) && buf.Length == BufSize
    requires bc == LengthStart(e) && count0 == CountAfterCommand(s, e, v)
    requires buf[..] == CommandBuffer(s, e) && conn.pending == s[CommandRead(s, e)..]
    modifies conn`pending, conn`chunks, buf
    ensures buf[..] == RequestBuffer(s, e, v)
    ensures conn.pending == s[CommandRead(s, e) + LengthRead(s, e, v)..]
    ensures count == count0 - LengthRead(s, e, v)
  {
    ghost var cb, r, n := CommandBuffer(s, e), s[CommandRead(s, e)..], LengthRead(s, e, v);
    LineFactsHold(s, e, v);
    count := RunLengthLoop(conn, buf, bc, count0, v, cb, r, n);
    assert Spliced(cb, r, bc, n) == RequestBuffer(s, e, v);
  }

  /** The second loop itself, over the command buffer `cb` and the bytes `r` after the
      command line, given the decisions it makes. */
  method RunLengthLoop(conn: Stream, buf: array<byte>, bc: nat, count0: int, v: Variant,
                       ghost cb: seq<byte>, ghost r: seq<byte>, ghost n: nat) returns (count: int)
    requires buf.Length == BufSize && LineFacts(cb, r, bc, n, count0, v)
    requires buf[..] == cb && conn.pending == r
    modifies conn`pending, conn`chunks, buf
    ensures buf[..] == Spliced(cb, r, bc, n) && conn.pending == r[n..] && count == count0 - n
  {
    var p := bc;
    count := count0;
    var going := v == AsWritten || count > 0;
    assert Spliced(cb, r, bc, 0) == cb;
    assert !going ==> StopsAt(cb, r, bc, n, count0, v, 0);
    while going
      invariant LineLoop(cb, r, bc, n, count0, v, p, count, going, conn.pending, buf[..])
      decreases n - (p - bc), going
    {
      going, p, count := LengthStep(conn, buf, bc, count0, p, count, v, cb, r, n);
    }
  }

  /** Both loops, from a fresh zeroed buffer to the request the daemon runs: the command
      is the string at `buf`, the payload length what sscanf reads at `bc`, and the
      payload is still unread on the connection. */
  method ReadRequest(conn: Stream, v: Variant) returns (req: Request)
    modifies conn`pending, conn`chunks
    ensures req == RequestOf(old(conn.pending), v)
    ensures conn.pending == old(conn.pending)[Consumed(old(conn.pending), v)..]
  {
    ghost var s := conn.pending;
    var buf := new byte[BufSize](_ => NUL);
    assert buf[..] == Zeros(BufSize);
    var bc, count := ReadCommandLine(conn, buf, v);
    ghost var e := CommandEndOf(s);
    count := ReadLengthLine(conn, buf, bc, count, v, s, e);
    req := Request(CStr(buf[..]), ScanSize(CStr(buf[bc..])));
  }
}
