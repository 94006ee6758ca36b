/** What the per-connection request reader of the daemon reads: a command line ended by
    "\r\n", then a line whose leading decimal digits give the length of the payload
    that follows. Both lines are read one byte at a time into one zeroed 2048-byte
    buffer, sharing a budget of 2047 bytes.

    Everything is stated against `s`, all the bytes the client will ever send on the
    connection (end of stream follows them). The code as written and a corrected
    reading (see `Variant`) share one definition. */
module RequestFraming {
  import opened Bytes

  /** sizeof(buf) */
  const BufSize: nat := 2048
  /** sizeof(buf) - 1: the byte budget shared by both loops. */
  const Budget: nat := BufSize - 1

  /** `AsWritten` is the code as it stands. `Corrected` charges the "\n" that completes
      the first delimiter to the budget and tests the budget before the first read of
      the length line, so neither loop touches the last byte of the buffer, and nothing
      is read into the command once the budget is spent. */
  datatype Variant = AsWritten | Corrected

  /** How the command-line loop ends: at a delimiter whose "\r" is at index `cr`, at
      end of stream, or with the budget spent. */
  datatype CommandEnd = Delimited(cr: nat) | EndOfStream | BudgetSpent

  /** What the daemon runs: `command` goes to the shell, and `dataLen` bytes of payload
      are then forwarded to the command's standard input. */
  datatype Request = Request(command: seq<byte>, dataLen: nat)

  // ---------------------------------------------------------------------------
  // The command line

  /** The sizes an end of the first loop implies about the input. */
  predicate Fits(s: seq<byte>, e: CommandEnd)
  {
    match e
    case Delimited(k) => k + 2 <= Budget && k + 2 <= |s|
    case EndOfStream => |s| < Budget
    case BudgetSpent => Budget <= |s|
  }

  /** The first loop looks for "\r\n" in the C string of the buffer after every byte,
      so it stops at the first delimiter of the string the client sends, provided the
      delimiter fits in the budget. */
  function CommandEndOf(s: seq<byte>): (e: CommandEnd)
    ensures Fits(s, e)
  {
    CStrProps(s);
    match FindCrLf(CStr(s))
    case Some(k) => if k + 2 <= Budget then Delimited(k) else BudgetSpent
    case None => if |s| < Budget then EndOfStream else BudgetSpent
  }

  /** Bytes the first loop takes from the connection. */
  function CommandRead(s: seq<byte>, e: CommandEnd): (n: nat)
    requires Fits(s, e)
    ensures n <= |s| && n <= Budget
  {
    match e
    case Delimited(k) => k + 2
    case EndOfStream => |s|
    case BudgetSpent => Budget
  }

  /** `buf` after the first loop: the bytes read, the "\r" of a delimiter replaced by NUL. */
  function CommandBuffer(s: seq<byte>, e: CommandEnd): seq<byte>
    requires Fits(s, e)
  {
    var n := CommandRead(s, e);
    match e
    case Delimited(k) => s[..k] + [NUL, LF] + Zeros(BufSize - n)
    case _ => s[..n] + Zeros(BufSize - n)
  }

  /** `bc`: where the length line starts in `buf`; the start of `buf` when no delimiter was seen. */
  function LengthStart(e: CommandEnd): nat
  {
    match e
    case Delimited(k) => k + 2
    case _ => 0
  }

  /** `count` after the first loop. As written, the "\n" completing the delimiter is
      read but not charged. */
  function CountAfterCommand(s: seq<byte>, e: CommandEnd, v: Variant): int
    requires Fits(s, e)
  {
    match e
    case Delimited(k) => if v == AsWritten then Budget - (k + 1) else Budget - (k + 2)
    case _ => Budget - CommandRead(s, e)
  }

  /** The budget left after the first loop is never negative. Corrected, every byte read
      is charged to it; as written, all but the "\n" of a delimiter are. */
  lemma CountCharges(s: seq<byte>, e: CommandEnd, v: Variant)
    requires Fits(s, e)
    ensures 0 <= CountAfterCommand(s, e, v)
    ensures v == Corrected ==> CountAfterCommand(s, e, v) == Budget - CommandRead(s, e)
    ensures v == AsWritten ==>
      CountAfterCommand(s, e, v) == Budget - CommandRead(s, e) + (if e.Delimited? then 1 else 0)
  {
  }

  // ---------------------------------------------------------------------------
  // The length line

  /** Bytes needed to see the first "\r\n" of the string in `r`; when there is none,
      more bytes than `r` has. */
  function LineEnd(r: seq<byte>): nat
  {
    match FindCrLf(CStr(r))
    case Some(k) => k + 2
    case None => |r| + 1
  }

  /** Bytes the second loop takes from the connection. After a delimiter it stops at
      the end of the length line, at end of stream, or when the budget runs out. With
      no delimiter it starts over at buf[0]: as written its do-while reads one byte
      there even when the budget is spent; corrected, it reads nothing. */
  function LengthRead(s: seq<byte>, e: CommandEnd, v: Variant): (n: nat)
    requires Fits(s, e)
    ensures n <= |s| - CommandRead(s, e)
    ensures LengthStart(e) + n <= BufSize
  {
    var r := s[CommandRead(s, e)..];
    match e
    case Delimited(_) => Min(Min(|r|, CountAfterCommand(s, e, v)), LineEnd(r))
    case _ => if v == AsWritten then Min(|r|, 1) else 0
  }

  /** `buf` once the second loop has read j bytes, from `bc` on. */
  function BufferAt(s: seq<byte>, e: CommandEnd, j: nat): seq<byte>
    requires Fits(s, e) && LengthStart(e) + j <= BufSize && j <= |s| - CommandRead(s, e)
  {
    Spliced(CommandBuffer(s, e), s[CommandRead(s, e)..], LengthStart(e), j)
  }

  /** A buffer `cb` with the first j bytes of `r` written from `bc` on. */
  function Spliced(cb: seq<byte>, r: seq<byte>, bc: nat, j: nat): seq<byte>
    requires bc + j <= |cb| && j <= |r|
  {
    cb[..bc] + r[..j] + cb[bc + j..]
  }

  /** `buf` after both loops. */
  function RequestBuffer(s: seq<byte>, e: CommandEnd, v: Variant): seq<byte>
    requires Fits(s, e)
  {
    BufferAt(s, e, LengthRead(s, e, v))
  }

  /** Bytes both loops take from the connection; the payload starts after them. */
  function Consumed(s: seq<byte>, v: Variant): (n: nat)
    ensures n <= |s|
  {
    var e := CommandEndOf(s);
    CommandRead(s, e) + LengthRead(s, e, v)
  }

  /** The request the daemon acts on: the C string at `buf` as the command, and
      sscanf(bc, "%zu", &data_len), with data_len preset to 0, as the payload length. */
  function RequestOf(s: seq<byte>, v: Variant): (r: Request)
    ensures r.dataLen < SizeLimit
  {
    var e := CommandEndOf(s);
    var b := RequestBuffer(s, e, v);
    Request(CStr(b), ScanSize(CStr(b[LengthStart(e)..])))
  }

  /** The string at `bc` ends inside `buf`, so strstr and sscanf stay inside it. */
  predicate Terminated(s: seq<byte>, v: Variant)
  {
    var e := CommandEndOf(s);
    NUL in RequestBuffer(s, e, v)[LengthStart(e)..]
  }

  // ---------------------------------------------------------------------------
  // The shape of the buffer

  /** The command buffer is as long as `buf` and zero past the bytes read, so its last
      byte is never written; after a delimited command it is zero from where the length
      line goes. */
  lemma CommandBufferShape(s: seq<byte>, e: CommandEnd)
    requires Fits(s, e)
    ensures |CommandBuffer(s, e)| == BufSize && CommandBuffer(s, e)[Budget] == NUL
    ensures CommandBuffer(s, e)[CommandRead(s, e)..] == Zeros(BufSize - CommandRead(s, e))
    ensures CommandBuffer(s, e)[LengthStart(e)..] == Zeros(BufSize - LengthStart(e)) || !e.Delimited?
  {
  }

  /** `buf` with j bytes of the length line read: the command part, those bytes, then
      the rest of the command buffer. */
  lemma BufferAtShape(s: seq<byte>, e: CommandEnd, j: nat)
    requires Fits(s, e) && LengthStart(e) + j <= BufSize && j <= |s| - CommandRead(s, e)
    ensures var b := BufferAt(s, e, j);
      var bc := LengthStart(e);
      |b| == BufSize &&
      b[..bc] == CommandBuffer(s, e)[..bc] &&
      b[bc..] == s[CommandRead(s, e)..][..j] + CommandBuffer(s, e)[bc + j..]
  {
    CommandBufferShape(s, e);
    var cb := CommandBuffer(s, e);
    var bc := LengthStart(e);
    SplitAfter(cb[..bc], s[CommandRead(s, e)..][..j], cb[bc + j..]);
  }

  lemma SplitAfter(a: seq<byte>, b: seq<byte>, c: seq<byte>)
    ensures (a + b + c)[..|a|] == a && (a + b + c)[|a|..] == b + c
  {
  }

  // ---------------------------------------------------------------------------
  // Properties of the command line

  /** A delimiter at index k, as the first loop sees it. */
  predicate DelimiterAt(s: seq<byte>, k: nat)
  {
    k + 2 <= Budget && CrLfAt(s, k) && NUL !in s[..k] &&
    forall i :: 0 <= i < k ==> !CrLfAt(s, i)
  }

  /** The first loop ends at a delimiter exactly when the client's bytes hold "\r\n"
      at index k, with no NUL and no earlier "\r\n" before it, and it fits the budget. */
  lemma DelimitedIff(s: seq<byte>, k: nat)
    ensures CommandEndOf(s) == Delimited(k) <==> DelimiterAt(s, k)
  {
    if CommandEndOf(s) == Delimited(k) {
      DelimitedSound(s, k);
    }
    if DelimiterAt(s, k) {
      DelimitedComplete(s, k);
    }
  }

  lemma DelimitedSound(s: seq<byte>, k: nat)
    requires CommandEndOf(s) == Delimited(k)
    ensures DelimiterAt(s, k)
  {
    var c := CStr(s);
    CStrProps(s);
    assert CrLfAt(c, k);
    assert s[..k] == c[..k];
    forall i | 0 <= i < k
      ensures !CrLfAt(s, i)
    {
      assert !CrLfAt(c, i);
    }
  }

  lemma DelimitedComplete(s: seq<byte>, k: nat)
    requires DelimiterAt(s, k)
    ensures CommandEndOf(s) == Delimited(k)
  {
    assert s[..k + 2] == s[..k] + [CR, LF];
    CStrAtLeast(s, k + 2);
    FirstCrLfOfString(s, k);
  }

  /** When the bytes up to index k + 2 hold no NUL, the string of s has the same first
      "\r\n" as s itself, if that is at k. */
  lemma FirstCrLfOfString(s: seq<byte>, k: nat)
    requires |CStr(s)| >= k + 2 && CrLfAt(s, k)
    requires forall i :: 0 <= i < k ==> !CrLfAt(s, i)
    ensures FindCrLf(CStr(s)) == Some(k)
  {
    var c := CStr(s);
    CStrProps(s);
    assert CrLfAt(c, k);
    forall i | 0 <= i < k
      ensures !CrLfAt(c, i)
    {
      assert !CrLfAt(s, i);
    }
  }

  /** The command is exactly the bytes before the first delimiter, whichever variant
      runs: the NUL written over the "\r" is never overwritten. */
  lemma CommandBeforeDelimiter(s: seq<byte>, v: Variant)
    requires CommandEndOf(s).Delimited?
    ensures RequestOf(s, v).command == s[..CommandEndOf(s).cr]
  {
    var e := CommandEndOf(s);
    var k := e.cr;
    var b := RequestBuffer(s, e, v);
    BufferAtShape(s, e, LengthRead(s, e, v));
    assert b[..k + 2] == s[..k] + [NUL, LF];
    assert b[..k] == s[..k];
    DelimitedSound(s, k);
    CStrIsFirstNul(b, k);
  }

  // ---------------------------------------------------------------------------
  // Properties of the length line

  /** After a delimiter, the second loop reads up to the first point where the text
      after the delimiter holds "\r\n", the stream ends, or the budget runs out, and
      not beyond it. */
  lemma LengthLineStops(s: seq<byte>, v: Variant)
    requires CommandEndOf(s).Delimited?
    ensures var e := CommandEndOf(s);
      var r := s[CommandRead(s, e)..];
      var n := LengthRead(s, e, v);
      (FindCrLf(CStr(r[..n])).Some? || n == |r| || n == CountAfterCommand(s, e, v)) &&
      forall i :: 0 <= i < n ==>
        FindCrLf(CStr(r[..i])).None? && i < |r| && i < CountAfterCommand(s, e, v)
  {
    var e := CommandEndOf(s);
    var r := s[CommandRead(s, e)..];
    var n := LengthRead(s, e, v);
    FoundWithin(r, n);
    forall i | 0 <= i < n
      ensures FindCrLf(CStr(r[..i])).None?
    {
      FoundWithin(r, i);
    }
  }

  /** data_len is the value of the leading digits of the text after the first delimiter
      (0 when it starts with no digit), whenever the second loop did not stop inside
      those digits. */
  lemma LengthIsLeadingDigits(s: seq<byte>, v: Variant)
    requires CommandEndOf(s).Delimited?
    requires var e := CommandEndOf(s);
      var n := LengthRead(s, e, v);
      n == |s| - CommandRead(s, e) || DigitRun(s[CommandRead(s, e)..]) < n
    ensures RequestOf(s, v).dataLen == ScanSize(s[CommandRead(s, CommandEndOf(s))..])
  {
    var e := CommandEndOf(s);
    var r := s[CommandRead(s, e)..];
    var n := LengthRead(s, e, v);
    LengthFromLineRead(s, e, v);
    LeadingDigitsKept(r, n);
  }

  /** Cutting a text after its leading digits leaves what sscanf reads unchanged. */
  lemma LeadingDigitsKept(r: seq<byte>, n: nat)
    requires n == |r| || DigitRun(r) < n <= |r|
    ensures ScanSize(r[..n]) == ScanSize(r)
  {
    if n == |r| {
      assert r[..n] == r;
    } else {
      ScanPrefix(r, r[..n], DigitRun(r));
    }
  }

  /** data_len is what sscanf reads from the bytes the second loop read. */
  lemma LengthFromLineRead(s: seq<byte>, e: CommandEnd, v: Variant)
    requires Fits(s, e) && e.Delimited?
    ensures ScanSize(CStr(RequestBuffer(s, e, v)[LengthStart(e)..])) ==
      ScanSize(s[CommandRead(s, e)..][..LengthRead(s, e, v)])
  {
    var n := LengthRead(s, e, v);
    var bc := LengthStart(e);
    var cb := CommandBuffer(s, e);
    BufferAtShape(s, e, n);
    CommandBufferShape(s, e);
    assert cb[bc + n..] == cb[bc..][n..];
    ScanAfterPadding(RequestBuffer(s, e, v), bc, s[CommandRead(s, e)..][..n], cb[bc + n..]);
  }

  /** sscanf on a string that the buffer's zero bytes end reads the text before them. */
  lemma ScanAfterPadding(b: seq<byte>, bc: nat, x: seq<byte>, z: seq<byte>)
    requires bc <= |b| && b[bc..] == x + z && z == Zeros(|z|)
    ensures ScanSize(CStr(b[bc..])) == ScanSize(x)
  {
    ScanCStr(b[bc..]);
    ScanPadded(x, |z|);
  }

  /** A request as a client writes it: the command, "\r\n", the payload length in
      decimal, "\r\n", then the payload. When both lines fit the budget, the command
      and the length come out as sent, the string at `bc` ends inside the buffer, and
      the payload is left unread on the connection. */
  lemma WellFormedRequest(cmd: seq<byte>, n: nat, payload: seq<byte>, v: Variant)
    requires NUL !in cmd && forall i :: 0 <= i < |cmd| ==> !CrLfAt(cmd, i)
    requires n < SizeLimit && |cmd| + |Dec(n)| + 4 <= Budget
    ensures var s := cmd + CRLF + Dec(n) + CRLF + payload;
      RequestOf(s, v) == Request(cmd, n) && Consumed(s, v) == |s| - |payload| && Terminated(s, v)
  {
    var s := cmd + CRLF + Dec(n) + CRLF + payload;
    WellFormedEnds(cmd, n, payload, v);
    CommandBeforeDelimiter(s, v);
    LengthIsLeadingDigits(s, v);
    assert RequestOf(s, v).command == cmd;
    assert RequestOf(s, v).dataLen == n;
    WellFormedTerminated(s, |cmd|, |Dec(n)| + 2, v);
  }

  /** Where the two loops stop on a well-formed request. */
  lemma WellFormedEnds(cmd: seq<byte>, n: nat, payload: seq<byte>, v: Variant)
    requires NUL !in cmd && forall i :: 0 <= i < |cmd| ==> !CrLfAt(cmd, i)
    requires n < SizeLimit && |cmd| + |Dec(n)| + 4 <= Budget
    ensures var s := cmd + CRLF + Dec(n) + CRLF + payload;
      var e := CommandEndOf(s);
      e == Delimited(|cmd|) && s[..|cmd|] == cmd &&
      s[CommandRead(s, e)..] == Dec(n) + CRLF + payload &&
      LengthRead(s, e, v) == |Dec(n)| + 2 &&
      DigitRun(s[CommandRead(s, e)..]) == |Dec(n)| &&
      ScanSize(s[CommandRead(s, e)..]) == n &&
      s[|cmd| + 2 + |Dec(n)| + 2..] == payload
  {
    var s := cmd + CRLF + Dec(n) + CRLF + payload;
    var k := |cmd|;
    WellFormedCommand(cmd, Dec(n) + CRLF + payload);
    assert s == cmd + CRLF + (Dec(n) + CRLF + payload);
    var r := s[k + 2..];
    assert r == Dec(n) + CRLF + payload;
    WellFormedLength(n, payload);
    assert r[|Dec(n)| + 2..] == payload;
  }

  /** After a length line of m bytes that ends inside the budget, the string at `bc`
      ends at the NUL just after it. */
  lemma WellFormedTerminated(s: seq<byte>, k: nat, m: nat, v: Variant)
    requires CommandEndOf(s) == Delimited(k) && LengthRead(s, Delimited(k), v) == m
    requires k + 2 + m <= Budget
    ensures Terminated(s, v)
  {
    var e := Delimited(k);
    BufferAtShape(s, e, m);
    var t := RequestBuffer(s, e, v)[k + 2..];
    assert t[m] == NUL;
  }

  /** A command without NUL or "\r\n", followed by "\r\n", ends the first loop. */
  lemma WellFormedCommand(cmd: seq<byte>, rest: seq<byte>)
    requires NUL !in cmd && forall i :: 0 <= i < |cmd| ==> !CrLfAt(cmd, i)
    requires |cmd| + 2 <= Budget
    ensures CommandEndOf(cmd + CRLF + rest) == Delimited(|cmd|)
  {
    var s := cmd + CRLF + rest;
    var k := |cmd|;
    assert s[..k] == cmd;
    forall i | 0 <= i < k
      ensures !CrLfAt(s, i)
    {
      assert s[i] == cmd[i];
      if i + 1 < k {
        assert !CrLfAt(cmd, i);
      }
    }
    DelimitedComplete(s, k);
  }

  /** A length line as a client writes it ends two bytes after its digits, which
      scan back to the length. */
  lemma WellFormedLength(n: nat, payload: seq<byte>)
    requires n < SizeLimit
    ensures var r := Dec(n) + CRLF + payload;
      LineEnd(r) == |Dec(n)| + 2 && DigitRun(r) == |Dec(n)| && ScanSize(r) == n
  {
    var r := Dec(n) + CRLF + payload;
    var m := |Dec(n)|;
    assert r == Dec(n) + (CRLF + payload);
    assert r[..m + 2] == Dec(n) + CRLF;
    assert NUL !in r[..m + 2];
    CStrAtLeast(r, m + 2);
    forall i | 0 <= i < m
      ensures !CrLfAt(r, i)
    {
      assert r[i] == Dec(n)[i];
    }
    FirstCrLfOfString(r, m);
    DigitRunStops(Dec(n), CRLF + payload);
    ScanDec(n, CRLF + payload);
  }

  /** With no delimiter the request still runs: the command is whatever arrived before
      end of stream, and data_len is scanned from that same text. */
  lemma EndOfStreamStillRuns(s: seq<byte>, v: Variant)
    requires CommandEndOf(s) == EndOfStream
    ensures RequestOf(s, v) == Request(CStr(s), ScanSize(s))
    ensures Consumed(s, v) == |s|
  {
    EndOfStreamText(s, v);
  }

  /** At end of stream the command and the length text are both what arrived. */
  lemma EndOfStreamText(s: seq<byte>, v: Variant)
    requires Fits(s, EndOfStream)
    ensures var b := RequestBuffer(s, EndOfStream, v);
      CStr(b) == CStr(s) && ScanSize(CStr(b[LengthStart(EndOfStream)..])) == ScanSize(s)
  {
    var e := EndOfStream;
    EndOfStreamBuffer(s, v);
    PaddedText(s, BufSize - |s|);
    var b := RequestBuffer(s, e, v);
    assert b == s + Zeros(BufSize - |s|);
    assert b[LengthStart(e)..] == b;
  }

  /** At end of stream the buffer holds what arrived, then zeros. */
  lemma EndOfStreamBuffer(s: seq<byte>, v: Variant)
    requires Fits(s, EndOfStream)
    ensures RequestBuffer(s, EndOfStream, v) == s + Zeros(BufSize - |s|)
    ensures CommandRead(s, EndOfStream) + LengthRead(s, EndOfStream, v) == |s|
  {
    assert s[..|s|] == s;
  }

  /** Zeros after a text change neither its C string nor what sscanf reads from it. */
  lemma PaddedText(t: seq<byte>, z: nat)
    requires z > 0
    ensures CStr(t + Zeros(z)) == CStr(t)
    ensures ScanSize(CStr(t + Zeros(z))) == ScanSize(t)
  {
    CStrPadded(t, Zeros(z));
    ScanCStr(t + Zeros(z));
    ScanPadded(t, z);
  }

  /** For instance, a client that sends "5" and closes runs the command "5" and is
      owed 5 bytes of payload it never sends. */
  lemma EndOfStreamExample(v: Variant)
    ensures RequestOf([ZERO + 5], v) == Request([ZERO + 5], 5)
  {
    var s: seq<byte> := [ZERO + 5];
    CStrWhole(s);
    assert FindCrLf(s) == None;
    assert CommandEndOf(s) == EndOfStream;
    EndOfStreamStillRuns(s, v);
    assert s == Dec(5) + [];
    ScanDec(5, []);
  }

  // ---------------------------------------------------------------------------
  // The buffer's last byte and the spent budget

  /** As written, a 2045-byte command, its delimiter and one more byte fill buf[2047],
      the terminator the memset put there. That read spends the budget, so the second
      loop ends before its strstr runs again, but sscanf then reads the string at `bc`
      past the end of buf. */
  lemma AsWrittenOverrunsTerminator(cmd: seq<byte>, d: byte, rest: seq<byte>)
    requires |cmd| == Budget - 2 && NUL !in cmd && CR !in cmd && d != NUL
    ensures var s := cmd + CRLF + [d] + rest;
      RequestBuffer(s, CommandEndOf(s), AsWritten)[Budget] == d && !Terminated(s, AsWritten)
  {
    var s := cmd + CRLF + [d] + rest;
    var k := |cmd|;
    forall i | 0 <= i < k
      ensures !CrLfAt(cmd, i)
    {
      assert cmd[i] != CR;
    }
    WellFormedCommand(cmd, [d] + rest);
    assert s == cmd + CRLF + ([d] + rest);
    var e := Delimited(k);
    var r := s[k + 2..];
    assert r == [d] + rest;
    assert LengthRead(s, e, AsWritten) == 1;
    BufferAtShape(s, e, 1);
    assert RequestBuffer(s, e, AsWritten)[Budget..] == [d];
  }

  /** Corrected, the last byte of the buffer is never written, so the string at `bc`
      always ends inside the buffer. */
  lemma CorrectedKeepsTerminator(s: seq<byte>)
    ensures RequestBuffer(s, CommandEndOf(s), Corrected)[Budget] == NUL
    ensures Terminated(s, Corrected)
  {
    var e := CommandEndOf(s);
    var n := LengthRead(s, e, Corrected);
    var bc := LengthStart(e);
    assert bc + n <= Budget;
    BufferAtShape(s, e, n);
    var b := RequestBuffer(s, e, Corrected);
    assert b[bc..][Budget - bc] == CommandBuffer(s, e)[Budget];
  }

  /** As written, when the budget is spent without a delimiter, the length loop starts
      again at buf[0] and its one read overwrites the first byte of the command. */
  lemma AsWrittenOverwritesCommand(s: seq<byte>)
    requires CommandEndOf(s) == BudgetSpent && |s| > Budget
    ensures RequestBuffer(s, CommandEndOf(s), AsWritten)[0] == s[Budget]
    ensures Consumed(s, AsWritten) == Budget + 1
  {
    BufferAtShape(s, BudgetSpent, 1);
  }

  /** Corrected, a spent budget reads nothing more: the command is the string in the
      first 2047 bytes, unchanged. */
  lemma CorrectedKeepsCommand(s: seq<byte>)
    requires CommandEndOf(s) == BudgetSpent
    ensures RequestOf(s, Corrected).command == CStr(s[..Budget])
    ensures Consumed(s, Corrected) == Budget
  {
    var b := RequestBuffer(s, BudgetSpent, Corrected);
    assert b == s[..Budget] + Zeros(1);
    CStrPadded(s[..Budget], Zeros(1));
  }
}
