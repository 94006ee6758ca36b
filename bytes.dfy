/** Bytes as the daemon handles them: the C-string view of a buffer, the search
    for the "\r\n" delimiter, and decimal printing and scanning of integers. */
module Bytes {

  newtype byte = x: int | 0 <= x < 256

  const NUL: byte := 0
  const LF: byte := 10
  const CR: byte := 13
  const MINUS: byte := 45   // '-'
  const ZERO: byte := 48    // '0'
  const CRLF: seq<byte> := [CR, LF]

  /** One past the largest size_t value on a 64-bit host. */
  const SizeLimit: nat := 0x1_0000_0000_0000_0000

  datatype Option<T> = None | Some(value: T)

  function Min(a: int, b: int): int { if a <= b then a else b }

  function Zeros(n: nat): seq<byte>
  {
    seq(n, _ => NUL)
  }

  // ---------------------------------------------------------------------------
  // C strings

  /** What the C string functions see of a buffer: the bytes before its first NUL. */
  function CStr(s: seq<byte>): seq<byte>
  {
    if s == [] || s[0] == NUL then [] else [s[0]] + CStr(s[1..])
  }

  /** The C string is a prefix of the buffer, holds no NUL, and is followed by a NUL
      unless it runs to the end of the buffer. */
  lemma {:induction false} CStrProps(s: seq<byte>)
    ensures |CStr(s)| <= |s| && CStr(s) == s[..|CStr(s)|]
    ensures NUL !in CStr(s)
    ensures |CStr(s)| < |s| ==> s[|CStr(s)|] == NUL
  {
    if s != [] && s[0] != NUL {
      CStrProps(s[1..]);
      assert s == [s[0]] + s[1..];
    }
  }

  /** The C string of a buffer is a proper string only when the buffer holds a NUL. */
  lemma CStrWhole(s: seq<byte>)
    requires NUL !in s
    ensures CStr(s) == s
  {
  }

  /** Padding a buffer with NULs does not change the string it holds. */
  lemma CStrPadded(t: seq<byte>, u: seq<byte>)
    requires |u| > 0 && u[0] == NUL
    ensures CStr(t + u) == CStr(t)
  {
    var c := CStr(t);
    CStrProps(t);
    if |c| < |t| {
      assert (t + u)[..|c|] == c;
      CStrIsFirstNul(t + u, |c|);
    } else {
      assert c == t;
      assert (t + u)[..|t|] == t;
      CStrIsFirstNul(t + u, |t|);
    }
  }

  /** The C string ends exactly at the first NUL. */
  lemma {:induction false} CStrIsFirstNul(s: seq<byte>, k: nat)
    requires k <= |s| && NUL !in s[..k] && (k == |s| || s[k] == NUL)
    ensures CStr(s) == s[..k]
  {
    if k > 0 {
      assert s[0] == s[..k][0];
      assert s[1..][..k - 1] == s[1..k];
      CStrIsFirstNul(s[1..], k - 1);
    }
  }

  /** A buffer with no NUL among its first m bytes holds a string of at least m bytes. */
  lemma {:induction false} CStrAtLeast(s: seq<byte>, m: nat)
    requires m <= |s| && NUL !in s[..m]
    ensures |CStr(s)| >= m
  {
    if m > 0 {
      assert s[0] == s[..m][0];
      assert s[1..][..m - 1] == s[1..m] && s[1..m] == s[..m][1..];
      CStrAtLeast(s[1..], m - 1);
    }
  }

  /** Reading only the first m bytes of a buffer shows a prefix of its string. */
  lemma CStrTake(s: seq<byte>, m: nat)
    requires m <= |s|
    ensures CStr(s[..m]) == CStr(s)[..Min(m, |CStr(s)|)]
  {
    var c := CStr(s);
    CStrProps(s);
    var q := Min(m, |c|);
    assert s[..m][..q] == c[..q];
    if q < m {
      CStrIsFirstNul(s[..m], q);
    } else {
      assert NUL !in s[..m][..m];
      CStrIsFirstNul(s[..m], m);
    }
  }

  // ---------------------------------------------------------------------------
  // The "\r\n" delimiter

  predicate CrLfAt(t: seq<byte>, k: int)
  {
    0 <= k && k + 1 < |t| && t[k] == CR && t[k + 1] == LF
  }

  /** strstr(t, "\r\n") on a string t: the index of the first delimiter, if any. */
  function FindCrLf(t: seq<byte>): (r: Option<nat>)
    ensures r.Some? ==> CrLfAt(t, r.value) && forall k :: 0 <= k < r.value ==> !CrLfAt(t, k)
    ensures r.None? ==> forall k :: 0 <= k < |t| ==> !CrLfAt(t, k)
  {
    FindCrLfFrom(t, 0)
  }

  /** The first delimiter at or after index i. */
  function FindCrLfFrom(t: seq<byte>, i: nat): (r: Option<nat>)
    ensures r.Some? ==> i <= r.value && CrLfAt(t, r.value) && forall k :: i <= k < r.value ==> !CrLfAt(t, k)
    ensures r.None? ==> forall k :: i <= k < |t| ==> !CrLfAt(t, k)
    decreases |t| - i
  {
    if i + 1 >= |t| then None
    else if t[i] == CR && t[i + 1] == LF then Some(i)
    else FindCrLfFrom(t, i + 1)
  }

  /** A search over the first q bytes finds the same delimiter when it lies inside them,
      and none otherwise. */
  lemma FindCrLfTake(t: seq<byte>, q: nat)
    requires q <= |t|
    ensures FindCrLf(t[..q]) ==
      match FindCrLf(t)
      case Some(k) => if k + 2 <= q then Some(k) else None
      case None => None
  {
    var f := FindCrLf(t[..q]);
    var g := FindCrLf(t);
    if f.Some? {
      assert CrLfAt(t, f.value);
      assert g.Some? && g.value <= f.value;
      assert CrLfAt(t[..q], g.value);
    } else if g.Some? {
      assert g.value + 2 <= q ==> CrLfAt(t[..q], g.value);
    }
  }

  /** strstr over the string in the first m bytes of s, related to the string of all of s. */
  lemma FoundWithin(s: seq<byte>, m: nat)
    requires m <= |s|
    ensures FindCrLf(CStr(s[..m])) ==
      match FindCrLf(CStr(s))
      case Some(k) => if k + 2 <= m then Some(k) else None
      case None => None
  {
    var c := CStr(s);
    CStrProps(s);
    CStrTake(s, m);
    FindCrLfTake(c, Min(m, |c|));
  }

  // ---------------------------------------------------------------------------
  // Decimal numbers

  predicate IsDigit(b: byte) { ZERO <= b <= ZERO + 9 }

  predicate AllDigits(ds: seq<byte>) { forall i :: 0 <= i < |ds| ==> IsDigit(ds[i]) }

  /** A decimal numeral as printf writes it: at least one digit, no leading zero. */
  predicate Canonical(ds: seq<byte>)
  {
    |ds| >= 1 && AllDigits(ds) && (|ds| > 1 ==> ds[0] != ZERO)
  }

  function Digit(d: nat): (b: byte)
    requires d < 10
    ensures IsDigit(b) && b as int - ZERO as int == d
  {
    (ZERO as int + d) as byte
  }

  /** printf's "%zu" (and "%d" of a non-negative value). */
  function Dec(n: nat): (r: seq<byte>)
    ensures Canonical(r)
    ensures CR !in r && NUL !in r
  {
    if n < 10 then [Digit(n)] else Dec(n / 10) + [Digit(n % 10)]
  }

  /** printf's "%d". */
  function DecInt(x: int): (r: seq<byte>)
    ensures r != [] && CR !in r && NUL !in r
    ensures r[0] == MINUS <==> x < 0
  {
    if x < 0 then [MINUS] + Dec(-x) else Dec(x)
  }

  /** The value of a string of decimal digits, most significant first. */
  function DigitsValue(ds: seq<byte>): nat
    requires AllDigits(ds)
  {
    if ds == [] then 0 else DigitsValue(ds[..|ds| - 1]) * 10 + (ds[|ds| - 1] as int - ZERO as int)
  }

  lemma {:induction false} DecValue(n: nat)
    ensures DigitsValue(Dec(n)) == n
  {
    if n >= 10 {
      DecValue(n / 10);
      var ds := Dec(n);
      assert ds[..|ds| - 1] == Dec(n / 10);
    }
  }

  /** A canonical numeral is the one printf writes for its value. */
  lemma {:induction false} DecOfValue(ds: seq<byte>)
    requires Canonical(ds)
    ensures Dec(DigitsValue(ds)) == ds
  {
    var n := DigitsValue(ds);
    var last := ds[|ds| - 1] as int - ZERO as int;
    if |ds| == 1 {
      assert ds[..0] == [];
    } else {
      var init := ds[..|ds| - 1];
      assert Canonical(init) by { assert init[0] == ds[0]; }
      DecOfValue(init);
      var v := DigitsValue(init);
      assert v > 0 by {
        assert Dec(0) == [ZERO];
        assert init[0] != ZERO;
      }
      assert n / 10 == v && n % 10 == last;
      assert ds == init + [ds[|ds| - 1]];
    }
  }

  function Pow10(k: nat): (r: nat)
    ensures r >= 1
  {
    if k == 0 then 1 else 10 * Pow10(k - 1)
  }

  /** A number below 10^k prints in at most k digits. */
  lemma {:induction false} DecLength(n: nat, k: nat)
    requires 1 <= k && n < Pow10(k)
    ensures |Dec(n)| <= k
  {
    if n >= 10 {
      DecLength(n / 10, k - 1);
    }
  }

  /** size_t values print in at most 20 digits. */
  lemma DecSizeLength(n: nat)
    requires n < SizeLimit
    ensures |Dec(n)| <= 20
  {
    assert Pow10(20) == 100_000_000_000_000_000_000 by {
      assert Pow10(4) == 10_000;
      assert Pow10(8) == 100_000_000;
      assert Pow10(12) == 1_000_000_000_000;
      assert Pow10(16) == 10_000_000_000_000_000;
    }
    DecLength(n, 20);
  }

  /** int values print in at most 11 characters. */
  lemma DecIntLength(x: int)
    requires -0x8000_0000 <= x < 0x8000_0000
    ensures |DecInt(x)| <= 11
  {
    assert Pow10(10) == 10_000_000_000 by {
      assert Pow10(5) == 100_000;
    }
    if x < 0 { DecLength(-x, 10); } else { DecLength(x, 10); }
  }

  /** Length of the run of digits at the front of s. */
  function DigitRun(s: seq<byte>): (n: nat)
    ensures n <= |s| && AllDigits(s[..n]) && (n < |s| ==> !IsDigit(s[n]))
  {
    if s == [] || !IsDigit(s[0]) then 0 else 1 + DigitRun(s[1..])
  }

  /** sscanf(s, "%zu", &v) with v preset to 0: the value of the leading digits of the
      string, 0 when it does not start with a digit, saturated at SIZE_MAX. */
  function ScanSize(s: seq<byte>): (v: nat)
    ensures v < SizeLimit
  {
    var n := DigitRun(s);
    var d := DigitsValue(s[..n]);
    if d < SizeLimit then d else SizeLimit - 1
  }

  /** A length line as a client writes it scans back to its value. */
  lemma ScanDec(n: nat, rest: seq<byte>)
    requires n < SizeLimit
    requires rest == [] || !IsDigit(rest[0])
    ensures ScanSize(Dec(n) + rest) == n
  {
    var t := Dec(n) + rest;
    DigitRunStops(Dec(n), rest);
    assert t[..|Dec(n)|] == Dec(n);
    DecValue(n);
  }

  /** The digit run ends where the digits end. */
  lemma {:induction false} DigitRunStops(ds: seq<byte>, rest: seq<byte>)
    requires AllDigits(ds)
    requires rest == [] || !IsDigit(rest[0])
    ensures DigitRun(ds + rest) == |ds|
  {
    if ds != [] {
      assert (ds + rest)[1..] == ds[1..] + rest;
      DigitRunStops(ds[1..], rest);
    } else {
      assert ds + rest == rest;
    }
  }

  /** sscanf reads the same from u as from t when u repeats t's leading digits and
      has no further digit right after them. */
  lemma ScanPrefix(t: seq<byte>, u: seq<byte>, d: nat)
    requires d == DigitRun(t) && d <= |u| && t[..d] == u[..d]
    requires d == |u| || !IsDigit(u[d])
    ensures ScanSize(u) == ScanSize(t)
  {
    DigitRunStops(u[..d], u[d..]);
    assert u == u[..d] + u[d..];
  }

  /** sscanf stops at the string's NUL, which is not a digit. */
  lemma ScanCStr(t: seq<byte>)
    ensures ScanSize(CStr(t)) == ScanSize(t)
  {
    var c := CStr(t);
    var d := DigitRun(t);
    CStrProps(t);
    assert NUL !in t[..d] by {
      assert forall i :: 0 <= i < d ==> IsDigit(t[..d][i]);
    }
    CStrAtLeast(t, d);
    assert c[..d] == t[..d];
    ScanPrefix(t, c, d);
  }

  /** Zeros after a text do not change what sscanf reads from it. */
  lemma ScanPadded(r: seq<byte>, z: nat)
    ensures ScanSize(r + Zeros(z)) == ScanSize(r)
  {
    var t := r + Zeros(z);
    var d := DigitRun(r);
    assert t[..d] == r[..d];
    ScanPrefix(r, t, d);
  }
}
