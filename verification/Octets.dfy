/** Bytes, fixed-width integers and decimal numerals as the archive and
    object formats store them. */
module Octets {

  type Byte = b: int | 0 <= b < 256
  type Bytes = seq<Byte>

  const NUL: Byte := 0
  const NEWLINE: Byte := 10
  const SPACE: Byte := 32
  const HASH: Byte := 35
  const SLASH: Byte := 47
  const ONE: Byte := 49
  const BACKSLASH: Byte := 92
  const BACKQUOTE: Byte := 96

  datatype Option<+T> = None | Some(value: T)

  function Repeat(b: Byte, n: nat): (r: Bytes)
    ensures |r| == n
    ensures forall i :: 0 <= i < n ==> r[i] == b
  {
    seq(n, _ => b)
  }

  /** The octets of a text in ASCII. */
  function Ascii(text: string): (r: Bytes)
    ensures |r| == |text| && forall i :: 0 <= i < |text| && text[i] as int < 128 ==> r[i] == text[i] as int
  {
    seq(|text|, i requires 0 <= i < |text| => if text[i] as int < 128 then text[i] as int else 0)
  }

  function Min(a: int, b: int): int { if a <= b then a else b }

  // ----- reading at a position -----------------------------------------------

  /** The bytes s stand at position p of f. */
  predicate At(f: Bytes, p: int, s: Bytes)
  {
    0 <= p && p + |s| <= |f| && f[p..p + |s|] == s
  }

  lemma AtJoin(f: Bytes, p: int, a: Bytes, b: Bytes)
    ensures At(f, p, a + b) <==> At(f, p, a) && At(f, p + |a|, b)
  {
    if 0 <= p && p + |a| + |b| <= |f| {
      var whole := f[p..p + |a| + |b|];
      assert f[p..p + |a|] == whole[..|a|];
      assert f[p + |a|..p + |a| + |b|] == whole[|a|..];
      assert whole == whole[..|a|] + whole[|a|..];
      assert (a + b)[..|a|] == a && (a + b)[|a|..] == b;
    }
  }

  lemma AtFour(f: Bytes, p: int, a: Bytes, b: Bytes, c: Bytes, d: Bytes)
    requires At(f, p, a + b + c + d)
    ensures At(f, p, a) && At(f, p + |a|, b) && At(f, p + |a| + |b|, c + d)
  {
    assert a + b + c + d == a + (b + (c + d));
    AtJoin(f, p, a, b + (c + d));
    AtJoin(f, p + |a|, b, c + d);
  }

  // ----- fixed-width integers ------------------------------------------------

  function Pow256(n: nat): (r: nat)
    ensures r >= 1
  {
    if n == 0 then 1 else 256 * Pow256(n - 1)
  }

  datatype Endian = Big | Little

  /** The n low-order octets of v. */
  function Put(e: Endian, n: nat, v: nat): (r: Bytes)
    ensures |r| == n
  {
    if n == 0 then []
    else if e.Big? then Put(e, n - 1, v / 256) + [v % 256]
    else [v % 256] + Put(e, n - 1, v / 256)
  }

  function Get(e: Endian, s: Bytes): nat
  {
    if s == [] then 0
    else if e.Big? then 256 * Get(e, s[..|s| - 1]) + s[|s| - 1]
    else s[0] + 256 * Get(e, s[1..])
  }

  lemma {:induction false} GetBound(e: Endian, s: Bytes)
    ensures Get(e, s) < Pow256(|s|)
  {
    if s != [] {
      GetBound(e, s[..|s| - 1]);
      GetBound(e, s[1..]);
    }
  }

  lemma {:induction false} GetPut(e: Endian, n: nat, v: nat)
    requires v < Pow256(n)
    ensures Get(e, Put(e, n, v)) == v
  {
    if n > 0 {
      GetPut(e, n - 1, v / 256);
      var r, front := Put(e, n, v), Put(e, n - 1, v / 256);
      if e.Big? {
        assert r == front + [v % 256] && r[..|r| - 1] == front;
      } else {
        assert r == [v % 256] + front && r[1..] == front;
      }
    }
  }

  lemma Pow256Values()
    ensures Pow256(4) == 0x1_0000_0000
    ensures Pow256(8) == 0x1_0000_0000_0000_0000
  {
    assert Pow256(2) == 65536;
    assert Pow256(4) == 65536 * 65536;
    assert Pow256(6) == 65536 * 65536 * 65536;
  }

  // ----- decimal numerals ----------------------------------------------------

  predicate IsDigit(b: Byte) { 48 <= b <= 57 }

  predicate AllDigits(s: Bytes) { forall i :: 0 <= i < |s| ==> IsDigit(s[i]) }

  function Pow10(n: nat): (r: nat)
    ensures r >= 1
  {
    if n == 0 then 1 else 10 * Pow10(n - 1)
  }

  /** The numeral printf's %ld writes for a non-negative value. */
  function Decimal(n: nat): (r: Bytes)
    ensures |r| >= 1
  {
    if n < 10 then [48 + n] else Decimal(n / 10) + [48 + n % 10]
  }

  lemma {:induction false} DecimalDigits(n: nat)
    ensures AllDigits(Decimal(n))
  {
    if n >= 10 {
      DecimalDigits(n / 10);
    }
  }

  function DecimalValue(s: Bytes): int
  {
    if s == [] then 0 else 10 * DecimalValue(s[..|s| - 1]) + (s[|s| - 1] as int - 48)
  }

  lemma {:induction false} DecimalBound(s: Bytes, n: nat)
    requires AllDigits(s) && |s| <= n
    ensures 0 <= DecimalValue(s) < Pow10(n)
  {
    if s != [] {
      DecimalBound(s[..|s| - 1], n - 1);
    }
  }

  lemma {:induction false} DecimalRoundTrip(n: nat)
    ensures DecimalValue(Decimal(n)) == n
  {
    var d := Decimal(n);
    if n >= 10 {
      DecimalRoundTrip(n / 10);
      assert d[..|d| - 1] == Decimal(n / 10);
    } else {
      assert d[..0] == [];
    }
  }

  /** How many octets a numeral takes: at most k exactly when n < 10^k. */
  lemma {:induction false} DecimalLength(n: nat, k: nat)
    requires k >= 1
    ensures |Decimal(n)| <= k <==> n < Pow10(k)
  {
    if k == 1 {
      assert Pow10(1) == 10;
    } else if n >= 10 {
      DecimalLength(n / 10, k - 1);
    } else {
      assert Pow10(k) == 10 * Pow10(k - 1);
      assert n < Pow10(k);
    }
  }

  /** Length of the run of digits that s starts with. */
  function DigitRun(s: Bytes): (k: nat)
    ensures k <= |s|
  {
    if s == [] || !IsDigit(s[0]) then 0 else DigitRun(s[1..]) + 1
  }

  lemma {:induction false} DigitRunDigits(s: Bytes)
    ensures AllDigits(s[..DigitRun(s)])
  {
    if s != [] && IsDigit(s[0]) {
      DigitRunDigits(s[1..]);
      assert s[..DigitRun(s)] == [s[0]] + s[1..][..DigitRun(s[1..])];
    }
  }

  predicate IsWhite(b: Byte) { b == 32 || 9 <= b <= 13 }

  function SkipWhite(s: Bytes): (r: Bytes)
    ensures |r| <= |s|
  {
    if s != [] && IsWhite(s[0]) then SkipWhite(s[1..]) else s
  }

  /** What strtol and sscanf make of the front of s: white space, an optional
      sign, digits.  None when there is no digit. */
  function ScanNumber(s: Bytes): Option<int>
  {
    var t := SkipWhite(s);
    var neg := t != [] && t[0] == 45;
    var u := if t != [] && (t[0] == 45 || t[0] == 43) then t[1..] else t;
    var k := DigitRun(u);
    var v: int := DecimalValue(u[..k]);
    if k == 0 then None else Some(if neg then -v else v)
  }

  lemma ScanBound(s: Bytes)
    ensures ScanNumber(s).Some? ==> 0 - Pow10(|s|) < ScanNumber(s).value < Pow10(|s|)
  {
    var t := SkipWhite(s);
    var u := if t != [] && (t[0] == 45 || t[0] == 43) then t[1..] else t;
    DigitRunDigits(u);
    DecimalBound(u[..DigitRun(u)], |s|);
  }

  /** Where strtol stops (its endp): after the digits, or at the start of s when
      there are none. */
  function ScanRest(s: Bytes): Bytes
  {
    var t := SkipWhite(s);
    var u := if t != [] && (t[0] == 45 || t[0] == 43) then t[1..] else t;
    if DigitRun(u) == 0 then s else u[DigitRun(u)..]
  }

  lemma {:induction false} DigitRunOfNumeral(d: Bytes, rest: Bytes)
    requires AllDigits(d)
    requires rest == [] || !IsDigit(rest[0])
    ensures DigitRun(d + rest) == |d|
  {
    if d == [] {
      assert d + rest == rest;
    } else {
      DigitRunOfNumeral(d[1..], rest);
      assert (d + rest)[1..] == d[1..] + rest;
    }
  }

  /** A printed number followed by a non-digit scans back to itself. */
  lemma ScanDecimal(n: nat, rest: Bytes)
    requires rest == [] || !IsDigit(rest[0])
    ensures ScanNumber(Decimal(n) + rest) == Some(n)
    ensures ScanRest(Decimal(n) + rest) == rest
  {
    var d := Decimal(n);
    var s := d + rest;
    DecimalDigits(n);
    assert IsDigit(s[0]) by { assert s[0] == d[0]; }
    assert SkipWhite(s) == s;
    DigitRunOfNumeral(d, rest);
    assert s[..|d|] == d;
    DecimalRoundTrip(n);
  }

  // ----- C strings ---------------------------------------------------------

  predicate NoNul(s: Bytes) { NUL !in s }

  /** strlen: the distance to the first NUL, or to the end of s. */
  function StrLen(s: Bytes): (k: nat)
    ensures k <= |s|
  {
    if s == [] || s[0] == NUL then 0 else StrLen(s[1..]) + 1
  }

  function CString(s: Bytes): Bytes { s[..StrLen(s)] }

  lemma {:induction false} CStringOf(name: Bytes, rest: Bytes)
    requires NoNul(name)
    requires rest == [] || rest[0] == NUL
    ensures StrLen(name + rest) == |name|
    ensures CString(name + rest) == name
  {
    if name == [] {
      assert name + rest == rest;
    } else {
      CStringOf(name[1..], rest);
      assert (name + rest)[1..] == name[1..] + rest;
      assert (name + rest)[..|name|] == name;
    }
  }
}
