/** Archive symbol maps: the COFF, BSD and 64-bit forms as one specification of
    (name, member offset) pairs, and the readers that give the pairs back
    (binutils/bfd/archive.c, binutils/bfd/archive64.c). */
module Armap {
  import opened Octets
  import opened ArHeader

  /** A carsym. */
  datatype Entry = Entry(name: Bytes, offset: nat)

  predicate ValidEntry(w: nat, e: Entry) { NoNul(e.name) && e.offset < Pow256(w) }

  predicate ValidEntries(w: nat, es: seq<Entry>)
  {
    forall i :: 0 <= i < |es| ==> ValidEntry(w, es[i])
  }

  function Even(p: nat): (r: nat)
    ensures r % 2 == 0 && p <= r <= p + 1
  {
    p + p % 2
  }

  // ----- images --------------------------------------------------------------

  /** The names of the first k entries, each closed by a NUL. */
  function StringsUpto(es: seq<Entry>, k: nat): Bytes
    requires k <= |es|
  {
    if k == 0 then [] else StringsUpto(es, k - 1) + es[k - 1].name + [NUL]
  }

  function Strings(es: seq<Entry>): Bytes { StringsUpto(es, |es|) }

  /** The offsets of the first k entries, w octets each, big-endian. */
  function OffsetsUpto(w: nat, es: seq<Entry>, k: nat): (r: Bytes)
    requires k <= |es|
    ensures |r| == w * k
  {
    if k == 0 then [] else OffsetsUpto(w, es, k - 1) + Put(Big, w, es[k - 1].offset)
  }

  /** BFD_ALIGN (size, 8). */
  function Align8(size: nat): (r: nat)
    ensures size <= r < size + 8
  {
    8 * ((size + 7) / 8)
  }

  lemma TwiceIsEven(y: nat)
    ensures 2 * y % 2 == 0
  {
  }

  lemma Align8Even(size: nat, end: nat)
    requires end == Align8(size)
    ensures end % 2 == 0 && size <= end < size + 8
  {
    var q := (size + 7) / 8;
    assert end == 2 * (4 * q);
    TwiceIsEven(4 * q);
  }

  /** How far a map is padded: to 2 with 4-octet offsets, to 8 with 8. */
  function Padding(w: nat, size: nat): (r: nat)
    ensures (size + r) % 2 == 0 && r < 8
  {
    if w == 8 then
      var end := Align8(size);
      Align8Even(size, end);
      end - size
    else
      assert Even(size) == size + size % 2;
      size % 2
  }

  function BodySize(w: nat, count: nat, stridx: nat): nat
  {
    var size := w + w * count + stridx;
    size + Padding(w, size)
  }

  function Tail(w: nat, es: seq<Entry>): Bytes
  {
    Repeat(NUL, Padding(w, w + w * |es| + |Strings(es)|))
  }

  /** A COFF (w == 4) or 64-bit (w == 8) map. */
  function Body(w: nat, es: seq<Entry>): (r: Bytes)
    ensures |r| == BodySize(w, |es|, |Strings(es)|)
  {
    Put(Big, w, |es|) + OffsetsUpto(w, es, |es|) + Strings(es) + Tail(w, es)
  }

  function Pair(e: Endian, es: seq<Entry>, i: nat): (r: Bytes)
    requires i < |es|
    ensures |r| == 8
  {
    Put(e, 4, |StringsUpto(es, i)|) + Put(e, 4, es[i].offset)
  }

  function PairsUpto(e: Endian, es: seq<Entry>, k: nat): (r: Bytes)
    requires k <= |es|
    ensures |r| == 8 * k
  {
    if k == 0 then [] else PairsUpto(e, es, k - 1) + Pair(e, es, k - 1)
  }

  function BsdBodySize(count: nat, stridx: nat): nat { 8 * count + Even(stridx) + 8 }

  /** A BSD map: (name index, offset) pairs, then the names. */
  function BsdBody(e: Endian, es: seq<Entry>): (r: Bytes)
    ensures |r| == BsdBodySize(|es|, |Strings(es)|)
  {
    Put(e, 4, 8 * |es|) + PairsUpto(e, es, |es|) + Put(e, 4, Even(|Strings(es)|))
      + Strings(es) + Repeat(NUL, |Strings(es)| % 2)
  }

  /** A map as a member of the archive. */
  function MapMember(name: Bytes, misc: Bytes, body: Bytes): (r: Bytes)
    requires |name| == 16 && |misc| == 32 && SizePad(10, |body|).Some?
    ensures |r| == HDR + |body|
  {
    Image(name, misc, SizePad(10, |body|).value) + body
  }

  const COFF_NAME: Bytes := [SLASH] + Repeat(SPACE, 15)
  const WIDE_NAME: Bytes := [SLASH, 83, 89, 77, 54, 52, SLASH] + Repeat(SPACE, 9)
  const BSD_NAME: Bytes := [95, 95, 46, 83, 89, 77, 68, 69, 70] + Repeat(SPACE, 7)

  // ----- where things stand in the images ------------------------------------

  lemma {:induction false} OffsetAt(w: nat, es: seq<Entry>, n: nat, i: nat)
    requires i < n <= |es|
    ensures w * i + w <= w * n
    ensures OffsetsUpto(w, es, n)[w * i..w * i + w] == Put(Big, w, es[i].offset)
  {
    var t := OffsetsUpto(w, es, n - 1);
    if i < n - 1 {
      OffsetAt(w, es, n - 1, i);
      assert (t + Put(Big, w, es[n - 1].offset))[w * i..w * i + w] == t[w * i..w * i + w];
    } else {
      assert w * i == |t|;
    }
  }

  lemma {:induction false} PairAt(e: Endian, es: seq<Entry>, n: nat, i: nat)
    requires i < n <= |es|
    ensures PairsUpto(e, es, n)[8 * i..8 * i + 8] == Pair(e, es, i)
  {
    var p := PairsUpto(e, es, n - 1);
    if i < n - 1 {
      PairAt(e, es, n - 1, i);
      assert (p + Pair(e, es, n - 1))[8 * i..8 * i + 8] == p[8 * i..8 * i + 8];
    }
  }

  lemma PairSlots(e: Endian, es: seq<Entry>, i: nat)
    requires i < |es|
    ensures Slot(4, PairsUpto(e, es, |es|), 2 * i) == Put(e, 4, |StringsUpto(es, i)|)
    ensures Slot(4, PairsUpto(e, es, |es|), 2 * i + 1) == Put(e, 4, es[i].offset)
  {
    var t := PairsUpto(e, es, |es|);
    PairAt(e, es, |es|, i);
    assert 4 * (2 * i) == 8 * i && 4 * (2 * i + 1) == 8 * i + 4;
    Halves(t, 8 * i, Put(e, 4, |StringsUpto(es, i)|), Put(e, 4, es[i].offset));
  }

  lemma Halves(t: Bytes, p: nat, a: Bytes, b: Bytes)
    requires |a| == |b| == 4 && p + 8 <= |t| && t[p..p + 8] == a + b
    ensures t[p..p + 4] == a && t[p + 4..p + 8] == b
  {
    assert t[p..p + 4] == t[p..p + 8][..4];
    assert t[p + 4..p + 8] == t[p..p + 8][4..];
  }

  lemma {:induction false} StringsGrow(es: seq<Entry>, j: nat, k: nat)
    requires j <= k <= |es|
    ensures |StringsUpto(es, j)| + (k - j) <= |StringsUpto(es, k)|
    ensures StringsUpto(es, k)[..|StringsUpto(es, j)|] == StringsUpto(es, j)
    decreases k
  {
    if j < k {
      StringsGrow(es, j, k - 1);
      var t := StringsUpto(es, k - 1);
      assert StringsUpto(es, k) == t + (es[k - 1].name + [NUL]);
      assert StringsUpto(es, k)[..|StringsUpto(es, j)|] == t[..|StringsUpto(es, j)|];
    }
  }

  /** The i-th name, read as a C string from where it starts. */
  lemma {:induction false} NameAt(w: nat, es: seq<Entry>, i: nat, tail: Bytes)
    requires ValidEntries(w, es) && i < |es|
    ensures |StringsUpto(es, i)| + |es[i].name| < |Strings(es)|
    ensures StrLen((Strings(es) + tail)[|StringsUpto(es, i)|..]) == |es[i].name|
    ensures CString((Strings(es) + tail)[|StringsUpto(es, i)|..]) == es[i].name
  {
    StringsGrow(es, i, i + 1);
    StringsGrow(es, i + 1, |es|);
    var p, q := |StringsUpto(es, i)|, |StringsUpto(es, i + 1)|;
    var s := Strings(es) + tail;
    assert s[..q] == Strings(es)[..q] == StringsUpto(es, i + 1);
    var after := [NUL] + s[q..];
    assert s == s[..q] + s[q..];
    assert s == StringsUpto(es, i) + (es[i].name + after);
    assert s[p..] == es[i].name + after;
    CStringOf(es[i].name, after);
  }

  // ----- the name walk -------------------------------------------------------

  /** Where the i-th name starts for a reader that steps over one NUL a turn and
      never past the end. */
  function WalkPos(s: Bytes, i: nat): (p: nat)
    ensures p <= |s|
  {
    if i == 0 then 0 else WalkNext(s, WalkPos(s, i - 1))
  }

  function WalkNext(s: Bytes, p: nat): (r: nat)
    requires p <= |s|
    ensures p <= r <= |s|
    ensures r == p ==> p == |s|
  {
    var e := p + StrLen(s[p..]);
    if e != |s| then e + 1 else e
  }

  lemma {:induction false} WalkFindsNames(w: nat, es: seq<Entry>, i: nat, tail: Bytes)
    requires ValidEntries(w, es) && i <= |es|
    ensures WalkPos(Strings(es) + tail, i) == |StringsUpto(es, i)|
  {
    if i > 0 {
      WalkFindsNames(w, es, i - 1, tail);
      NameAt(w, es, i - 1, tail);
    }
  }

  /** The i-th of the w-octet fields of raw. */
  function Slot(w: nat, raw: Bytes, i: nat): Bytes
  {
    if 0 <= w * i <= w * i + w <= |raw| then raw[w * i..w * i + w] else []
  }

  function SymbolAt(w: nat, raw: Bytes, strings: Bytes, i: nat): Entry
  {
    Entry(CString(strings[WalkPos(strings, i)..]), Get(Big, Slot(w, raw, i)))
  }

  /** The carsyms the readers build from n raw offsets and the string area. */
  function Symbols(w: nat, raw: Bytes, strings: Bytes, n: nat): (r: seq<Entry>)
    ensures |r| == n
  {
    if n == 0 then [] else Symbols(w, raw, strings, n - 1) + [SymbolAt(w, raw, strings, n - 1)]
  }

  /** The loop that builds the carsyms; the name pointer stays inside the string
      area or at its end, whatever the bytes are. */
  method BuildSymbols(w: nat, raw: Bytes, strings: Bytes, n: nat) returns (syms: seq<Entry>)
    requires |raw| == w * n
    ensures syms == Symbols(w, raw, strings, n)
  {
    syms := [];
    var stringbase := 0;
    for i := 0 to n
      invariant stringbase == WalkPos(strings, i) <= |strings|
      invariant syms == Symbols(w, raw, strings, i)
    {
      var sym;
      sym, stringbase := NextSymbol(w, raw, strings, i, stringbase);
      syms := syms + [sym];
    }
  }

  method NextSymbol(w: nat, raw: Bytes, strings: Bytes, i: nat, stringbase: nat) returns (sym: Entry, next: nat)
    requires stringbase == WalkPos(strings, i)
    ensures sym == SymbolAt(w, raw, strings, i)
    ensures next == WalkPos(strings, i + 1)
  {
    var len := StrLen(strings[stringbase..]);
    sym := Entry(strings[stringbase..][..len], Get(Big, Slot(w, raw, i)));
    next := stringbase + len;
    if next != |strings| {
      next := next + 1;
    }
  }

  /** A map's offsets and strings give its entries back. */
  lemma SymbolsOfBody(w: nat, es: seq<Entry>, tail: Bytes)
    requires ValidEntries(w, es)
    ensures Symbols(w, OffsetsUpto(w, es, |es|), Strings(es) + tail, |es|) == es
  {
    var raw, strings := OffsetsUpto(w, es, |es|), Strings(es) + tail;
    forall i | 0 <= i < |es|
      ensures SymbolAt(w, raw, strings, i) == es[i]
    {
      WalkFindsNames(w, es, i, tail);
      NameAt(w, es, i, tail);
      SlotOfOffsets(w, es, i);
    }
    SymbolsPointwise(w, raw, strings, es, |es|);
  }

  lemma SnocIs(r: seq<Entry>, x: Entry, es: seq<Entry>, n: nat)
    requires 0 < n <= |es| && r == es[..n - 1] && x == es[n - 1]
    ensures r + [x] == es[..n]
  {
  }

  lemma SymbolsStep(w: nat, raw: Bytes, strings: Bytes, n: nat)
    requires n > 0
    ensures Symbols(w, raw, strings, n) == Symbols(w, raw, strings, n - 1) + [SymbolAt(w, raw, strings, n - 1)]
  {
  }

  lemma {:induction false} SymbolsPointwise(w: nat, raw: Bytes, strings: Bytes, es: seq<Entry>, n: nat)
    requires n <= |es| && forall i :: 0 <= i < |es| ==> SymbolAt(w, raw, strings, i) == es[i]
    ensures Symbols(w, raw, strings, n) == es[..n]
  {
    if n > 0 {
      SymbolsPointwise(w, raw, strings, es, n - 1);
      SymbolsStep(w, raw, strings, n);
      SnocIs(Symbols(w, raw, strings, n - 1), SymbolAt(w, raw, strings, n - 1), es, n);
    }
  }

  lemma SlotOfOffsets(w: nat, es: seq<Entry>, i: nat)
    requires ValidEntries(w, es) && i < |es|
    ensures Get(Big, Slot(w, OffsetsUpto(w, es, |es|), i)) == es[i].offset
  {
    OffsetAt(w, es, |es|, i);
    assert 0 <= w * i;
    assert ValidEntry(w, es[i]);
    GetPut(Big, w, es[i].offset);
  }

  // ----- the 64-bit reader's overflow checks ---------------------------------

  function Wrap(x: int): (r: nat)
    ensures r < TWO64
  {
    x % TWO64
  }

  /** The test archive64.c makes before it allocates, in 64-bit arithmetic; a
      carsym is 16 octets. */
  predicate WideRejects(parsed: nat, n: nat)
    requires parsed < TWO64 && n < TWO64
  {
    var stringsize := Wrap(parsed - Wrap(8 * n) - 8);
    var carsymSize := Wrap(16 * n);
    var amt := Wrap(carsymSize + stringsize + 1);
    || n >= (TWO64 - 1) / 8
    || stringsize > parsed
    || n > (TWO64 - 1) / 16
    || amt <= carsymSize
    || amt <= stringsize
  }

  /** A remainder by its defining property. */
  lemma WrapIs(x: int, q: int, r: nat)
    requires x == q * TWO64 + r && r < TWO64
    ensures Wrap(x) == r
  {
  }

  /** The test is exact: it passes if and only if, over the integers, the offsets
      and the count fit in the member and the allocation size fits in 64 bits. */
  lemma WideChecksExact(parsed: nat, n: nat)
    requires parsed < TWO64 && n < TWO64
    ensures !WideRejects(parsed, n)
      <==> 8 * n + 8 <= parsed && 16 * n + (parsed - 8 * n - 8) + 1 < TWO64
  {
    if n < (TWO64 - 1) / 8 && n <= (TWO64 - 1) / 16 {
      WrapIs(8 * n, 0, 8 * n);
      WrapIs(16 * n, 0, 16 * n);
      if 8 * n + 8 <= parsed {
        var stringsize := parsed - 8 * n - 8;
        WrapIs(stringsize, 0, stringsize);
        if 16 * n + stringsize + 1 < TWO64 {
          WrapIs(16 * n + stringsize + 1, 0, 16 * n + stringsize + 1);
        } else {
          WrapIs(16 * n + stringsize + 1, 1, 16 * n + stringsize + 1 - TWO64);
        }
      } else {
        WrapIs(parsed - 8 * n - 8, -1, parsed - 8 * n - 8 + TWO64);
      }
    }
  }

  // ----- the readers ---------------------------------------------------------

  /** The part the COFF and 64-bit readers share, on the octets of the member: n
      offsets of w octets after the count, then the strings. */
  function ReadMap(w: nat, body: Bytes, n: nat): seq<Entry>
    requires w + w * n <= |body| && w <= w + w * n
  {
    Symbols(w, body[w..w + w * n], body[w + w * n..], n)
  }

  /** do_slurp_coff_armap. */
  function ParseCoff(body: Bytes): Result<seq<Entry>>
  {
    if |body| < 4 then Err(Malformed)
    else
      var n := Get(Big, body[..4]);
      if |body| - 4 < 4 * n then Err(Malformed) else Ok(ReadMap(4, body, n))
  }

  /** _bfd_archive_64_bit_slurp_armap. */
  function ParseWide(body: Bytes): Result<seq<Entry>>
    requires |body| < TWO64
  {
    if |body| < 8 then Err(Malformed)
    else
      var n := Get(Big, body[..8]);
      GetBound(Big, body[..8]);
      Pow256Values();
      WideChecksExact(|body|, n);
      if WideRejects(|body|, n) then Err(Malformed) else Ok(ReadMap(8, body, n))
  }

  /** One BSD symdef: None when the name index is outside the strings. */
  function BsdSymbolAt(e: Endian, raw: Bytes, strings: Bytes, i: nat): Option<Entry>
  {
    var nameoff := Get(e, Slot(4, raw, 2 * i));
    if nameoff >= |strings| then None
    else Some(Entry(CString(strings[nameoff..]), Get(e, Slot(4, raw, 2 * i + 1))))
  }

  predicate BsdInside(e: Endian, raw: Bytes, strings: Bytes, n: nat)
  {
    forall i :: 0 <= i < n ==> BsdSymbolAt(e, raw, strings, i).Some?
  }

  /** All the symdefs, or None when some name index is outside the strings. */
  function BsdSymbols(e: Endian, raw: Bytes, strings: Bytes, n: nat): (r: Option<seq<Entry>>)
  {
    if BsdInside(e, raw, strings, n) then
      Some(seq(n, i requires 0 <= i < n => BsdSymbolAt(e, raw, strings, i).value))
    else None
  }

  /** The loop of do_slurp_bsd_armap. */
  method BuildBsdSymbols(e: Endian, raw: Bytes, strings: Bytes, n: nat) returns (r: Option<seq<Entry>>)
    requires 8 * n <= |raw|
    ensures r == BsdSymbols(e, raw, strings, n)
  {
    var syms := [];
    for counter := 0 to n
      invariant |syms| == counter
      invariant forall i :: 0 <= i < counter ==> BsdSymbolAt(e, raw, strings, i) == Some(syms[i])
    {
      var sym := BsdSymbolAt(e, raw, strings, counter);
      if sym.None? {
        return None;
      }
      syms := syms + [sym.value];
    }
    BsdSymbolsPointwise(e, raw, strings, syms);
    r := Some(syms);
  }

  /** do_slurp_bsd_armap; e is the target's byte order. */
  function ParseBsd(e: Endian, body: Bytes): Result<seq<Entry>>
  {
    if |body| < 8 then Err(Malformed)
    else
      var amt := Get(e, body[..4]);
      if amt > |body| - 8 || amt % 8 != 0 then Err(WrongFormat)
      else
        Found(BsdSymbols(e, body[4..4 + amt], body[8 + amt..], amt / 8))
  }

  function Found(syms: Option<seq<Entry>>): Result<seq<Entry>>
  {
    if syms.None? then Err(Malformed) else Ok(syms.value)
  }

  // ----- round trips ---------------------------------------------------------

  lemma BodyParts(w: nat, es: seq<Entry>)
    ensures w + w * |es| <= |Body(w, es)| && w <= w + w * |es|
    ensures Body(w, es)[..w] == Put(Big, w, |es|)
    ensures Body(w, es)[w..w + w * |es|] == OffsetsUpto(w, es, |es|)
    ensures Body(w, es)[w + w * |es|..] == Strings(es) + Tail(w, es)
  {
    FourParts(Put(Big, w, |es|), OffsetsUpto(w, es, |es|), Strings(es), Tail(w, es));
  }

  lemma FourParts(a: Bytes, b: Bytes, c: Bytes, d: Bytes)
    ensures var s := a + b + c + d;
      s[..|a|] == a && s[|a|..|a| + |b|] == b && s[|a| + |b|..] == c + d
  {
  }

  lemma ReadMapOfBody(w: nat, es: seq<Entry>)
    requires ValidEntries(w, es)
    ensures w + w * |es| <= |Body(w, es)| && w <= w + w * |es|
    ensures ReadMap(w, Body(w, es), |es|) == es
  {
    BodyParts(w, es);
    SymbolsOfBody(w, es, Tail(w, es));
  }

  /** A COFF map is read back entry for entry. */
  lemma CoffRoundTrip(es: seq<Entry>)
    requires ValidEntries(4, es) && |es| < TWO32
    ensures ParseCoff(Body(4, es)) == Ok(es)
  {
    BodyParts(4, es);
    Pow256Values();
    GetPut(Big, 4, |es|);
    ReadMapOfBody(4, es);
  }

  /** So is a 64-bit one, its checks included. */
  lemma WideRoundTrip(es: seq<Entry>)
    requires ValidEntries(8, es) && 8 * |es| + |Body(8, es)| < TWO64
    ensures ParseWide(Body(8, es)) == Ok(es)
  {
    BodyParts(8, es);
    Pow256Values();
    GetPut(Big, 8, |es|);
    WideChecksExact(|Body(8, es)|, |es|);
    ReadMapOfBody(8, es);
  }

  lemma BsdBodyParts(e: Endian, es: seq<Entry>, body: Bytes, raw: Bytes, strings: Bytes)
    requires body == BsdBody(e, es) && raw == PairsUpto(e, es, |es|)
    requires strings == Strings(es) + Repeat(NUL, |Strings(es)| % 2)
    ensures 8 + 8 * |es| <= |body| && |Strings(es)| <= |body|
    ensures body[..4] == Put(e, 4, 8 * |es|) && body[4..4 + 8 * |es|] == raw && body[8 + 8 * |es|..] == strings
  {
    var a, b, c, d := Put(e, 4, 8 * |es|), PairsUpto(e, es, |es|), Put(e, 4, Even(|Strings(es)|)), Strings(es);
    FiveParts(a, b, c, d, Repeat(NUL, |d| % 2));
  }

  lemma FiveParts(a: Bytes, b: Bytes, c: Bytes, d: Bytes, f: Bytes)
    ensures var s := a + b + c + d + f;
      s[..|a|] == a && s[|a|..|a| + |b|] == b && s[|a| + |b| + |c|..] == d + f
  {
  }

  lemma BsdSymbolOfBody(e: Endian, es: seq<Entry>, i: nat, tail: Bytes)
    requires ValidEntries(4, es) && i < |es| && |Strings(es)| < TWO32
    ensures BsdSymbolAt(e, PairsUpto(e, es, |es|), Strings(es) + tail, i) == Some(es[i])
  {
    Pow256Values();
    PairSlots(e, es, i);
    NameAt(4, es, i, tail);
    GetPut(e, 4, |StringsUpto(es, i)|);
    assert ValidEntry(4, es[i]);
    GetPut(e, 4, es[i].offset);
  }

  lemma BsdSymbolsPointwise(e: Endian, raw: Bytes, strings: Bytes, es: seq<Entry>)
    requires forall i :: 0 <= i < |es| ==> BsdSymbolAt(e, raw, strings, i) == Some(es[i])
    ensures BsdSymbols(e, raw, strings, |es|) == Some(es)
  {
    var syms := BsdSymbols(e, raw, strings, |es|).value;
    assert |syms| == |es|;
    assert forall i :: 0 <= i < |es| ==> syms[i] == es[i];
    assert syms == es;
  }

  lemma BsdCount(e: Endian, body: Bytes, n: nat)
    requires 8 + 8 * n <= |body| < TWO32 && body[..4] == Put(e, 4, 8 * n)
    ensures Get(e, body[..4]) == 8 * n && 8 * n % 8 == 0 && 8 * n / 8 == n
  {
    Pow256Values();
    GetPut(e, 4, 8 * n);
  }

  lemma ParseBsdOf(e: Endian, body: Bytes, n: nat, raw: Bytes, strings: Bytes, r: Option<seq<Entry>>)
    requires 8 + 8 * n <= |body| < TWO32 && body[..4] == Put(e, 4, 8 * n)
    requires body[4..4 + 8 * n] == raw && body[8 + 8 * n..] == strings
    requires r == BsdSymbols(e, raw, strings, n) && r.Some?
    ensures ParseBsd(e, body) == Ok(r.value)
  {
    BsdCount(e, body, n);
  }

  lemma BsdSymbolsBack(e: Endian, es: seq<Entry>, tail: Bytes)
    requires ValidEntries(4, es) && |Strings(es)| < TWO32
    ensures BsdSymbols(e, PairsUpto(e, es, |es|), Strings(es) + tail, |es|) == Some(es)
  {
    var raw, strings := PairsUpto(e, es, |es|), Strings(es) + tail;
    forall i | 0 <= i < |es|
      ensures BsdSymbolAt(e, raw, strings, i) == Some(es[i])
    {
      BsdSymbolOfBody(e, es, i, tail);
    }
    BsdSymbolsPointwise(e, raw, strings, es);
  }

  /** A BSD map is read back entry for entry, in either byte order. */
  lemma BsdRoundTrip(e: Endian, es: seq<Entry>)
    requires ValidEntries(4, es) && |BsdBody(e, es)| < TWO32
    ensures ParseBsd(e, BsdBody(e, es)) == Ok(es)
  {
    var tail := Repeat(NUL, |Strings(es)| % 2);
    var body, raw, strings := BsdBody(e, es), PairsUpto(e, es, |es|), Strings(es) + tail;
    BsdBodyParts(e, es, body, raw, strings);
    BsdRead(e, es, tail, body, raw, strings);
  }

  lemma BsdRead(e: Endian, es: seq<Entry>, tail: Bytes, body: Bytes, raw: Bytes, strings: Bytes)
    requires ValidEntries(4, es) && raw == PairsUpto(e, es, |es|) && strings == Strings(es) + tail
    requires 8 + 8 * |es| <= |body| < TWO32 && |Strings(es)| <= |body|
    requires body[..4] == Put(e, 4, 8 * |es|) && body[4..4 + 8 * |es|] == raw && body[8 + 8 * |es|..] == strings
    ensures ParseBsd(e, body) == Ok(es)
  {
    BsdSymbolsBack(e, es, tail);
    ParseBsdOf(e, body, |es|, raw, strings, Some(es));
  }
}
