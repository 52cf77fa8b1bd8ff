/** The two-step theorem of AoutReloc on the octets of sections: fields of one, two
    or four octets that do not overlap (binutils/bfd/aoutx.h, binutils/bfd/reloc.c). */
module AoutOctets {
  import opened Octets
  import opened AoutReloc

  // ----- fields in octets --------------------------------------------------------

  function Len(w: Width): (n: nat)
    ensures 1 <= n <= 4
  {
    match w case W8 => 1 case W16 => 2 case W32 => 4
  }

  lemma ModulusIsPow(w: Width)
    ensures Modulus(w) == Pow256(Len(w))
  {
    assert Pow256(1) == 256 && Pow256(2) == 65536;
    Pow256Values();
  }

  /** For each address of a section the width of the field that begins there, if one
      does. */
  type Form = seq<Option<Width>>

  predicate Field(f: Form, a: nat) { a < |f| && f[a].Some? }

  /** Fields lie inside and none begins in another. */
  ghost predicate Disjoint(f: Form)
  {
    forall a: nat :: Field(f, a) ==>
      a + Len(f[a].value) <= |f| && forall b: nat :: a < b < a + Len(f[a].value) ==> !Field(f, b)
  }

  function Widths(f: Form): (r: seq<Width>)
    ensures |r| == |f| && forall a :: 0 <= a < |f| ==> r[a] == if f[a].Some? then f[a].value else W8
  {
    seq(|f|, a requires 0 <= a < |f| => if f[a].Some? then f[a].value else W8)
  }

  function Value(e: Endian, o: Bytes, f: Form, a: nat): nat
  {
    if Field(f, a) && a + Len(f[a].value) <= |o| then Get(e, o[a..a + Len(f[a].value)]) else 0
  }

  /** The numbers the fields hold; 0 where none begins. */
  function View(e: Endian, o: Bytes, f: Form): (r: seq<nat>)
    ensures |r| == |f| && forall a :: 0 <= a < |f| ==> r[a] == Value(e, o, f, a)
  {
    seq(|f|, a requires 0 <= a < |f| => Value(e, o, f, a))
  }

  function Stored(e: Endian, o: Bytes, a: nat, n: nat, v: nat): (r: Bytes)
    requires a + n <= |o|
    ensures |r| == |o|
  {
    o[..a] + Put(e, n, v) + o[a + n..]
  }

  /** The changes are made to fields. */
  ghost predicate Hits(cs: seq<Change>, f: Form) { forall i :: 0 <= i < |cs| ==> Field(f, cs[i].addr) }

  /** The octets after the first n changes: each field is read, changed, cut to its
      width and stored. */
  function UptoOctets(e: Endian, o: Bytes, f: Form, cs: seq<Change>, n: nat): (r: Bytes)
    requires n <= |cs| && Disjoint(f) && Hits(cs, f) && |o| == |f|
    ensures |r| == |o|
  {
    if n == 0 then o
    else
      var before, c := UptoOctets(e, o, f, cs, n - 1), cs[n - 1];
      var w := f[c.addr].value;
      Stored(e, before, c.addr, Len(w), Trunc(Effect(c.op, Value(e, before, f, c.addr)), w))
  }

  function Relocated(e: Endian, o: Bytes, f: Form, cs: seq<Change>): (r: Bytes)
    requires Disjoint(f) && Hits(cs, f) && |o| == |f|
    ensures |r| == |o|
  {
    UptoOctets(e, o, f, cs, |cs|)
  }

  method StoreOctets(contents: array<Byte>, a: nat, octets: Bytes)
    requires a + |octets| <= contents.Length
    modifies contents
    ensures contents[..] == old(contents[..a]) + octets + old(contents[a + |octets|..])
  {
    for k := 0 to |octets|
      invariant forall j :: 0 <= j < contents.Length ==>
        contents[j] == if a <= j < a + k then octets[j - a] else old(contents[j])
    {
      contents[a + k] := octets[k];
    }
  }

  /** _bfd_relocate_contents on one field: read, changed, cut and put back. */
  method RelocateContents(e: Endian, contents: array<Byte>, a: nat, w: Width, op: Op)
    requires a + Len(w) <= contents.Length
    modifies contents
    ensures contents[..] == Stored(e, old(contents[..]), a, Len(w),
                                   Trunc(Effect(op, Get(e, old(contents[a..a + Len(w)]))), w))
  {
    var v := Trunc(Effect(op, Get(e, contents[a..a + Len(w)])), w);
    StoreOctets(contents, a, Put(e, Len(w), v));
  }

  // ----- storing a field ---------------------------------------------------------

  lemma StoredAt(e: Endian, o: Bytes, a: nat, n: nat, v: nat, b: nat, m: nat)
    requires a + n <= |o| && b + m <= |o|
    ensures a == b && n == m ==> Stored(e, o, a, n, v)[b..b + m] == Put(e, n, v)
    ensures b + m <= a || a + n <= b ==> Stored(e, o, a, n, v)[b..b + m] == o[b..b + m]
  {
    SplicedAt(o, Put(e, n, v), a, b, m);
  }

  /** The octets of a sequence with s put in at a. */
  lemma SplicedAt(o: Bytes, s: Bytes, a: nat, b: nat, m: nat)
    requires a + |s| <= |o| && b + m <= |o|
    ensures var r := o[..a] + s + o[a + |s|..];
      && (a == b && |s| == m ==> r[b..b + m] == s)
      && (b + m <= a || a + |s| <= b ==> r[b..b + m] == o[b..b + m])
  {
    var r := o[..a] + s + o[a + |s|..];
    forall j | 0 <= j < |o|
      ensures r[j] == if a <= j < a + |s| then s[j - a] else o[j]
    {
    }
  }

  /** A stored field is seen in the view, and nothing else changes there. */
  lemma StoredView(e: Endian, o: Bytes, f: Form, a: nat, v: nat)
    requires Disjoint(f) && |o| == |f| && Field(f, a) && v < Modulus(f[a].value)
    ensures View(e, Stored(e, o, a, Len(f[a].value), v), f) == View(e, o, f)[a := v]
  {
    var n := Len(f[a].value);
    var r := Stored(e, o, a, n, v);
    forall b | 0 <= b < |f|
      ensures Value(e, r, f, b) == if b == a then v else Value(e, o, f, b)
    {
      if Field(f, b) {
        StoredAt(e, o, a, n, v, b, Len(f[b].value));
        if b == a {
          ModulusIsPow(f[a].value);
          GetPut(e, n, v);
        } else {
          Apart(f, a, b);
        }
      }
    }
  }

  lemma Apart(f: Form, a: nat, b: nat)
    requires Disjoint(f) && Field(f, a) && Field(f, b) && a != b
    ensures a + Len(f[a].value) <= b || b + Len(f[b].value) <= a
  {
  }

  /** The octets do to the fields what AoutReloc says of numbers. */
  lemma {:induction false} ViewFollows(e: Endian, o: Bytes, f: Form, cs: seq<Change>, n: nat)
    requires n <= |cs| && Disjoint(f) && Hits(cs, f) && |o| == |f|
    ensures Inside(cs, |f|) && View(e, UptoOctets(e, o, f, cs, n), f) == UptoCut(View(e, o, f), Widths(f), cs, n)
  {
    if n > 0 {
      ViewFollows(e, o, f, cs, n - 1);
      var before, c := UptoOctets(e, o, f, cs, n - 1), cs[n - 1];
      var w := f[c.addr].value;
      StoredView(e, before, f, c.addr, Trunc(Effect(c.op, Value(e, before, f, c.addr)), w));
    }
  }

  // ----- octets outside fields ---------------------------------------------------

  /** No field holds octet b. */
  ghost predicate Free(f: Form, b: nat)
  {
    forall a: nat :: Field(f, a) && a <= b ==> a + Len(f[a].value) <= b
  }

  ghost predicate SameFree(o: Bytes, r: Bytes, f: Form)
  {
    |o| == |r| == |f| && forall b: nat :: b < |f| && Free(f, b) ==> o[b] == r[b]
  }

  lemma {:induction false} FreeKept(e: Endian, o: Bytes, f: Form, cs: seq<Change>, n: nat)
    requires n <= |cs| && Disjoint(f) && Hits(cs, f) && |o| == |f|
    ensures SameFree(o, UptoOctets(e, o, f, cs, n), f)
  {
    if n > 0 {
      FreeKept(e, o, f, cs, n - 1);
      var c := cs[n - 1];
      assert Field(f, c.addr);
    }
  }

  lemma {:induction false} PutGet(e: Endian, s: Bytes)
    ensures Put(e, |s|, Get(e, s)) == s
  {
    if s != [] {
      var n := |s| - 1;
      if e.Big? {
        PutGet(e, s[..n]);
        assert Get(e, s) / 256 == Get(e, s[..n]) && Get(e, s) % 256 == s[n];
      } else {
        PutGet(e, s[1..]);
        assert Get(e, s) / 256 == Get(e, s[1..]) && Get(e, s) % 256 == s[0];
      }
    }
  }

  lemma SameNumberSameOctets(e: Endian, s: Bytes, t: Bytes)
    requires |s| == |t| && Get(e, s) == Get(e, t)
    ensures s == t
  {
    PutGet(e, s);
    PutGet(e, t);
  }

  /** Fields and free octets make up a section. */
  lemma Determined(e: Endian, o: Bytes, r: Bytes, f: Form)
    requires Disjoint(f) && SameFree(o, r, f) && View(e, o, f) == View(e, r, f)
    ensures o == r
  {
    forall b: nat | b < |f|
      ensures o[b] == r[b]
    {
      if !Free(f, b) {
        var a: nat :| Field(f, a) && a <= b && b < a + Len(f[a].value);
        var n := Len(f[a].value);
        assert Value(e, o, f, a) == View(e, o, f)[a] == View(e, r, f)[a] == Value(e, r, f, a);
        SameNumberSameOctets(e, o[a..a + n], r[a..a + n]);
        assert o[b] == o[a..a + n][b - a] && r[b] == r[a..a + n][b - a];
      }
    }
  }

  lemma ViewInWidth(e: Endian, o: Bytes, f: Form)
    requires Disjoint(f) && |o| == |f|
    ensures CutTo(View(e, o, f), Widths(f), View(e, o, f))
  {
    forall a | 0 <= a < |f|
      ensures Value(e, o, f, a) == Trunc(Value(e, o, f, a), Widths(f)[a])
    {
      var w := Widths(f)[a];
      ModulusIsPow(w);
      if Field(f, a) {
        GetBound(e, o[a..a + Len(w)]);
      }
      RemainderIs(Value(e, o, f, a), 0, Value(e, o, f, a), w);
    }
  }

  // ----- sections side by side ---------------------------------------------------

  lemma FieldOfThree(f: Form, g: Form, h: Form, a: nat)
    ensures Field(f + g + h, a) <==>
      || (a < |f| && Field(f, a))
      || (|f| <= a < |f| + |g| && Field(g, a - |f|))
      || (|f| + |g| <= a && Field(h, a - |f| - |g|))
  {
  }

  lemma DisjointThree(f: Form, g: Form, h: Form)
    requires Disjoint(f) && Disjoint(g) && Disjoint(h)
    ensures Disjoint(f + g + h)
  {
    var all := f + g + h;
    forall a: nat | Field(all, a)
      ensures a + Len(all[a].value) <= |all|
      ensures forall b: nat :: a < b < a + Len(all[a].value) ==> !Field(all, b)
    {
      FieldOfThree(f, g, h, a);
      forall b: nat | a < b < a + Len(all[a].value)
        ensures !Field(all, b)
      {
        FieldOfThree(f, g, h, b);
      }
    }
  }

  lemma ValueLeft(e: Endian, x: Bytes, y: Bytes, f: Form, g: Form, a: nat)
    requires Disjoint(f) && |x| == |f| && a < |f|
    ensures Value(e, x + y, f + g, a) == Value(e, x, f, a)
  {
    if Field(f, a) {
      var n := Len(f[a].value);
      assert (x + y)[a..a + n] == x[a..a + n];
    }
  }

  lemma ValueRight(e: Endian, x: Bytes, y: Bytes, f: Form, g: Form, a: nat)
    requires Disjoint(g) && |x| == |f| && |y| == |g| && a < |g|
    ensures Value(e, x + y, f + g, |f| + a) == Value(e, y, g, a)
  {
    if Field(g, a) {
      var n := Len(g[a].value);
      assert (x + y)[|f| + a..|f| + a + n] == y[a..a + n];
    }
  }

  lemma ViewOfTwo(e: Endian, x: Bytes, y: Bytes, f: Form, g: Form)
    requires Disjoint(f) && Disjoint(g) && |x| == |f| && |y| == |g|
    ensures View(e, x + y, f + g) == View(e, x, f) + View(e, y, g) && Widths(f + g) == Widths(f) + Widths(g)
  {
    forall a | 0 <= a < |f + g|
      ensures Value(e, x + y, f + g, a) == (View(e, x, f) + View(e, y, g))[a]
    {
      if a < |f| {
        ValueLeft(e, x, y, f, g, a);
      } else {
        ValueRight(e, x, y, f, g, a - |f|);
      }
    }
  }

  lemma ViewOfThree(e: Endian, x: Bytes, y: Bytes, z: Bytes, f: Form, g: Form, h: Form)
    requires Disjoint(f) && Disjoint(g) && Disjoint(h) && |x| == |f| && |y| == |g| && |z| == |h|
    ensures View(e, x + y + z, f + g + h) == View(e, x, f) + View(e, y, g) + View(e, z, h)
    ensures Widths(f + g + h) == Widths(f) + Widths(g) + Widths(h)
  {
    DisjointThree(f, g, []);
    assert f + g + [] == f + g;
    ViewOfTwo(e, x, y, f, g);
    ViewOfTwo(e, x + y, z, f + g, h);
  }

  /** A whole section between neighbours: from what holds of its fields. */
  lemma OctetsMiddle(e: Endian, x: Bytes, y: Bytes, z: Bytes, f: Form, g: Form, h: Form,
                     ours: seq<Change>, all: seq<Change>, direct: seq<Change>)
    requires Disjoint(f) && Disjoint(g) && Disjoint(h) && |x| == |f| && |y| == |g| && |z| == |h|
    requires Hits(ours, g) && Hits(direct, g) && Hits(all, f + g + h)
    requires Inside(ours, |g|) && Inside(direct, |g|) && Inside(all, |f + g + h|)
    requires AppliedCut(View(e, x, f) + AppliedCut(View(e, y, g), Widths(g), ours) + View(e, z, h),
                        Widths(f) + Widths(g) + Widths(h), all)[|f|..|f| + |g|]
          == AppliedCut(View(e, y, g), Widths(g), direct)
    ensures Disjoint(f + g + h)
    ensures Relocated(e, x + Relocated(e, y, g, ours) + z, f + g + h, all)[|f|..|f| + |g|]
         == Relocated(e, y, g, direct)
  {
    DisjointThree(f, g, h);
    var mid, once := Relocated(e, y, g, ours), Relocated(e, y, g, direct);
    var merged, form := x + mid + z, f + g + h;
    var twice := Relocated(e, merged, form, all);
    var part := twice[|f|..|f| + |g|];
    ViewFollows(e, y, g, ours, |ours|);
    ViewFollows(e, y, g, direct, |direct|);
    ViewFollows(e, merged, form, all, |all|);
    ViewOfThree(e, x, mid, z, f, g, h);
    PartView(e, twice, f, g, h);
    FreeKept(e, y, g, ours, |ours|);
    FreeKept(e, y, g, direct, |direct|);
    FreeKept(e, merged, form, all, |all|);
    PartFree(x, mid, z, twice, f, g, h);
    SameFreeChain(once, y, mid, part, g);
    Determined(e, part, once, g);
  }

  lemma PartView(e: Endian, o: Bytes, f: Form, g: Form, h: Form)
    requires Disjoint(f) && Disjoint(g) && Disjoint(h) && |o| == |f| + |g| + |h|
    ensures View(e, o[|f|..|f| + |g|], g) == View(e, o, f + g + h)[|f|..|f| + |g|]
  {
    var x, y, z := o[..|f|], o[|f|..|f| + |g|], o[|f| + |g|..];
    assert o == x + y + z;
    ViewOfThree(e, x, y, z, f, g, h);
  }

  lemma PartFree(x: Bytes, y: Bytes, z: Bytes, o: Bytes, f: Form, g: Form, h: Form)
    requires Disjoint(f) && |x| == |f| && |y| == |g| && |z| == |h| && SameFree(x + y + z, o, f + g + h)
    ensures SameFree(y, o[|f|..|f| + |g|], g)
  {
    forall b: nat | b < |g| && Free(g, b)
      ensures y[b] == o[|f|..|f| + |g|][b]
    {
      forall a: nat | Field(f + g + h, a) && a <= |f| + b
        ensures a + Len((f + g + h)[a].value) <= |f| + b
      {
        FieldOfThree(f, g, h, a);
      }
      assert Free(f + g + h, |f| + b);
      assert (x + y + z)[|f| + b] == y[b];
    }
  }

  lemma SameFreeChain(a: Bytes, b: Bytes, c: Bytes, d: Bytes, f: Form)
    requires SameFree(b, a, f) && SameFree(b, c, f) && SameFree(c, d, f)
    ensures SameFree(d, a, f)
  {
  }

  // ----- two links and one -------------------------------------------------------

  /** Every relocation patches a field of the section. */
  predicate StdPatches(rs: seq<StdReloc>, f: Form) { forall i :: 0 <= i < |rs| ==> Field(f, rs[i].addr) }

  predicate ExtPatches(rs: seq<ExtReloc>, f: Form) { forall i :: 0 <= i < |rs| ==> Field(f, rs[i].addr) }

  lemma StdHits(l: Link, relocatable: bool, rs: seq<StdReloc>, f: Form)
    requires StdPatches(rs, f)
    ensures Hits(StdChanges(l, relocatable, rs), f) && Inside(StdChanges(l, relocatable, rs), |f|)
    ensures StdInside(rs, |f|)
  {
  }

  lemma ExtHits(l: Link, relocatable: bool, rs: seq<ExtReloc>, f: Form)
    requires ExtPatches(rs, f)
    ensures Hits(ExtLinkChanges(l, relocatable, rs), f) && Inside(ExtLinkChanges(l, relocatable, rs), |f|)
    ensures Hits(ExtChanges(l, rs), f) && Inside(ExtChanges(l, rs), |f|) && ExtInside(rs, |f|)
  {
  }

  /** Standard relocations: linking a section relocatably, laying it among its
      neighbours and linking those leaves the octets that one link leaves. */
  lemma StdOctetsAgree(first: Link, second: Link, direct: Link, e: Endian, y: Bytes, g: Form, rs: seq<StdReloc>,
                       x: Bytes, z: Bytes, f: Form, h: Form, before: seq<StdReloc>, after: seq<StdReloc>)
    requires Successive(first, second, direct) && StdExact(first, rs)
    requires Disjoint(f) && Disjoint(g) && Disjoint(h) && |x| == |f| && |y| == |g| && |z| == |h|
    requires |x| == first.Here().outOffset && StdPatches(rs, g)
    requires StdPatches(before + MovedStd(first, rs) + after, f + g + h)
    requires StdBeside(before, |x|, |y|, |z|) && StdBeside(after, |x|, |y|, |z|)
    ensures Disjoint(f + g + h)
    ensures Relocated(e, x + Relocated(e, y, g, StdChanges(first, true, rs)) + z, f + g + h,
                      StdChanges(second, false, before + MovedStd(first, rs) + after))[|x|..|x| + |y|]
         == Relocated(e, y, g, StdChanges(direct, false, rs))
  {
    StdHits(first, true, rs, g);
    StdHits(direct, false, rs, g);
    StdHits(second, false, before + MovedStd(first, rs) + after, f + g + h);
    ViewInWidth(e, x, f);
    ViewInWidth(e, y, g);
    ViewInWidth(e, z, h);
    StdFieldsAgree(first, second, direct, View(e, y, g), Widths(g), rs, View(e, x, f), View(e, z, h),
                   Widths(f), Widths(h), before, after);
    OctetsMiddle(e, x, y, z, f, g, h, StdChanges(first, true, rs),
                 StdChanges(second, false, before + MovedStd(first, rs) + after), StdChanges(direct, false, rs));
  }

  /** The same for extended relocations, whose first link leaves the octets alone. */
  lemma ExtOctetsAgree(first: Link, second: Link, direct: Link, e: Endian, y: Bytes, g: Form, rs: seq<ExtReloc>,
                       x: Bytes, z: Bytes, f: Form, h: Form, before: seq<ExtReloc>, after: seq<ExtReloc>)
    requires Successive(first, second, direct) && ExtExact(first, rs)
    requires Disjoint(f) && Disjoint(g) && Disjoint(h) && |x| == |f| && |y| == |g| && |z| == |h|
    requires |x| == first.Here().outOffset && ExtPatches(rs, g)
    requires ExtPatches(before + MovedExt(first, rs) + after, f + g + h)
    requires ExtBeside(before, |x|, |y|, |z|) && ExtBeside(after, |x|, |y|, |z|)
    ensures Disjoint(f + g + h)
    ensures Relocated(e, x + Relocated(e, y, g, ExtLinkChanges(first, true, rs)) + z, f + g + h,
                      ExtChanges(second, before + MovedExt(first, rs) + after))[|x|..|x| + |y|]
         == Relocated(e, y, g, ExtLinkChanges(direct, false, rs))
  {
    ExtHits(first, true, rs, g);
    ExtHits(direct, false, rs, g);
    ExtHits(second, false, before + MovedExt(first, rs) + after, f + g + h);
    ViewInWidth(e, x, f);
    ViewInWidth(e, y, g);
    ViewInWidth(e, z, h);
    ExtFieldsAgree(first, second, direct, View(e, y, g), Widths(g), rs, View(e, x, f), View(e, z, h),
                   Widths(f), Widths(h), before, after);
    OctetsMiddle(e, x, y, z, f, g, h, ExtLinkChanges(first, true, rs),
                 ExtChanges(second, before + MovedExt(first, rs) + after), ExtLinkChanges(direct, false, rs));
  }
}
