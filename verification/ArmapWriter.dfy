/** Writing symbol maps: which symbols go in, where each member's header will be,
    and the three writers (binutils/bfd/archive.c, binutils/bfd/archive64.c). */
module ArmapWriter {
  import opened Octets
  import opened ArHeader
  import opened Armap

  // ----- which symbols go into the map ---------------------------------------

  /** `exported`: any of BSF_GLOBAL, BSF_WEAK, BSF_INDIRECT, BSF_GNU_UNIQUE. */
  datatype Symbol = Symbol(name: Bytes, exported: bool, common: bool, undefined: bool)

  /** The symbols of a member; used only when it is an object that has some. */
  datatype Source = Source(isObject: bool, hasSyms: bool, syms: seq<Symbol>)

  /** struct orl: name, defining member, index of the name in the strings. */
  datatype Orl = Orl(name: Bytes, elt: nat, namidx: nat)

  predicate Wanted(s: Symbol) { (s.exported || s.common) && !s.undefined }

  /** Some wanted symbol among the first j of the member has this name. */
  ghost predicate From(src: Source, j: nat, name: Bytes)
  {
    src.isObject && src.hasSyms
    && exists i :: 0 <= i < j && i < |src.syms| && Wanted(src.syms[i]) && src.syms[i].name == name
  }

  ghost predicate Defines(src: Source, name: Bytes) { From(src, |src.syms|, name) }

  ghost predicate Listed(orls: seq<Orl>, name: Bytes, elt: nat)
  {
    exists i :: 0 <= i < |orls| && orls[i].name == name && orls[i].elt == elt
  }

  function NameIndex(orls: seq<Orl>, k: nat): nat
    requires k <= |orls|
  {
    if k == 0 then 0 else NameIndex(orls, k - 1) + |orls[k - 1].name| + 1
  }

  predicate OrlOk(orls: seq<Orl>, members: nat, i: nat)
    requires i < |orls|
  {
    NoNul(orls[i].name) && orls[i].elt < members && orls[i].namidx == NameIndex(orls, i)
  }

  /** Members in chain order. */
  predicate InOrder(orls: seq<Orl>)
  {
    forall i, j :: 0 <= i <= j < |orls| ==> orls[i].elt <= orls[j].elt
  }

  predicate ValidMap(orls: seq<Orl>, members: nat)
  {
    InOrder(orls) && forall i :: 0 <= i < |orls| ==> OrlOk(orls, members, i)
  }

  lemma {:induction false} NameIndexPrefix(m: seq<Orl>, o: Orl, k: nat)
    requires k <= |m|
    ensures NameIndex(m, k) == NameIndex(m + [o], k)
  {
    if k > 0 {
      NameIndexPrefix(m, o, k - 1);
    }
  }

  /** Appending a symbol of the current member keeps the map in order. */
  lemma ValidMapSnoc(m: seq<Orl>, members: nat, o: Orl)
    requires ValidMap(m, members) && NoNul(o.name) && o.elt < members
    requires |m| > 0 ==> m[|m| - 1].elt <= o.elt
    requires o.namidx == NameIndex(m, |m|)
    ensures ValidMap(m + [o], members)
    ensures NameIndex(m + [o], |m| + 1) == o.namidx + |o.name| + 1
  {
    var n := m + [o];
    NameIndexPrefix(m, o, |m|);
    forall i | 0 <= i < |n|
      ensures OrlOk(n, members, i)
    {
      if i < |m| {
        assert OrlOk(m, members, i);
        NameIndexPrefix(m, o, i);
      }
    }
  }

  lemma ListedSnoc(m: seq<Orl>, o: Orl, name: Bytes, elt: nat)
    ensures Listed(m + [o], name, elt) <==> Listed(m, name, elt) || (o.name == name && o.elt == elt)
  {
    var n := m + [o];
    assert n[|m|] == o;
    if Listed(m, name, elt) {
      var i :| 0 <= i < |m| && m[i].name == name && m[i].elt == elt;
      assert n[i] == m[i];
    }
  }

  lemma FromStep(src: Source, j: nat, name: Bytes)
    requires j < |src.syms| && src.isObject && src.hasSyms
    ensures From(src, j + 1, name) <==> From(src, j, name) || (Wanted(src.syms[j]) && src.syms[j].name == name)
  {
  }

  predicate CleanSource(src: Source) { forall j :: 0 <= j < |src.syms| ==> NoNul(src.syms[j].name) }

  /** What the map lists after all symbols of the members before k and the first
      j symbols of member k: exactly the wanted ones. */
  ghost predicate Collected(srcs: seq<Source>, orls: seq<Orl>, k: nat, j: nat)
    requires k <= |srcs|
  {
    forall name: Bytes, elt: nat ::
      Listed(orls, name, elt) <==> Expected(srcs, k, j, name, elt)
  }

  ghost predicate Expected(srcs: seq<Source>, k: nat, j: nat, name: Bytes, elt: nat)
    requires k <= |srcs|
  {
    (elt < k && Defines(srcs[elt], name)) || (elt == k < |srcs| && From(srcs[k], j, name))
  }

  /** How many of the first j symbols of a member are wanted. */
  function WantedIn(src: Source, j: nat): nat
    requires j <= |src.syms|
  {
    if j == 0 || !src.isObject || !src.hasSyms then 0
    else WantedIn(src, j - 1) + if Wanted(src.syms[j - 1]) then 1 else 0
  }

  function WantedBefore(srcs: seq<Source>, k: nat): nat
    requires k <= |srcs|
  {
    if k == 0 then 0 else WantedBefore(srcs, k - 1) + WantedIn(srcs[k - 1], |srcs[k - 1].syms|)
  }

  /** The octets the names of those symbols take, with their NULs. */
  function NamesIn(src: Source, j: nat): nat
    requires j <= |src.syms|
  {
    if j == 0 || !src.isObject || !src.hasSyms then 0
    else NamesIn(src, j - 1) + if Wanted(src.syms[j - 1]) then |src.syms[j - 1].name| + 1 else 0
  }

  function NamesBefore(srcs: seq<Source>, k: nat): nat
    requires k <= |srcs|
  {
    if k == 0 then 0 else NamesBefore(srcs, k - 1) + NamesIn(srcs[k - 1], |srcs[k - 1].syms|)
  }

  /** The map after the members before k and the first j symbols of member k. */
  function MapUpto(srcs: seq<Source>, k: nat, j: nat): seq<Orl>
    requires k <= |srcs| && (if k == |srcs| then j == 0 else j <= |srcs[k].syms|)
    decreases k, j
  {
    if j > 0 then
      var before, sym := MapUpto(srcs, k, j - 1), srcs[k].syms[j - 1];
      if srcs[k].isObject && srcs[k].hasSyms && Wanted(sym)
      then before + [Orl(sym.name, k, NameIndex(before, |before|))] else before
    else if k > 0 then MapUpto(srcs, k - 1, |srcs[k - 1].syms|)
    else []
  }

  lemma {:induction false} NothingFrom(srcs: seq<Source>, k: nat, j: nat)
    requires k < |srcs| && j <= |srcs[k].syms| && !(srcs[k].isObject && srcs[k].hasSyms)
    ensures MapUpto(srcs, k, j) == MapUpto(srcs, k, 0)
  {
    if j > 0 {
      NothingFrom(srcs, k, j - 1);
    }
  }

  /** A symbol by its place: symbol `index` of member `member`. */
  datatype Spot = Spot(member: nat, index: nat)

  /** The places of the symbols the entries of MapUpto were made from. */
  ghost function Picks(srcs: seq<Source>, k: nat, j: nat): seq<Spot>
    requires k <= |srcs| && (if k == |srcs| then j == 0 else j <= |srcs[k].syms|)
    decreases k, j
  {
    if j > 0 then
      if srcs[k].isObject && srcs[k].hasSyms && Wanted(srcs[k].syms[j - 1])
      then Picks(srcs, k, j - 1) + [Spot(k, j - 1)] else Picks(srcs, k, j - 1)
    else if k > 0 then Picks(srcs, k - 1, |srcs[k - 1].syms|)
    else []
  }

  /** The place comes before symbol j of member k. */
  predicate Earlier(p: Spot, k: nat, j: nat) { p.member < k || (p.member == k && p.index < j) }

  predicate Ascending(ps: seq<Spot>)
  {
    forall m, n :: 0 <= m < n < |ps| ==> Earlier(ps[m], ps[n].member, ps[n].index)
  }

  /** The place is that of a symbol of an object: exported or common, and not undefined. */
  predicate Picked(srcs: seq<Source>, p: Spot)
  {
    && p.member < |srcs| && p.index < |srcs[p.member].syms|
    && srcs[p.member].isObject && srcs[p.member].hasSyms
    && (srcs[p.member].syms[p.index].exported || srcs[p.member].syms[p.index].common)
    && !srcs[p.member].syms[p.index].undefined
  }

  /** The entry has the name and the member of the symbol at the place. */
  predicate Names(srcs: seq<Source>, o: Orl, p: Spot)
  {
    && p.member < |srcs| && p.index < |srcs[p.member].syms|
    && o.name == srcs[p.member].syms[p.index].name && o.elt == p.member
  }

  /** The places are exactly those of the symbols picked before symbol j of member k, in order. */
  lemma {:induction false} PicksAre(srcs: seq<Source>, k: nat, j: nat)
    requires k <= |srcs| && (if k == |srcs| then j == 0 else j <= |srcs[k].syms|)
    ensures Ascending(Picks(srcs, k, j))
    ensures forall p :: p in Picks(srcs, k, j) <==> Earlier(p, k, j) && Picked(srcs, p)
    decreases k, j
  {
    if j > 0 {
      PicksAre(srcs, k, j - 1);
      var before := Picks(srcs, k, j - 1);
      assert forall n :: 0 <= n < |before| ==> before[n] in before;
      assert forall p :: Earlier(p, k, j) <==> Earlier(p, k, j - 1) || p == Spot(k, j - 1);
    } else if k > 0 {
      PicksAre(srcs, k - 1, |srcs[k - 1].syms|);
    }
  }

  /** Each entry is made from the symbol at its place. */
  lemma {:induction false} PicksNamed(srcs: seq<Source>, k: nat, j: nat)
    requires k <= |srcs| && (if k == |srcs| then j == 0 else j <= |srcs[k].syms|)
    ensures |Picks(srcs, k, j)| == |MapUpto(srcs, k, j)|
    ensures forall n :: 0 <= n < |Picks(srcs, k, j)| ==> Names(srcs, MapUpto(srcs, k, j)[n], Picks(srcs, k, j)[n])
    decreases k, j
  {
    if j > 0 {
      PicksNamed(srcs, k, j - 1);
    } else if k > 0 {
      PicksNamed(srcs, k - 1, |srcs[k - 1].syms|);
    }
  }

  lemma {:induction false} AscendingCount(ps: seq<Spot>)
    requires Ascending(ps)
    ensures |set p | p in ps| == |ps|
  {
    if |ps| > 0 {
      var last, front := ps[|ps| - 1], ps[..|ps| - 1];
      AscendingCount(front);
      assert ps == front + [last];
      assert last !in front;
      assert (set p | p in ps) == (set p | p in front) + {last};
    }
  }

  /** The map of all members has one entry for each exported or common symbol
      that is not undefined, in the order the symbols stand, and no other:
      entry n comes from the symbol at from[n]. */
  lemma MapIsExact(srcs: seq<Source>) returns (from: seq<Spot>)
    ensures var orls := MapUpto(srcs, |srcs|, 0);
      |from| == |orls| && Ascending(from) && forall n :: 0 <= n < |from| ==> Names(srcs, orls[n], from[n])
    ensures forall k: nat, i: nat :: Spot(k, i) in from <==>
      && k < |srcs| && i < |srcs[k].syms| && srcs[k].isObject && srcs[k].hasSyms
      && (srcs[k].syms[i].exported || srcs[k].syms[i].common) && !srcs[k].syms[i].undefined
    ensures |MapUpto(srcs, |srcs|, 0)| == |set k: nat, i: nat |
      k < |srcs| && i < |srcs[k].syms| && srcs[k].isObject && srcs[k].hasSyms
      && (srcs[k].syms[i].exported || srcs[k].syms[i].common) && !srcs[k].syms[i].undefined :: Spot(k, i)|
  {
    from := Picks(srcs, |srcs|, 0);
    PicksAre(srcs, |srcs|, 0);
    PicksNamed(srcs, |srcs|, 0);
    AscendingCount(from);
    assert forall k: nat, i: nat :: Spot(k, i) in from <==> Picked(srcs, Spot(k, i));
    assert (set p | p in from) == set k: nat, i: nat |
      k < |srcs| && i < |srcs[k].syms| && srcs[k].isObject && srcs[k].hasSyms
      && (srcs[k].syms[i].exported || srcs[k].syms[i].common) && !srcs[k].syms[i].undefined :: Spot(k, i);
  }

  /** One symbol considered. */
  method CollectOne(srcs: seq<Source>, k: nat, j: nat, orls: seq<Orl>, stridx: nat)
    returns (orls': seq<Orl>, stridx': nat)
    requires k < |srcs| && CleanSource(srcs[k]) && j < |srcs[k].syms| && srcs[k].isObject && srcs[k].hasSyms
    requires ValidMap(orls, k + 1) && stridx == NameIndex(orls, |orls|) && Collected(srcs, orls, k, j)
    requires orls == MapUpto(srcs, k, j)
    requires |orls| == WantedBefore(srcs, k) + WantedIn(srcs[k], j)
      && stridx == NamesBefore(srcs, k) + NamesIn(srcs[k], j)
    ensures orls' == MapUpto(srcs, k, j + 1)
    ensures |orls'| == WantedBefore(srcs, k) + WantedIn(srcs[k], j + 1)
    ensures stridx' == NamesBefore(srcs, k) + NamesIn(srcs[k], j + 1)
    ensures ValidMap(orls', k + 1) && stridx' == NameIndex(orls', |orls'|) && Collected(srcs, orls', k, j + 1)
  {
    orls', stridx' := orls, stridx;
    var sym := srcs[k].syms[j];
    if Wanted(sym) {
      var o := Orl(sym.name, k, stridx);
      orls' := orls + [o];
      stridx' := stridx + |sym.name| + 1;
      assert |orls| > 0 ==> OrlOk(orls, k + 1, |orls| - 1);
      ValidMapSnoc(orls, k + 1, o);
    }
    forall name: Bytes, elt: nat
      ensures Listed(orls', name, elt) <==> Expected(srcs, k, j + 1, name, elt)
    {
      assert Listed(orls, name, elt) <==> Expected(srcs, k, j, name, elt);
      FromStep(srcs[k], j, name);
      if Wanted(sym) {
        ListedSnoc(orls, Orl(sym.name, k, stridx), name, elt);
      }
    }
  }

  /** The symbols of one member. */
  method CollectMember(srcs: seq<Source>, k: nat, orls: seq<Orl>, stridx: nat) returns (orls': seq<Orl>, stridx': nat)
    requires k < |srcs| && CleanSource(srcs[k])
    requires ValidMap(orls, k + 1) && stridx == NameIndex(orls, |orls|) && Collected(srcs, orls, k, 0)
    requires orls == MapUpto(srcs, k, 0)
    ensures orls' == MapUpto(srcs, k + 1, 0)
    requires |orls| == WantedBefore(srcs, k) && stridx == NamesBefore(srcs, k)
    ensures |orls'| == WantedBefore(srcs, k + 1) && stridx' == NamesBefore(srcs, k + 1)
    ensures ValidMap(orls', k + 1) && stridx' == NameIndex(orls', |orls'|) && Collected(srcs, orls', k + 1, 0)
  {
    orls', stridx' := orls, stridx;
    var src := srcs[k];
    if src.isObject && src.hasSyms {
      for j := 0 to |src.syms|
        invariant orls' == MapUpto(srcs, k, j)
        invariant |orls'| == WantedBefore(srcs, k) + WantedIn(src, j)
        invariant stridx' == NamesBefore(srcs, k) + NamesIn(src, j)
        invariant ValidMap(orls', k + 1) && stridx' == NameIndex(orls', |orls'|) && Collected(srcs, orls', k, j)
      {
        orls', stridx' := CollectOne(srcs, k, j, orls', stridx');
      }
    } else {
      NothingFrom(srcs, k, |src.syms|);
    }
    forall name: Bytes, elt: nat
      ensures Listed(orls', name, elt) <==> Expected(srcs, k + 1, 0, name, elt)
    {
      assert Listed(orls', name, elt)
        <==> Expected(srcs, k, if src.isObject && src.hasSyms then |src.syms| else 0, name, elt);
    }
  }

  /** _bfd_compute_and_write_armap's collection: the map is in member order, its
      name indices run, it lists a name for a member exactly when the member
      defines it, and entry n is that of the symbol at from[n]: the exported or
      common symbols that are not undefined, each once, in symbol order. */
  method CollectMap(srcs: seq<Source>) returns (orls: seq<Orl>, stridx: nat, ghost from: seq<Spot>)
    requires forall k :: 0 <= k < |srcs| ==> CleanSource(srcs[k])
    ensures orls == MapUpto(srcs, |srcs|, 0)
    ensures ValidMap(orls, |srcs|) && stridx == NameIndex(orls, |orls|)
    ensures |orls| == WantedBefore(srcs, |srcs|) && stridx == NamesBefore(srcs, |srcs|)
    ensures forall name: Bytes, elt: nat ::
      Listed(orls, name, elt) <==> elt < |srcs| && Defines(srcs[elt], name)
    ensures |from| == |orls| && Ascending(from) && forall n :: 0 <= n < |from| ==> Names(srcs, orls[n], from[n])
    ensures forall k: nat, i: nat :: Spot(k, i) in from <==>
      && k < |srcs| && i < |srcs[k].syms| && srcs[k].isObject && srcs[k].hasSyms
      && (srcs[k].syms[i].exported || srcs[k].syms[i].common) && !srcs[k].syms[i].undefined
    ensures |orls| == |set k: nat, i: nat |
      k < |srcs| && i < |srcs[k].syms| && srcs[k].isObject && srcs[k].hasSyms
      && (srcs[k].syms[i].exported || srcs[k].syms[i].common) && !srcs[k].syms[i].undefined :: Spot(k, i)|
  {
    orls, stridx := [], 0;
    for k := 0 to |srcs|
      invariant orls == MapUpto(srcs, k, 0)
      invariant |orls| == WantedBefore(srcs, k) && stridx == NamesBefore(srcs, k)
      invariant ValidMap(orls, k) && stridx == NameIndex(orls, |orls|) && Collected(srcs, orls, k, 0)
    {
      var members := k + 1;
      forall i | 0 <= i < |orls|
        ensures OrlOk(orls, members, i)
      {
        assert OrlOk(orls, k, i);
      }
      orls, stridx := CollectMember(srcs, k, orls, stridx);
    }
    forall name: Bytes, elt: nat
      ensures Listed(orls, name, elt) <==> elt < |srcs| && Defines(srcs[elt], name)
    {
      assert Listed(orls, name, elt) <==> Expected(srcs, |srcs|, 0, name, elt);
    }
    from := MapIsExact(srcs);
  }

  // ----- where the headers will be -------------------------------------------

  /** parsed_size and extra_size as recorded, and the octets of name the header
      writer really puts behind the header (4.4BSD long names, padded to 4). */
  datatype Placed = Placed(parsed: nat, extra: nat, inline: nat)

  datatype Scheme = Coff | Bsd | Wide

  /** How each map writer moves its cursor over a member. */
  function Step(s: Scheme, thin: bool, p: nat, m: Placed): nat
  {
    match s
    case Coff => if thin then p + HDR else Even(p + HDR + m.parsed)
    case Wide => Even(p + HDR + if thin then 0 else m.parsed)
    case Bsd => Even(p + m.parsed + m.extra + HDR)
  }

  function Cursor(s: Scheme, thin: bool, first: nat, ms: seq<Placed>, k: nat): nat
    requires k <= |ms|
  {
    if k == 0 then first else Step(s, thin, Cursor(s, thin, first, ms, k - 1), ms[k - 1])
  }

  /** How many octets _bfd_write_archive_contents spends on a member. */
  function Room(thin: bool, m: Placed): nat
  {
    HDR + m.inline + if thin then 0 else Even(m.parsed)
  }

  /** Where it puts the header of member k. */
  function Laid(thin: bool, first: nat, ms: seq<Placed>, k: nat): nat
    requires k <= |ms|
  {
    if k == 0 then first else Laid(thin, first, ms, k - 1) + Room(thin, ms[k - 1])
  }

  /** The map writer's accounting of a member is right: known before writing. */
  predicate Accounted(s: Scheme, thin: bool, m: Placed)
  {
    if s == Bsd then Even(m.parsed + m.extra) == m.inline + (if thin then 0 else Even(m.parsed))
    else m.inline == 0
  }

  lemma StepIsRoomIff(s: Scheme, thin: bool, p: nat, m: Placed)
    requires p % 2 == 0 && m.inline % 4 == 0
    ensures Step(s, thin, p, m) == p + Room(thin, m) <==> Accounted(s, thin, m)
  {
    var q := p + HDR;
    assert q % 2 == 0;
    match s
    case Coff =>
      EvenShift(q, m.parsed);
    case Wide =>
      EvenShift(q, if thin then 0 else m.parsed);
    case Bsd =>
      EvenShift(q, m.parsed + m.extra);
      assert Step(s, thin, p, m) == Even(q + (m.parsed + m.extra));
  }

  lemma EvenShift(p: nat, x: nat)
    requires p % 2 == 0
    ensures Even(p + x) == p + Even(x)
  {
  }

  lemma BothEven(a: nat, b: nat)
    requires a % 2 == 0 && b % 2 == 0
    ensures (a + b) % 2 == 0
  {
  }

  lemma RoomEven(thin: bool, m: Placed)
    requires m.inline % 4 == 0
    ensures Room(thin, m) % 2 == 0
  {
    var q := m.inline / 4;
    assert HDR + m.inline == 2 * (30 + 2 * q);
    TwiceIsEven(30 + 2 * q);
    BothEven(HDR + m.inline, if thin then 0 else Even(m.parsed));
  }

  lemma {:induction false} LaidEven(thin: bool, first: nat, ms: seq<Placed>, k: nat)
    requires k <= |ms| && first % 2 == 0 && forall i :: 0 <= i < |ms| ==> ms[i].inline % 4 == 0
    ensures Laid(thin, first, ms, k) % 2 == 0
  {
    if k > 0 {
      LaidEven(thin, first, ms, k - 1);
      RoomEven(thin, ms[k - 1]);
      BothEven(Laid(thin, first, ms, k - 1), Room(thin, ms[k - 1]));
    }
  }

  ghost predicate AllExact(s: Scheme, thin: bool, first: nat, ms: seq<Placed>, n: nat)
    requires n <= |ms|
  {
    forall k :: 0 <= k <= n ==> Cursor(s, thin, first, ms, k) == Laid(thin, first, ms, k)
  }

  predicate AllAccounted(s: Scheme, thin: bool, ms: seq<Placed>, n: nat)
    requires n <= |ms|
  {
    forall k :: 0 <= k < n ==> Accounted(s, thin, ms[k])
  }

  /** Up to member n every predicted position is the real one exactly when every
      member before n is accounted for: for the BSD writer, when the archive is
      not thin and extra_size is the name octets emitted (up to the padding); for
      the COFF and 64-bit writers, when no name follows its header. */
  lemma {:induction false} OffsetsExactIff(s: Scheme, thin: bool, first: nat, ms: seq<Placed>, n: nat)
    requires n <= |ms| && first % 2 == 0 && forall i :: 0 <= i < |ms| ==> ms[i].inline % 4 == 0
    ensures AllExact(s, thin, first, ms, n) <==> AllAccounted(s, thin, ms, n)
  {
    if n > 0 {
      OffsetsExactIff(s, thin, first, ms, n - 1);
      ExactStep(s, thin, first, ms, n);
      AccountedStep(s, thin, ms, n);
    }
  }

  lemma ExactStep(s: Scheme, thin: bool, first: nat, ms: seq<Placed>, n: nat)
    requires 0 < n <= |ms| && first % 2 == 0 && forall i :: 0 <= i < |ms| ==> ms[i].inline % 4 == 0
    ensures AllExact(s, thin, first, ms, n) <==> AllExact(s, thin, first, ms, n - 1) && Accounted(s, thin, ms[n - 1])
  {
    var p := Laid(thin, first, ms, n - 1);
    LaidEven(thin, first, ms, n - 1);
    StepIsRoomIff(s, thin, p, ms[n - 1]);
    if AllExact(s, thin, first, ms, n) {
      assert AllExact(s, thin, first, ms, n - 1);
    }
    if AllExact(s, thin, first, ms, n - 1) {
      assert Cursor(s, thin, first, ms, n - 1) == p;
      assert Cursor(s, thin, first, ms, n) == Step(s, thin, p, ms[n - 1]);
      assert Laid(thin, first, ms, n) == p + Room(thin, ms[n - 1]);
    }
  }

  lemma AccountedStep(s: Scheme, thin: bool, ms: seq<Placed>, n: nat)
    requires 0 < n <= |ms|
    ensures AllAccounted(s, thin, ms, n) <==> AllAccounted(s, thin, ms, n - 1) && Accounted(s, thin, ms[n - 1])
  {
  }

  /** The COFF and 64-bit cursors never overshoot, so an offset that is right tells
      that all members before it were accounted for: member k is found where its
      header is exactly when no member before it has a name behind its header. */
  lemma {:induction false} PositionExactIff(s: Scheme, thin: bool, first: nat, ms: seq<Placed>, k: nat)
    requires s != Bsd && k <= |ms| && first % 2 == 0 && forall i :: 0 <= i < |ms| ==> ms[i].inline % 4 == 0
    ensures Cursor(s, thin, first, ms, k) <= Laid(thin, first, ms, k) && Cursor(s, thin, first, ms, k) % 2 == 0
    ensures Cursor(s, thin, first, ms, k) == Laid(thin, first, ms, k) <==> NoneInline(ms, k)
  {
    if k > 0 {
      PositionExactIff(s, thin, first, ms, k - 1);
      LaidEven(thin, first, ms, k - 1);
      StepBelow(s, thin, Cursor(s, thin, first, ms, k - 1), Laid(thin, first, ms, k - 1), ms[k - 1]);
    }
  }

  predicate NoneInline(ms: seq<Placed>, k: nat)
    requires k <= |ms|
  {
    forall i :: 0 <= i < k ==> ms[i].inline == 0
  }

  lemma StepBelow(s: Scheme, thin: bool, p: nat, q: nat, m: Placed)
    requires s != Bsd && p <= q && p % 2 == 0 && q % 2 == 0
    ensures Step(s, thin, p, m) <= q + Room(thin, m) && Step(s, thin, p, m) % 2 == 0
    ensures Step(s, thin, p, m) == q + Room(thin, m) <==> p == q && m.inline == 0
  {
    EvenShift(p + HDR, if thin then 0 else m.parsed);
    BothEven(p + HDR, Even(if thin then 0 else m.parsed));
    assert Step(s, thin, p, m) == p + HDR + Even(if thin then 0 else m.parsed);
  }

  /** A thin archive holds no contents, but the BSD writer counts them. */
  lemma ThinBsdMisplaced()
    ensures var ms := [Placed(10, 0, 0), Placed(10, 0, 0)];
      Cursor(Bsd, true, 100, ms, 1) != Laid(true, 100, ms, 1)
  {
    var ms := [Placed(10, 0, 0), Placed(10, 0, 0)];
    assert Cursor(Bsd, true, 100, ms, 0) == Laid(true, 100, ms, 0) == 100;
    assert Laid(true, 100, ms, 1) == 160;
    assert Cursor(Bsd, true, 100, ms, 1) == 170;
  }

  // ----- the entries a map should hold ---------------------------------------

  function EntryOf(s: Scheme, thin: bool, first: nat, ms: seq<Placed>, o: Orl): Entry
    requires o.elt <= |ms|
  {
    Entry(o.name, Cursor(s, thin, first, ms, o.elt))
  }

  function Entries(s: Scheme, thin: bool, first: nat, ms: seq<Placed>, orls: seq<Orl>): (r: seq<Entry>)
    requires forall i :: 0 <= i < |orls| ==> orls[i].elt <= |ms|
    ensures |r| == |orls|
    ensures forall i :: 0 <= i < |orls| ==> r[i] == EntryOf(s, thin, first, ms, orls[i])
  {
    seq(|orls|, i requires 0 <= i < |orls| => EntryOf(s, thin, first, ms, orls[i]))
  }

  lemma {:induction false} NameIndexIsLength(orls: seq<Orl>, es: seq<Entry>, k: nat)
    requires |es| == |orls| && k <= |es| && forall i :: 0 <= i < |es| ==> es[i].name == orls[i].name
    ensures |StringsUpto(es, k)| == NameIndex(orls, k)
  {
    if k > 0 {
      NameIndexIsLength(orls, es, k - 1);
    }
  }

  // ----- the writers' loops --------------------------------------------------

  predicate Narrow(e: Entry) { e.offset < TWO32 }

  predicate AllNarrow(es: seq<Entry>) { forall i :: 0 <= i < |es| ==> Narrow(es[i]) }

  /** From `count` on, the map speaks of members not before `current`. */
  predicate Ahead(orls: seq<Orl>, count: nat, current: nat)
  {
    forall i :: count <= i < |orls| ==> current <= orls[i].elt
  }

  lemma AheadNext(orls: seq<Orl>, count: nat, current: nat)
    requires InOrder(orls) && Ahead(orls, count, current)
    requires count >= |orls| || orls[count].elt != current
    ensures Ahead(orls, count, current + 1)
  {
  }

  /** So does the entry that is next. */
  lemma NextAhead(orls: seq<Orl>, count: nat, current: nat)
    requires Ahead(orls, count, current)
    ensures count < |orls| ==> current <= orls[count].elt
  {
  }

  /** The cast to a 32-bit unsigned int. */
  function Low32(x: nat): (r: nat)
    ensures r == x <==> x < TWO32
  {
    x % TWO32
  }

  /** Every entry of the current member gets the cursor as its offset. */
  predicate OffsetHere(orls: seq<Orl>, es: seq<Entry>, current: nat, cursor: nat)
    requires |es| == |orls|
  {
    forall i :: 0 <= i < |es| && orls[i].elt == current ==> es[i].offset == cursor
  }

  lemma OffsetHereHolds(s: Scheme, thin: bool, first: nat, ms: seq<Placed>, orls: seq<Orl>, current: nat)
    requires current < |ms| && forall i :: 0 <= i < |orls| ==> orls[i].elt <= |ms|
    ensures OffsetHere(orls, Entries(s, thin, first, ms, orls), current, Cursor(s, thin, first, ms, current))
  {
  }

  /** Over one member, by additions, as the loops do it. */
  method NextCursor(s: Scheme, thin: bool, p: nat, m: Placed) returns (p': nat)
    ensures p' == Step(s, thin, p, m)
  {
    p' := p + HDR;
    if s == Bsd {
      p' := p' + m.parsed + m.extra;
    } else if !thin {
      p' := p' + m.parsed;
    }
    if !thin || s != Coff {
      p' := p' + p' % 2;
    }
  }

  /** First pass over the symbols of one member. */
  method ScanMember(orls: seq<Orl>, ghost es: seq<Entry>, start: nat, current: nat, cursor: nat)
    returns (fits: bool, count: nat)
    requires |es| == |orls| && start <= |orls| && InOrder(orls) && Ahead(orls, start, current)
    requires OffsetHere(orls, es, current, cursor)
    ensures start <= count <= |orls|
    ensures fits ==> Ahead(orls, count, current + 1) && forall i :: start <= i < count ==> Narrow(es[i])
    ensures !fits ==> !AllNarrow(es)
  {
    count := start;
    while count < |orls| && orls[count].elt == current
      invariant start <= count <= |orls| && Ahead(orls, count, current)
      invariant forall i :: start <= i < count ==> Narrow(es[i])
    {
      if cursor != Low32(cursor) {
        assert !Narrow(es[count]);
        return false, count;
      }
      count := count + 1;
    }
    AheadNext(orls, count, current);
    fits := true;
  }

  /** The COFF writer's first pass: does every offset fit 32 bits? */
  method ScanCoff(thin: bool, first: nat, ms: seq<Placed>, orls: seq<Orl>) returns (fits: bool)
    requires InOrder(orls) && forall i :: 0 <= i < |orls| ==> orls[i].elt < |ms|
    ensures fits <==> AllNarrow(Entries(Coff, thin, first, ms, orls))
  {
    ghost var es := Entries(Coff, thin, first, ms, orls);
    var current, count, cursor := 0, 0, first;
    while current < |ms| && count < |orls|
      invariant current <= |ms| && count <= |orls| && cursor == Cursor(Coff, thin, first, ms, current)
      invariant Ahead(orls, count, current)
      invariant forall i :: 0 <= i < count ==> Narrow(es[i])
      decreases |ms| - current
    {
      OffsetHereHolds(Coff, thin, first, ms, orls, current);
      fits, count := ScanMember(orls, es, count, current, cursor);
      if !fits {
        return;
      }
      cursor := NextCursor(Coff, thin, cursor, ms[current]);
      current := current + 1;
    }
    return true;
  }

  /** Second pass over the symbols of one member, and the only pass of the 64-bit
      writer: an offset of w octets each. */
  method EmitMember(w: nat, orls: seq<Orl>, ghost es: seq<Entry>, start: nat, current: nat, cursor: nat, sofar: Bytes)
    returns (r: Result<Bytes>, count: nat)
    requires |es| == |orls| && start <= |orls| && InOrder(orls) && Ahead(orls, start, current)
    requires OffsetHere(orls, es, current, cursor) && sofar == OffsetsUpto(w, es, start)
    requires w == 4 || w == 8
    ensures start <= count <= |orls|
    ensures r.Ok? ==> Ahead(orls, count, current + 1) && r.value == OffsetsUpto(w, es, count)
    ensures r.Ok? && w == 4 ==> forall i :: start <= i < count ==> Narrow(es[i])
    ensures r.Err? ==> r.error == FileTruncated && w == 4 && !AllNarrow(es)
  {
    count := start;
    var out := sofar;
    while count < |orls| && orls[count].elt == current
      invariant start <= count <= |orls| && Ahead(orls, count, current)
      invariant out == OffsetsUpto(w, es, count)
      invariant w == 4 ==> forall i :: start <= i < count ==> Narrow(es[i])
    {
      if w == 4 && cursor != Low32(cursor) {
        assert !Narrow(es[count]);
        return Err(FileTruncated), count;
      }
      out := out + Put(Big, w, cursor);
      count := count + 1;
    }
    AheadNext(orls, count, current);
    r := Ok(out);
  }

  function Width(s: Scheme): nat { if s == Wide then 8 else 4 }

  /** The symbols of one member, and the cursor over it. */
  method EmitTurn(s: Scheme, thin: bool, first: nat, ms: seq<Placed>, orls: seq<Orl>, ghost es: seq<Entry>,
                  start: nat, current: nat, cursor: nat, sofar: Bytes)
    returns (r: Result<Bytes>, count: nat, cursor': nat)
    requires s != Bsd && InOrder(orls) && forall i :: 0 <= i < |orls| ==> orls[i].elt < |ms|
    requires es == Entries(s, thin, first, ms, orls) && start <= |orls| && current < |ms| && Ahead(orls, start, current)
    requires cursor == Cursor(s, thin, first, ms, current) && sofar == OffsetsUpto(Width(s), es, start)
    ensures start <= count <= |orls| && cursor' == Cursor(s, thin, first, ms, current + 1)
    ensures r.Ok? ==> Ahead(orls, count, current + 1) && r.value == OffsetsUpto(Width(s), es, count)
    ensures r.Ok? && s == Coff ==> forall i :: start <= i < count ==> Narrow(es[i])
    ensures r.Err? ==> r.error == FileTruncated && s == Coff && !AllNarrow(es)
  {
    OffsetHereHolds(s, thin, first, ms, orls, current);
    r, count := EmitMember(Width(s), orls, es, start, current, cursor, sofar);
    cursor' := NextCursor(s, thin, cursor, ms[current]);
  }

  /** The offsets of a COFF or 64-bit map.  Only the COFF form can fail here. */
  method EmitOffsets(s: Scheme, thin: bool, first: nat, ms: seq<Placed>, orls: seq<Orl>) returns (r: Result<Bytes>)
    requires s != Bsd && InOrder(orls) && forall i :: 0 <= i < |orls| ==> orls[i].elt < |ms|
    ensures var es := Entries(s, thin, first, ms, orls);
      r == if s == Wide || AllNarrow(es) then Ok(OffsetsUpto(Width(s), es, |es|)) else Err(FileTruncated)
  {
    ghost var es := Entries(s, thin, first, ms, orls);
    var current: nat, count: nat, cursor: nat, out: Bytes := 0, 0, first, [];
    while current < |ms| && count < |orls|
      invariant current <= |ms| && count <= |orls| && cursor == Cursor(s, thin, first, ms, current)
      invariant Ahead(orls, count, current)
      invariant out == OffsetsUpto(Width(s), es, count)
      invariant s == Coff ==> forall i :: 0 <= i < count ==> Narrow(es[i])
      decreases |ms| - current
    {
      r, count, cursor := EmitTurn(s, thin, first, ms, orls, es, count, current, cursor, out);
      if r.Err? {
        return;
      }
      out, current := r.value, current + 1;
    }
    NextAhead(orls, count, current);
    assert s == Coff ==> AllNarrow(es);
    r := Ok(out);
  }

  // ----- the BSD writer's loops ----------------------------------------------

  /** Up to the member that defines the next symbol; a do-while in the original,
      entered only when there is somewhere to go. */
  method AdvanceTo(thin: bool, first: nat, ms: seq<Placed>, from: nat, to: nat, cursor: nat) returns (cursor': nat)
    requires from <= to <= |ms| && cursor == Cursor(Bsd, thin, first, ms, from)
    ensures cursor' == Cursor(Bsd, thin, first, ms, to)
  {
    cursor' := cursor;
    var current := from;
    while current != to
      invariant from <= current <= to && cursor' == Cursor(Bsd, thin, first, ms, current)
    {
      cursor' := NextCursor(Bsd, thin, cursor', ms[current]);
      current := current + 1;
    }
  }

  method ScanBsd(thin: bool, first: nat, ms: seq<Placed>, orls: seq<Orl>) returns (fits: bool)
    requires InOrder(orls) && forall i :: 0 <= i < |orls| ==> orls[i].elt < |ms|
    ensures fits <==> AllNarrow(Entries(Bsd, thin, first, ms, orls))
  {
    ghost var es := Entries(Bsd, thin, first, ms, orls);
    var current: nat, cursor: nat := 0, first;
    for count := 0 to |orls|
      invariant current <= |ms| && cursor == Cursor(Bsd, thin, first, ms, current) && Ahead(orls, count, current)
      invariant forall i :: 0 <= i < count ==> Narrow(es[i])
    {
      cursor := AdvanceTo(thin, first, ms, current, orls[count].elt, cursor);
      current := orls[count].elt;
      assert es[count].offset == cursor;
      if cursor != Low32(cursor) {
        assert !Narrow(es[count]);
        return false;
      }
    }
    fits := true;
  }

  method EmitPair(e: Endian, orls: seq<Orl>, ghost members: nat, ghost es: seq<Entry>, count: nat, cursor: nat,
                  sofar: Bytes)
    returns (out: Bytes)
    requires |es| == |orls| && count < |orls| && OrlOk(orls, members, count) && es[count].offset == cursor
    requires forall i :: 0 <= i < |es| ==> es[i].name == orls[i].name
    requires sofar == PairsUpto(e, es, count)
    ensures out == PairsUpto(e, es, count + 1)
  {
    NameIndexIsLength(orls, es, count);
    out := sofar + (Put(e, 4, orls[count].namidx) + Put(e, 4, cursor));
  }

  /** One symbol of the second pass. */
  method PairTurn(e: Endian, thin: bool, first: nat, ms: seq<Placed>, orls: seq<Orl>, ghost es: seq<Entry>,
                  count: nat, current: nat, cursor: nat, sofar: Bytes)
    returns (r: Result<Bytes>, cursor': nat)
    requires count < |orls| == |es| && OrlOk(orls, |ms|, count) && current <= orls[count].elt
    requires forall i :: 0 <= i < |es| ==> es[i].name == orls[i].name
    requires es[count].offset == Cursor(Bsd, thin, first, ms, orls[count].elt)
    requires cursor == Cursor(Bsd, thin, first, ms, current) && sofar == PairsUpto(e, es, count)
    ensures cursor' == Cursor(Bsd, thin, first, ms, orls[count].elt)
    ensures r == if Narrow(es[count]) then Ok(PairsUpto(e, es, count + 1)) else Err(FileTruncated)
  {
    cursor' := AdvanceTo(thin, first, ms, current, orls[count].elt, cursor);
    if cursor' != Low32(cursor') {
      return Err(FileTruncated), cursor';
    }
    var out := EmitPair(e, orls, |ms|, es, count, cursor', sofar);
    r := Ok(out);
  }

  method EmitPairs(e: Endian, thin: bool, first: nat, ms: seq<Placed>, orls: seq<Orl>) returns (r: Result<Bytes>)
    requires ValidMap(orls, |ms|) && forall i :: 0 <= i < |orls| ==> orls[i].elt < |ms|
    ensures var es := Entries(Bsd, thin, first, ms, orls);
      r == if AllNarrow(es) then Ok(PairsUpto(e, es, |es|)) else Err(FileTruncated)
  {
    ghost var es := Entries(Bsd, thin, first, ms, orls);
    var current: nat, cursor: nat, out: Bytes := 0, first, [];
    for count := 0 to |orls|
      invariant current <= |ms| && cursor == Cursor(Bsd, thin, first, ms, current) && Ahead(orls, count, current)
      invariant out == PairsUpto(e, es, count) && forall i :: 0 <= i < count ==> Narrow(es[i])
    {
      assert OrlOk(orls, |ms|, count);
      r, cursor := PairTurn(e, thin, first, ms, orls, es, count, current, cursor, out);
      current := orls[count].elt;
      if r.Err? {
        assert !Narrow(es[count]);
        return;
      }
      out := r.value;
    }
    r := Ok(out);
  }

  /** The names, and the padding behind them. */
  method EmitStrings(orls: seq<Orl>, ghost es: seq<Entry>, padding: nat) returns (out: Bytes)
    requires |es| == |orls| && forall i :: 0 <= i < |es| ==> es[i].name == orls[i].name
    ensures out == Strings(es) + Repeat(NUL, padding)
  {
    out := [];
    for count := 0 to |orls|
      invariant out == StringsUpto(es, count)
    {
      out := out + orls[count].name + [NUL];
    }
    var left := padding;
    while left != 0
      decreases left
      invariant 0 <= left <= padding && out == Strings(es) + Repeat(NUL, padding - left)
    {
      assert Repeat(NUL, padding - left) + [NUL] == Repeat(NUL, padding - (left - 1));
      out := out + [NUL];
      left := left - 1;
    }
  }

  // ----- parity --------------------------------------------------------------

  lemma BsdSizeEven(count: nat, stridx: nat)
    ensures BsdBodySize(count, stridx) % 2 == 0
  {
    TwiceIsEven(4 * count + 4);
    BothEven(2 * (4 * count + 4), Even(stridx));
    assert BsdBodySize(count, stridx) == 2 * (4 * count + 4) + Even(stridx);
  }

  lemma MapEven(s: Scheme, count: nat, stridx: nat)
    ensures MapSize(s, count, stridx) % 2 == 0
  {
    if s == Bsd {
      BsdSizeEven(count, stridx);
    } else {
      var w := Width(s);
      var size := w + w * count + stridx;
      assert MapSize(s, count, stridx) == size + Padding(w, size);
    }
  }

  lemma FirstEven(s: Scheme, orls: seq<Orl>, elength: nat)
    requires elength % 2 == 0
    ensures First(s, orls, elength) % 2 == 0
  {
    var size := MapSize(s, |orls|, NameIndex(orls, |orls|));
    MapEven(s, |orls|, NameIndex(orls, |orls|));
    BothEven(size, elength);
    BothEven(size + elength, HDR + SARMAG);
  }

  // ----- whole maps ----------------------------------------------------------

  function MapSize(s: Scheme, count: nat, stridx: nat): nat
  {
    if s == Bsd then BsdBodySize(count, stridx) else BodySize(Width(s), count, stridx)
  }

  /** Where the first member's header will be; elength counts the name table. */
  function First(s: Scheme, orls: seq<Orl>, elength: nat): nat
  {
    MapSize(s, |orls|, NameIndex(orls, |orls|)) + elength + HDR + SARMAG
  }

  predicate Writable(orls: seq<Orl>, members: nat)
  {
    && ValidMap(orls, members)
    && (forall i :: 0 <= i < |orls| ==> orls[i].elt < members)
    && MapSize(Wide, |orls|, NameIndex(orls, |orls|)) < TWO32
  }

  /** What to build a map from. */
  datatype Job = Job(e: Endian, thin: bool, elength: nat, ms: seq<Placed>, orls: seq<Orl>, misc: Bytes)

  predicate ValidJob(j: Job) { Writable(j.orls, |j.ms|) && |j.misc| == 32 }

  function Wish(s: Scheme, j: Job): (r: seq<Entry>)
    requires ValidJob(j)
    ensures |r| == |j.orls|
  {
    Entries(s, j.thin, First(s, j.orls, j.elength), j.ms, j.orls)
  }

  function NameFor(s: Scheme): (r: Bytes)
    ensures |r| == 16
  {
    match s case Coff => COFF_NAME case Bsd => BSD_NAME case Wide => WIDE_NAME
  }

  function BodyFor(s: Scheme, j: Job): (r: Bytes)
    requires ValidJob(j)
    ensures |r| == MapSize(s, |j.orls|, NameIndex(j.orls, |j.orls|)) < TWO32
  {
    var es := Wish(s, j);
    NameIndexIsLength(j.orls, es, |es|);
    WideIsLargest(s, |j.orls|, NameIndex(j.orls, |j.orls|));
    if s == Bsd then BsdBody(j.e, es) else Body(Width(s), es)
  }

  lemma WideIsLargest(s: Scheme, count: nat, stridx: nat)
    ensures MapSize(s, count, stridx) <= MapSize(Wide, count, stridx)
  {
    var size := 8 + 8 * count + stridx;
    match s
    case Coff =>
      var less := 4 + 4 * count + stridx;
      assert MapSize(Coff, count, stridx) == less + Padding(4, less) <= less + 7;
      NarrowPadding(less);
    case Bsd =>
      WideOverBsd(count, stridx, size + Padding(8, size));
    case Wide =>
  }

  lemma NarrowPadding(size: nat)
    ensures Padding(4, size) <= 1
  {
  }

  lemma WideOverBsd(count: nat, stridx: nat, end: nat)
    requires end % 2 == 0 && end >= 8 + 8 * count + stridx
    ensures 8 * count + Even(stridx) + 8 <= end
  {
    var front := 2 * (4 + 4 * count);
    TwiceIsEven(4 + 4 * count);
    EvenShift(front, stridx);
    EvenLeast(front + stridx, end);
  }

  lemma EvenLeast(p: nat, x: nat)
    requires x % 2 == 0 && x >= p
    ensures Even(p) <= x
  {
  }

  lemma MapFitsSizeField(size: nat)
    requires size < TWO32
    ensures SizePad(10, size).Some?
  {
    Pow10Ten();
    SizePadReads(10, size);
  }

  /** A map in the given scheme, its header included. */
  function MapImage(s: Scheme, j: Job): (r: Bytes)
    requires ValidJob(j)
    ensures |r| == HDR + MapSize(s, |j.orls|, NameIndex(j.orls, |j.orls|))
  {
    MapFitsSizeField(|BodyFor(s, j)|);
    MapMember(NameFor(s), j.misc, BodyFor(s, j))
  }

  /** The scheme asked for, unless an offset needs more than 32 bits. */
  function Chosen(s: Scheme, j: Job): Scheme
    requires ValidJob(j)
  {
    if AllNarrow(Wish(s, j)) then s else Wide
  }

  /** A map a BSD or COFF writer diverted: entry i of the 64-bit map names the place
      of its member's header exactly when no member before that one has a name
      behind its header. */
  lemma DivertedEntryExactIff(s: Scheme, j: Job, i: nat)
    requires ValidJob(j) && Chosen(s, j) == Wide && i < |j.orls| && j.elength % 2 == 0
    requires forall k :: 0 <= k < |j.ms| ==> j.ms[k].inline % 4 == 0
    ensures Wish(Chosen(s, j), j)[i].offset == Laid(j.thin, First(Wide, j.orls, j.elength), j.ms, j.orls[i].elt)
      <==> NoneInline(j.ms, j.orls[i].elt)
  {
    FirstEven(Wide, j.orls, j.elength);
    PositionExactIff(Wide, j.thin, First(Wide, j.orls, j.elength), j.ms, j.orls[i].elt);
    assert Wish(Wide, j)[i] == EntryOf(Wide, j.thin, First(Wide, j.orls, j.elength), j.ms, j.orls[i]);
  }

  /** One that goes wrong: a member of 4 GB with a 4.4BSD long name, and a symbol in
      the member behind it.  The BSD writer diverts, and the 64-bit map misses the
      second member by the length of the name. */
  lemma DivertedLongNameMisplaced(misc: Bytes)
    requires |misc| == 32
    ensures var ms := [Placed(TWO32, 20, 20), Placed(10, 0, 0)];
      var j := Job(Big, false, 0, ms, [Orl([65], 1, 0)], misc);
      && ValidJob(j) && !AllNarrow(Wish(Bsd, j)) && Chosen(Bsd, j) == Wide
      && Wish(Wide, j)[0].offset != Laid(false, First(Wide, j.orls, 0), ms, 1)
  {
    var ms := [Placed(TWO32, 20, 20), Placed(10, 0, 0)];
    var orls := [Orl([65], 1, 0)];
    var j := Job(Big, false, 0, ms, orls, misc);
    assert NameIndex(orls, 0) == 0 && NameIndex(orls, 1) == 2;
    assert OrlOk(orls, 2, 0);
    assert BodySize(8, 1, 2) == 18 + Padding(8, 18);
    assert ValidJob(j);
    var first := First(Bsd, orls, 0);
    assert Cursor(Bsd, false, first, ms, 0) == first;
    assert Cursor(Bsd, false, first, ms, 1) >= TWO32;
    assert Wish(Bsd, j)[0] == EntryOf(Bsd, false, first, ms, orls[0]);
    assert !Narrow(Wish(Bsd, j)[0]);
    assert ms[0].inline != 0;
    DivertedEntryExactIff(Bsd, j, 0);
  }

  method WriteHeader(s: Scheme, misc: Bytes, size: nat) returns (r: Result<Bytes>)
    requires |misc| == 32
    ensures r == match SizePad(10, size) case None => Err(TooBig) case Some(f) => Ok(Image(NameFor(s), misc, f))
  {
    var f := SizePad(10, size);
    if f.None? {
      return Err(TooBig);
    }
    r := Ok(Image(NameFor(s), misc, f.value));
  }

  /** The names behind a COFF or 64-bit map's offsets, padded. */
  method WriteNames(s: Scheme, j: Job, ghost es: seq<Entry>) returns (strings: Bytes)
    requires ValidJob(j) && s != Bsd && es == Wish(s, j)
    ensures strings == Strings(es) + Tail(Width(s), es)
  {
    NameIndexIsLength(j.orls, es, |es|);
    var w, n, stridx := Width(s), |j.orls|, NameIndex(j.orls, |j.orls|);
    strings := EmitStrings(j.orls, es, Padding(w, w + w * n + stridx));
  }

  /** Count, offsets and names. */
  method WriteBody(s: Scheme, j: Job) returns (r: Result<Bytes>)
    requires ValidJob(j) && s != Bsd
    ensures r == if s == Wide || AllNarrow(Wish(s, j)) then Ok(BodyFor(s, j)) else Err(FileTruncated)
  {
    var offsets := EmitOffsets(s, j.thin, First(s, j.orls, j.elength), j.ms, j.orls);
    if offsets.Err? {
      return offsets;
    }
    var strings := WriteNames(s, j, Wish(s, j));
    r := Ok(Put(Big, Width(s), |j.orls|) + offsets.value + strings);
    BodyIs(s, j, Wish(s, j), offsets.value, strings);
  }

  lemma BodyIs(s: Scheme, j: Job, es: seq<Entry>, offsets: Bytes, strings: Bytes)
    requires ValidJob(j) && s != Bsd && es == Wish(s, j)
    requires offsets == OffsetsUpto(Width(s), es, |es|) && strings == Strings(es) + Tail(Width(s), es)
    ensures Put(Big, Width(s), |es|) + offsets + strings == BodyFor(s, j)
  {
    Join(Put(Big, Width(s), |es|), offsets, Strings(es), Tail(Width(s), es));
  }

  lemma Join(a: Bytes, b: Bytes, c: Bytes, d: Bytes)
    ensures a + b + (c + d) == a + b + c + d
  {
  }

  /** _bfd_archive_64_bit_write_armap. */
  method WriteWide(j: Job) returns (r: Result<Bytes>)
    requires ValidJob(j)
    ensures r == Ok(MapImage(Wide, j))
  {
    MapFitsSizeField(|BodyFor(Wide, j)|);
    var hdr := WriteHeader(Wide, j.misc, MapSize(Wide, |j.orls|, NameIndex(j.orls, |j.orls|)));
    var body := WriteBody(Wide, j);
    r := Ok(hdr.value + body.value);
  }

  /** _bfd_coff_write_armap under BFD64: never the second pass's failure, since
      the first pass has already diverted every map it could strike. */
  method WriteCoff(j: Job) returns (r: Result<Bytes>)
    requires ValidJob(j)
    ensures r == Ok(MapImage(Chosen(Coff, j), j))
  {
    var fits := ScanCoff(j.thin, First(Coff, j.orls, j.elength), j.ms, j.orls);
    if !fits {
      r := WriteWide(j);
      return;
    }
    MapFitsSizeField(|BodyFor(Coff, j)|);
    var hdr := WriteHeader(Coff, j.misc, MapSize(Coff, |j.orls|, NameIndex(j.orls, |j.orls|)));
    var body := WriteBody(Coff, j);
    if body.Err? {
      return body;
    }
    r := Ok(hdr.value + body.value);
  }

  method WriteBsdBody(j: Job) returns (r: Result<Bytes>)
    requires ValidJob(j)
    ensures r == if AllNarrow(Wish(Bsd, j)) then Ok(BodyFor(Bsd, j)) else Err(FileTruncated)
  {
    ghost var es := Wish(Bsd, j);
    NameIndexIsLength(j.orls, es, |es|);
    var n, stridx := |j.orls|, NameIndex(j.orls, |j.orls|);
    var pairs := EmitPairs(j.e, j.thin, First(Bsd, j.orls, j.elength), j.ms, j.orls);
    if pairs.Err? {
      return pairs;
    }
    var strings := EmitStrings(j.orls, es, stridx % 2);
    r := Ok(Put(j.e, 4, 8 * n) + pairs.value + Put(j.e, 4, Even(stridx)) + strings);
    Join(Put(j.e, 4, 8 * n) + pairs.value, Put(j.e, 4, Even(stridx)), Strings(es), Repeat(NUL, stridx % 2));
  }

  /** _bfd_bsd_write_armap under BFD64. */
  method WriteBsd(j: Job) returns (r: Result<Bytes>)
    requires ValidJob(j)
    ensures r == Ok(MapImage(Chosen(Bsd, j), j))
  {
    var fits := ScanBsd(j.thin, First(Bsd, j.orls, j.elength), j.ms, j.orls);
    if !fits {
      r := WriteWide(j);
      return;
    }
    MapFitsSizeField(|BodyFor(Bsd, j)|);
    var hdr := WriteHeader(Bsd, j.misc, MapSize(Bsd, |j.orls|, NameIndex(j.orls, |j.orls|)));
    var body := WriteBsdBody(j);
    if body.Err? {
      return body;
    }
    r := Ok(hdr.value + body.value);
  }
}
