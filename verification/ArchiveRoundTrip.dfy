/** What is written is what is read: names, contents, symbols and positions of a
    whole archive, whatever its target (binutils/bfd/archive.c). */
module ArchiveRoundTrip {
  import opened Octets
  import opened ArHeader
  import NT = NameTable
  import opened Armap
  import AW = ArmapWriter
  import opened ArchiveFile
  import opened MemberRoundTrip

  // ----- the listing ---------------------------------------------------------

  /** A header stands at start k. */
  ghost predicate Reads(file: Bytes, o: Opened, maxname: nat, elts: seq<Element>, starts: seq<nat>, k: nat)
    requires maxname <= 16 && k < |elts| && |starts| == |elts| + 1
  {
    ReadHeader(file, starts[k], o.names, maxname, o.thin) == Ok(elts[k])
  }

  /** Each element begins at the even end of the one before; in a thin archive,
      right behind its header. */
  ghost predicate Spaced(thin: bool, elts: seq<Element>, starts: seq<nat>, k: nat, limit: nat)
    requires k < |elts| && |starts| == |elts| + 1
  {
    && elts[k].body % 2 == 0
    && starts[k + 1] == elts[k].body + (if thin then 0 else Even(elts[k].parsed)) <= limit
  }

  /** The elements stand in the file one behind the other. */
  ghost predicate Laid(file: Bytes, o: Opened, maxname: nat, elts: seq<Element>, starts: seq<nat>)
    requires maxname <= 16 && |starts| == |elts| + 1
  {
    match o
    case Opened(thin, _, _, _) =>
      forall i :: 0 <= i < |elts| ==> Reads(file, o, maxname, elts, starts, i) && Spaced(thin, elts, starts, i, |file|)
  }

  lemma NextPosIs(h: Element, thin: bool, next: nat)
    requires h.body % 2 == 0 && next == h.body + (if thin then 0 else Even(h.parsed)) < TWO64
    ensures NextPos(h, thin) == Ok(next)
  {
    if !thin {
      WrapIs(h.body + h.parsed, 0, h.body + h.parsed);
      AW.EvenShift(h.body, h.parsed);
      WrapIs(Even(h.body + h.parsed), 0, Even(h.body + h.parsed));
    }
  }

  lemma ListStep(file: Bytes, o: Opened, maxname: nat, pos: nat, met: seq<Element>,
                 h: Element, next: nat, met': seq<Element>)
    requires maxname <= 16 && ReadHeader(file, pos, o.names, maxname, o.thin) == Ok(h)
    requires NextPos(h, o.thin) == Ok(next) && met' == met + [h]
    ensures ListFrom(file, o, maxname, pos, met) == ListFrom(file, o, maxname, next, met')
  {
  }

  lemma ListEnd(file: Bytes, o: Opened, maxname: nat, met: seq<Element>)
    requires maxname <= 16
    ensures ListFrom(file, o, maxname, |file|, met) == Listing(met, NoMore)
  {
  }

  lemma ListsOne(file: Bytes, o: Opened, maxname: nat, elts: seq<Element>, starts: seq<nat>, k: nat)
    requires maxname <= 16 && k < |elts| && |starts| == |elts| + 1 && |file| < TWO64
    requires Reads(file, o, maxname, elts, starts, k) && Spaced(o.thin, elts, starts, k, |file|)
    ensures ListFrom(file, o, maxname, starts[k], elts[..k])
         == ListFrom(file, o, maxname, starts[k + 1], elts[..k + 1])
  {
    NextPosIs(elts[k], o.thin, starts[k + 1]);
    assert elts[..k] + [elts[k]] == elts[..k + 1];
    ListStep(file, o, maxname, starts[k], elts[..k], elts[k], starts[k + 1], elts[..k + 1]);
  }

  /** Iterating yields every element in order and then stops. */
  lemma {:induction false} ListsAll(file: Bytes, o: Opened, maxname: nat, elts: seq<Element>, starts: seq<nat>,
                                    k: nat, l: Listing)
    requires maxname <= 16 && k <= |elts| && |starts| == |elts| + 1
    requires |file| < TWO64 && starts[|elts|] == |file|
    requires Laid(file, o, maxname, elts, starts)
    requires l == ListFrom(file, o, maxname, starts[k], elts[..k])
    ensures l == Listing(elts, NoMore)
    decreases |elts| - k
  {
    if k == |elts| {
      ListEnd(file, o, maxname, elts[..k]);
      assert elts[..k] == elts;
    } else {
      assert Reads(file, o, maxname, elts, starts, k) && Spaced(o.thin, elts, starts, k, |file|);
      ListsOne(file, o, maxname, elts, starts, k);
      ListsAll(file, o, maxname, elts, starts, k + 1, l);
    }
  }

  // ----- layout --------------------------------------------------------------

  lemma {:induction false} PieceInside(pieces: seq<Bytes>, k: nat, n: nat, f: Bytes, p: nat)
    requires k < n <= |pieces| && At(f, p, Joined(pieces, n))
    ensures At(f, p + |Joined(pieces, k)|, pieces[k])
    decreases n
  {
    AtJoin(f, p, Joined(pieces, n - 1), pieces[n - 1]);
    if k < n - 1 {
      PieceInside(pieces, k, n - 1, f, p);
    }
  }

  /** Where the layout puts the header of item k; the end, for the last k. */
  function StartOf(p: Plan, k: nat): nat
    requires k <= |p.items|
  {
    AW.Laid(p.thin, Base(p), PlacedOf(p.items), k)
  }

  function Starts(p: Plan): (r: seq<nat>)
    ensures |r| == |p.items| + 1 && forall k :: 0 <= k <= |p.items| ==> r[k] == StartOf(p, k)
  {
    seq(|p.items| + 1, k requires 0 <= k <= |p.items| => StartOf(p, k))
  }

  lemma StartNext(p: Plan, k: nat)
    requires k < |p.items|
    ensures StartOf(p, k + 1) == StartOf(p, k) + HDR + |p.items[k].inline|
                                 + if p.thin then 0 else Even(|p.items[k].data|)
  {
    assert PlacedOf(p.items)[k] == AW.Placed(|p.items[k].data|, p.items[k].extra, |p.items[k].inline|);
  }

  lemma StartEven(p: Plan, k: nat)
    requires ValidPlan(p) && k <= |p.items|
    ensures StartOf(p, k) % 2 == 0
  {
    FrontEven(p);
    AW.LaidEven(p.thin, Base(p), PlacedOf(p.items), k);
  }

  lemma EvenAdd(a: nat, b: nat)
    requires a % 2 == 0 && b % 2 == 0
    ensures (SARMAG + a) % 2 == 0 && (SARMAG + a + b) % 2 == 0
  {
  }

  lemma FrontEven(p: Plan)
    requires ValidPlan(p)
    ensures Front(p) % 2 == 0 && Base(p) % 2 == 0
  {
    TableLength(p.slash, p.table);
    EvenAdd(|p.armap|, Elength(p.table));
  }

  lemma BlockParts(thin: bool, i: Item, f: Bytes, pos: nat)
    requires ItemShaped(i) && ItemFits(i) && At(f, pos, Block(thin, i))
    ensures At(f, pos, HeadOf(i)) && (!thin ==> At(f, pos + HDR + |i.inline|, i.data))
  {
    AtJoin(f, pos, HeadOf(i), BodyOf(thin, i));
    if !thin {
      AtJoin(f, pos + |HeadOf(i)|, i.data, Repeat(NEWLINE, |i.data| % 2));
    }
  }

  lemma BlockAt(thin: bool, items: seq<Item>, k: nat, f: Bytes, base: nat, pos: nat)
    requires Aligned(items) && k < |items| && At(f, base, BlocksUpto(thin, items, |items|))
    requires pos == AW.Laid(thin, base, PlacedOf(items), k)
    ensures At(f, pos, Block(thin, items[k]))
  {
    var pieces := Blocks(thin, items);
    BlocksLength(thin, items, base, k);
    PieceInside(pieces, k, |items|, f, base);
    PieceIs(thin, items, k, pieces);
  }

  lemma PieceIs(thin: bool, items: seq<Item>, k: nat, pieces: seq<Bytes>)
    requires Aligned(items) && k < |items| && pieces == Blocks(thin, items)
    ensures k < |pieces| && pieces[k] == Block(thin, items[k])
  {
  }

  lemma BlocksStand(p: Plan, f: Bytes)
    requires ValidPlan(p) && Composed(p, f)
    ensures At(f, Base(p), BlocksUpto(p.thin, p.items, |p.items|))
  {
    assert Part(p, Base(p), BlocksUpto(p.thin, p.items, |p.items|));
  }

  lemma BlockStands(p: Plan, f: Bytes, k: nat, pos: nat)
    requires ValidPlan(p) && Composed(p, f) && k < |p.items| && pos == StartOf(p, k)
    ensures At(f, pos, Block(p.thin, p.items[k]))
  {
    BlocksStand(p, f);
    BlockAt(p.thin, p.items, k, f, Base(p), pos);
  }

  /** In every archive written, thin or not and whatever the names, the header of
      member k stands where the layout says, and its contents behind it. */
  lemma HeaderStands(p: Plan, f: Bytes, k: nat)
    requires ValidPlan(p) && Composed(p, f) && k < |p.items|
    ensures At(f, StartOf(p, k), HeadOf(p.items[k]))
    ensures !p.thin ==> At(f, StartOf(p, k) + HDR + |p.items[k].inline|, p.items[k].data)
  {
    HeaderAt(p, f, k, p.items[k], StartOf(p, k));
  }

  lemma HeaderAt(p: Plan, f: Bytes, k: nat, i: Item, pos: nat)
    requires ValidPlan(p) && Composed(p, f) && k < |p.items| && i == p.items[k] && pos == StartOf(p, k)
    ensures At(f, pos, HeadOf(i)) && (!p.thin ==> At(f, pos + HDR + |i.inline|, i.data))
  {
    BlockStands(p, f, k, pos);
    BlockParts(p.thin, i, f, pos);
  }

  lemma {:induction false} LaidGrows(thin: bool, base: nat, ms: seq<AW.Placed>, j: nat, k: nat)
    requires j <= k <= |ms|
    ensures AW.Laid(thin, base, ms, j) <= AW.Laid(thin, base, ms, k)
    decreases k
  {
    if j < k {
      LaidGrows(thin, base, ms, j, k - 1);
    }
  }

  // ----- special members -----------------------------------------------------

  lemma SpecialOf(f: Bytes, pos: nat, maxname: nat, h: Element, body: Bytes)
    requires maxname <= 16 && ReadHeader(f, pos, None, maxname, false) == Ok(h)
    requires h.parsed == |body| && At(f, h.body, body)
    ensures ReadSpecial(f, pos, maxname) == Ok((body, Even(h.body + |body|)))
  {
  }

  lemma SpecialHeader(f: Bytes, pos: nat, maxname: nat, name: Bytes, misc: Bytes, size: nat)
    requires maxname <= 16 && |name| == 16 && |misc| == 32 && name[0] != HASH && size < Pow10(10)
    requires At(f, pos, Image(name, misc, SizeField(size)))
    ensures f[pos..pos + 16] == name
    ensures var h := ReadHeader(f, pos, None, maxname, false);
      h.Ok? && h.value.parsed == size && h.value.body == pos + HDR
  {
    var raw := Image(name, misc, SizeField(size));
    PaddedSize(size);
    assert raw[0] == raw[..16][0];
    PlainHeaderReads(f, pos, None, maxname, false, raw);
    assert f[pos..pos + 16] == f[pos..pos + HDR][..16];
  }

  lemma SpecialReads(f: Bytes, pos: nat, maxname: nat, name: Bytes, misc: Bytes, body: Bytes)
    requires maxname <= 16 && |name| == 16 && |misc| == 32 && name[0] != HASH && |body| < Pow10(10)
    requires At(f, pos, Image(name, misc, SizeField(|body|)) + body)
    ensures pos + HDR <= |f| && f[pos..pos + 16] == name
    ensures ReadSpecial(f, pos, maxname) == Ok((body, Even(pos + HDR + |body|)))
  {
    AtJoin(f, pos, Image(name, misc, SizeField(|body|)), body);
    SpecialHeader(f, pos, maxname, name, misc, |body|);
    SpecialOf(f, pos, maxname, ReadHeader(f, pos, None, maxname, false).value, body);
  }

  lemma NoTable(f: Bytes, pos: nat, maxname: nat)
    requires maxname <= 16 && (|f| < pos + 16 || !IsTableName(f[pos..pos + 16]))
    ensures SlurpNames(f, pos, maxname) == Ok((None, pos))
  {
  }

  /** The name table as a member, and what is kept of it. */
  lemma TableShape(slash: bool, table: Bytes) returns (name: Bytes, size: nat, body: Bytes)
    requires table != [] && |table| < TWO32
    ensures IsTableName(name) && name[0] != HASH && |body| == size < Pow10(10) && size % 2 == 0
    ensures TableMember(slash, table) == Image(name, Repeat(SPACE, 32), SizeField(size)) + body
    ensures |TableMember(slash, table)| == HDR + size && NamesRead(table) == Some(NT.Rewritten(body))
  {
    Pow10Ten();
    name, size, body := TableName(slash), Even(|table|), table + Repeat(NEWLINE, |table| % 2);
  }

  lemma TableSlurped(f: Bytes, pos: nat, name: Bytes, size: nat, body: Bytes, maxname: nat,
                     names: Option<Bytes>, next: nat)
    requires maxname <= 16 && pos % 2 == 0 && IsTableName(name) && name[0] != HASH
    requires |body| == size < Pow10(10) && size % 2 == 0
    requires At(f, pos, Image(name, Repeat(SPACE, 32), SizeField(size)) + body)
    requires names == Some(NT.Rewritten(body)) && next == pos + HDR + size
    ensures SlurpNames(f, pos, maxname) == Ok((names, next))
  {
    SpecialReads(f, pos, maxname, name, Repeat(SPACE, 32), body);
    EvenEnd(pos, size);
    SlurpNamesOf(f, pos, maxname, body, Even(pos + HDR + size));
  }

  lemma EvenEnd(pos: nat, size: nat)
    requires pos % 2 == 0 && size % 2 == 0
    ensures Even(pos + HDR + size) == pos + HDR + size
  {
    AW.EvenShift(pos + HDR, size);
  }

  lemma SlurpNamesOf(f: Bytes, pos: nat, maxname: nat, body: Bytes, next: nat)
    requires maxname <= 16 && pos + 16 <= |f| && IsTableName(f[pos..pos + 16])
    requires ReadSpecial(f, pos, maxname) == Ok((body, next))
    ensures SlurpNames(f, pos, maxname) == Ok((Some(NT.Rewritten(body)), next))
  {
  }

  predicate IsTableName(name: Bytes)
  {
    |name| == 16 && (name == TABLE_NAME || name == BSD_TABLE_NAME)
  }

  // ----- the first member is not mistaken for something else -----------------

  /** Names that mean something in front of an archive: the old map, the name
      table, and the map as Mach-O spells it. */
  predicate Reserved(t: Target, n: NT.Named)
  {
    || n.normal == SYMDEF
    || (n.normal == ARFILENAMES && n.pad == SLASH)
    || (t.bsd44 && SYMDEF <= n.normal && Align4(|n.normal|) == 20)
  }

  /** Not the name of a table or map, unless what is behind the header tells. */
  predicate Ordinary(field: Bytes)
    requires |field| == 16
  {
    !IsTableName(field) && KindOf(field, []) == NoMap && field[0] != SLASH
  }

  lemma FirstSlash(name: Bytes, was: Bytes)
    requires |name| < 16 == |was| && PlainName(name)
    ensures Find(ShortField(name, SLASH, was), SLASH) == |name|
  {
    var field := ShortField(name, SLASH, was);
    assert field[..|name|] == name;
    FindFirst(field, SLASH, |name|);
  }

  lemma SlashesOfNames()
    ensures Find(OLD_BSD_NAME, SLASH) == 9 && Find(BSD_TABLE_NAME, SLASH) == 11 && Find(MACHO_NAME, SLASH) == 2
    ensures Find(BSD_NAME, SLASH) == 16
  {
    FindFirst(OLD_BSD_NAME, SLASH, 9);
    FindFirst(BSD_TABLE_NAME, SLASH, 11);
    FindFirst(MACHO_NAME, SLASH, 2);
    FindFirst(BSD_NAME, SLASH, 16);
  }

  lemma SlashFieldOrdinary(st: NT.Style, n: NT.Named)
    requires NT.ValidStyle(st) && ShortStorable(st, n) && n.pad == SLASH && n.normal != SYMDEF
      && n.normal != ARFILENAMES
    ensures var f := ShortField(n.normal, SLASH, n.field); Ordinary(f) && f != MACHO_NAME
  {
    var name, field := n.normal, ShortField(n.normal, SLASH, n.field);
    assert name[0] in name;
    assert field[..|name|] == name;
    assert field[0] == field[..|name|][0];
    SlashesOfNames();
    if |name| < 16 {
      FirstSlash(name, n.field);
      assert OLD_BSD_NAME[..9] == SYMDEF && BSD_TABLE_NAME[..11] == ARFILENAMES;
      assert MACHO_NAME[..2] == [HASH, ONE] && IsDigit(MACHO_NAME[3]);
      assert |name| < 3 ==> field[3] == n.field[3];
    } else {
      assert field[..16] == field;
      FindFirst(name, SLASH, 16);
      assert BSD_NAME[9] == SPACE;
      assert field[9] in name;
    }
  }

  lemma SpaceFieldOrdinary(st: NT.Style, n: NT.Named)
    requires NT.ValidStyle(st) && ShortStorable(st, n) && n.pad == SPACE && n.normal != SYMDEF
    ensures var f := ShortField(n.normal, SPACE, n.field); Ordinary(f) && f != MACHO_NAME
  {
    var name, field := n.normal, ShortField(n.normal, SPACE, n.field);
    SpaceFieldOctets(name, n.field, st.maxname, 0);
    SpaceFieldOctets(name, n.field, st.maxname, 2);
    SpaceFieldOctets(name, n.field, st.maxname, 9);
    SpaceFieldOctets(name, n.field, st.maxname, 11);
    if field == BSD_NAME {
      OnlySymdef(name, n.field, st.maxname);
    }
  }

  lemma OnlySymdef(name: Bytes, was: Bytes, maxname: nat)
    requires |name| <= maxname <= 16 == |was| && 9 <= maxname && SpaceField(name, was, maxname)
    requires ShortField(name, SPACE, was) == BSD_NAME
    ensures name == SYMDEF
  {
    var raw := BSD_NAME[..maxname];
    SpaceFieldLength(name, was, maxname, raw);
    FindFirst(raw, SPACE, 9);
    assert BSD_NAME[..|name|] == name && BSD_NAME[..9] == SYMDEF;
  }

  /** A short name in front is taken for what it is. */
  lemma FieldOrdinary(t: Target, n: NT.Named)
    requires NT.ValidStyle(t.st) && ShortStorable(t.st, n) && !Reserved(t, n)
    ensures var f := ShortField(n.normal, n.pad, n.field); Ordinary(f) && f != MACHO_NAME
  {
    if n.pad == SLASH {
      SlashFieldOrdinary(t.st, n);
    } else {
      SpaceFieldOrdinary(t.st, n);
    }
  }

  /** So is the mark of a 4.4BSD name; the Mach-O map is told by its name. */
  lemma MarkOrdinary(st: NT.Style, n: NT.Named)
    requires NT.ValidStyle(st) && |n.field| == 16 && Align4(|n.normal|) < Pow10(10)
    ensures Ordinary(MarkFor(st, n))
    ensures MarkFor(st, n) == MACHO_NAME ==> Align4(|n.normal|) == 20
  {
    var f, len := MarkFor(st, n), Align4(|n.normal|);
    var rest := Repeat(SPACE, 44);
    LengthReads(st.maxname, len, n.field, rest, f + rest);
    assert (f + rest)[0] == f[0];
    assert BSD_NAME[0] != HASH && OLD_BSD_NAME[0] != HASH && BSD_TABLE_NAME[0] != HASH;
    if f == MACHO_NAME {
      MachoLength();
    }
  }

  lemma MachoLength()
    ensures ScanNumber((MACHO_NAME + Repeat(SPACE, 44))[3..]) == Some(20)
  {
    var s, tail := (MACHO_NAME + Repeat(SPACE, 44))[3..], Repeat(SPACE, 55);
    assert Decimal(2) == [50] && Decimal(20) == [50, 48];
    assert s == Decimal(20) + tail;
    ScanDecimal(20, tail);
  }

  // ----- the map -------------------------------------------------------------

  /** Nothing at `first` that looks like a second map. */
  predicate NoSecond(f: Bytes, first: nat)
  {
    |f| < first + HDR || (first + 1 < |f| && (f[first] != SLASH || f[first + 1] != SPACE))
  }

  lemma SecondNotFound(f: Bytes, first: nat, maxname: nat)
    requires maxname <= 16 && NoSecond(f, first)
    ensures SkipSecond(f, first, maxname) == first
  {
  }

  function KindFor(s: AW.Scheme): MapKind
  {
    match s case Coff => CoffMap case Bsd => BsdMap case Wide => WideMap
  }

  lemma SchemeNames(s: AW.Scheme)
    ensures KindOf(AW.NameFor(s), []) == KindFor(s) && AW.NameFor(s) != MACHO_NAME && AW.NameFor(s)[0] != HASH
  {
    assert WIDE_NAME[1] != COFF_NAME[1];
    assert BSD_NAME[0] != COFF_NAME[0];
    assert BSD_NAME[9] != OLD_BSD_NAME[9];
  }

  /** A name that announces a map of this kind. */
  predicate Announces(name: Bytes, kind: MapKind)
  {
    |name| == 16 && name != MACHO_NAME && name[0] != HASH && kind != NoMap && KindOf(name, []) == kind
  }

  lemma SlurpArmapOf(f: Bytes, pos: nat, maxname: nat, e: Endian, kind: MapKind,
                     body: Bytes, next: nat, es: seq<Entry>)
    requires maxname <= 16 && pos + 16 <= |f| && Announces(f[pos..pos + 16], kind)
    requires ReadSpecial(f, pos, maxname) == Ok((body, next)) && SkipSecond(f, next, maxname) == next
    requires ParseMap(kind, e, body) == Ok(es)
    ensures SlurpArmap(f, pos, maxname, e) == Ok((Some(es), next))
  {
  }

  lemma MapMemberSpecial(f: Bytes, pos: nat, maxname: nat, kind: MapKind, name: Bytes, misc: Bytes, body: Bytes,
                         next: nat)
    requires maxname <= 16 && pos % 2 == 0 && |body| % 2 == 0 && |body| < TWO32 && |misc| == 32
    requires Announces(name, kind) && SizePad(10, |body|).Some? && At(f, pos, MapMember(name, misc, body))
    requires next == pos + HDR + |body|
    ensures pos + 16 <= |f| && f[pos..pos + 16] == name
    ensures ReadSpecial(f, pos, maxname) == Ok((body, next))
  {
    Pow10Ten();
    SpecialReads(f, pos, maxname, name, misc, body);
    EvenEnd(pos, |body|);
  }

  lemma MapMemberSlurped(f: Bytes, pos: nat, maxname: nat, e: Endian, kind: MapKind,
                         name: Bytes, misc: Bytes, body: Bytes, es: seq<Entry>, next: nat)
    requires maxname <= 16 && pos % 2 == 0 && |body| % 2 == 0 && |body| < TWO32 && |misc| == 32
    requires Announces(name, kind) && SizePad(10, |body|).Some? && At(f, pos, MapMember(name, misc, body))
    requires ParseMap(kind, e, body) == Ok(es) && next == pos + HDR + |body| && NoSecond(f, next)
    ensures SlurpArmap(f, pos, maxname, e) == Ok((Some(es), next))
  {
    MapMemberSpecial(f, pos, maxname, kind, name, misc, body, next);
    SecondNotFound(f, next, maxname);
    SlurpArmapOf(f, pos, maxname, e, kind, body, next, es);
  }

  /** A second map, as PE archives have: a member named "/" at an even position. */
  lemma SecondSkipped(f: Bytes, first: nat, maxname: nat, misc: Bytes, second: Bytes)
    requires maxname <= 16 && first % 2 == 0 && |misc| == 32 && |second| < Pow10(10) && HDR + |second| + 1 < TWO32
    requires At(f, first, Image(COFF_NAME, misc, SizeField(|second|)) + second)
    ensures SkipSecond(f, first, maxname) == Even(first + HDR + |second|)
  {
    AtJoin(f, first, Image(COFF_NAME, misc, SizeField(|second|)), second);
    SpecialHeader(f, first, maxname, COFF_NAME, misc, |second|);
    assert f[first] == f[first..first + 16][0] && f[first + 1] == f[first..first + 16][1];
    FloorIsEven(first, |second|);
  }

  lemma FloorIsEven(first: nat, size: nat)
    requires first % 2 == 0
    ensures var x := size + HDR + 1; first + x - x % 2 == Even(first + HDR + size)
  {
  }

  /** The map of a PE archive is the first one, and what follows is looked for
      behind the second. */
  lemma PeMapSlurped(f: Bytes, pos: nat, maxname: nat, e: Endian, misc: Bytes, body: Bytes, es: seq<Entry>, next: nat,
                     misc2: Bytes, second: Bytes)
    requires maxname <= 16 && pos % 2 == 0 && |body| % 2 == 0 && |body| < TWO32 && |misc| == |misc2| == 32
    requires SizePad(10, |body|).Some? && At(f, pos, MapMember(COFF_NAME, misc, body))
    requires ParseMap(CoffMap, e, body) == Ok(es) && next == pos + HDR + |body|
    requires |second| < Pow10(10) && HDR + |second| + 1 < TWO32
    requires At(f, next, Image(COFF_NAME, misc2, SizeField(|second|)) + second)
    ensures SlurpArmap(f, pos, maxname, e) == Ok((Some(es), Even(next + HDR + |second|)))
  {
    SchemeNames(AW.Coff);
    MapMemberSpecial(f, pos, maxname, CoffMap, COFF_NAME, misc, body, next);
    EvenSum(pos, |body|);
    SecondSkipped(f, next, maxname, misc2, second);
    SlurpBehind(f, pos, maxname, e, body, next, es);
  }

  lemma EvenSum(pos: nat, size: nat)
    requires pos % 2 == 0 && size % 2 == 0
    ensures (pos + HDR + size) % 2 == 0
  {
  }

  lemma SlurpBehind(f: Bytes, pos: nat, maxname: nat, e: Endian, body: Bytes, next: nat, es: seq<Entry>)
    requires maxname <= 16 && pos + 16 <= |f| && Announces(f[pos..pos + 16], CoffMap)
    requires ReadSpecial(f, pos, maxname) == Ok((body, next)) && ParseMap(CoffMap, e, body) == Ok(es)
    ensures SlurpArmap(f, pos, maxname, e) == Ok((Some(es), SkipSecond(f, next, maxname)))
  {
  }

  lemma MapShape(s: AW.Scheme, j: AW.Job)
    requires AW.ValidJob(j)
    ensures |AW.BodyFor(s, j)| % 2 == 0 && SizePad(10, |AW.BodyFor(s, j)|).Some?
    ensures AW.MapImage(s, j) == MapMember(AW.NameFor(s), j.misc, AW.BodyFor(s, j))
    ensures Announces(AW.NameFor(s), KindFor(s))
  {
    AW.MapFitsSizeField(|AW.BodyFor(s, j)|);
    AW.MapEven(s, |j.orls|, AW.NameIndex(j.orls, |j.orls|));
    SchemeNames(s);
  }

  lemma CoffParses(j: AW.Job)
    requires AW.ValidJob(j) && ValidEntries(4, AW.Wish(AW.Coff, j))
    ensures ParseCoff(AW.BodyFor(AW.Coff, j)) == Ok(AW.Wish(AW.Coff, j))
  {
    assert AW.BodyFor(AW.Coff, j) == Body(4, AW.Wish(AW.Coff, j));
    BodyParts(4, AW.Wish(AW.Coff, j));
    CoffRoundTrip(AW.Wish(AW.Coff, j));
  }

  lemma WideParses(j: AW.Job)
    requires AW.ValidJob(j) && ValidEntries(8, AW.Wish(AW.Wide, j))
    ensures ParseWide(AW.BodyFor(AW.Wide, j)) == Ok(AW.Wish(AW.Wide, j))
  {
    assert AW.BodyFor(AW.Wide, j) == Body(8, AW.Wish(AW.Wide, j));
    BodyParts(8, AW.Wish(AW.Wide, j));
    WideRoundTrip(AW.Wish(AW.Wide, j));
  }

  lemma BsdParses(j: AW.Job)
    requires AW.ValidJob(j) && ValidEntries(4, AW.Wish(AW.Bsd, j))
    ensures ParseBsd(j.e, AW.BodyFor(AW.Bsd, j)) == Ok(AW.Wish(AW.Bsd, j))
  {
    assert AW.BodyFor(AW.Bsd, j) == BsdBody(j.e, AW.Wish(AW.Bsd, j));
    BsdRoundTrip(j.e, AW.Wish(AW.Bsd, j));
  }

  /** Each reader takes a map of its kind for the entries it was written for. */
  lemma MapParses(s: AW.Scheme, j: AW.Job)
    requires AW.ValidJob(j) && ValidEntries(AW.Width(s), AW.Wish(s, j))
    ensures ParseMap(KindFor(s), j.e, AW.BodyFor(s, j)) == Ok(AW.Wish(s, j))
  {
    match s
    case Coff => CoffParses(j);
    case Wide => WideParses(j);
    case Bsd => BsdParses(j);
  }

  // ----- what stands behind the map ------------------------------------------

  /** The end of the file, the name table, or something else than a name table. */
  predicate FrontPlain(f: Bytes, pos: nat, slash: bool, table: Bytes)
  {
    if |f| == pos then table == []
    else
      && pos + HDR <= |f|
      && var name := f[pos..pos + 16];
         if table != [] then name == TableName(slash) else !IsTableName(name) && name[0] != SLASH
  }

  /** In the last case an ordinary member. */
  predicate Frontal(f: Bytes, pos: nat, slash: bool, table: Bytes)
  {
    && FrontPlain(f, pos, slash, table)
    && (|f| != pos && table == [] ==>
          && var name := f[pos..pos + 16];
             Ordinary(name) && (name == MACHO_NAME ==> pos + HDR + 20 <= |f| && !At(f, pos + HDR, SYMDEF)))
  }

  lemma TableNamesPlain(slash: bool)
    ensures KindOf(TableName(slash), []) == NoMap && TableName(slash) != MACHO_NAME
    ensures TableName(slash)[0] != SLASH || TableName(slash)[1] != SPACE
  {
    var name := TableName(slash);
    assert name[1] != COFF_NAME[1] && name[1] != WIDE_NAME[1];
    assert name[0] != BSD_NAME[0] && name[0] != OLD_BSD_NAME[0] && name[0] != MACHO_NAME[0];
  }

  lemma FrontalNoSecond(f: Bytes, pos: nat, slash: bool, table: Bytes)
    requires FrontPlain(f, pos, slash, table)
    ensures NoSecond(f, pos)
  {
    if |f| != pos {
      assert f[pos] == f[pos..pos + 16][0] && f[pos + 1] == f[pos..pos + 16][1];
      TableNamesPlain(slash);
    }
  }

  lemma NotSymdef(f: Bytes, pos: nat)
    requires pos + 20 <= |f| && !At(f, pos, SYMDEF)
    ensures !(SYMDEF <= f[pos..pos + 20])
  {
    assert f[pos..pos + 9] == f[pos..pos + 20][..9];
  }

  lemma FrontalNoMap(f: Bytes, pos: nat, slash: bool, table: Bytes, maxname: nat, e: Endian)
    requires Frontal(f, pos, slash, table) && maxname <= 16
    ensures SlurpArmap(f, pos, maxname, e) == Ok((None, pos))
  {
    if |f| != pos {
      TableNamesPlain(slash);
      if f[pos..pos + 16] == MACHO_NAME {
        NotSymdef(f, pos + HDR);
      }
    }
  }

  lemma TableNameAt(f: Bytes, pos: nat, slash: bool, table: Bytes)
    requires |table| < TWO32 && table != [] && At(f, pos, TableMember(slash, table))
    ensures pos + HDR <= |f| && f[pos..pos + 16] == TableName(slash)
  {
    Pow10Ten();
    var hdr := Image(TableName(slash), Repeat(SPACE, 32), SizeField(Even(|table|)));
    AtJoin(f, pos, hdr, table + Repeat(NEWLINE, |table| % 2));
    assert f[pos..pos + 16] == f[pos..pos + HDR][..16];
  }

  lemma FieldAt(f: Bytes, pos: nat, i: Item)
    requires ItemShaped(i) && ItemFits(i) && At(f, pos, HeadOf(i))
    ensures pos + HDR <= |f| && f[pos..pos + 16] == i.field && At(f, pos + HDR, i.inline)
  {
    AtJoin(f, pos, Image(i.field, i.misc, SizeOf(i)), i.inline);
    assert f[pos..pos + 16] == f[pos..pos + HDR][..16];
  }

  /** The mark of a 4.4BSD name with the name behind it. */
  lemma InlineFrontal(t: Target, ms: seq<Member>, k: nat, i: Item, f: Bytes, pos: nat)
    requires Kept(t, ms, k, i)
    requires WayOf(t, ms[k].named).Inline? && ms[k].bsd44 && !Reserved(t, ms[k].named) && At(f, pos, HeadOf(i))
    ensures Frontal(f, pos, t.st.slash, [])
  {
    FieldAt(f, pos, i);
    InlineItem(t, ms, k, i);
    MarkOrdinary(t.st, ms[k].named);
    MarkFrontal(f, pos, t.st.slash, i.field, ms[k].named.normal, i.inline);
  }

  lemma MarkFrontal(f: Bytes, pos: nat, slash: bool, field: Bytes, name: Bytes, inline: Bytes)
    requires pos + HDR <= |f| && |field| == 16 && f[pos..pos + 16] == field && Ordinary(field)
    requires inline == PaddedName(name) && At(f, pos + HDR, inline)
    requires field == MACHO_NAME ==> Align4(|name|) == 20 && !(SYMDEF <= name)
    ensures Frontal(f, pos, slash, [])
  {
    if field == MACHO_NAME {
      InlineNotSymdef(name, inline, f, pos + HDR);
    }
  }

  lemma InlineNotSymdef(name: Bytes, inline: Bytes, f: Bytes, pos: nat)
    requires Align4(|name|) == 20 && inline == name + Repeat(NUL, 20 - |name|) && At(f, pos, inline)
    requires !(SYMDEF <= name)
    ensures !At(f, pos, SYMDEF)
  {
    assert f[pos..pos + 20] == inline;
    assert f[pos..pos + 9] == f[pos..pos + 20][..9] == inline[..9] == name[..9];
  }

  /** With no table in front, the first member is not taken for one. */
  lemma FirstOrdinary(t: Target, ms: seq<Member>, k: nat, i: Item)
    requires Kept(t, ms, k, i)
    requires TableOf(t, NamedOf(ms)) == [] && !Reserved(t, ms[k].named)
    ensures |i.field| == 16 && Ordinary(i.field) && (i.field == MACHO_NAME ==> WayOf(t, ms[k].named).Inline?)
  {
    if WayOf(t, ms[k].named).Inline? {
      InlineItem(t, ms, k, i);
      MarkOrdinary(t.st, ms[k].named);
    } else {
      if !t.bsd44 {
        NT.NothingUsesEmptyTable(t.st, NamedOf(ms), k);
      }
      PlainItem(t, ms, k, i);
      FieldOrdinary(t, ms[k].named);
    }
  }

  /** Nor for a map, if it has the name its mark announces. */
  lemma FirstFrontal(t: Target, ms: seq<Member>, k: nat, i: Item, f: Bytes, pos: nat)
    requires Kept(t, ms, k, i)
    requires TableOf(t, NamedOf(ms)) == [] && !Reserved(t, ms[k].named) && At(f, pos, HeadOf(i))
    ensures FrontPlain(f, pos, t.st.slash, [])
    ensures SizeTrue(t, ms[k]) ==> Frontal(f, pos, t.st.slash, [])
  {
    FieldAt(f, pos, i);
    FirstOrdinary(t, ms, k, i);
    if SizeTrue(t, ms[k]) && WayOf(t, ms[k].named).Inline? {
      InlineFrontal(t, ms, k, i, f, pos);
    }
  }

  // ----- offsets -------------------------------------------------------------

  /** Every offset a map holds is even and where the layout puts the header of the
      defining member, if the members before that one are accounted for. */
  lemma OffsetsAreStarts(s: AW.Scheme, j: AW.Job, i: nat)
    requires AW.ValidJob(j) && j.elength % 2 == 0 && i < |j.orls|
    requires forall k :: 0 <= k < |j.ms| ==> j.ms[k].inline % 4 == 0
    requires AW.AllAccounted(s, j.thin, j.ms, j.orls[i].elt)
    ensures AW.Wish(s, j)[i].offset == AW.Laid(j.thin, AW.First(s, j.orls, j.elength), j.ms, j.orls[i].elt)
    ensures AW.Wish(s, j)[i].offset % 2 == 0 && AW.Wish(s, j)[i].name == j.orls[i].name
  {
    var first, elt := AW.First(s, j.orls, j.elength), j.orls[i].elt;
    AW.FirstEven(s, j.orls, j.elength);
    AW.OffsetsExactIff(s, j.thin, first, j.ms, elt);
    assert AW.AllExact(s, j.thin, first, j.ms, elt);
    AW.LaidEven(j.thin, first, j.ms, elt);
    assert AW.Wish(s, j)[i] == AW.EntryOf(s, j.thin, first, j.ms, j.orls[i]);
  }

  lemma WideEntryFits(j: AW.Job, i: nat, limit: nat)
    requires AW.ValidJob(j) && j.elength % 2 == 0 && i < |j.orls| && limit < TWO64
    requires forall k :: 0 <= k < |j.ms| ==> j.ms[k].inline % 4 == 0
    requires AW.Laid(j.thin, AW.First(AW.Wide, j.orls, j.elength), j.ms, |j.ms|) <= limit
    ensures AW.Wish(AW.Wide, j)[i].offset < TWO64
  {
    var first, elt := AW.First(AW.Wide, j.orls, j.elength), j.orls[i].elt;
    AW.FirstEven(AW.Wide, j.orls, j.elength);
    AW.PositionExactIff(AW.Wide, j.thin, first, j.ms, elt);
    LaidGrows(j.thin, first, j.ms, elt, |j.ms|);
    assert AW.Wish(AW.Wide, j)[i] == AW.EntryOf(AW.Wide, j.thin, first, j.ms, j.orls[i]);
  }

  /** Offsets fit the width chosen for them. */
  lemma ChosenFits(s: AW.Scheme, j: AW.Job, limit: nat)
    requires AW.ValidJob(j) && j.elength % 2 == 0 && limit < TWO64
    requires forall k :: 0 <= k < |j.ms| ==> j.ms[k].inline % 4 == 0
    requires s == AW.Wide || AW.AllNarrow(AW.Wish(s, j))
    requires AW.Laid(j.thin, AW.First(s, j.orls, j.elength), j.ms, |j.ms|) <= limit
    ensures ValidEntries(AW.Width(s), AW.Wish(s, j))
  {
    var es, w := AW.Wish(s, j), AW.Width(s);
    Pow256Values();
    forall i | 0 <= i < |es|
      ensures ValidEntry(w, es[i])
    {
      assert AW.OrlOk(j.orls, |j.ms|, i);
      if s == AW.Wide {
        WideEntryFits(j, i, limit);
      } else {
        assert AW.Narrow(es[i]);
      }
    }
  }

  // ----- a planned archive, read ---------------------------------------------

  /** The items of the plan are what the writer makes of the members from `lo` on,
      each of which keeps its name; and the first has no reserved one. */
  ghost predicate Headed(t: Target, ms: seq<Member>, lo: nat, p: Plan)
    requires ValidPlan(p)
  {
    match p
    case Plan(thin, slash, _, table, items) =>
      && Ready(t, ms) && |ms| == lo + |items|
      && thin == t.st.thin && slash == t.st.slash && table == TableOf(t, NamedOf(ms))
      && (forall k: nat, at: nat, i: Item {:trigger IsItem(p, lo, k, at, i)} ::
            IsItem(p, lo, k, at, i) ==> Kept(t, ms, at, i))
      && (items != [] ==> !Reserved(t, ms[lo].named))
  }

  /** Item k of the plan is i, made for member `at`. */
  ghost predicate IsItem(p: Plan, lo: nat, k: nat, at: nat, i: Item)
  {
    k < |p.items| && at == lo + k && i == p.items[k]
  }

  /** Every header from `lo` on holds the true size. */
  predicate AllTrue(t: Target, ms: seq<Member>, lo: nat)
  {
    forall k :: lo <= k < |ms| ==> SizeTrue(t, ms[k])
  }

  lemma TrueAmong(t: Target, ms: seq<Member>, lo: nat, k: nat)
    requires AllTrue(t, ms, lo) && lo <= k < |ms|
    ensures SizeTrue(t, ms[k])
  {
  }

  function EltAt(t: Target, ms: seq<Member>, lo: nat, p: Plan, k: nat): Element
    requires k < |p.items| && |ms| == lo + |p.items|
  {
    EltFor(t, ms[lo + k].named, p.items[k], StartOf(p, k))
  }

  /** What reading the members should give. */
  function Elts(t: Target, ms: seq<Member>, lo: nat, p: Plan): (r: seq<Element>)
    requires |ms| == lo + |p.items|
    ensures |r| == |p.items|
    ensures forall k :: 0 <= k < |p.items| ==> r[k] == EltAt(t, ms, lo, p, k)
  {
    seq(|p.items|, k requires 0 <= k < |p.items| => EltAt(t, ms, lo, p, k))
  }

  lemma HeaderReads(t: Target, ms: seq<Member>, lo: nat, p: Plan, f: Bytes, k: nat, pos: nat, i: Item, table: Bytes,
                    at: nat, h: Element)
    requires ValidPlan(p) && Headed(t, ms, lo, p) && IsItem(p, lo, k, at, i) && SizeTrue(t, ms[at])
    requires At(f, pos, HeadOf(i)) && h == EltFor(t, ms[at].named, i, pos) && table == p.table
    ensures Yields(f, pos, NamesRead(table), t.st.maxname, t.st.thin, h)
  {
    MemberReads(t, ms, NamedOf(ms), at, f, pos, i, NamesRead(table), h);
  }

  lemma HeaderMisread(t: Target, ms: seq<Member>, lo: nat, p: Plan, f: Bytes, k: nat, pos: nat, i: Item, table: Bytes,
                      at: nat)
    requires ValidPlan(p) && Headed(t, ms, lo, p) && IsItem(p, lo, k, at, i) && !SizeTrue(t, ms[at])
    requires At(f, pos, HeadOf(i)) && table == p.table
    ensures Misleads(f, pos, NamesRead(table), t.st.maxname, t.st.thin, |i.data|, |i.inline|)
  {
    MemberMisread(t, ms, NamedOf(ms), at, f, pos, i, NamesRead(table));
  }

  /** The header of member k, read back. */
  lemma MemberBack(t: Target, ms: seq<Member>, lo: nat, p: Plan, f: Bytes, k: nat)
    requires ValidPlan(p) && Composed(p, f) && Headed(t, ms, lo, p) && k < |p.items| && SizeTrue(t, ms[lo + k])
    ensures Yields(f, StartOf(p, k), NamesRead(p.table), t.st.maxname, t.st.thin, EltAt(t, ms, lo, p, k))
  {
    HeaderStands(p, f, k);
    HeaderReads(t, ms, lo, p, f, k, StartOf(p, k), p.items[k], p.table, lo + k, EltAt(t, ms, lo, p, k));
  }

  /** Or misread. */
  lemma MemberWrong(t: Target, ms: seq<Member>, lo: nat, p: Plan, f: Bytes, k: nat)
    requires ValidPlan(p) && Composed(p, f) && Headed(t, ms, lo, p) && k < |p.items| && !SizeTrue(t, ms[lo + k])
    ensures Misleads(f, StartOf(p, k), NamesRead(p.table), t.st.maxname, t.st.thin,
                     |p.items[k].data|, |p.items[k].inline|)
  {
    HeaderStands(p, f, k);
    HeaderMisread(t, ms, lo, p, f, k, StartOf(p, k), p.items[k], p.table, lo + k);
  }

  lemma BodyEven(start: nat, inline: nat)
    requires start % 2 == 0 && inline % 4 == 0
    ensures (start + HDR + inline) % 2 == 0
  {
  }

  lemma SpacedAt(t: Target, ms: seq<Member>, lo: nat, p: Plan, k: nat, limit: nat)
    requires ValidPlan(p) && k < |p.items| && |ms| == lo + |p.items| && StartOf(p, |p.items|) <= limit
    ensures Spaced(p.thin, Elts(t, ms, lo, p), Starts(p), k, limit)
  {
    StartEven(p, k);
    BodyEven(StartOf(p, k), |p.items[k].inline|);
    LaidGrows(p.thin, Base(p), PlacedOf(p.items), k + 1, |p.items|);
    StartNext(p, k);
    assert Elts(t, ms, lo, p)[k] == EltAt(t, ms, lo, p, k);
  }

  /** The listing is the members: same order, names, sizes, name lengths and nested
      origins, and the same contents unless the archive is thin; and the iteration
      ends because there are no more. */
  ghost predicate Same(f: Bytes, l: Listing, t: Target, ms: seq<Member>, lo: nat, items: seq<Item>)
  {
    && l.stop == NoMore && |l.elts| == |items| && |ms| == lo + |items|
    && forall k :: 0 <= k < |items| ==> SameMember(f, l.elts[k], t, ms[lo + k].named, items[k])
  }

  ghost predicate SameMember(f: Bytes, h: Element, t: Target, n: NT.Named, i: Item)
  {
    && h.name == n.normal && h.parsed == |i.data| && h.extra == |i.inline|
    && h.origin == (if t.bsd44 then 0 else NT.Nested(t.st, n))
    && (!t.st.thin ==> At(f, h.body, i.data))
  }

  lemma MemberSame(t: Target, ms: seq<Member>, lo: nat, p: Plan, f: Bytes, k: nat, h: Element)
    requires ValidPlan(p) && Composed(p, f) && k < |p.items| && |ms| == lo + |p.items| && p.thin == t.st.thin
    requires h == EltAt(t, ms, lo, p, k)
    ensures SameMember(f, h, t, ms[lo + k].named, p.items[k])
  {
    HeaderStands(p, f, k);
  }

  lemma ListedAt(t: Target, ms: seq<Member>, lo: nat, p: Plan, f: Bytes, o: Opened, k: nat,
                 elts: seq<Element>, starts: seq<nat>)
    requires ValidPlan(p) && Composed(p, f) && Headed(t, ms, lo, p) && k < |p.items| && SizeTrue(t, ms[lo + k])
    requires elts == Elts(t, ms, lo, p) && starts == Starts(p) && o.thin == p.thin && o.names == NamesRead(p.table)
    ensures Reads(f, o, t.st.maxname, elts, starts, k)
  {
    MemberBack(t, ms, lo, p, f, k);
  }

  /** The members are listed in order; then the iteration stops. */
  lemma PlanLists(t: Target, ms: seq<Member>, lo: nat, p: Plan, f: Bytes, o: Opened, l: Listing)
    requires ValidPlan(p) && Composed(p, f) && Headed(t, ms, lo, p) && |f| < TWO64 && AllTrue(t, ms, lo)
    requires o.first == Base(p) && o.thin == p.thin && o.names == NamesRead(p.table)
    requires l == ListFrom(f, o, t.st.maxname, o.first, [])
    ensures Same(f, l, t, ms, lo, p.items)
  {
    var elts, starts := Elts(t, ms, lo, p), Starts(p);
    PlanLaid(t, ms, lo, p, f, o, elts, starts);
    ListsWhole(f, o, t.st.maxname, elts, starts, l);
    EltsSame(t, ms, lo, p, f, elts);
  }

  lemma PlanLaid(t: Target, ms: seq<Member>, lo: nat, p: Plan, f: Bytes, o: Opened, elts: seq<Element>,
                 starts: seq<nat>)
    requires ValidPlan(p) && Composed(p, f) && Headed(t, ms, lo, p) && AllTrue(t, ms, lo)
    requires elts == Elts(t, ms, lo, p) && starts == Starts(p) && o.thin == p.thin && o.names == NamesRead(p.table)
    ensures Laid(f, o, t.st.maxname, elts, starts)
  {
    forall k | 0 <= k < |elts|
      ensures Reads(f, o, t.st.maxname, elts, starts, k) && Spaced(o.thin, elts, starts, k, |f|)
    {
      TrueAmong(t, ms, lo, lo + k);
      ListedAt(t, ms, lo, p, f, o, k, elts, starts);
      SpacedAt(t, ms, lo, p, k, |f|);
    }
  }

  lemma EltsSame(t: Target, ms: seq<Member>, lo: nat, p: Plan, f: Bytes, elts: seq<Element>)
    requires ValidPlan(p) && Composed(p, f) && |ms| == lo + |p.items| && p.thin == t.st.thin
    requires elts == Elts(t, ms, lo, p)
    ensures Same(f, Listing(elts, NoMore), t, ms, lo, p.items)
  {
    forall k | 0 <= k < |p.items|
      ensures SameMember(f, elts[k], t, ms[lo + k].named, p.items[k])
    {
      MemberSame(t, ms, lo, p, f, k, elts[k]);
    }
  }

  lemma ListsWhole(f: Bytes, o: Opened, maxname: nat, elts: seq<Element>, starts: seq<nat>, l: Listing)
    requires maxname <= 16 && |starts| == |elts| + 1 && |f| < TWO64 && starts[0] == o.first && starts[|elts|] == |f|
    requires Laid(f, o, maxname, elts, starts) && l == ListFrom(f, o, maxname, o.first, [])
    ensures l == Listing(elts, NoMore)
  {
    assert elts[..0] == [];
    ListsAll(f, o, maxname, elts, starts, 0, l);
  }

  // ----- only true headers are listed so -------------------------------------

  /** Elements met stay in the listing. */
  lemma {:induction false} MetStays(file: Bytes, o: Opened, maxname: nat, pos: nat, met: seq<Element>, l: Listing)
    requires maxname <= 16 && l == ListFrom(file, o, maxname, pos, met)
    ensures met <= l.elts
    decreases |file| - pos
  {
    match ReadHeader(file, pos, o.names, maxname, o.thin)
    case Err(_) =>
    case Ok(h) =>
      match NextPos(h, o.thin)
      case Err(_) =>
      case Ok(next) => MetStays(file, o, maxname, next, met + [h], l);
  }

  /** The next element of a listing that has one is what is read there. */
  lemma NextMet(file: Bytes, o: Opened, maxname: nat, pos: nat, met: seq<Element>, l: Listing)
    requires maxname <= 16 && l == ListFrom(file, o, maxname, pos, met) && |met| < |l.elts|
    ensures ReadHeader(file, pos, o.names, maxname, o.thin) == Ok(l.elts[|met|])
  {
    var r := ReadHeader(file, pos, o.names, maxname, o.thin);
    if r.Ok? {
      var h := r.value;
      var next := NextPos(h, o.thin);
      if next.Ok? {
        MetStays(file, o, maxname, next.value, met + [h], l);
      }
      assert (met + [h])[|met|] == h;
    }
  }

  /** The headers of the first k members hold their true sizes. */
  predicate TrueUpto(t: Target, ms: seq<Member>, lo: nat, k: nat)
  {
    match t
    case Target(_, _, _, _) => forall i :: lo <= i < lo + k && i < |ms| ==> SizeTrue(t, ms[i])
  }

  lemma TrueNext(t: Target, ms: seq<Member>, lo: nat, k: nat)
    requires TrueUpto(t, ms, lo, k) && lo + k < |ms| && SizeTrue(t, ms[lo + k])
    ensures TrueUpto(t, ms, lo, k + 1)
  {
  }

  /** What a listing has done when it stands at header k. */
  ghost predicate Stands(f: Bytes, o: Opened, maxname: nat, l: Listing, elts: seq<Element>, starts: seq<nat>, k: nat)
    requires maxname <= 16 && k <= |elts| && |starts| == |elts| + 1
  {
    match l
    case Listing(_, _) => l == ListFrom(f, o, maxname, starts[k], elts[..k])
  }

  lemma StandsNext(f: Bytes, o: Opened, maxname: nat, l: Listing, elts: seq<Element>, starts: seq<nat>, k: nat)
    requires maxname <= 16 && k < |elts| && |starts| == |elts| + 1 && |f| < TWO64
    requires Stands(f, o, maxname, l, elts, starts, k)
    requires Reads(f, o, maxname, elts, starts, k) && Spaced(o.thin, elts, starts, k, |f|)
    ensures Stands(f, o, maxname, l, elts, starts, k + 1)
  {
    ListsOne(f, o, maxname, elts, starts, k);
  }

  lemma ListedStep(t: Target, ms: seq<Member>, lo: nat, p: Plan, f: Bytes, o: Opened, l: Listing,
                   elts: seq<Element>, starts: seq<nat>, k: nat)
    requires ValidPlan(p) && Composed(p, f) && Headed(t, ms, lo, p) && |f| < TWO64 && k < |p.items|
    requires o.thin == p.thin && o.names == NamesRead(p.table)
    requires elts == Elts(t, ms, lo, p) && starts == Starts(p) && Same(f, l, t, ms, lo, p.items)
    ensures StepOk(t, ms, lo, f, o, l, elts, starts, k)
  {
    if Stands(f, o, t.st.maxname, l, elts, starts, k) {
      TrueAt(t, ms, lo, p, f, o, l, elts[..k], k);
      ListedAt(t, ms, lo, p, f, o, k, elts, starts);
      SpacedAt(t, ms, lo, p, k, |f|);
      StandsNext(f, o, t.st.maxname, l, elts, starts, k);
    }
  }

  /** Standing at header k, the listing goes on to the next, and this one holds the
      true size. */
  ghost predicate StepOk(t: Target, ms: seq<Member>, lo: nat, f: Bytes, o: Opened, l: Listing,
                         elts: seq<Element>, starts: seq<nat>, k: nat)
    requires t.st.maxname <= 16 && k < |elts| && |starts| == |elts| + 1 && |ms| == lo + |elts|
  {
    match t
    case Target(st, _, _, _) =>
      Stands(f, o, st.maxname, l, elts, starts, k) ==>
        Stands(f, o, st.maxname, l, elts, starts, k + 1) && SizeTrue(t, ms[lo + k])
  }

  /** A listing of all the members has met the first k at their places, and their
      headers hold their true sizes. */
  lemma {:induction false} ListedTrue(t: Target, ms: seq<Member>, lo: nat, f: Bytes, o: Opened, l: Listing,
                                      elts: seq<Element>, starts: seq<nat>, k: nat)
    requires t.st.maxname <= 16 && k <= |elts| && |starts| == |elts| + 1 && |ms| == lo + |elts|
    requires Stands(f, o, t.st.maxname, l, elts, starts, 0)
    requires forall i :: 0 <= i < |elts| ==> StepOk(t, ms, lo, f, o, l, elts, starts, i)
    ensures Met(t, ms, lo, f, o, l, elts, starts, k)
  {
    if k > 0 {
      ListedTrue(t, ms, lo, f, o, l, elts, starts, k - 1);
      MetNext(t, ms, lo, f, o, l, elts, starts, k - 1);
    }
  }

  /** Standing at header k, the headers before it hold their true sizes. */
  ghost predicate Met(t: Target, ms: seq<Member>, lo: nat, f: Bytes, o: Opened, l: Listing,
                      elts: seq<Element>, starts: seq<nat>, k: nat)
    requires t.st.maxname <= 16 && k <= |elts| && |starts| == |elts| + 1
  {
    match t
    case Target(st, _, _, _) => Stands(f, o, st.maxname, l, elts, starts, k) && TrueUpto(t, ms, lo, k)
  }

  lemma MetNext(t: Target, ms: seq<Member>, lo: nat, f: Bytes, o: Opened, l: Listing,
                elts: seq<Element>, starts: seq<nat>, k: nat)
    requires t.st.maxname <= 16 && k < |elts| && |starts| == |elts| + 1 && |ms| == lo + |elts|
    requires Met(t, ms, lo, f, o, l, elts, starts, k) && StepOk(t, ms, lo, f, o, l, elts, starts, k)
    ensures Met(t, ms, lo, f, o, l, elts, starts, k + 1)
  {
    TrueNext(t, ms, lo, k);
  }

  lemma TrueAt(t: Target, ms: seq<Member>, lo: nat, p: Plan, f: Bytes, o: Opened, l: Listing, met: seq<Element>, k: nat)
    requires ValidPlan(p) && Composed(p, f) && Headed(t, ms, lo, p) && k < |p.items| && |met| == k
    requires o.thin == p.thin && o.names == NamesRead(p.table) && Same(f, l, t, ms, lo, p.items)
    requires l == ListFrom(f, o, t.st.maxname, StartOf(p, k), met)
    ensures SizeTrue(t, ms[lo + k])
  {
    NextMet(f, o, t.st.maxname, StartOf(p, k), met, l);
    if !SizeTrue(t, ms[lo + k]) {
      MemberWrong(t, ms, lo, p, f, k);
    }
  }

  lemma PlanTableStands(p: Plan, f: Bytes)
    requires ValidPlan(p) && Composed(p, f)
    ensures At(f, Front(p), TableMember(p.slash, p.table))
    ensures Base(p) == Front(p) + |TableMember(p.slash, p.table)|
  {
    assert Part(p, Front(p), TableMember(p.slash, p.table));
    TableLength(p.slash, p.table);
  }

  lemma FirstHead(p: Plan, f: Bytes, pos: nat, i: Item)
    requires ValidPlan(p) && Composed(p, f) && p.table == [] && p.items != [] && pos == Front(p) && i == p.items[0]
    ensures At(f, pos, HeadOf(i))
  {
    HeaderStands(p, f, 0);
  }

  lemma FirstStands(t: Target, ms: seq<Member>, lo: nat, p: Plan, f: Bytes, pos: nat, i: Item)
    requires ValidPlan(p) && Composed(p, f) && Headed(t, ms, lo, p) && p.table == [] && p.items != []
    requires pos == Front(p) && i == p.items[0]
    ensures FrontPlain(f, pos, t.st.slash, [])
    ensures AllTrue(t, ms, lo) ==> Frontal(f, pos, t.st.slash, [])
  {
    FirstHead(p, f, pos, i);
    assert IsItem(p, lo, 0, lo, i);
    FirstFrontal(t, ms, lo, i, f, pos);
    if AllTrue(t, ms, lo) {
      TrueAmong(t, ms, lo, lo);
    }
  }

  /** What stands behind the map. */
  lemma PlanFrontal(t: Target, ms: seq<Member>, lo: nat, p: Plan, f: Bytes)
    requires ValidPlan(p) && Composed(p, f) && Headed(t, ms, lo, p)
    ensures FrontPlain(f, Front(p), p.slash, p.table)
    ensures AllTrue(t, ms, lo) ==> Frontal(f, Front(p), p.slash, p.table)
  {
    if p.table != [] {
      PlanTableStands(p, f);
      TableNameAt(f, Front(p), p.slash, p.table);
    } else if p.items != [] {
      FirstStands(t, ms, lo, p, f, Front(p), p.items[0]);
    }
  }

  lemma PlanTable(p: Plan, f: Bytes) returns (name: Bytes, size: nat, body: Bytes)
    requires ValidPlan(p) && Composed(p, f) && p.table != []
    ensures IsTableName(name) && name[0] != HASH && |body| == size < Pow10(10) && size % 2 == 0
    ensures At(f, Front(p), Image(name, Repeat(SPACE, 32), SizeField(size)) + body)
    ensures Base(p) == Front(p) + HDR + size && NamesRead(p.table) == Some(NT.Rewritten(body))
  {
    PlanTableStands(p, f);
    name, size, body := TableShape(p.slash, p.table);
  }

  /** The name table is found behind the map, or seen to be missing; the members
      follow. */
  lemma PlanNames(p: Plan, f: Bytes, maxname: nat)
    requires ValidPlan(p) && Composed(p, f) && FrontPlain(f, Front(p), p.slash, p.table) && maxname <= 16
    ensures SlurpNames(f, Front(p), maxname) == Ok((NamesRead(p.table), Base(p)))
  {
    if p.table == [] {
      NoTable(f, Front(p), maxname);
    } else {
      FrontEven(p);
      var name, size, body := PlanTable(p, f);
      TableSlurped(f, Front(p), name, size, body, maxname, NamesRead(p.table), Base(p));
    }
  }

  /** The job is about the members and the table of the plan, and made its map. */
  ghost predicate JobMatches(p: Plan, made: bool, s: AW.Scheme, j: AW.Job)
  {
    && (made ==> AW.ValidJob(j) && j.thin == p.thin && j.elength == Elength(p.table) && j.ms == PlacedOf(p.items))
    && p.armap == MapPart(made, s, j)
  }

  lemma FirstIsBase(p: Plan, s: AW.Scheme, j: AW.Job)
    requires JobMatches(p, true, s, j)
    ensures AW.First(AW.Chosen(s, j), j.orls, j.elength) == Base(p)
  {
  }

  lemma PlanEntries(p: Plan, s: AW.Scheme, j: AW.Job, limit: nat)
    requires ValidPlan(p) && JobMatches(p, true, s, j) && StartOf(p, |p.items|) <= limit < TWO64
    ensures var c := AW.Chosen(s, j); ValidEntries(AW.Width(c), AW.Wish(c, j))
  {
    FirstIsBase(p, s, j);
    TableLength(p.slash, p.table);
    ChosenFits(AW.Chosen(s, j), j, limit);
  }

  lemma MapReady(p: Plan, s: AW.Scheme, j: AW.Job, f: Bytes)
    requires ValidPlan(p) && Composed(p, f) && NoSecond(f, Front(p)) && AW.ValidJob(j) && p.armap == AW.MapImage(s, j)
    ensures |AW.BodyFor(s, j)| % 2 == 0 && SizePad(10, |AW.BodyFor(s, j)|).Some?
    ensures At(f, SARMAG, MapMember(AW.NameFor(s), j.misc, AW.BodyFor(s, j)))
    ensures Announces(AW.NameFor(s), KindFor(s))
    ensures Front(p) == SARMAG + HDR + |AW.BodyFor(s, j)|
  {
    assert Part(p, SARMAG, p.armap);
    MapShape(s, j);
  }

  lemma MapInScheme(p: Plan, s: AW.Scheme, j: AW.Job, f: Bytes, maxname: nat, es: seq<Entry>)
    requires ValidPlan(p) && Composed(p, f) && NoSecond(f, Front(p)) && AW.ValidJob(j) && p.armap == AW.MapImage(s, j)
    requires maxname <= 16 && ParseMap(KindFor(s), j.e, AW.BodyFor(s, j)) == Ok(es)
    ensures SlurpArmap(f, SARMAG, maxname, j.e) == Ok((Some(es), Front(p)))
  {
    MapReady(p, s, j, f);
    MapMemberSlurped(f, SARMAG, maxname, j.e, KindFor(s), AW.NameFor(s), j.misc, AW.BodyFor(s, j), es, Front(p));
  }

  /** The map of an archive that has one. */
  lemma PlanMap(p: Plan, s: AW.Scheme, j: AW.Job, f: Bytes, maxname: nat)
    requires ValidPlan(p) && Composed(p, f) && FrontPlain(f, Front(p), p.slash, p.table) && |f| < TWO64 && maxname <= 16
    requires JobMatches(p, true, s, j)
    ensures SlurpArmap(f, SARMAG, maxname, j.e) == Ok((Some(AW.Wish(AW.Chosen(s, j), j)), Front(p)))
  {
    var c := AW.Chosen(s, j);
    PlanEntries(p, s, j, |f|);
    MapParses(c, j);
    FrontalNoSecond(f, Front(p), p.slash, p.table);
    MapInScheme(p, c, j, f, maxname, AW.Wish(c, j));
  }

  /** The symbols the archive should have. */
  function SymbolsFor(made: bool, s: AW.Scheme, j: AW.Job): Option<seq<Entry>>
    requires made ==> AW.ValidJob(j)
  {
    if made then Some(AW.Wish(AW.Chosen(s, j), j)) else None
  }

  /** The i-th of them. */
  function EntryRead(s: AW.Scheme, j: AW.Job, i: nat): Option<Entry>
    requires AW.ValidJob(j)
  {
    if i < |j.orls| then Some(SymbolsFor(true, s, j).value[i]) else None
  }

  lemma PlanArmap(p: Plan, made: bool, s: AW.Scheme, j: AW.Job, f: Bytes, maxname: nat)
    requires ValidPlan(p) && Composed(p, f) && Frontal(f, Front(p), p.slash, p.table) && |f| < TWO64 && maxname <= 16
    requires JobMatches(p, made, s, j)
    ensures SlurpArmap(f, SARMAG, maxname, j.e) == Ok((SymbolsFor(made, s, j), Front(p)))
  {
    if made {
      PlanMap(p, s, j, f, maxname);
    } else {
      FrontalNoMap(f, Front(p), p.slash, p.table, maxname, j.e);
    }
  }

  lemma Opens(f: Bytes, thin: bool, maxname: nat, e: Endian, symbols: Option<seq<Entry>>, first: nat,
              names: Option<Bytes>, next: nat)
    requires maxname <= 16 && At(f, 0, Magic(thin))
    requires SlurpArmap(f, SARMAG, maxname, e) == Ok((symbols, first))
    requires SlurpNames(f, first, maxname) == Ok((names, next))
    ensures OpenArchive(f, maxname, e) == Ok(Opened(thin, next, symbols, names))
  {
    assert f[..SARMAG] == f[0..SARMAG];
    assert ARMAG[2] != ARMAGT[2];
  }

  /** A planned archive opens with the plan's symbols and name table. */
  lemma PlanOpens(p: Plan, made: bool, s: AW.Scheme, j: AW.Job, f: Bytes, maxname: nat)
    requires ValidPlan(p) && Composed(p, f) && Frontal(f, Front(p), p.slash, p.table) && |f| < TWO64 && maxname <= 16
    requires JobMatches(p, made, s, j)
    ensures OpenArchive(f, maxname, j.e) == Ok(Opened(p.thin, Base(p), SymbolsFor(made, s, j), NamesRead(p.table)))
  {
    PlanArmap(p, made, s, j, f, maxname);
    PlanNames(p, f, maxname);
    assert Part(p, 0, Magic(p.thin));
    Opens(f, p.thin, maxname, j.e, SymbolsFor(made, s, j), Front(p), NamesRead(p.table), Base(p));
  }

  /** Without a map nothing is skipped. */
  lemma NoMapNoSkip(f: Bytes, pos: nat, maxname: nat, e: Endian, first: nat)
    requires maxname <= 16 && SlurpArmap(f, pos, maxname, e) == Ok((None, first))
    ensures first == pos
  {
  }

  lemma OpenedBy(f: Bytes, maxname: nat, e: Endian, o: Opened) returns (first: nat)
    requires maxname <= 16 && OpenArchive(f, maxname, e) == Ok(o)
    ensures SlurpArmap(f, SARMAG, maxname, e) == Ok((o.symbols, first))
    ensures SlurpNames(f, first, maxname) == Ok((o.names, o.first))
    ensures |f| >= SARMAG && o.thin == (f[..SARMAG] == ARMAGT)
  {
    first := SlurpArmap(f, SARMAG, maxname, e).value.1;
  }

  /** A planned archive that opens with the right symbols has the members' place and
      the name table right. */
  lemma OpensOnlyAs(p: Plan, made: bool, s: AW.Scheme, j: AW.Job, f: Bytes, maxname: nat, o: Opened)
    requires ValidPlan(p) && Composed(p, f) && FrontPlain(f, Front(p), p.slash, p.table) && |f| < TWO64 && maxname <= 16
    requires JobMatches(p, made, s, j) && OpenArchive(f, maxname, j.e) == Ok(o) && o.symbols == SymbolsFor(made, s, j)
    ensures o.first == Base(p) && o.names == NamesRead(p.table) && o.thin == p.thin
  {
    var first := OpenedBy(f, maxname, j.e, o);
    if made {
      PlanMap(p, s, j, f, maxname);
    } else {
      NoMapNoSkip(f, SARMAG, maxname, j.e, first);
    }
    PlanNames(p, f, maxname);
    assert Part(p, 0, Magic(p.thin));
    assert f[..SARMAG] == f[0..SARMAG];
    assert ARMAG[2] != ARMAGT[2];
  }

  /** Opening the file gives these symbols, and iterating gives the members. */
  ghost predicate ReadsAs(f: Bytes, t: Target, symbols: Option<seq<Entry>>, ms: seq<Member>, lo: nat,
                          items: seq<Item>)
    requires t.st.maxname <= 16
  {
    var r := OpenArchive(f, t.st.maxname, t.e);
    && r.Ok? && r.value.thin == t.st.thin && r.value.symbols == symbols
    && Same(f, ListFrom(f, r.value, t.st.maxname, r.value.first, []), t, ms, lo, items)
  }

  lemma PlanReads(t: Target, ms: seq<Member>, lo: nat, p: Plan, made: bool, j: AW.Job, f: Bytes)
    requires ValidPlan(p) && Composed(p, f) && Headed(t, ms, lo, p) && |f| < TWO64 && AllTrue(t, ms, lo)
    requires JobMatches(p, made, t.scheme, j) && j.e == t.e
    ensures ReadsAs(f, t, SymbolsFor(made, t.scheme, j), ms, lo, p.items)
  {
    PlanFrontal(t, ms, lo, p, f);
    PlanOpens(p, made, t.scheme, j, f, t.st.maxname);
    var o := Opened(p.thin, Base(p), SymbolsFor(made, t.scheme, j), NamesRead(p.table));
    PlanLists(t, ms, lo, p, f, o, ListFrom(f, o, t.st.maxname, o.first, []));
  }

  lemma PlanReadsTrue(t: Target, ms: seq<Member>, lo: nat, p: Plan, made: bool, j: AW.Job, f: Bytes)
    requires ValidPlan(p) && Composed(p, f) && Headed(t, ms, lo, p) && |f| < TWO64
    requires JobMatches(p, made, t.scheme, j) && j.e == t.e
    requires ReadsAs(f, t, SymbolsFor(made, t.scheme, j), ms, lo, p.items)
    ensures AllTrue(t, ms, lo)
  {
    var o := OpenArchive(f, t.st.maxname, t.e).value;
    PlanFrontal(t, ms, lo, p, f);
    OpensOnlyAs(p, made, t.scheme, j, f, t.st.maxname, o);
    AllListedTrue(t, ms, lo, p, f, o);
  }

  lemma AllListedTrue(t: Target, ms: seq<Member>, lo: nat, p: Plan, f: Bytes, o: Opened)
    requires ValidPlan(p) && Composed(p, f) && Headed(t, ms, lo, p) && |f| < TWO64
    requires o.first == Base(p) && o.thin == p.thin && o.names == NamesRead(p.table)
    requires Same(f, ListFrom(f, o, t.st.maxname, o.first, []), t, ms, lo, p.items)
    ensures AllTrue(t, ms, lo)
  {
    var elts, starts := Elts(t, ms, lo, p), Starts(p);
    var l := ListFrom(f, o, t.st.maxname, o.first, []);
    assert elts[..0] == [] && starts[0] == o.first;
    forall k | 0 <= k < |elts|
      ensures StepOk(t, ms, lo, f, o, l, elts, starts, k)
    {
      ListedStep(t, ms, lo, p, f, o, l, elts, starts, k);
    }
    ListedTrue(t, ms, lo, f, o, l, elts, starts, |elts|);
    assert TrueUpto(t, ms, lo, |elts|);
  }

  // ----- stored offsets and the bytes at them --------------------------------

  /** For every scheme, thin or not, names behind headers or not: if the members
      before it are accounted for, the offset stored for symbol i is where the
      header of its member stands in the file. */
  lemma StoredOffsetStands(p: Plan, s: AW.Scheme, j: AW.Job, f: Bytes, i: nat)
    requires ValidPlan(p) && Composed(p, f) && JobMatches(p, true, s, j) && i < |j.orls|
    requires AW.AllAccounted(AW.Chosen(s, j), j.thin, j.ms, j.orls[i].elt)
    ensures var e := AW.Wish(AW.Chosen(s, j), j)[i];
      && e.name == j.orls[i].name && e.offset % 2 == 0 && e.offset == StartOf(p, j.orls[i].elt)
      && At(f, e.offset, HeadOf(p.items[j.orls[i].elt]))
  {
    TableLength(p.slash, p.table);
    OffsetsAreStarts(AW.Chosen(s, j), j, i);
    FirstIsBase(p, s, j);
    HeaderStands(p, f, j.orls[i].elt);
  }

  /** Reading the header at the symbol's offset yields this member. */
  ghost predicate Leads(f: Bytes, names: Option<Bytes>, sym: Entry, t: Target, n: NT.Named, i: Item)
    requires t.st.maxname <= 16
  {
    var h := ReadHeader(f, sym.offset, names, t.st.maxname, t.st.thin);
    h.Ok? && SameMember(f, h.value, t, n, i)
  }

  lemma StartLeads(t: Target, ms: seq<Member>, lo: nat, p: Plan, f: Bytes, k: nat, e: Entry, n: NT.Named)
    requires ValidPlan(p) && Composed(p, f) && Headed(t, ms, lo, p) && k < |p.items| && e.offset == StartOf(p, k)
    requires n == ms[lo + k].named
    ensures Leads(f, NamesRead(p.table), e, t, n, p.items[k]) <==> SizeTrue(t, ms[lo + k])
  {
    if SizeTrue(t, ms[lo + k]) {
      MemberBack(t, ms, lo, p, f, k);
      MemberSame(t, ms, lo, p, f, k, EltAt(t, ms, lo, p, k));
      LeadsIf(f, NamesRead(p.table), e, t, n, p.items[k], EltAt(t, ms, lo, p, k));
    } else {
      MemberWrong(t, ms, lo, p, f, k);
      LeadsNot(f, NamesRead(p.table), e, t, n, p.items[k]);
    }
  }

  lemma LeadsIf(f: Bytes, names: Option<Bytes>, e: Entry, t: Target, n: NT.Named, i: Item, h: Element)
    requires t.st.maxname <= 16 && Yields(f, e.offset, names, t.st.maxname, t.st.thin, h) && SameMember(f, h, t, n, i)
    ensures Leads(f, names, e, t, n, i)
  {
  }

  lemma LeadsNot(f: Bytes, names: Option<Bytes>, e: Entry, t: Target, n: NT.Named, i: Item)
    requires t.st.maxname <= 16 && Misleads(f, e.offset, names, t.st.maxname, t.st.thin, |i.data|, |i.inline|)
    ensures !Leads(f, names, e, t, n, i)
  {
  }

  /** From symbol to member: the i-th entry of the map read back carries the i-th
      name collected, an even offset, and leads to the defining member if and only
      if the header there holds the true size. */
  lemma PlanSymbolLeads(t: Target, ms: seq<Member>, lo: nat, p: Plan, j: AW.Job, f: Bytes,
                        i: nat, elt: nat, e: Entry, n: NT.Named)
    requires ValidPlan(p) && Composed(p, f) && Headed(t, ms, lo, p) && lo + elt < |ms| && n == ms[lo + elt].named
    requires JobMatches(p, true, t.scheme, j) && i < |j.orls| && elt == j.orls[i].elt
    requires AW.AllAccounted(AW.Chosen(t.scheme, j), j.thin, j.ms, elt) && e == AW.Wish(AW.Chosen(t.scheme, j), j)[i]
    ensures e.name == j.orls[i].name && e.offset % 2 == 0
    ensures Leads(f, NamesRead(p.table), e, t, n, p.items[elt]) <==> SizeTrue(t, ms[lo + elt])
  {
    StoredOffsetStands(p, t.scheme, j, f, i);
    StartLeads(t, ms, lo, p, f, elt, e, n);
  }

  // ----- which members a map accounts for ------------------------------------

  /** What a caller can check: the COFF and 64-bit writers are right about members
      with no name behind the header; the BSD one, unless the archive is thin,
      about those whose extra_size is that name's length. */
  predicate Counted(t: Target, c: AW.Scheme, m: Member)
  {
    var named := WayOf(t, m.named).Inline? && m.bsd44;
    if c == AW.Bsd then !t.st.thin && ExtraOf(t, m) == (if named then Align4(|m.named.normal|) else 0)
    else !named
  }

  /** Counted members are accounted for; the COFF and 64-bit writers account for no
      others. */
  lemma CountedAccounted(t: Target, ms: seq<Member>, k: nat, c: AW.Scheme, i: Item)
    requires Kept(t, ms, k, i)
    ensures Counted(t, c, ms[k]) ==> AW.Accounted(c, t.st.thin, AW.Placed(|i.data|, i.extra, |i.inline|))
    ensures c != AW.Bsd && AW.Accounted(c, t.st.thin, AW.Placed(|i.data|, i.extra, |i.inline|)) ==>
      Counted(t, c, ms[k])
  {
    InlineLength(t, ms, k, i);
    CountsRight(c, t.st.thin, |i.data|, i.extra, |i.inline|);
  }

  lemma InlineLength(t: Target, ms: seq<Member>, k: nat, i: Item)
    requires Kept(t, ms, k, i)
    ensures i.extra == ExtraOf(t, ms[k]) && |i.inline| % 4 == 0
    ensures |i.inline| == if WayOf(t, ms[k].named).Inline? && ms[k].bsd44 then Align4(|ms[k].named.normal|) else 0
    ensures WayOf(t, ms[k].named).Inline? ==> Align4(|ms[k].named.normal|) > 0
  {
    match WayOf(t, ms[k].named)
    case Inline => InlineItem(t, ms, k, i);
    case Tabled => TabledItem(t, ms, k, i);
    case Short => PlainItem(t, ms, k, i);
  }

  lemma CountsRight(c: AW.Scheme, thin: bool, data: nat, extra: nat, inline: nat)
    requires inline % 4 == 0
    ensures c == AW.Bsd && !thin && extra == inline ==> AW.Accounted(c, thin, AW.Placed(data, extra, inline))
    ensures c != AW.Bsd ==> (AW.Accounted(c, thin, AW.Placed(data, extra, inline)) <==> inline == 0)
  {
    InlineEven(inline, data);
  }

  lemma InlineEven(inline: nat, data: nat)
    requires inline % 4 == 0
    ensures Even(data + inline) == inline + Even(data)
  {
    var q := inline / 4;
    assert inline == 2 * (2 * q);
    TwiceIsEven(2 * q);
    AW.EvenShift(inline, data);
  }

  // ----- main results --------------------------------------------------------

  /** Where the members that are written begin. */
  function Live(ms: seq<Member>, made: bool): (lo: nat)
    ensures lo <= |ms|
  {
    if made then Stale(ms) else 0
  }

  /** Members whose names come back: see Storable; and no reserved one in front. */
  ghost predicate Good(t: Target, ms: seq<Member>, made: bool)
  {
    && Ready(t, ms) && AllFit(ms)
    && (forall k :: Live(ms, made) <= k < |ms| ==> Storable(t, NamedOf(ms), k, ms[k].misc))
    && (Live(ms, made) < |ms| ==> !Reserved(t, ms[Live(ms, made)].named))
  }

  ghost function JobIn(t: Target, ms: seq<Member>, made: bool, misc: Bytes, orls: seq<AW.Orl>): AW.Job
    requires Ready(t, ms)
  {
    JobFor(t, TableOf(t, NamedOf(ms)), ItemsIn(t, ms, made), orls, misc)
  }

  lemma SliceItem(t: Target, fields: seq<Bytes>, ms: seq<Member>, lo: nat, k: nat)
    requires |fields| == |ms| && lo + k < |ms| && forall i :: 0 <= i < |fields| ==> |fields[i]| == 16
    ensures ItemsOf(t, fields[lo..], ms[lo..])[k] == ItemOf(t, fields[lo + k], ms[lo + k])
  {
  }

  lemma ItemIs(t: Target, ms: seq<Member>, made: bool, k: nat)
    requires Ready(t, ms) && |NT.Table(t.st, NamedOf(ms))| < Pow10(10) && Live(ms, made) + k < |ms|
    ensures var named, lo := NamedOf(ms), Live(ms, made);
      ItemsIn(t, ms, made)[k] == ItemOf(t, FieldFor(t, named, lo + k), ms[lo + k])
  {
    var lo, fields := Live(ms, made), FieldsOf(t, NamedOf(ms));
    FieldIs(t, NamedOf(ms), lo + k, fields);
    SliceItem(t, fields, ms, lo, k);
  }

  lemma FieldIs(t: Target, named: seq<NT.Named>, k: nat, fields: seq<Bytes>)
    requires NT.ValidStyle(t.st) && |NT.Table(t.st, named)| < Pow10(10) && k < |named|
    requires (forall i :: 0 <= i < |named| ==> |named[i].field| == 16) && fields == FieldsOf(t, named)
    ensures |fields| == |named| && fields[k] == FieldFor(t, named, k)
  {
  }

  lemma GoodHeaded(t: Target, ms: seq<Member>, made: bool, p: Plan)
    requires Good(t, ms, made) && ValidPlan(p) && p.items == ItemsIn(t, ms, made)
    requires p.thin == t.st.thin && p.slash == t.st.slash && p.table == TableOf(t, NamedOf(ms))
    ensures Headed(t, ms, Live(ms, made), p)
  {
    forall k: nat, at: nat, i: Item | IsItem(p, Live(ms, made), k, at, i)
      ensures Kept(t, ms, at, i)
    {
      GoodItem(t, ms, made, p.items, k, at, i);
    }
  }

  lemma GoodItem(t: Target, ms: seq<Member>, made: bool, items: seq<Item>, k: nat, at: nat, i: Item)
    requires Good(t, ms, made) && items == ItemsIn(t, ms, made) && Aligned(items)
    requires k < |items| && at == Live(ms, made) + k && i == items[k]
    ensures Kept(t, ms, at, i)
  {
    Pow10Ten();
    ItemIs(t, ms, made, k);
    assert Storable(t, NamedOf(ms), at, ms[at].misc);
  }

  /** Whole-archive round trip.  What _bfd_write_archive_contents wrote opens as an
      archive of the same kind, with the map it wrote if it wrote one, and iterating
      yields the same members in the same order, with the same names and contents,
      and stops: if and only if every header holds the true size.  This is for every
      target: SVR4 or BSD names, thin or not, 4.4BSD names behind headers, and any of
      the three maps; and for fresh members and members of other archives. */
  lemma ArchiveComesBack(t: Target, ms: seq<Member>, made: bool, misc: Bytes, orls: seq<AW.Orl>, out: Bytes)
    requires Good(t, ms, made) && Written(t, ms, made, misc, orls, out) && |out| < TWO64
    ensures ReadsAs(out, t, SymbolsFor(made, t.scheme, JobIn(t, ms, made, misc, orls)),
                    ms, Live(ms, made), ItemsIn(t, ms, made))
      <==> AllTrue(t, ms, Live(ms, made))
  {
    var j := JobIn(t, ms, made, misc, orls);
    var p := PlanOf(t, made, TableOf(t, NamedOf(ms)), ItemsIn(t, ms, made), orls, misc);
    GoodHeaded(t, ms, made, p);
    if AllTrue(t, ms, Live(ms, made)) {
      PlanReads(t, ms, Live(ms, made), p, made, j, out);
    } else if ReadsAs(out, t, SymbolsFor(made, t.scheme, j), ms, Live(ms, made), p.items) {
      PlanReadsTrue(t, ms, Live(ms, made), p, made, j, out);
    }
  }

  lemma AllCounted(t: Target, ms: seq<Member>, c: AW.Scheme, items: seq<Item>, n: nat)
    requires Good(t, ms, true) && items == ItemsIn(t, ms, true) && Aligned(items) && n <= |items|
    requires forall k :: Live(ms, true) <= k < Live(ms, true) + n ==> Counted(t, c, ms[k])
    ensures AW.AllAccounted(c, t.st.thin, PlacedOf(items), n)
  {
    Pow10Ten();
    var named, lo := NamedOf(ms), Live(ms, true);
    forall k | 0 <= k < n
      ensures AW.Accounted(c, t.st.thin, PlacedOf(items)[k])
    {
      ItemIs(t, ms, true, k);
      assert Storable(t, named, lo + k, ms[lo + k].misc) && Counted(t, c, ms[lo + k]);
      CountedAccounted(t, ms, lo + k, c, items[k]);
    }
  }

  lemma WrittenPlan(t: Target, ms: seq<Member>, misc: Bytes, orls: seq<AW.Orl>, out: Bytes, j: AW.Job, p: Plan)
    requires Good(t, ms, true) && Written(t, ms, true, misc, orls, out) && j == JobIn(t, ms, true, misc, orls)
    requires p == PlanOf(t, true, TableOf(t, NamedOf(ms)), ItemsIn(t, ms, true), orls, misc)
    ensures ValidPlan(p) && Composed(p, out) && JobMatches(p, true, t.scheme, j)
    ensures Headed(t, ms, Live(ms, true), p)
  {
    GoodHeaded(t, ms, true, p);
  }

  /** The members before `elt` are counted rightly by the map that is written. */
  ghost predicate CountedBefore(t: Target, ms: seq<Member>, j: AW.Job, elt: nat)
    requires Ready(t, ms) && AW.ValidJob(j)
  {
    forall k :: Live(ms, true) <= k < Live(ms, true) + elt && k < |ms| ==> Counted(t, AW.Chosen(t.scheme, j), ms[k])
  }

  lemma CountedPlan(t: Target, ms: seq<Member>, j: AW.Job, p: Plan, elt: nat)
    requires Good(t, ms, true) && ValidPlan(p) && JobMatches(p, true, t.scheme, j) && p.thin == t.st.thin
    requires p.items == ItemsIn(t, ms, true) && elt <= |p.items| && CountedBefore(t, ms, j, elt)
    ensures AW.AllAccounted(AW.Chosen(t.scheme, j), j.thin, j.ms, elt)
  {
    AllCounted(t, ms, AW.Chosen(t.scheme, j), p.items, elt);
  }

  /** Every entry of the map written with an archive leads to the member it was
      collected from, when the members before that one are counted rightly (with
      SVR4 names and a COFF or 64-bit map they always are), if and only if the header
      of that one holds its true size. */
  lemma SymbolFindsMember(t: Target, ms: seq<Member>, misc: Bytes, orls: seq<AW.Orl>, out: Bytes, j: AW.Job, p: Plan,
                          lo: nat, i: nat, elt: nat, e: Entry)
    requires Good(t, ms, true) && Written(t, ms, true, misc, orls, out) && j == JobIn(t, ms, true, misc, orls)
    requires p == PlanOf(t, true, TableOf(t, NamedOf(ms)), ItemsIn(t, ms, true), orls, misc) && lo == Live(ms, true)
    requires i < |orls| && elt == orls[i].elt && Some(e) == EntryRead(t.scheme, j, i) && CountedBefore(t, ms, j, elt)
    ensures e.name == orls[i].name && e.offset % 2 == 0 && lo + elt < |ms|
    ensures Leads(out, NamesRead(p.table), e, t, ms[lo + elt].named, p.items[elt]) <==> SizeTrue(t, ms[lo + elt])
  {
    WrittenPlan(t, ms, misc, orls, out, j, p);
    CountedPlan(t, ms, j, p, elt);
    PlanSymbolLeads(t, ms, lo, p, j, out, i, elt, e, ms[lo + elt].named);
  }

  /** A member's symbol, exported or common and not undefined, has an entry in the map. */
  lemma ExportListed(orls: seq<AW.Orl>, srcs: seq<AW.Source>, elt: nat, x: nat, sym: AW.Symbol) returns (i: nat)
    requires MapOf(orls, srcs) && elt < |srcs| && srcs[elt].isObject && srcs[elt].hasSyms
    requires x < |srcs[elt].syms| && sym == srcs[elt].syms[x] && (sym.exported || sym.common) && !sym.undefined
    ensures i < |orls| && orls[i].name == sym.name && orls[i].elt == elt
  {
    var from := AW.MapIsExact(srcs);
    assert AW.Spot(elt, x) in from;
    i :| 0 <= i < |from| && from[i] == AW.Spot(elt, x);
    assert AW.Names(srcs, orls[i], from[i]);
  }

  lemma WrittenMaps(t: Target, ms: seq<Member>, misc: Bytes, orls: seq<AW.Orl>, out: Bytes, srcs: seq<AW.Source>)
    requires Ready(t, ms) && Written(t, ms, true, misc, orls, out) && srcs == SourcesOf(ms[Stale(ms)..])
    ensures MapOf(orls, srcs)
  {
  }

  lemma SourceAt(ms: seq<Member>, lo: nat, elt: nat, srcs: seq<AW.Source>)
    requires lo + elt < |ms| && srcs == SourcesOf(ms[lo..])
    ensures elt < |srcs| && srcs[elt] == ms[lo + elt].src
  {
  }

  lemma WrittenLists(t: Target, ms: seq<Member>, misc: Bytes, orls: seq<AW.Orl>, out: Bytes, lo: nat, elt: nat,
                     src: AW.Source, x: nat, sym: AW.Symbol) returns (i: nat)
    requires Ready(t, ms) && Written(t, ms, true, misc, orls, out) && lo == Live(ms, true) && lo + elt < |ms|
    requires src == ms[lo + elt].src && src.isObject && src.hasSyms && x < |src.syms|
    requires sym == src.syms[x] && (sym.exported || sym.common) && !sym.undefined
    ensures i < |orls| && orls[i].name == sym.name && orls[i].elt == elt
  {
    var srcs := SourcesOf(ms[Stale(ms)..]);
    SourceAt(ms, lo, elt, srcs);
    WrittenMaps(t, ms, misc, orls, out, srcs);
    i := ExportListed(orls, srcs, elt, x, sym);
  }

  lemma EntryThere(s: AW.Scheme, j: AW.Job, i: nat) returns (e: Entry)
    requires AW.ValidJob(j) && i < |j.orls|
    ensures EntryRead(s, j, i) == Some(e)
  {
    e := SymbolsFor(true, s, j).value[i];
  }

  /** Whoever looks for a symbol finds its member: for every symbol x of a member
      written that is exported or common and not undefined, the map has an entry i
      of that name, and it leads to this member if and only if the header there
      holds its true size (with the members before counted rightly). */
  lemma ExportFindsMember(t: Target, ms: seq<Member>, misc: Bytes, orls: seq<AW.Orl>, out: Bytes, j: AW.Job, p: Plan,
                          lo: nat, elt: nat, x: nat, sym: AW.Symbol) returns (i: nat, e: Entry)
    requires Good(t, ms, true) && Written(t, ms, true, misc, orls, out) && j == JobIn(t, ms, true, misc, orls)
    requires p == PlanOf(t, true, TableOf(t, NamedOf(ms)), ItemsIn(t, ms, true), orls, misc) && lo == Live(ms, true)
    requires lo + elt < |ms| && CountedBefore(t, ms, j, elt)
    requires ms[lo + elt].src.isObject && ms[lo + elt].src.hasSyms && x < |ms[lo + elt].src.syms|
    requires sym == ms[lo + elt].src.syms[x] && (sym.exported || sym.common) && !sym.undefined
    ensures Some(e) == EntryRead(t.scheme, j, i) && e.name == sym.name && elt < |p.items|
    ensures Leads(out, NamesRead(p.table), e, t, ms[lo + elt].named, p.items[elt]) <==> SizeTrue(t, ms[lo + elt])
  {
    i := WrittenLists(t, ms, misc, orls, out, lo, elt, ms[lo + elt].src, x, sym);
    e := EntryThere(t.scheme, j, i);
    SymbolFindsMember(t, ms, misc, orls, out, j, p, lo, i, elt, e);
  }

  // ----- a header that does not come back ------------------------------------

  const SVR4: Target := Target(NT.Style(16, true, false, false), AW.Coff, false, Big)

  /** The member "a.o" of a 4.4BSD archive: its header still says "#1/20", and its
      size field counts the twenty octets of name that stood behind it. */
  function FromBsd44(data: Bytes, misc: Bytes): Member
    requires |data| + 20 < Pow10(10)
  {
    var n := NT.Named([97, 46, 111], [97, 46, 111], SLASH, MACHO_NAME, 0);
    Member(n, Read(20, SizeField(|data| + 20)), false, misc, data, AW.Source(false, false, []))
  }

  lemma FromBsd44Good(data: Bytes, misc: Bytes)
    requires |data| + 20 < Pow10(10) && |misc| == 32
    ensures Good(SVR4, [FromBsd44(data, misc)], false) && !SizeTrue(SVR4, FromBsd44(data, misc))
  {
    var m := FromBsd44(data, misc);
    var ms, n := [m], m.named;
    PaddedSize(|data| + 20);
    assert NamedOf(ms) == [n];
    assert NT.TableUpto(SVR4.st, [n], 0) == [];
    assert NT.TableUpto(SVR4.st, [n], 1) == [];
    assert ShortStorable(SVR4.st, n);
  }

  /** Added to an SVR4 archive it makes that archive unreadable: the generic header
      writer leaves the size field alone, so the next header is looked for twenty
      octets too far. */
  lemma FromBsd44Misread(data: Bytes, misc: Bytes, orls: seq<AW.Orl>, out: Bytes)
    requires |data| + 20 < Pow10(10) && |misc| == 32 && |out| < TWO64
    requires Ready(SVR4, [FromBsd44(data, misc)]) && Written(SVR4, [FromBsd44(data, misc)], false, misc, orls, out)
    ensures var ms := [FromBsd44(data, misc)]; !ReadsAs(out, SVR4, None, ms, 0, ItemsIn(SVR4, ms, false))
  {
    var ms := [FromBsd44(data, misc)];
    FromBsd44Good(data, misc);
    ArchiveComesBack(SVR4, ms, false, misc, orls, out);
    assert !SizeTrue(SVR4, ms[0]);
  }
}
