/** Member headers, written and read back: short names, names in the table, and
    4.4BSD names behind their headers (binutils/bfd/archive.c). */
module MemberRoundTrip {
  import opened Octets
  import opened ArHeader
  import NT = NameTable
  import opened ArchiveFile

  // ----- short names ended by a space ----------------------------------------

  /** Nothing behind the name that the reader would take for its end first, or
      that would make it longer. */
  predicate SpaceField(name: Bytes, was: Bytes, maxname: nat)
    requires |was| == 16 && maxname <= 16
  {
    PlainName(name) && SPACE !in name && forall i :: |name| < i < maxname ==> was[i] != NUL && was[i] != SLASH
  }

  lemma SpaceFieldOctets(name: Bytes, was: Bytes, maxname: nat, i: nat)
    requires |name| <= maxname <= 16 == |was| && SpaceField(name, was, maxname) && i < maxname
    ensures ShortField(name, SPACE, was)[i] != NUL && ShortField(name, SPACE, was)[i] != SLASH
    ensures ShortField(name, SPACE, was)[i] == SPACE ==> |name| <= i
    ensures i == |name| ==> ShortField(name, SPACE, was)[i] == SPACE
  {
    ShortFieldAt(name, SPACE, was, i);
    assert i < |name| ==> name[i] in name;
  }

  lemma SpaceFieldLength(name: Bytes, was: Bytes, maxname: nat, raw: Bytes)
    requires |name| <= maxname <= 16 == |was| && SpaceField(name, was, maxname)
    requires raw == ShortField(name, SPACE, was)[..maxname]
    ensures ShortLength(raw) == |name| == Find(raw, SPACE)
  {
    forall i | 0 <= i < maxname
      ensures raw[i] != NUL && raw[i] != SLASH && (raw[i] == SPACE ==> |name| <= i)
    {
      SpaceFieldOctets(name, was, maxname, i);
    }
    if |name| < maxname {
      SpaceFieldOctets(name, was, maxname, |name|);
    }
    FindFirst(raw, SPACE, |name|);
  }

  lemma SpaceFieldPlain(name: Bytes, was: Bytes, maxname: nat, raw: Bytes)
    requires |name| <= maxname <= 16 == |was| && 3 <= maxname && SpaceField(name, was, maxname)
    requires |raw| >= 16 && raw[..16] == ShortField(name, SPACE, was)
    ensures !IsExtended(raw, maxname) && !IsBsd44(raw)
  {
    assert raw[0] == raw[..16][0] && raw[2] == raw[..16][2];
    SpaceFieldOctets(name, was, maxname, 0);
    SpaceFieldOctets(name, was, maxname, 2);
  }

  // ----- which members come back ---------------------------------------------

  /** Short names need no NUL and no '/', and nothing stale behind them in the
      header.  Ended by '/' they may hold spaces unless they fill all their room;
      ended by ' ' they may hold none. */
  predicate ShortStorable(st: NT.Style, n: NT.Named)
    requires NT.ValidStyle(st)
  {
    && |n.field| == 16 && |n.normal| <= st.maxname && PlainName(n.normal)
    && if n.pad == SLASH
       then CleanField(n.normal, n.field, st.maxname) && (|n.normal| < st.maxname || SPACE !in n.normal)
       else n.pad == SPACE && SpaceField(n.normal, n.field, st.maxname)
  }

  /** The mark that tells the length of this name. */
  function MarkFor(st: NT.Style, n: NT.Named): (r: Bytes)
    requires NT.ValidStyle(st) && |n.field| == 16
    ensures |r| == 16
  {
    SpacePad(st.maxname, [HASH, ONE, SLASH] + Decimal(Align4(|n.normal|))) + n.field[st.maxname..]
  }

  /** The three ways a member's name is kept. */
  datatype Way = Inline | Tabled | Short

  function WayOf(t: Target, n: NT.Named): Way
  {
    if t.bsd44 then (if Bsd44Long(t.st, n.normal) || (|n.field| == 16 && IsBsd44(n.field)) then Inline else Short)
    else if NT.UsesTable(t.st, n) then Tabled else Short
  }

  /** A member whose header gives its name back: one with the 4.4BSD mark when the
      mark tells its length, as that of a long name always does; a name in the
      table when it survives there, and a nested origin has room; a short name when
      ShortStorable, and already in the header where the 4.4BSD routine leaves that
      alone. */
  predicate Storable(t: Target, named: seq<NT.Named>, k: nat, misc: Bytes)
    requires NT.ValidStyle(t.st) && k < |named| && |misc| == 32
  {
    var n := named[k];
    && NT.ValidNamed(n)
    && match WayOf(t, n)
       case Inline => n.normal != [] && Align4(|n.normal|) < Pow10(10) && Bsd44Field(t.st, n) == MarkFor(t.st, n)
       case Tabled => NT.PadIsMarker(n) && NT.Survives(t.st, n.normal) && NT.Fits(t.st, named, k, misc)
       case Short => ShortStorable(t.st, n) && (t.bsd44 ==> n.field == ShortField(n.normal, n.pad, n.field))
  }

  /** The name table as the reader keeps it. */
  function NamesRead(table: Bytes): Option<Bytes>
  {
    if table == [] then None else Some(NT.Rewritten(table + Repeat(NEWLINE, |table| % 2)))
  }

  /** The element a header at `pos` should be read as. */
  function EltFor(t: Target, n: NT.Named, i: Item, pos: nat): Element
  {
    Element(n.normal, |i.data|, |i.inline|, if t.bsd44 then 0 else NT.Nested(t.st, n), pos + HDR + |i.inline|)
  }

  // ----- reading them --------------------------------------------------------

  lemma NoSpaceNoCut(name: Bytes)
    requires SPACE !in name
    ensures Find(name, SPACE) == |name|
  {
    assert name[..|name|] == name;
    FindFirst(name, SPACE, |name|);
  }

  lemma SpaceHeaderReads(file: Bytes, pos: nat, names: Option<Bytes>, maxname: nat, thin: bool,
                         name: Bytes, was: Bytes, misc: Bytes, digits: Bytes, size: nat)
    requires |name| <= maxname <= 16 == |was| && 3 <= maxname && SpaceField(name, was, maxname)
    requires |misc| == 32 && |digits| == 10 && ParsedSize(digits) == Some(size)
    requires At(file, pos, Image(ShortField(name, SPACE, was), misc, digits))
    ensures ReadHeader(file, pos, names, maxname, thin) == Ok(Element(name, size, 0, 0, pos + HDR))
  {
    var field := ShortField(name, SPACE, was);
    var raw := Image(field, misc, digits);
    SpaceFieldPlain(name, was, maxname, raw);
    assert raw[..maxname] == raw[..16][..maxname];
    SpaceFieldLength(name, was, maxname, raw[..maxname]);
    assert raw[..|name|] == raw[..16][..|name|] == name;
    PlainHeaderReads(file, pos, names, maxname, thin, raw);
  }

  lemma SlashHeaderReads(st: NT.Style, n: NT.Named, names: Option<Bytes>, file: Bytes, pos: nat, misc: Bytes,
                         digits: Bytes, size: nat)
    requires NT.ValidStyle(st) && ShortStorable(st, n) && n.pad == SLASH && |misc| == 32
    requires |digits| == 10 && ParsedSize(digits) == Some(size)
    requires At(file, pos, Image(ShortField(n.normal, SLASH, n.field), misc, digits))
    ensures ReadHeader(file, pos, names, st.maxname, st.thin) == Ok(Element(n.normal, size, 0, 0, pos + HDR))
  {
    if |n.normal| == st.maxname {
      NoSpaceNoCut(n.normal);
      assert n.normal[0] in n.normal;
    }
    ShortHeaderReads(file, pos, names, st.maxname, st.thin, n.normal, n.field, misc, digits, size);
    assert ShortRead(n.normal, st.maxname) == n.normal;
  }

  /** A short name comes back, with whatever size the header holds. */
  lemma ShortMemberReads(st: NT.Style, n: NT.Named, names: Option<Bytes>, file: Bytes, pos: nat, misc: Bytes,
                         digits: Bytes, size: nat, h: Element)
    requires NT.ValidStyle(st) && ShortStorable(st, n) && |misc| == 32
    requires |digits| == 10 && ParsedSize(digits) == Some(size)
    requires At(file, pos, Image(ShortField(n.normal, n.pad, n.field), misc, digits))
    requires h == Element(n.normal, size, 0, 0, pos + HDR)
    ensures ReadHeader(file, pos, names, st.maxname, st.thin) == Ok(h)
  {
    if n.pad == SLASH {
      SlashHeaderReads(st, n, names, file, pos, misc, digits, size);
    } else {
      SpaceHeaderReads(file, pos, names, st.maxname, st.thin, n.normal, n.field, misc, digits, size);
    }
  }

  // ----- 4.4BSD names --------------------------------------------------------

  /** The field says how long the name behind the header is. */
  lemma LengthReads(maxname: nat, len: nat, was: Bytes, rest: Bytes, raw: Bytes)
    requires 14 <= maxname <= 16 == |was| && len < Pow10(10) && |rest| == 44
    requires raw == SpacePad(maxname, [HASH, ONE, SLASH] + Decimal(len)) + was[maxname..] + rest
    ensures IsBsd44(raw) && raw[0] == HASH && ScanNumber(raw[3..]) == Some(len)
  {
    var d := Decimal(len);
    DecimalLength(len, 10);
    DecimalDigits(len);
    var spaces := Repeat(SPACE, maxname - 3 - |d|);
    assert SpacePad(maxname, [HASH, ONE, SLASH] + d) == [HASH, ONE, SLASH] + d + spaces;
    MarkSplits(d, spaces, was[maxname..], rest, raw);
    ScanDecimal(len, spaces + was[maxname..] + rest);
  }

  lemma MarkSplits(d: Bytes, spaces: Bytes, stale: Bytes, rest: Bytes, raw: Bytes)
    requires |d| > 0 && raw == [HASH, ONE, SLASH] + d + spaces + stale + rest
    ensures raw[0] == HASH && raw[1] == ONE && raw[2] == SLASH && raw[3] == d[0]
    ensures raw[3..] == d + (spaces + stale + rest)
  {
  }

  lemma InlineHeaderOf(file: Bytes, pos: nat, names: Option<Bytes>, maxname: nat, thin: bool, raw: Bytes,
                       name: Bytes, len: nat, size: nat, h: Element)
    requires maxname <= 16 && |raw| == HDR && At(file, pos, raw) && raw[58..] == FMAG
    requires ParsedSize(raw[48..58]) == Some(size) && IsBsd44(raw) && ScanNumber(raw[3..]) == Some(len) && len <= size
    requires |name| <= len && NoNul(name) && At(file, pos + HDR, name + Repeat(NUL, len - |name|))
    requires h == Element(name, size - len, len, 0, pos + HDR + len)
    ensures ReadHeader(file, pos, names, maxname, thin) == Ok(h)
  {
    assert file[pos..pos + HDR] == raw;
    CStringOf(name, Repeat(NUL, len - |name|));
  }

  /** The header in front of such a name. */
  lemma InlineImage(st: NT.Style, n: NT.Named, misc: Bytes, digits: Bytes, len: nat, raw: Bytes)
    requires NT.ValidStyle(st) && |n.field| == 16 && |misc| == 32 && |digits| == 10
    requires len == Align4(|n.normal|) && len < Pow10(10)
    requires raw == Image(MarkFor(st, n), misc, digits)
    ensures IsBsd44(raw) && !IsExtended(raw, st.maxname) && ScanNumber(raw[3..]) == Some(len)
  {
    var rest := misc + digits + FMAG;
    ImageSplits(MarkFor(st, n), misc, digits, raw);
    LengthReads(st.maxname, len, n.field, rest, raw);
  }

  lemma ImageSplits(field: Bytes, misc: Bytes, digits: Bytes, raw: Bytes)
    requires |field| == 16 && |misc| == 32 && |digits| == 10 && raw == Image(field, misc, digits)
    ensures raw == field + (misc + digits + FMAG)
  {
  }

  /** A 4.4BSD long name is read from behind its header, whatever is in it, and
      is not counted as contents. */
  lemma InlineHeaderReads(st: NT.Style, n: NT.Named, names: Option<Bytes>, file: Bytes, pos: nat, misc: Bytes,
                          raw: Bytes, inline: Bytes, size: nat, h: Element)
    requires NT.ValidStyle(st) && |n.field| == 16 && |misc| == 32 && NoNul(n.normal)
    requires inline == PaddedName(n.normal) && size + |inline| < Pow10(10)
    requires raw == Image(MarkFor(st, n), misc, SizeField(size + |inline|)) && At(file, pos, raw)
    requires At(file, pos + HDR, inline) && h == Element(n.normal, size, |inline|, 0, pos + HDR + |inline|)
    ensures Yields(file, pos, names, st.maxname, st.thin, h)
  {
    var len := |inline|;
    var digits := SizeField(size + len);
    PaddedSize(size + len);
    InlineImage(st, n, misc, digits, len, raw);
    InlineHeaderOf(file, pos, names, st.maxname, st.thin, raw, n.normal, len, size + len, h);
  }

  // ----- any member ----------------------------------------------------------

  /** The item is what the writer makes of member k. */
  ghost predicate ItemFor(t: Target, ms: seq<Member>, k: nat, i: Item)
    requires Ready(t, ms) && k < |ms|
  {
    Pow10Ten();
    i == ItemOf(t, FieldFor(t, NamedOf(ms), k), ms[k]) && SizeFits(ms[k]) && ItemFits(i)
  }

  /** And its name comes back. */
  ghost predicate Kept(t: Target, ms: seq<Member>, k: nat, i: Item)
  {
    match t
    case Target(_, _, _, _) =>
      && Ready(t, ms) && k < |ms| && ItemFor(t, ms, k, i) && ItemShaped(i)
      && Storable(t, NamedOf(ms), k, ms[k].misc)
  }

  /** The size the header holds is that of the contents and the name behind it:
      true unless the header came from a 4.4BSD archive and its mark is gone, or the
      mark is there and the member's own target does not write it. */
  predicate SizeTrue(t: Target, m: Member)
  {
    if WayOf(t, m.named).Inline? then m.bsd44 else m.header.Fresh? || m.header.extra == 0
  }

  /** The size that is read back from a header without a mark. */
  function Held(m: Member): nat { |m.data| + if m.header.Read? then m.header.extra else 0 }

  lemma HeldIsWritten(m: Member)
    requires HeaderOk(m) && SizeFits(m)
    ensures |SizeBefore(m)| == 10 && ParsedSize(SizeBefore(m)) == Some(Held(m))
  {
    if m.header.Fresh? {
      PaddedSize(|m.data|);
    }
  }

  lemma MarkIsMark(st: NT.Style, n: NT.Named)
    requires NT.ValidStyle(st) && |n.field| == 16
    ensures IsBsd44(MarkFor(st, n))
  {
    var len := Align4(|n.normal|);
    var f := MarkFor(st, n);
    var start := [HASH, ONE, SLASH] + Decimal(len);
    DecimalDigits(len);
    assert f[0] == start[0] && f[1] == start[1] && f[2] == start[2] && f[3] == start[3];
  }

  lemma InlineItem(t: Target, ms: seq<Member>, k: nat, i: Item)
    requires Kept(t, ms, k, i) && WayOf(t, ms[k].named).Inline?
    ensures i.field == MarkFor(t.st, ms[k].named) && IsBsd44(i.field) && i.marked == ms[k].bsd44
    ensures i.inline == if ms[k].bsd44 then PaddedName(ms[k].named.normal) else []
    ensures Align4(|ms[k].named.normal|) > 0
  {
    MarkIsMark(t.st, ms[k].named);
  }

  /** Without a name behind the header, the 4.4BSD mark is not in the field. */
  lemma PlainItem(t: Target, ms: seq<Member>, k: nat, i: Item)
    requires Kept(t, ms, k, i) && WayOf(t, ms[k].named).Short?
    ensures !i.marked && i.inline == []
    ensures i.field == ShortField(ms[k].named.normal, ms[k].named.pad, ms[k].named.field)
  {
    var n := ms[k].named;
    assert NT.Room(t.st, n.normal) == n.normal;
    if n.pad == SLASH {
      NotBsd44(n.normal, n.field, t.st.maxname);
    } else {
      SpaceFieldPlain(n.normal, n.field, t.st.maxname, i.field);
    }
  }

  lemma NotBsd44(name: Bytes, was: Bytes, maxname: nat)
    requires PlainName(name) && |name| <= maxname <= 16 == |was| && CleanField(name, was, maxname)
    ensures !IsBsd44(ShortField(name, SLASH, was))
  {
    if |name| < 16 {
      Bsd44LookalikeIff(name, was);
    } else {
      assert name[2] in name;
    }
  }

  /** Nor is it in a field that leads to the table. */
  lemma TabledItem(t: Target, ms: seq<Member>, k: nat, i: Item)
    requires Kept(t, ms, k, i) && WayOf(t, ms[k].named).Tabled?
    ensures !i.marked && i.inline == []
  {
    assert i.field[0] == ms[k].named.pad;
  }

  lemma TabledReads(t: Target, ms: seq<Member>, named: seq<NT.Named>, k: nat, file: Bytes, pos: nat, i: Item,
                    table: Bytes, size: nat, h: Element)
    requires Kept(t, ms, k, i)
    requires named == NamedOf(ms) && WayOf(t, named[k]).Tabled? && table == NT.Table(t.st, named)
    requires |i.size| == 10 && ParsedSize(i.size) == Some(size) && At(file, pos, Image(i.field, i.misc, i.size))
    requires h == Element(named[k].normal, size, 0, NT.Nested(t.st, named[k]), pos + HDR)
    ensures ReadHeader(file, pos, NamesRead(table), t.st.maxname, t.st.thin) == Ok(h)
  {
    Pow10Ten();
    NT.IndexSelectsName(t.st, named, k, []);
    NT.TableHeaderReads(t.st, named, k, Repeat(NEWLINE, |table| % 2), file, pos, i.misc, i.size, size);
  }

  /** A header without the mark is read back, with the size it holds. */
  lemma PlainReads(t: Target, ms: seq<Member>, named: seq<NT.Named>, k: nat, file: Bytes, pos: nat, i: Item,
                   names: Option<Bytes>, h: Element)
    requires Kept(t, ms, k, i)
    requires named == NamedOf(ms) && !WayOf(t, named[k]).Inline? && names == NamesRead(TableOf(t, named))
    requires At(file, pos, HeadOf(i)) && h == EltFor(t, named[k], i, pos).(parsed := Held(ms[k]))
    ensures i.inline == [] && Yields(file, pos, names, t.st.maxname, t.st.thin, h)
  {
    HeldIsWritten(ms[k]);
    AtJoin(file, pos, Image(i.field, i.misc, SizeOf(i)), i.inline);
    if WayOf(t, named[k]).Tabled? {
      TabledItem(t, ms, k, i);
      TabledReads(t, ms, named, k, file, pos, i, NT.Table(t.st, named), Held(ms[k]), h);
    } else {
      PlainItem(t, ms, k, i);
      ShortMemberReads(t.st, named[k], names, file, pos, i.misc, i.size, Held(ms[k]), h);
    }
  }

  /** A header with the mark and the name behind it is read back. */
  lemma InlineReads(t: Target, ms: seq<Member>, named: seq<NT.Named>, k: nat, file: Bytes, pos: nat, i: Item,
                    names: Option<Bytes>, h: Element)
    requires Kept(t, ms, k, i)
    requires named == NamedOf(ms) && WayOf(t, named[k]).Inline? && ms[k].bsd44
    requires At(file, pos, HeadOf(i)) && h == EltFor(t, named[k], i, pos)
    ensures Yields(file, pos, names, t.st.maxname, t.st.thin, h)
  {
    var raw := Image(i.field, i.misc, SizeOf(i));
    AtJoin(file, pos, raw, i.inline);
    InlineRaw(t, ms, named, k, i, raw);
    InlineHeaderReads(t.st, named[k], names, file, pos, i.misc, raw, i.inline, |i.data|, h);
  }

  lemma InlineRaw(t: Target, ms: seq<Member>, named: seq<NT.Named>, k: nat, i: Item, raw: Bytes)
    requires Kept(t, ms, k, i) && named == NamedOf(ms) && WayOf(t, named[k]).Inline? && ms[k].bsd44
    requires raw == Image(i.field, i.misc, SizeOf(i))
    ensures |named[k].field| == 16 && |i.misc| == 32 && NoNul(named[k].normal)
    ensures i.inline == PaddedName(named[k].normal)
    ensures |i.data| + |i.inline| < Pow10(10)
    ensures raw == Image(MarkFor(t.st, named[k]), i.misc, SizeField(|i.data| + |i.inline|))
  {
    InlineItem(t, ms, k, i);
  }

  /** A header with the mark but no name behind it is taken to have one. */
  lemma MarkMisleads(t: Target, ms: seq<Member>, k: nat, file: Bytes, pos: nat, i: Item, names: Option<Bytes>)
    requires Kept(t, ms, k, i)
    requires WayOf(t, ms[k].named).Inline? && !ms[k].bsd44 && At(file, pos, HeadOf(i))
    ensures var r := ReadHeader(file, pos, names, t.st.maxname, t.st.thin); r.Ok? ==> r.value.extra > |i.inline|
  {
    var n := ms[k].named;
    var raw := Image(i.field, i.misc, SizeOf(i));
    InlineItem(t, ms, k, i);
    AtJoin(file, pos, raw, i.inline);
    InlineImage(t.st, n, i.misc, SizeOf(i), Align4(|n.normal|), raw);
    MarkedExtra(file, pos, names, t.st.maxname, t.st.thin, raw, Align4(|n.normal|));
  }

  lemma MarkedExtra(file: Bytes, pos: nat, names: Option<Bytes>, maxname: nat, thin: bool, raw: Bytes, len: nat)
    requires maxname <= 16 && |raw| == HDR && At(file, pos, raw)
    requires IsBsd44(raw) && !IsExtended(raw, maxname) && ScanNumber(raw[3..]) == Some(len)
    ensures var r := ReadHeader(file, pos, names, maxname, thin); r.Ok? ==> r.value.extra == len
  {
    assert file[pos..pos + HDR] == raw;
  }

  // ----- when a header tells the truth ---------------------------------------

  /** Reading a header at `pos` yields h.  (The names are quantified so that the
      reader is looked into only where it is called.) */
  ghost predicate Yields(f: Bytes, pos: nat, names: Option<Bytes>, maxname: nat, thin: bool, h: Element)
    requires maxname <= 16
  {
    forall ns: Option<Bytes> {:trigger ReadHeader(f, pos, ns, maxname, thin)} ::
      ns == names ==> ReadHeader(f, pos, ns, maxname, thin) == Ok(h)
  }

  /** Reading a header at `pos` yields no element of this size and name length. */
  ghost predicate Misleads(f: Bytes, pos: nat, names: Option<Bytes>, maxname: nat, thin: bool, size: nat, extra: nat)
    requires maxname <= 16
  {
    forall ns: Option<Bytes> {:trigger ReadHeader(f, pos, ns, maxname, thin)} ::
      ns == names ==>
        var r := ReadHeader(f, pos, ns, maxname, thin);
        r.Ok? ==> r.value.parsed != size || r.value.extra != extra
  }

  /** The header of a storable member is read back, its name, its size without the
      name behind it, that name's length and its nested origin, if it holds the
      true size. */
  lemma MemberReads(t: Target, ms: seq<Member>, named: seq<NT.Named>, k: nat, file: Bytes, pos: nat, i: Item,
                    names: Option<Bytes>, h: Element)
    requires Kept(t, ms, k, i)
    requires named == NamedOf(ms) && names == NamesRead(TableOf(t, named)) && SizeTrue(t, ms[k])
    requires At(file, pos, HeadOf(i)) && h == EltFor(t, named[k], i, pos)
    ensures Yields(file, pos, names, t.st.maxname, t.st.thin, h)
  {
    if WayOf(t, named[k]).Inline? {
      InlineReads(t, ms, named, k, file, pos, i, names, h);
    } else {
      PlainReads(t, ms, named, k, file, pos, i, names, h);
    }
  }

  /** If it does not, the size or the length of the name is read wrongly. */
  lemma MemberMisread(t: Target, ms: seq<Member>, named: seq<NT.Named>, k: nat, file: Bytes, pos: nat, i: Item,
                      names: Option<Bytes>)
    requires Kept(t, ms, k, i)
    requires named == NamedOf(ms) && names == NamesRead(TableOf(t, named)) && !SizeTrue(t, ms[k])
    requires At(file, pos, HeadOf(i))
    ensures Misleads(file, pos, names, t.st.maxname, t.st.thin, |i.data|, |i.inline|)
  {
    if WayOf(t, named[k]).Inline? {
      MarkMisleads(t, ms, k, file, pos, i, names);
    } else {
      PlainReads(t, ms, named, k, file, pos, i, names, EltFor(t, named[k], i, pos).(parsed := Held(ms[k])));
    }
  }
}
