/** Whole archives: _bfd_write_archive_contents, and bfd_generic_archive_p with
    the iteration over members that reads the result (binutils/bfd/archive.c). */
module ArchiveFile {
  import opened Octets
  import opened ArHeader
  import NT = NameTable
  import opened Armap
  import AW = ArmapWriter

  const ARMAG: Bytes := [33, 60, 97, 114, 99, 104, 62, 10]
  const ARMAGT: Bytes := [33, 60, 116, 104, 105, 110, 62, 10]
  const TABLE_NAME: Bytes := [SLASH, SLASH] + Repeat(SPACE, 14)
  const BSD_TABLE_NAME: Bytes := [65, 82, 70, 73, 76, 69, 78, 65, 77, 69, 83, SLASH] + Repeat(SPACE, 4)
  const OLD_BSD_NAME: Bytes := [95, 95, 46, 83, 89, 77, 68, 69, 70, SLASH] + Repeat(SPACE, 6)
  const MACHO_NAME: Bytes := [HASH, ONE, SLASH, 50, 48] + Repeat(SPACE, 11)
  const SYMDEF: Bytes := [95, 95, 46, 83, 89, 77, 68, 69, 70]
  const ARFILENAMES: Bytes := [65, 82, 70, 73, 76, 69, 78, 65, 77, 69, 83]

  // ----- reading -------------------------------------------------------------

  /** The magic strings and reserved names, as text. */
  lemma MarksSpelled()
    ensures ARMAG == Ascii("!<arch>\n") && ARMAGT == Ascii("!<thin>\n") && FMAG == Ascii("`\n")
    ensures TABLE_NAME == Ascii("//              ") && BSD_TABLE_NAME == Ascii("ARFILENAMES/    ")
  {
  }

  lemma MapNamesSpelled()
    ensures COFF_NAME == Ascii("/               ") && WIDE_NAME == Ascii("/SYM64/         ")
  {
  }

  lemma BsdNamesSpelled()
    ensures BSD_NAME == Ascii("__.SYMDEF       ") && OLD_BSD_NAME == Ascii("__.SYMDEF/      ")
    ensures MACHO_NAME == Ascii("#1/20           ")
    ensures SYMDEF == Ascii("__.SYMDEF") && ARFILENAMES == Ascii("ARFILENAMES")
  {
  }

  datatype Opened = Opened(thin: bool, first: nat, symbols: Option<seq<Entry>>, names: Option<Bytes>)

  /** A special member: its octets, and the even position behind them. */
  function ReadSpecial(file: Bytes, pos: nat, maxname: nat): Result<(Bytes, nat)>
    requires maxname <= 16
  {
    match ReadHeader(file, pos, None, maxname, false)
    case Err(e) => Err(e)
    case Ok(h) =>
      if h.body + h.parsed > |file| then Err(FileTruncated)
      else Ok((file[h.body..h.body + h.parsed], Even(h.body + h.parsed)))
  }

  /** The COFF reader's look for a second map, as PE archives have.  The mask in
      the original is 32 bits wide. */
  function SkipSecond(file: Bytes, first: nat, maxname: nat): nat
    requires maxname <= 16
  {
    match ReadHeader(file, first, None, maxname, false)
    case Err(_) => first
    case Ok(h) =>
      if file[first] == SLASH && file[first + 1] == SPACE then
        var size := AW.Low32(h.parsed + HDR + 1);
        first + size - size % 2
      else first
  }

  datatype MapKind = BsdMap | CoffMap | WideMap | NoMap

  /** Which map, if any, the sixteen octets of a name announce. */
  function KindOf(name: Bytes, extname: Bytes): MapKind
  {
    if name == BSD_NAME || name == OLD_BSD_NAME then BsdMap
    else if name == COFF_NAME then CoffMap
    else if name == WIDE_NAME then WideMap
    else if name == MACHO_NAME && SYMDEF <= extname then BsdMap
    else NoMap
  }

  function ParseMap(kind: MapKind, e: Endian, body: Bytes): Result<seq<Entry>>
    requires kind != NoMap
  {
    match kind
    case BsdMap => ParseBsd(e, body)
    case CoffMap => ParseCoff(body)
    case WideMap => if |body| < TWO64 then ParseWide(body) else Err(Malformed)
  }

  /** bfd_slurp_armap: the symbols, and where the first member may be. */
  function SlurpArmap(file: Bytes, pos: nat, maxname: nat, e: Endian): Result<(Option<seq<Entry>>, nat)>
    requires maxname <= 16
  {
    if pos >= |file| then Ok((None, pos))
    else if pos + 16 > |file| then Err(FileTruncated)
    else
      var name := file[pos..pos + 16];
      if name == MACHO_NAME && pos + HDR + 20 > |file| then Err(FileTruncated)
      else
        var kind := KindOf(name, if name == MACHO_NAME then file[pos + HDR..pos + HDR + 20] else []);
        if kind == NoMap then Ok((None, pos))
        else
          match ReadSpecial(file, pos, maxname)
          case Err(er) => Err(er)
          case Ok((body, next)) =>
            match ParseMap(kind, e, body)
            case Err(er) => Err(er)
            case Ok(syms) => Ok((Some(syms), if kind == CoffMap then SkipSecond(file, next, maxname) else next))
  }

  /** _bfd_slurp_extended_name_table. */
  function SlurpNames(file: Bytes, first: nat, maxname: nat): Result<(Option<Bytes>, nat)>
    requires maxname <= 16
  {
    if first + 16 > |file| then Ok((None, first))
    else
      var name := file[first..first + 16];
      if name != TABLE_NAME && name != BSD_TABLE_NAME then Ok((None, first))
      else
        match ReadSpecial(file, first, maxname)
        case Err(_) => Err(Malformed)
        case Ok((body, next)) => Ok((Some(NT.Rewritten(body)), next))
  }

  /** bfd_generic_archive_p. */
  function OpenArchive(file: Bytes, maxname: nat, e: Endian): Result<Opened>
    requires maxname <= 16
  {
    if |file| < SARMAG then Err(WrongFormat)
    else
      var thin := file[..SARMAG] == ARMAGT;
      if file[..SARMAG] != ARMAG && !thin then Err(WrongFormat)
      else
        match SlurpArmap(file, SARMAG, maxname, e)
        case Err(_) => Err(WrongFormat)
        case Ok((symbols, first)) =>
          match SlurpNames(file, first, maxname)
          case Err(_) => Err(WrongFormat)
          case Ok((names, next)) => Ok(Opened(thin, next, symbols, names))
  }

  /** Where bfd_generic_openr_next_archived_file looks after an element: 64-bit
      sums, refused when they wrap. */
  function NextPos(h: Element, thin: bool): (r: Result<nat>)
    ensures r.Ok? ==> h.body <= r.value
  {
    if thin then Ok(h.body)
    else
      var start := Wrap(h.body + h.parsed);
      var filestart := Wrap(start + start % 2);
      if filestart < h.body then Err(Malformed) else Ok(filestart)
  }

  /** The elements met, and what ended the iteration. */
  datatype Listing = Listing(elts: seq<Element>, stop: Error)

  /** The listing that goes on at a position after the elements met so far. */
  function ListFrom(file: Bytes, o: Opened, maxname: nat, pos: nat, met: seq<Element>): Listing
    requires maxname <= 16
    decreases |file| - pos
  {
    match ReadHeader(file, pos, o.names, maxname, o.thin)
    case Err(er) => Listing(met, er)
    case Ok(h) =>
      match NextPos(h, o.thin)
      case Err(er) => Listing(met + [h], er)
      case Ok(next) => ListFrom(file, o, maxname, next, met + [h])
  }

  /** The caller's loop over bfd_openr_next_archived_file. */
  method ListMembers(file: Bytes, o: Opened, maxname: nat) returns (l: Listing)
    requires maxname <= 16
    ensures l == ListFrom(file, o, maxname, o.first, [])
  {
    var elts, pos := [], o.first;
    while true
      invariant ListFrom(file, o, maxname, pos, elts) == ListFrom(file, o, maxname, o.first, [])
      decreases |file| - pos
    {
      var r := ReadHeader(file, pos, o.names, maxname, o.thin);
      if r.Err? {
        return Listing(elts, r.error);
      }
      elts := elts + [r.value];
      var next := NextPos(r.value, o.thin);
      if next.Err? {
        return Listing(elts, next.error);
      }
      pos := next.value;
    }
  }

  // ----- members, and what is written for them -------------------------------

  /** What the output's target and flags fix: how names are kept, which map is
      written, and whether long names follow their headers (4.4BSD). */
  datatype Target = Target(st: NT.Style, scheme: AW.Scheme, bsd44: bool, e: Endian)

  /** A header made for a file, or one that came with the member from another
      archive: its extra_size, and the size field as it stands there. */
  datatype Header = Fresh | Read(extra: nat, size: Bytes)

  /** A member to write: its names and header, whether its own target writes
      headers the 4.4BSD way, the rest of the header, contents and symbols. */
  datatype Member = Member(named: NT.Named, header: Header, bsd44: bool, misc: Bytes, data: Bytes, src: AW.Source)

  /** All that goes to the file for a member: the name field, the rest of the
      header with the size field, whether the header writer puts a new size there
      and a name behind the header, that name, the contents; and its extra_size. */
  datatype Item = Item(field: Bytes, misc: Bytes, size: Bytes, marked: bool, inline: Bytes, data: Bytes, extra: nat)

  function NamedOf(ms: seq<Member>): (r: seq<NT.Named>)
    ensures |r| == |ms| && forall k :: 0 <= k < |ms| ==> r[k] == ms[k].named
  {
    seq(|ms|, k requires 0 <= k < |ms| => ms[k].named)
  }

  function SourcesOf(ms: seq<Member>): (r: seq<AW.Source>)
    ensures |r| == |ms| && forall k :: 0 <= k < |ms| ==> r[k] == ms[k].src
  {
    seq(|ms|, k requires 0 <= k < |ms| => ms[k].src)
  }

  function PlacedOf(items: seq<Item>): (r: seq<AW.Placed>)
    ensures |r| == |items|
    ensures forall k :: 0 <= k < |items| ==> r[k] == AW.Placed(|items[k].data|, items[k].extra, |items[k].inline|)
  {
    seq(|items|, k requires 0 <= k < |items| => AW.Placed(|items[k].data|, items[k].extra, |items[k].inline|))
  }

  // ----- 4.4BSD names --------------------------------------------------------

  function Align4(n: nat): (r: nat)
    ensures n <= r < n + 4 && r % 4 == 0
  {
    4 * ((n + 3) / 4)
  }

  /** Names that do not fit the field, or have a space in them. */
  predicate Bsd44Long(st: NT.Style, name: Bytes) { |name| > st.maxname || SPACE in name }

  /** The name field _bfd_archive_bsd44_construct_extended_name_table leaves. */
  function Bsd44Field(st: NT.Style, n: NT.Named): (r: Bytes)
    requires NT.ValidStyle(st) && |n.field| == 16
    ensures |r| == 16
  {
    if Bsd44Long(st, n.normal)
    then SpacePad(st.maxname, [HASH, ONE, SLASH] + Decimal(Align4(|n.normal|))) + n.field[st.maxname..]
    else n.field
  }

  /** A name as it follows a header: padded with NULs to a multiple of 4. */
  function PaddedName(name: Bytes): (r: Bytes)
    ensures |r| == Align4(|name|) && |r| % 4 == 0
  {
    name + Repeat(NUL, Align4(|name|) - |name|)
  }

  /** The size field before the header writer sees it: only a fresh header gets one
      here (spaces stand for the size that did not fit, which ends the writing). */
  function SizeBefore(m: Member): (r: Bytes)
    ensures m.header.Fresh? ==> |r| == 10
  {
    match m.header
    case Read(_, size) => size
    case Fresh => match SizePad(10, |m.data|) case Some(digits) => digits case None => Repeat(SPACE, 10)
  }

  /** extra_size after the name pass. */
  function ExtraOf(t: Target, m: Member): nat
  {
    if t.bsd44 && Bsd44Long(t.st, m.named.normal) then Align4(|m.named.normal|)
    else if m.header.Read? then m.header.extra
    else 0
  }

  /** The name pass is the archive's, the header writer the member's own. */
  function ItemOf(t: Target, field: Bytes, m: Member): (r: Item)
    requires |field| == 16
    ensures |r.inline| % 4 == 0
  {
    var marked := m.bsd44 && IsBsd44(field);
    Item(field, m.misc, SizeBefore(m), marked, if marked then PaddedName(m.named.normal) else [], m.data, ExtraOf(t, m))
  }

  /** One name: its length and whether it has a space. */
  method ScanName(name: Bytes) returns (len: nat, hasSpace: bool)
    ensures len == |name| && (hasSpace <==> SPACE in name)
  {
    len, hasSpace := 0, false;
    while len < |name|
      invariant len <= |name| && (hasSpace <==> SPACE in name[..len])
    {
      if name[len] == SPACE {
        hasSpace := true;
      }
      len := len + 1;
    }
    assert name[..len] == name;
  }

  /** _bfd_archive_bsd44_construct_extended_name_table. */
  method ConstructBsd44(st: NT.Style, named: seq<NT.Named>) returns (fields: seq<Bytes>)
    requires NT.ValidStyle(st) && forall k :: 0 <= k < |named| ==> |named[k].field| == 16
    ensures |fields| == |named| && forall k :: 0 <= k < |named| ==> fields[k] == Bsd44Field(st, named[k])
  {
    fields := [];
    for k := 0 to |named|
      invariant |fields| == k && forall j :: 0 <= j < k ==> fields[j] == Bsd44Field(st, named[j])
    {
      var field := named[k].field;
      var len, hasSpace := ScanName(named[k].normal);
      if len > st.maxname || hasSpace {
        field := SpacePad(st.maxname, [HASH, ONE, SLASH] + Decimal(Align4(len))) + field[st.maxname..];
      }
      fields := fields + [field];
    }
  }

  // ----- headers and name table ----------------------------------------------

  ghost function TableOf(t: Target, named: seq<NT.Named>): Bytes { if t.bsd44 then [] else NT.Table(t.st, named) }

  ghost predicate Ready(t: Target, ms: seq<Member>)
  {
    match t
    case Target(st, _, _, _) =>
      && NT.ValidStyle(st) && NT.ValidNames(NamedOf(ms)) && |NT.Table(st, NamedOf(ms))| < TWO32
      && (forall k :: 0 <= k < |ms| ==> |ms[k].misc| == 32 && AW.CleanSource(ms[k].src) && HeaderOk(ms[k]))
  }

  /** A header that was read: see SizeAsRead. */
  predicate HeaderOk(m: Member)
  {
    m.header.Read? ==> |m.header.size| == 10 && ParsedSize(m.header.size) == Some(|m.data| + m.header.extra)
  }

  /** The name field member k ends up with. */
  ghost function FieldFor(t: Target, named: seq<NT.Named>, k: nat): (r: Bytes)
    requires NT.ValidStyle(t.st) && |NT.Table(t.st, named)| < Pow10(10) && k < |named| && |named[k].field| == 16
    ensures |r| == 16
  {
    if t.bsd44 then Bsd44Field(t.st, named[k]) else NT.FieldOf(t.st, named, k)
  }

  ghost function FieldsOf(t: Target, named: seq<NT.Named>): (r: seq<Bytes>)
    requires NT.ValidStyle(t.st) && |NT.Table(t.st, named)| < Pow10(10)
    requires forall k :: 0 <= k < |named| ==> |named[k].field| == 16
    ensures |r| == |named|
    ensures forall k :: 0 <= k < |r| ==> |r[k]| == 16 && r[k] == FieldFor(t, named, k)
  {
    seq(|named|, k requires 0 <= k < |named| => FieldFor(t, named, k))
  }

  method BuildNames(t: Target, named: seq<NT.Named>) returns (table: Bytes, fields: seq<Bytes>)
    requires NT.ValidStyle(t.st) && NT.ValidNames(named) && |NT.Table(t.st, named)| < Pow10(10)
    ensures table == TableOf(t, named) && fields == FieldsOf(t, named)
  {
    if t.bsd44 {
      fields := ConstructBsd44(t.st, named);
      table := [];
    } else {
      table, fields := NT.ConstructNameTable(t.st, named);
    }
    assert fields == FieldsOf(t, named);
  }

  function ItemsOf(t: Target, fields: seq<Bytes>, ms: seq<Member>): (r: seq<Item>)
    requires |fields| == |ms| && forall k :: 0 <= k < |fields| ==> |fields[k]| == 16
    ensures |r| == |ms| && forall k :: 0 <= k < |ms| ==> r[k] == ItemOf(t, fields[k], ms[k])
  {
    seq(|ms|, k requires 0 <= k < |ms| => ItemOf(t, fields[k], ms[k]))
  }

  // ----- the bytes of a member -----------------------------------------------

  /** Only fresh headers are given a size. */
  predicate SizeFits(m: Member) { m.header.Fresh? ==> |m.data| < Pow10(10) }

  predicate AllFit(ms: seq<Member>) { forall k :: 0 <= k < |ms| ==> SizeFits(ms[k]) }

  /** The new size counts the name behind the header. */
  predicate ItemFits(i: Item) { i.marked ==> |i.data| + |i.inline| < Pow10(10) }

  predicate ItemShaped(i: Item)
  {
    match i
    case Item(field, misc, size, marked, inline, _, _) =>
      |field| == 16 && |misc| == 32 && |size| == 10 && |inline| % 4 == 0 && (!marked ==> inline == [])
  }

  predicate ItemsFit(items: seq<Item>) { forall k :: 0 <= k < |items| ==> ItemFits(items[k]) }

  function SizeField(n: nat): (r: Bytes)
    requires n < Pow10(10)
    ensures |r| == 10
  {
    SizePadReads(10, n);
    SizePad(10, n).value
  }

  /** The size field that is written. */
  function SizeOf(i: Item): (r: Bytes)
    requires ItemShaped(i) && ItemFits(i)
    ensures |r| == 10
  {
    if i.marked then SizeField(|i.data| + |i.inline|) else i.size
  }

  /** Header, and the name behind it if there is one. */
  function HeadOf(i: Item): (r: Bytes)
    requires ItemShaped(i) && ItemFits(i)
    ensures |r| == HDR + |i.inline|
  {
    Image(i.field, i.misc, SizeOf(i)) + i.inline
  }

  /** Contents, and a newline to an even end; nothing in a thin archive. */
  function BodyOf(thin: bool, i: Item): (r: Bytes)
    ensures |r| == if thin then 0 else Even(|i.data|)
  {
    if thin then [] else i.data + Repeat(NEWLINE, |i.data| % 2)
  }

  predicate Aligned(items: seq<Item>)
  {
    ItemsFit(items) && forall k :: 0 <= k < |items| ==> ItemShaped(items[k])
  }

  function Block(thin: bool, i: Item): (r: Bytes)
    requires ItemShaped(i) && ItemFits(i)
    ensures |r| == AW.Room(thin, AW.Placed(|i.data|, i.extra, |i.inline|))
  {
    HeadOf(i) + BodyOf(thin, i)
  }

  function Blocks(thin: bool, items: seq<Item>): (r: seq<Bytes>)
    requires Aligned(items)
    ensures |r| == |items| && forall k :: 0 <= k < |items| ==> r[k] == Block(thin, items[k])
  {
    seq(|items|, k requires 0 <= k < |items| => Block(thin, items[k]))
  }

  /** The first k of some pieces, one behind the other. */
  function Joined(pieces: seq<Bytes>, k: nat): Bytes
    requires k <= |pieces|
  {
    if k == 0 then [] else Joined(pieces, k - 1) + pieces[k - 1]
  }

  function BlocksUpto(thin: bool, items: seq<Item>, k: nat): Bytes
    requires Aligned(items) && k <= |items|
  {
    Joined(Blocks(thin, items), k)
  }

  /** AR_WRITE_BUFFERSIZE. */
  const BUFFER: nat := 8 * 1024 * 1024

  /** Contents copied through the buffer. */
  method CopyContents(data: Bytes) returns (out: Bytes)
    ensures out == data
  {
    out := [];
    var remaining := |data|;
    while remaining > 0
      invariant 0 <= remaining <= |data| && out == data[..|data| - remaining]
    {
      var amt := Min(BUFFER, remaining);
      var at := |data| - remaining;
      out := out + data[at..at + amt];
      remaining := remaining - amt;
    }
    assert data[..|data|] == data;
  }

  /** _bfd_generic_write_ar_hdr, which writes the header as it stands, and
      _bfd_bsd44_write_ar_hdr, which does so too without the mark, and else fails
      when size and name do not fit the size field together. */
  method WriteHead(i: Item) returns (r: Result<Bytes>)
    requires ItemShaped(i)
    ensures r == if ItemFits(i) then Ok(HeadOf(i)) else Err(TooBig)
  {
    if !i.marked {
      return Ok(Image(i.field, i.misc, i.size) + i.inline);
    }
    SizePadReads(10, |i.data| + |i.inline|);
    var size := SizePad(10, |i.data| + |i.inline|);
    if size.None? {
      return Err(TooBig);
    }
    r := Ok(Image(i.field, i.misc, size.value) + i.inline);
  }

  method WriteMember(thin: bool, i: Item) returns (r: Result<Bytes>)
    requires ItemShaped(i)
    ensures r == if ItemFits(i) then Ok(HeadOf(i) + BodyOf(thin, i)) else Err(TooBig)
  {
    var head := WriteHead(i);
    if head.Err? {
      return head;
    }
    var body: Bytes := [];
    if !thin {
      body := CopyContents(i.data);
      if |i.data| % 2 == 1 {
        body := body + [NEWLINE];
      }
    }
    assert body == BodyOf(thin, i);
    r := Ok(head.value + body);
  }

  /** All members, up to the first whose header fails. */
  method WriteMembers(thin: bool, items: seq<Item>) returns (r: Result<Bytes>)
    requires forall k :: 0 <= k < |items| ==> ItemShaped(items[k])
    ensures ItemsFit(items) ==> Aligned(items) && r == Ok(BlocksUpto(thin, items, |items|))
    ensures !ItemsFit(items) ==> r == Err(TooBig)
  {
    var out := [];
    for k := 0 to |items|
      invariant forall j :: 0 <= j < k ==> ItemFits(items[j])
      invariant ItemsFit(items) ==> out == BlocksUpto(thin, items, k)
    {
      var block := WriteMember(thin, items[k]);
      if block.Err? {
        assert !ItemFits(items[k]);
        return Err(TooBig);
      }
      out := out + block.value;
    }
    r := Ok(out);
  }

  /** The first loop: headers for the members that have none, which fail for a size
      with no room, and whether any member is an object. */
  method CheckMembers(ms: seq<Member>) returns (fit: bool, hasobjects: bool)
    ensures fit <==> AllFit(ms)
    ensures fit ==> (hasobjects <==> Objects(ms))
  {
    hasobjects := false;
    for k := 0 to |ms|
      invariant forall j :: 0 <= j < k ==> SizeFits(ms[j])
      invariant hasobjects <==> exists j :: 0 <= j < k && ms[j].src.isObject
    {
      if ms[k].header.Fresh? {
        SizePadReads(10, |ms[k].data|);
        if SizePad(10, |ms[k].data|).None? {
          assert !SizeFits(ms[k]);
          return false, hasobjects;
        }
      }
      hasobjects := hasobjects || ms[k].src.isObject;
    }
    fit := true;
  }

  ghost predicate Objects(ms: seq<Member>) { exists k :: 0 <= k < |ms| && ms[k].src.isObject }

  // ----- the name table ------------------------------------------------------

  /** The name table is called "//" or "ARFILENAMES/". */
  function TableName(slash: bool): (r: Bytes)
    ensures |r| == 16
  {
    if slash then TABLE_NAME else BSD_TABLE_NAME
  }

  /** The name table as a member; nothing for an empty one. */
  function TableMember(slash: bool, table: Bytes): (r: Bytes)
    requires |table| < TWO32
    ensures |r| == if table == [] then 0 else HDR + Even(|table|)
  {
    Pow10Ten();
    if table == [] then []
    else Image(TableName(slash), Repeat(SPACE, 32), SizeField(Even(|table|))) + (table + Repeat(NEWLINE, |table| % 2))
  }

  method WriteTable(slash: bool, table: Bytes) returns (out: Bytes)
    requires |table| < TWO32
    ensures out == TableMember(slash, table)
  {
    out := [];
    if |table| != 0 {
      Pow10Ten();
      var body := table;
      if |table| % 2 == 1 {
        body := body + [NEWLINE];
      }
      assert body == table + Repeat(NEWLINE, |table| % 2);
      out := Image(TableName(slash), Repeat(SPACE, 32), SizeField(Even(|table|))) + body;
    }
  }

  /** What elength is by the time the map writer sees it. */
  function Elength(table: Bytes): nat { if table == [] then 0 else Even(HDR + |table|) }

  lemma TableLength(slash: bool, table: Bytes)
    requires |table| < TWO32
    ensures |TableMember(slash, table)| == Elength(table) && Elength(table) % 2 == 0
  {
    AW.EvenShift(HDR, |table|);
  }

  // ----- the map -------------------------------------------------------------

  function JobFor(t: Target, table: Bytes, items: seq<Item>, orls: seq<AW.Orl>, misc: Bytes): AW.Job
  {
    AW.Job(t.e, t.st.thin, Elength(table), PlacedOf(items), orls, misc)
  }

  function MapLength(made: bool, s: AW.Scheme, job: AW.Job): nat
    requires made ==> AW.ValidJob(job)
  {
    if made then HDR + AW.MapSize(AW.Chosen(s, job), |job.orls|, AW.NameIndex(job.orls, |job.orls|)) else 0
  }

  /** The map written for an archive, when one is. */
  function MapPart(made: bool, s: AW.Scheme, job: AW.Job): (r: Bytes)
    requires made ==> AW.ValidJob(job)
    ensures |r| == MapLength(made, s, job)
  {
    if made then AW.MapImage(AW.Chosen(s, job), job) else []
  }

  lemma MapLengthEven(made: bool, s: AW.Scheme, job: AW.Job)
    requires made ==> AW.ValidJob(job)
    ensures MapLength(made, s, job) % 2 == 0
  {
    if made {
      var size := AW.MapSize(AW.Chosen(s, job), |job.orls|, AW.NameIndex(job.orls, |job.orls|));
      AW.MapEven(AW.Chosen(s, job), |job.orls|, AW.NameIndex(job.orls, |job.orls|));
      AW.BothEven(HDR, size);
    }
  }

  /** The map holds exactly what the members define. */
  ghost predicate MapOf(orls: seq<AW.Orl>, srcs: seq<AW.Source>)
  {
    && AW.ValidMap(orls, |srcs|) && orls == AW.MapUpto(srcs, |srcs|, 0)
    && (forall i :: 0 <= i < |orls| ==> orls[i].elt < |srcs|)
    && forall name: Bytes, elt: nat {:trigger AW.Listed(orls, name, elt)} ::
         AW.Listed(orls, name, elt) <==> elt < |srcs| && AW.Defines(srcs[elt], name)
  }

  predicate MapFits(srcs: seq<AW.Source>)
  {
    AW.MapSize(AW.Wide, AW.WantedBefore(srcs, |srcs|), AW.NamesBefore(srcs, |srcs|)) < TWO32
  }

  /** The write_armap entry of the target. */
  method WriteMap(s: AW.Scheme, job: AW.Job) returns (r: Result<Bytes>)
    requires AW.ValidJob(job)
    ensures r == Ok(MapPart(true, s, job))
  {
    match s {
      case Coff => r := AW.WriteCoff(job);
      case Bsd => r := AW.WriteBsd(job);
      case Wide => r := AW.WriteWide(job);
    }
  }

  /** How much the name table adds in front of the members. */
  method NamesLength(table: Bytes) returns (elength: nat)
    ensures elength == Elength(table)
  {
    elength := |table|;
    if elength != 0 {
      elength := elength + HDR;
    }
    elength := elength + elength % 2;
  }

  /** _bfd_compute_and_write_armap. */
  method WriteArmap(t: Target, table: Bytes, items: seq<Item>, srcs: seq<AW.Source>, misc: Bytes)
    returns (r: Result<Bytes>, orls: seq<AW.Orl>, ghost from: seq<AW.Spot>)
    requires |srcs| == |items| && forall k :: 0 <= k < |srcs| ==> AW.CleanSource(srcs[k])
    requires MapFits(srcs) && |misc| == 32
    ensures MapOf(orls, srcs) && AW.ValidJob(JobFor(t, table, items, orls, misc))
    ensures r == Ok(MapPart(true, t.scheme, JobFor(t, table, items, orls, misc)))
    ensures |from| == |orls| && AW.Ascending(from) && forall n :: 0 <= n < |from| ==> AW.Names(srcs, orls[n], from[n])
    ensures forall k: nat, i: nat :: AW.Spot(k, i) in from <==>
      && k < |srcs| && i < |srcs[k].syms| && srcs[k].isObject && srcs[k].hasSyms
      && (srcs[k].syms[i].exported || srcs[k].syms[i].common) && !srcs[k].syms[i].undefined
  {
    var elength := NamesLength(table);
    var stridx;
    orls, stridx, from := AW.CollectMap(srcs);
    forall i | 0 <= i < |orls|
      ensures orls[i].elt < |srcs|
    {
      assert AW.OrlOk(orls, |srcs|, i);
    }
    var job := AW.Job(t.e, t.st.thin, elength, PlacedOf(items), orls, misc);
    assert job == JobFor(t, table, items, orls, misc);
    r := WriteMap(t.scheme, job);
  }

  // ----- the whole file ------------------------------------------------------

  /** Everything an archive is made of: the octets of the map, the name table and
      the members. */
  datatype Plan = Plan(thin: bool, slash: bool, armap: Bytes, table: Bytes, items: seq<Item>)

  ghost predicate ValidPlan(p: Plan)
  {
    match p
    case Plan(_, _, armap, table, items) => |armap| % 2 == 0 && |table| < TWO32 && Aligned(items)
  }

  function Magic(thin: bool): (r: Bytes)
    ensures |r| == SARMAG
  {
    if thin then ARMAGT else ARMAG
  }

  /** Where the name table starts, and where the members do. */
  function Front(p: Plan): nat { SARMAG + |p.armap| }

  function Base(p: Plan): nat { Front(p) + Elength(p.table) }

  /** The parts of an archive and their places: magic, map, name table, members. */
  ghost predicate Part(p: Plan, at: nat, s: Bytes)
    requires ValidPlan(p)
  {
    || (at == 0 && s == Magic(p.thin))
    || (at == SARMAG && s == p.armap)
    || (at == Front(p) && s == TableMember(p.slash, p.table))
    || (at == Base(p) && s == BlocksUpto(p.thin, p.items, |p.items|))
  }

  /** The file is those parts, and ends where the last member does. */
  ghost predicate Composed(p: Plan, f: Bytes)
    requires ValidPlan(p)
  {
    && |f| == AW.Laid(p.thin, Base(p), PlacedOf(p.items), |p.items|)
    && forall at: nat, s: Bytes {:trigger Part(p, at, s)} :: Part(p, at, s) ==> At(f, at, s)
  }

  /** Headers are where the layout says. */
  lemma {:induction false} BlocksLength(thin: bool, items: seq<Item>, base: nat, k: nat)
    requires Aligned(items) && k <= |items|
    ensures base + |BlocksUpto(thin, items, k)| == AW.Laid(thin, base, PlacedOf(items), k)
  {
    PiecesLength(thin, Blocks(thin, items), PlacedOf(items), base, k);
  }

  lemma {:induction false} PiecesLength(thin: bool, pieces: seq<Bytes>, ms: seq<AW.Placed>, base: nat, k: nat)
    requires |pieces| == |ms| && k <= |ms| && forall i :: 0 <= i < |ms| ==> |pieces[i]| == AW.Room(thin, ms[i])
    ensures base + |Joined(pieces, k)| == AW.Laid(thin, base, ms, k)
  {
    if k > 0 {
      PiecesLength(thin, pieces, ms, base, k - 1);
    }
  }

  lemma ComposedOf(p: Plan, t: Bytes, b: Bytes, f: Bytes, base: nat)
    requires ValidPlan(p) && t == TableMember(p.slash, p.table) && b == BlocksUpto(p.thin, p.items, |p.items|)
    requires base == Base(p) && |f| == AW.Laid(p.thin, base, PlacedOf(p.items), |p.items|)
    requires At(f, 0, Magic(p.thin)) && At(f, SARMAG, p.armap) && At(f, Front(p), t) && At(f, base, b)
    ensures Composed(p, f)
  {
  }

  lemma PlacesOf(p: Plan, t: Bytes, b: Bytes)
    requires ValidPlan(p) && t == TableMember(p.slash, p.table) && b == BlocksUpto(p.thin, p.items, |p.items|)
    ensures Base(p) == SARMAG + |p.armap| + |t|
    ensures AW.Laid(p.thin, Base(p), PlacedOf(p.items), |p.items|) == Base(p) + |b|
  {
    TableLength(p.slash, p.table);
    BlocksLength(p.thin, p.items, Base(p), |p.items|);
  }

  lemma JoinComposes(p: Plan, t: Bytes, b: Bytes, f: Bytes)
    requires ValidPlan(p) && t == TableMember(p.slash, p.table) && b == BlocksUpto(p.thin, p.items, |p.items|)
    requires f == Magic(p.thin) + p.armap + t + b
    ensures Composed(p, f)
  {
    PlacesOf(p, t, b);
    PartsStand(Magic(p.thin), p.armap, t, b, f);
    ComposedOf(p, t, b, f, SARMAG + |p.armap| + |t|);
  }

  lemma PartsStand(magic: Bytes, m: Bytes, t: Bytes, b: Bytes, f: Bytes)
    requires |magic| == SARMAG && f == magic + m + t + b
    ensures At(f, 0, magic) && At(f, SARMAG, m) && At(f, SARMAG + |m|, t) && At(f, SARMAG + |m| + |t|, b)
    ensures |f| == SARMAG + |m| + |t| + |b|
  {
    assert f[0..|f|] == f;
    AtFour(f, 0, magic, m, t, b);
    AtJoin(f, SARMAG + |m|, t, b);
  }

  /** How many members in front carry the old map's name. */
  function Stale(ms: seq<Member>): (n: nat)
    ensures n <= |ms|
  {
    if ms != [] && ms[0].named.path == SYMDEF then 1 + Stale(ms[1..]) else 0
  }

  /** Old maps in front of the members fall away. */
  method DropStale(ms: seq<Member>, fields: seq<Bytes>) returns (live: seq<Member>, rest: seq<Bytes>)
    requires |fields| == |ms|
    ensures live == ms[Stale(ms)..] && rest == fields[Stale(ms)..]
  {
    live, rest := ms, fields;
    while live != [] && live[0].named.path == SYMDEF
      invariant |live| <= |ms| && live == ms[|ms| - |live|..] && rest == fields[|ms| - |live|..]
      invariant Stale(ms) == |ms| - |live| + Stale(live)
      decreases |live|
    {
      live, rest := live[1..], rest[1..];
    }
  }

  /** The plan for a map, if any, and the items. */
  function PlanOf(t: Target, made: bool, table: Bytes, items: seq<Item>, orls: seq<AW.Orl>, misc: Bytes): Plan
    requires made ==> AW.ValidJob(JobFor(t, table, items, orls, misc))
  {
    Plan(t.st.thin, t.st.slash, MapPart(made, t.scheme, JobFor(t, table, items, orls, misc)), table, items)
  }

  /** From the magic to the last member. */
  method WriteParts(t: Target, made: bool, table: Bytes, items: seq<Item>, srcs: seq<AW.Source>, misc: Bytes)
    returns (r: Result<Bytes>, orls: seq<AW.Orl>)
    requires |table| < TWO32 && |misc| == 32 && |srcs| == |items|
    requires forall k :: 0 <= k < |items| ==> ItemShaped(items[k])
    requires made ==> MapFits(srcs) && forall k :: 0 <= k < |srcs| ==> AW.CleanSource(srcs[k])
    ensures made ==> MapOf(orls, srcs) && AW.ValidJob(JobFor(t, table, items, orls, misc))
    ensures !ItemsFit(items) ==> r == Err(TooBig)
    ensures ItemsFit(items) ==>
      var p := PlanOf(t, made, table, items, orls, misc); r.Ok? && ValidPlan(p) && Composed(p, r.value)
  {
    var armap: Bytes := [];
    orls := [];
    if made {
      var written;
      ghost var from;
      written, orls, from := WriteArmap(t, table, items, srcs, misc);
      armap := written.value;
    }
    var tab := WriteTable(t.st.slash, table);
    var body := WriteMembers(t.st.thin, items);
    if body.Err? {
      return body, orls;
    }
    var out := Magic(t.st.thin) + armap + tab + body.value;
    MapLengthEven(made, t.scheme, JobFor(t, table, items, orls, misc));
    JoinComposes(Plan(t.st.thin, t.st.slash, armap, table, items), tab, body.value, out);
    r := Ok(out);
  }

  /** The items to write: old maps in front are left out when a new one is made. */
  ghost function ItemsIn(t: Target, ms: seq<Member>, made: bool): (r: seq<Item>)
    requires Ready(t, ms)
    ensures |r| == |ms| - if made then Stale(ms) else 0
  {
    Pow10Ten();
    var lo := if made then Stale(ms) else 0;
    ItemsOf(t, FieldsOf(t, NamedOf(ms))[lo..], ms[lo..])
  }

  /** `out` is the archive of these members, with the map `orls` if one is made. */
  ghost predicate Written(t: Target, ms: seq<Member>, made: bool, misc: Bytes, orls: seq<AW.Orl>, out: Bytes)
    requires Ready(t, ms)
  {
    var table, items := TableOf(t, NamedOf(ms)), ItemsIn(t, ms, made);
    && (made ==> AW.ValidJob(JobFor(t, table, items, orls, misc)) && MapOf(orls, SourcesOf(ms[Stale(ms)..])))
    && var p := PlanOf(t, made, table, items, orls, misc);
       ValidPlan(p) && Composed(p, out)
  }

  /** What follows the headers and the name table.  Old maps in front of the
      members are dropped, but only when a new one is made. */
  method WriteRest(t: Target, ms: seq<Member>, made: bool, misc: Bytes, table: Bytes, fields: seq<Bytes>)
    returns (r: Result<Bytes>, orls: seq<AW.Orl>)
    requires Ready(t, ms) && |misc| == 32 && (made ==> MapFits(SourcesOf(ms[Stale(ms)..])))
    requires |NT.Table(t.st, NamedOf(ms))| < Pow10(10)
    requires table == TableOf(t, NamedOf(ms)) && fields == FieldsOf(t, NamedOf(ms))
    ensures !ItemsFit(ItemsIn(t, ms, made)) ==> r == Err(TooBig)
    ensures ItemsFit(ItemsIn(t, ms, made)) ==> r.Ok? && Written(t, ms, made, misc, orls, r.value)
  {
    var live, rest := ms, fields;
    if made {
      live, rest := DropStale(ms, fields);
    } else {
      assert ms[0..] == ms && fields[0..] == fields;
    }
    var items := ItemsOf(t, rest, live);
    assert items == ItemsIn(t, ms, made);
    r, orls := WriteParts(t, made, table, items, SourcesOf(live), misc);
  }

  /** _bfd_write_archive_contents. */
  method WriteArchive(t: Target, ms: seq<Member>, makemap: bool, misc: Bytes)
    returns (r: Result<Bytes>, orls: seq<AW.Orl>)
    requires Ready(t, ms) && |misc| == 32
    requires makemap && Objects(ms) ==> MapFits(SourcesOf(ms[Stale(ms)..]))
    ensures !AllFit(ms) || !ItemsFit(ItemsIn(t, ms, makemap && Objects(ms))) ==> r == Err(TooBig)
    ensures AllFit(ms) && ItemsFit(ItemsIn(t, ms, makemap && Objects(ms))) ==>
      r.Ok? && Written(t, ms, makemap && Objects(ms), misc, orls, r.value)
  {
    var fit, hasobjects := CheckMembers(ms);
    orls := [];
    if !fit {
      return Err(TooBig), orls;
    }
    Pow10Ten();
    var table, fields := BuildNames(t, NamedOf(ms));
    r, orls := WriteRest(t, ms, makemap && hasobjects, misc, table, fields);
  }
}
