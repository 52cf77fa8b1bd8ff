/** The extended name table: built in two passes by
    _bfd_construct_extended_name_table, rewritten in place and indexed by the
    reader (binutils/bfd/archive.c). */
module NameTable {
  import opened Octets
  import opened ArHeader

  /** What the archive's target and flags fix for every member. */
  datatype Style = Style(maxname: nat, slash: bool, thin: bool, traditional: bool)

  predicate ValidStyle(st: Style) { 14 <= st.maxname <= 16 }

  /** A member as this pass sees it: the path it is known by (the containing
      archive's, for a flattened thin member), the name to store, its target's
      pad character, the name field its header holds, and its origin. */
  datatype Named = Named(path: Bytes, normal: Bytes, pad: Byte, field: Bytes, origin: nat)

  predicate ValidNamed(m: Named)
  {
    |m.field| == 16 && NoNul(m.normal) && (m.origin == 0 || m.origin >= HDR)
  }

  predicate SameName(m: Named, n: Named) { m.path == n.path ==> m.normal == n.normal }

  /** The stored name is a function of the path. */
  ghost predicate ValidNames(ms: seq<Named>)
  {
    && (forall k :: 0 <= k < |ms| ==> ValidNamed(ms[k]))
    && (forall j, k {:trigger SameName(ms[j], ms[k])} ::
          0 <= j < |ms| && 0 <= k < |ms| ==> SameName(ms[j], ms[k]))
  }

  // ----- what both passes agree on -------------------------------------------

  /** The previous member's path again: thin archives store it once. */
  predicate Repeats(st: Style, ms: seq<Named>, k: nat)
    requires k < |ms|
  {
    st.thin && k > 0 && ms[k - 1].path == ms[k].path
  }

  predicate UsesTable(st: Style, m: Named)
  {
    st.thin || (|m.normal| > st.maxname && !st.traditional)
  }

  function Piece(st: Style, name: Bytes): (r: Bytes)
    ensures |r| == |name| + 1 + if st.slash then 1 else 0
  {
    name + (if st.slash then [SLASH] else []) + [NEWLINE]
  }

  /** The table after the first k members. */
  function TableUpto(st: Style, ms: seq<Named>, k: nat): Bytes
    requires k <= |ms|
  {
    if k == 0 then []
    else if UsesTable(st, ms[k - 1]) && !Repeats(st, ms, k - 1) then
      TableUpto(st, ms, k - 1) + Piece(st, ms[k - 1].normal)
    else TableUpto(st, ms, k - 1)
  }

  function Table(st: Style, ms: seq<Named>): Bytes { TableUpto(st, ms, |ms|) }

  /** The index recorded for member k. */
  function OffsetOf(st: Style, ms: seq<Named>, k: nat): nat
    requires k < |ms|
  {
    if Repeats(st, ms, k) then OffsetOf(st, ms, k - 1) else |TableUpto(st, ms, k)|
  }

  lemma {:induction false} TableGrows(st: Style, ms: seq<Named>, j: nat, k: nat)
    requires j <= k <= |ms|
    ensures |TableUpto(st, ms, j)| <= |TableUpto(st, ms, k)|
    ensures TableUpto(st, ms, k)[..|TableUpto(st, ms, j)|] == TableUpto(st, ms, j)
    decreases k
  {
    if j < k {
      TableGrows(st, ms, j, k - 1);
      var t := TableUpto(st, ms, k - 1);
      assert TableUpto(st, ms, k)[..|t|] == t;
      assert TableUpto(st, ms, k)[..|TableUpto(st, ms, j)|] == t[..|TableUpto(st, ms, j)|];
    }
  }

  lemma {:induction false} OffsetBelow(st: Style, ms: seq<Named>, k: nat)
    requires k < |ms|
    ensures OffsetOf(st, ms, k) <= |Table(st, ms)|
  {
    TableGrows(st, ms, k, |ms|);
    if Repeats(st, ms, k) {
      OffsetBelow(st, ms, k - 1);
    }
  }

  // ----- header name fields --------------------------------------------------

  function Room(st: Style, name: Bytes): Bytes
  {
    if |name| > st.maxname then name[..st.maxname] else name
  }

  /** The pad character, the text that fills the name's room, and the rest of
      the field as it was. */
  function MarkedField(st: Style, m: Named, text: Bytes): (r: Bytes)
    requires ValidStyle(st) && |m.field| == 16 && |text| == st.maxname - 1
    ensures |r| == 16
  {
    [m.pad] + text + m.field[st.maxname..]
  }

  function IndexText(st: Style, index: nat): (r: Bytes)
    requires ValidStyle(st)
    ensures |r| == st.maxname - 1
  {
    SpacePad(st.maxname - 1, Decimal(index))
  }

  /** "index:origin" for a member of an archive inside a thin archive. */
  function NestedText(st: Style, index: nat, origin: nat): (r: Bytes)
    requires ValidStyle(st) && |Decimal(index)| <= 10
    ensures |r| == st.maxname - 1
  {
    Decimal(index) + [58] + SpacePad(st.maxname - 2 - |Decimal(index)|, Decimal(origin))
  }

  function TableText(st: Style, m: Named, index: nat): (r: Bytes)
    requires ValidStyle(st) && |Decimal(index)| <= 10
    ensures |r| == st.maxname - 1
  {
    if st.thin && m.origin >= HDR then NestedText(st, index, m.origin - HDR) else IndexText(st, index)
  }

  function FinalField(st: Style, m: Named, index: nat): (r: Bytes)
    requires ValidStyle(st) && |m.field| == 16 && |Decimal(index)| <= 10
    ensures |r| == 16
  {
    if UsesTable(st, m) then MarkedField(st, m, TableText(st, m, index))
    else ShortField(Room(st, m.normal), m.pad, m.field)
  }

  // ----- the two passes ------------------------------------------------------

  /** What pass one does to a header: nothing, or the normal short form. */
  function SizedField(st: Style, m: Named): (r: Bytes)
    requires ValidStyle(st) && |m.field| == 16
    ensures |r| == 16
  {
    if UsesTable(st, m) then m.field else ShortField(Room(st, m.normal), m.pad, m.field)
  }

  /** The short form of a header, rewritten only where it is not in place yet. */
  method FixShort(st: Style, m: Named) returns (field: Bytes)
    requires ValidStyle(st) && ValidNamed(m) && !UsesTable(st, m)
    ensures field == SizedField(st, m)
  {
    var name := Room(st, m.normal);
    field := m.field;
    if m.field[..|name|] != name || (|name| < 16 && m.field[|name|] != m.pad) {
      field := name + field[|name|..];
      if |name| < 16 {
        field := field[|name| := m.pad];
      }
    } else if |name| < 16 {
      assert field == field[..|name|] + [field[|name|]] + field[|name| + 1..];
    }
  }

  /** Pass one: the length of the table, and short names put in order. */
  method SizeTable(st: Style, ms: seq<Named>) returns (total: nat, fields: seq<Bytes>)
    requires ValidStyle(st) && ValidNames(ms)
    ensures total == |Table(st, ms)|
    ensures |fields| == |ms|
    ensures forall k :: 0 <= k < |ms| ==> fields[k] == SizedField(st, ms[k])
  {
    total, fields := 0, [];
    var last: Option<Bytes> := None;
    for k := 0 to |ms|
      invariant total == |TableUpto(st, ms, k)|
      invariant st.thin ==> last == if k == 0 then None else Some(ms[k - 1].path)
      invariant |fields| == k
      invariant forall j :: 0 <= j < k ==> fields[j] == SizedField(st, ms[j])
    {
      var m := ms[k];
      var field := m.field;
      if st.thin {
        if last != Some(m.path) {
          last := Some(m.path);
          total := total + |m.normal| + 1 + if st.slash then 1 else 0;
        }
      } else if |m.normal| > st.maxname && !st.traditional {
        total := total + |m.normal| + 1 + if st.slash then 1 else 0;
      } else {
        field := FixShort(st, m);
      }
      fields := fields + [field];
    }
  }

  /** memcpy into the table. */
  method Copy(a: array<Byte>, at: nat, s: Bytes)
    requires at + |s| <= a.Length
    modifies a
    ensures a[..at] == old(a[..at])
    ensures a[at..at + |s|] == s
  {
    for i := 0 to |s|
      invariant a[..at] == old(a[..at])
      invariant forall j :: 0 <= j < i ==> a[at + j] == s[j]
    {
      a[at + i] := s[i];
    }
  }

  method Append(a: array<Byte>, at: nat, st: Style, name: Bytes) returns (next: nat)
    requires at + |Piece(st, name)| <= a.Length
    modifies a
    ensures next == at + |Piece(st, name)|
    ensures a[..next] == old(a[..at]) + Piece(st, name)
  {
    Copy(a, at, name);
    next := at + |name|;
    assert a[..next] == a[..at] + a[at..next];
    if st.slash {
      a[next] := SLASH;
      next := next + 1;
      assert a[..next] == old(a[..at]) + name + [SLASH];
    }
    a[next] := NEWLINE;
    next := next + 1;
    assert a[..next] == a[..next - 1] + [NEWLINE];
  }

  /** Traditional archives cut long names instead of storing them. */
  lemma {:induction false} TraditionalStoresNone(st: Style, ms: seq<Named>, k: nat)
    requires st.traditional && !st.thin && k <= |ms|
    ensures TableUpto(st, ms, k) == []
  {
    if k > 0 {
      TraditionalStoresNone(st, ms, k - 1);
    }
  }

  /** What pass two remembers after k members of a thin archive. */
  ghost predicate Remembers(st: Style, ms: seq<Named>, k: nat, last: Option<Bytes>, lastOff: nat)
    requires k <= |ms|
  {
    st.thin ==> if k == 0 then last == None
                else last == Some(ms[k - 1].path) && lastOff == OffsetOf(st, ms, k - 1)
  }

  /** The name field member k ends up with. */
  function FieldOf(st: Style, ms: seq<Named>, k: nat): (r: Bytes)
    requires ValidStyle(st) && k < |ms| && |ms[k].field| == 16
    requires |Table(st, ms)| < Pow10(10)
    ensures |r| == 16
  {
    OffsetBelow(st, ms, k);
    DecimalLength(OffsetOf(st, ms, k), 10);
    FinalField(st, ms[k], OffsetOf(st, ms, k))
  }

  function Filled(st: Style, ms: seq<Named>, k: nat, was: Bytes): Bytes
    requires ValidStyle(st) && k < |ms| && |ms[k].field| == 16
    requires |Table(st, ms)| < Pow10(10)
  {
    if UsesTable(st, ms[k]) then FieldOf(st, ms, k) else was
  }

  /** The index, and for a nested member its origin, put in a header. */
  method MarkHeader(st: Style, m: Named, stroff: nat) returns (field: Bytes)
    requires ValidStyle(st) && ValidNamed(m) && |Decimal(stroff)| <= 10 && UsesTable(st, m)
    ensures field == FinalField(st, m, stroff)
  {
    if st.thin && m.origin > 0 {
      field := MarkedField(st, m, NestedText(st, stroff, m.origin - HDR));
    } else {
      field := MarkedField(st, m, IndexText(st, stroff));
    }
  }

  /** One turn of pass two. */
  method FillOne(a: array<Byte>, at: nat, st: Style, ms: seq<Named>, k: nat, was: Bytes,
                 last: Option<Bytes>, lastOff: nat)
    returns (at': nat, last': Option<Bytes>, lastOff': nat, field: Bytes)
    requires ValidStyle(st) && ValidNames(ms) && k < |ms| && (st.traditional ==> st.thin)
    requires a.Length == |Table(st, ms)| < Pow10(10)
    requires at == |TableUpto(st, ms, k)| <= a.Length && a[..at] == TableUpto(st, ms, k)
    requires Remembers(st, ms, k, last, lastOff)
    modifies a
    ensures at' == |TableUpto(st, ms, k + 1)| <= a.Length && a[..at'] == TableUpto(st, ms, k + 1)
    ensures Remembers(st, ms, k + 1, last', lastOff')
    ensures field == Filled(st, ms, k, was)
  {
    var m := ms[k];
    at', last', lastOff', field := at, last, lastOff, was;
    TableGrows(st, ms, k + 1, |ms|);
    OffsetBelow(st, ms, k);
    DecimalLength(OffsetOf(st, ms, k), 10);
    if |m.normal| > st.maxname || st.thin {
      var stroff := lastOff;
      if !(st.thin && last == Some(m.path)) {
        last', stroff, lastOff' := Some(m.path), at, at;
        at' := Append(a, at, st, m.normal);
      }
      assert stroff == OffsetOf(st, ms, k);
      field := MarkHeader(st, m, stroff);
    }
  }

  /** Pass two: the table filled, never past the end of what pass one sized and
      exactly to it, and an index put in each header that uses it. */
  method FillTable(st: Style, ms: seq<Named>, total: nat, sized: seq<Bytes>) returns (table: Bytes, fields: seq<Bytes>)
    requires ValidStyle(st) && ValidNames(ms) && |sized| == |ms|
    requires 0 < total == |Table(st, ms)| < Pow10(10)
    ensures table == Table(st, ms)
    ensures |fields| == |ms|
    ensures forall k :: 0 <= k < |ms| ==>
      fields[k] == Filled(st, ms, k, sized[k])
  {
    if st.traditional && !st.thin {
      TraditionalStoresNone(st, ms, |ms|);
    }
    var a := new Byte[total];
    fields := FillEach(a, st, ms, sized);
    table := a[..];
  }

  /** The loop over the members. */
  method FillEach(a: array<Byte>, st: Style, ms: seq<Named>, sized: seq<Bytes>) returns (fields: seq<Bytes>)
    requires ValidStyle(st) && ValidNames(ms) && |sized| == |ms| && (st.traditional ==> st.thin)
    requires a.Length == |Table(st, ms)| < Pow10(10)
    modifies a
    ensures a[..] == Table(st, ms) && FilledUpto(st, ms, sized, fields, |ms|)
  {
    var at, lastOff := 0, 0;
    var last: Option<Bytes> := None;
    fields := [];
    for k := 0 to |ms|
      invariant at == |TableUpto(st, ms, k)| <= a.Length && a[..at] == TableUpto(st, ms, k)
      invariant Remembers(st, ms, k, last, lastOff)
      invariant FilledUpto(st, ms, sized, fields, k)
    {
      var field;
      at, last, lastOff, field := FillOne(a, at, st, ms, k, sized[k], last, lastOff);
      FilledNext(st, ms, sized, fields, k, field);
      fields := fields + [field];
    }
    assert a[..] == a[..at];
  }

  /** The first k fields are as pass two leaves them. */
  ghost predicate FilledUpto(st: Style, ms: seq<Named>, sized: seq<Bytes>, fields: seq<Bytes>, k: nat)
    requires ValidStyle(st) && ValidNames(ms) && |sized| == |ms| && |Table(st, ms)| < Pow10(10) && k <= |ms|
  {
    match st
    case Style(_, _, _, _) => |fields| == k && forall j :: 0 <= j < k ==> fields[j] == Filled(st, ms, j, sized[j])
  }

  lemma FilledNext(st: Style, ms: seq<Named>, sized: seq<Bytes>, fields: seq<Bytes>, k: nat, field: Bytes)
    requires ValidStyle(st) && ValidNames(ms) && |sized| == |ms| && |Table(st, ms)| < Pow10(10) && k < |ms|
    requires FilledUpto(st, ms, sized, fields, k) && field == Filled(st, ms, k, sized[k])
    ensures FilledUpto(st, ms, sized, fields + [field], k + 1)
  {
  }

  /** _bfd_construct_extended_name_table: both passes, an empty table when no
      name needs it. */
  method ConstructNameTable(st: Style, ms: seq<Named>) returns (table: Bytes, fields: seq<Bytes>)
    requires ValidStyle(st) && ValidNames(ms) && |Table(st, ms)| < Pow10(10)
    ensures table == Table(st, ms)
    ensures |fields| == |ms|
    ensures forall k :: 0 <= k < |ms| ==> fields[k] == FieldOf(st, ms, k)
  {
    var total, sized := SizeTable(st, ms);
    if total == 0 {
      table, fields := [], sized;
      forall k | 0 <= k < |ms|
        ensures fields[k] == FieldOf(st, ms, k)
      {
        NothingUsesEmptyTable(st, ms, k);
      }
    } else {
      table, fields := FillTable(st, ms, total, sized);
    }
  }

  lemma {:induction false} NothingUsesEmptyTable(st: Style, ms: seq<Named>, k: nat)
    requires k < |ms| && Table(st, ms) == []
    ensures !UsesTable(st, ms[k]) && OffsetOf(st, ms, k) == 0
  {
    TableGrows(st, ms, k, |ms|);
    TableGrows(st, ms, k + 1, |ms|);
    if Repeats(st, ms, k) {
      NothingUsesEmptyTable(st, ms, k - 1);
    }
  }

  // ----- the reader's rewrite ------------------------------------------------

  predicate Separator(b: Byte) { b == SLASH || b == BACKSLASH }

  /** Byte i of the table once the reader has been over it: each newline ends a
      name, at the separator before it if there is one, and a backslash reads as
      a slash. */
  function RewrittenAt(s: Bytes, i: nat): Byte
    requires i < |s|
  {
    if s[i] == NEWLINE then
      if i > 0 && Separator(s[i - 1]) then NEWLINE else NUL
    else if Separator(s[i]) then
      if i + 1 < |s| && s[i + 1] == NEWLINE then NUL else SLASH
    else s[i]
  }

  function Rewritten(s: Bytes): (r: Bytes)
    ensures |r| == |s|
    ensures forall i :: 0 <= i < |s| ==> r[i] == RewrittenAt(s, i)
  {
    seq(|s|, i requires 0 <= i < |s| => RewrittenAt(s, i))
  }

  /** The loop of _bfd_slurp_extended_name_table, in place, left to right. */
  method RewriteNames(a: array<Byte>)
    modifies a
    ensures a[..] == Rewritten(old(a[..]))
  {
    ghost var s := a[..];
    for t := 0 to a.Length
      invariant forall i :: 0 <= i < t - 1 ==> a[i] == RewrittenAt(s, i)
      invariant t > 0 ==> a[t - 1] == if Separator(s[t - 1]) then SLASH else RewrittenAt(s, t - 1)
      invariant forall i :: t <= i < a.Length ==> a[i] == s[i]
    {
      if a[t] == NEWLINE {
        if t > 0 && a[t - 1] == SLASH {
          a[t - 1] := NUL;
        } else {
          a[t] := NUL;
        }
      }
      if a[t] == BACKSLASH {
        a[t] := SLASH;
      }
    }
  }

  /** A stored name the reader gives back unchanged. */
  predicate Survives(st: Style, name: Bytes)
  {
    && BACKSLASH !in name && NEWLINE !in name
    && (st.slash || name == [] || name[|name| - 1] != SLASH)
  }

  /** Position p of the table holds a piece, at the start or after a newline. */
  predicate Holds(st: Style, table: Bytes, p: nat, name: Bytes)
  {
    At(table, p, Piece(st, name)) && (p == 0 || table[p - 1] == NEWLINE)
  }

  lemma HeldByte(st: Style, table: Bytes, p: nat, name: Bytes, i: nat)
    requires Holds(st, table, p, name) && i < |Piece(st, name)|
    ensures table[p + i] == Piece(st, name)[i]
    ensures i < |name| ==> Piece(st, name)[i] == name[i]
  {
    assert table[p..p + |Piece(st, name)|][i] == table[p + i];
  }

  lemma SurvivingSelected(st: Style, table: Bytes, p: nat, name: Bytes)
    requires Holds(st, table, p, name) && NoNul(name) && Survives(st, name)
    ensures CString(Rewritten(table)[p..]) == name
  {
    var r := Rewritten(table);
    var piece := Piece(st, name);
    var n := |name|;
    forall i | 0 <= i < n
      ensures r[p + i] == name[i]
    {
      HeldByte(st, table, p, name, i);
      HeldByte(st, table, p, name, i + 1);
      assert name[i] in name;
      assert i + 1 < n ==> name[i + 1] in name;
    }
    HeldByte(st, table, p, name, n);
    if st.slash {
      HeldByte(st, table, p, name, n + 1);
    }
    if n > 0 {
      HeldByte(st, table, p, name, n - 1);
      assert name[n - 1] in name;
    }
    assert r[p + n] == NUL;
    assert r[p..] == name + r[p + n..];
    CStringOf(name, r[p + n..]);
  }

  lemma SelectedSurvives(st: Style, table: Bytes, p: nat, name: Bytes)
    requires Holds(st, table, p, name) && NoNul(name)
    requires CString(Rewritten(table)[p..]) == name
    ensures Survives(st, name)
  {
    var r := Rewritten(table);
    assert forall i :: 0 <= i < |name| ==> CString(r[p..])[i] == r[p + i];
    forall i | 0 <= i < |name|
      ensures name[i] != BACKSLASH && name[i] != NEWLINE
    {
      HeldByte(st, table, p, name, i);
      assert r[p + i] == name[i] && name[i] in name;
      if i > 0 {
        HeldByte(st, table, p, name, i - 1);
        assert r[p + i - 1] == name[i - 1] && name[i - 1] in name;
      }
    }
    if !st.slash && name != [] {
      HeldByte(st, table, p, name, |name| - 1);
      HeldByte(st, table, p, name, |name|);
      assert r[p + |name| - 1] == name[|name| - 1] && name[|name| - 1] in name;
    }
  }

  /** Where the index of a member that uses the table leads. */
  lemma {:induction false} HeldAtOffset(st: Style, ms: seq<Named>, k: nat, tail: Bytes)
    requires ValidNames(ms) && k < |ms| && UsesTable(st, ms[k])
    ensures Holds(st, Table(st, ms) + tail, OffsetOf(st, ms, k), ms[k].normal)
  {
    if Repeats(st, ms, k) {
      assert SameName(ms[k - 1], ms[k]);
      HeldAtOffset(st, ms, k - 1, tail);
    } else {
      HeldWhereStored(st, ms, k, tail);
    }
  }

  lemma HeldWhereStored(st: Style, ms: seq<Named>, k: nat, tail: Bytes)
    requires k < |ms| && UsesTable(st, ms[k]) && !Repeats(st, ms, k)
    ensures Holds(st, Table(st, ms) + tail, |TableUpto(st, ms, k)|, ms[k].normal)
  {
    TableGrows(st, ms, k + 1, |ms|);
    EndsInNewline(st, ms, k);
    PrefixKept(TableUpto(st, ms, k + 1), Table(st, ms), tail);
    HeldInside(st, TableUpto(st, ms, k), ms[k].normal, Table(st, ms) + tail);
  }

  lemma PrefixKept(a: Bytes, b: Bytes, tail: Bytes)
    requires |a| <= |b| && b[..|a|] == a
    ensures a <= b + tail
  {
  }

  lemma HeldInside(st: Style, pre: Bytes, name: Bytes, table: Bytes)
    requires pre + Piece(st, name) <= table && (pre == [] || pre[|pre| - 1] == NEWLINE)
    ensures Holds(st, table, |pre|, name)
  {
    var s := pre + Piece(st, name);
    assert table[..|s|] == s;
    assert table[|pre|..|s|] == s[|pre|..];
    assert |pre| > 0 ==> table[|pre| - 1] == s[|pre| - 1];
  }

  lemma {:induction false} EndsInNewline(st: Style, ms: seq<Named>, k: nat)
    requires k <= |ms|
    ensures var t := TableUpto(st, ms, k); t == [] || t[|t| - 1] == NEWLINE
  {
    if k > 0 {
      EndsInNewline(st, ms, k - 1);
    }
  }

  /** The index recorded for a member selects its name out of the rewritten
      table exactly when the name has no backslash and no newline, and does not
      end in '/' where names are stored without a trailing slash. */
  lemma IndexSelectsName(st: Style, ms: seq<Named>, k: nat, tail: Bytes)
    requires ValidNames(ms) && k < |ms| && UsesTable(st, ms[k])
    ensures OffsetOf(st, ms, k) < |Table(st, ms)|
    ensures CString(Rewritten(Table(st, ms) + tail)[OffsetOf(st, ms, k)..]) == ms[k].normal
      <==> Survives(st, ms[k].normal)
  {
    var p := OffsetOf(st, ms, k);
    HeldAtOffset(st, ms, k, []);
    assert Table(st, ms) + [] == Table(st, ms);
    HeldAtOffset(st, ms, k, tail);
    assert NoNul(ms[k].normal) by { assert ValidNamed(ms[k]); }
    if Survives(st, ms[k].normal) {
      SurvivingSelected(st, Table(st, ms) + tail, p, ms[k].normal);
    } else if CString(Rewritten(Table(st, ms) + tail)[p..]) == ms[k].normal {
      SelectedSurvives(st, Table(st, ms) + tail, p, ms[k].normal);
    }
  }

  // ----- from header to name -------------------------------------------------

  /** The pad characters in use: '/' (SVR4) and ' ' (BSD). */
  predicate PadIsMarker(m: Named) { m.pad == SLASH || m.pad == SPACE }

  /** Room for both numbers, and no digit where the second one ends. */
  predicate NestedFits(st: Style, index: nat, origin: nat, next: Byte)
  {
    var used := |Decimal(index)| + 1 + |Decimal(origin)|;
    used < st.maxname - 1 || (used == st.maxname - 1 && !IsDigit(next))
  }

  /** What the scans make of a text and whatever follows it in the header. */
  predicate Scans(s: Bytes, thin: bool, index: nat, origin: nat)
  {
    var rest := ScanRest(s);
    && ScanNumber(s) == Some(index)
    && (if thin && rest != [] && rest[0] == 58 then ScanNumber(rest[1..]) == Some(origin) else origin == 0)
  }

  lemma IndexScans(s: Bytes, thin: bool, index: nat, tail: Bytes)
    requires s == Decimal(index) + ([SPACE] + tail)
    ensures Scans(s, thin, index, 0)
  {
    ScanDecimal(index, [SPACE] + tail);
  }

  lemma ColonScans(s: Bytes, index: nat, t: Bytes, origin: nat)
    requires s == Decimal(index) + ([58] + t) && ScanNumber(t) == Some(origin)
    ensures Scans(s, true, index, origin)
  {
    ScanDecimal(index, [58] + t);
    assert ([58] + t)[1..] == t;
  }

  lemma IndexTextScans(st: Style, index: nat, tail: Bytes)
    requires ValidStyle(st) && |Decimal(index)| <= 10
    ensures Scans(IndexText(st, index) + tail, st.thin, index, 0)
  {
    var s, number := IndexText(st, index) + tail, Decimal(index);
    var spaces := Repeat(SPACE, st.maxname - 2 - |Decimal(index)|);
    assert s == number + ([SPACE] + (spaces + tail)) by {
      assert IndexText(st, index) == number + [SPACE] + spaces;
      Split(number, [SPACE], spaces, tail);
    }
    IndexScans(s, st.thin, index, spaces + tail);
  }

  lemma NestedTextScans(st: Style, index: nat, origin: nat, tail: Bytes)
    requires ValidStyle(st) && st.thin && |Decimal(index)| <= 10 && tail != []
    requires NestedFits(st, index, origin, tail[0])
    ensures Scans(NestedText(st, index, origin) + tail, st.thin, index, origin)
  {
    var n := st.maxname - 2 - |Decimal(index)|;
    Split(Decimal(index), [58], SpacePad(n, Decimal(origin)), tail);
    SecondScans(n, origin, tail, SpacePad(n, Decimal(origin)) + tail);
    ColonScans(NestedText(st, index, origin) + tail, index, SpacePad(n, Decimal(origin)) + tail, origin);
  }

  lemma SecondScans(n: nat, origin: nat, tail: Bytes, t: Bytes)
    requires |Decimal(origin)| <= n && tail != [] && (|Decimal(origin)| < n || !IsDigit(tail[0]))
    requires t == SpacePad(n, Decimal(origin)) + tail
    ensures ScanNumber(t) == Some(origin)
  {
    SpacePadReads(n, origin, tail);
  }

  lemma Split(a: Bytes, b: Bytes, c: Bytes, d: Bytes)
    ensures a + b + c + d == a + (b + (c + d))
  {
  }

  lemma TextHasNoSlash(st: Style, m: Named, index: nat)
    requires ValidStyle(st) && |Decimal(index)| <= 10
    ensures SLASH !in TableText(st, m, index)
  {
    DecimalDigits(index);
    if st.thin && m.origin >= HDR {
      DecimalDigits(m.origin - HDR);
    }
    DigitsHaveNoSlash(TableText(st, m, index));
  }

  lemma DigitsHaveNoSlash(s: Bytes)
    requires forall i :: 0 <= i < |s| ==> s[i] == SPACE || s[i] == 58 || IsDigit(s[i])
    ensures SLASH !in s
  {
  }

  /** A marked field is taken for an index into the table. */
  /** A header's octets lead through the table to this name and origin. */
  predicate NameRead(raw: Bytes, names: Bytes, st: Style, r: Result<(Bytes, int)>)
    requires ValidStyle(st) && |raw| == HDR
  {
    match r
    case Ok(_) => IsExtended(raw, st.maxname) && ExtendedName(raw, names, st.thin) == r
    case Err(_) => false
  }

  lemma MarkedReads(st: Style, m: Named, text: Bytes, rest: Bytes, names: Bytes, index: nat, origin: nat, raw: Bytes,
                    r: Result<(Bytes, int)>)
    requires ValidStyle(st) && |m.field| == 16 && |text| == st.maxname - 1 && PadIsMarker(m)
    requires |rest| == 44 && SLASH !in text && index < |names|
    requires Scans(text + (m.field[st.maxname..] + rest), st.thin, index, origin)
    requires raw == MarkedField(st, m, text) + rest && r == Ok((CString(names[index..]), origin))
    ensures NameRead(raw, names, st, r)
  {
    var tail := m.field[st.maxname..] + rest;
    assert raw == [m.pad] + (text + tail);
    assert raw[1..] == text + tail;
    assert raw[..st.maxname] == [m.pad] + text;
  }

  /** Inside a thin archive the two numbers must fit their room. */
  predicate MarkFits(st: Style, m: Named, index: nat, misc: Bytes)
    requires ValidStyle(st) && |m.field| == 16 && |misc| == 32
  {
    match m
    case Named(_, _, _, field, origin) =>
      st.thin && origin >= HDR ==> NestedFits(st, index, origin - HDR, (field + misc)[st.maxname])
  }

  predicate Fits(st: Style, ms: seq<Named>, k: nat, misc: Bytes)
    requires ValidStyle(st) && k < |ms| && |ms[k].field| == 16 && |misc| == 32
  {
    MarkFits(st, ms[k], OffsetOf(st, ms, k), misc)
  }

  function Nested(st: Style, m: Named): nat { if st.thin && m.origin >= HDR then m.origin - HDR else 0 }

  lemma IndexReads(st: Style, m: Named, index: nat, rest: Bytes, names: Bytes, raw: Bytes, r: Result<(Bytes, int)>)
    requires ValidStyle(st) && |m.field| == 16 && PadIsMarker(m) && |Decimal(index)| <= 10
    requires |rest| == 44 && index < |names| && SLASH !in IndexText(st, index)
    requires raw == MarkedField(st, m, IndexText(st, index)) + rest && r == Ok((CString(names[index..]), 0))
    ensures NameRead(raw, names, st, r)
  {
    IndexTextScans(st, index, m.field[st.maxname..] + rest);
    MarkedReads(st, m, IndexText(st, index), rest, names, index, 0, raw, r);
  }

  lemma NestedReads(st: Style, m: Named, index: nat, origin: nat, rest: Bytes, names: Bytes, raw: Bytes,
                    r: Result<(Bytes, int)>)
    requires ValidStyle(st) && |m.field| == 16 && PadIsMarker(m) && |Decimal(index)| <= 10 && st.thin
    requires |rest| == 44 && index < |names| && SLASH !in NestedText(st, index, origin)
    requires NestedFits(st, index, origin, (m.field + rest)[st.maxname])
    requires raw == MarkedField(st, m, NestedText(st, index, origin)) + rest
    requires r == Ok((CString(names[index..]), origin))
    ensures NameRead(raw, names, st, r)
  {
    var tail := m.field[st.maxname..] + rest;
    assert tail[0] == (m.field + rest)[st.maxname];
    NestedTextScans(st, index, origin, tail);
    MarkedReads(st, m, NestedText(st, index, origin), rest, names, index, origin, raw, r);
  }

  lemma IndexMark(st: Style, m: Named, index: nat, rest: Bytes, names: Bytes, raw: Bytes, r: Result<(Bytes, int)>)
    requires ValidStyle(st) && |m.field| == 16 && PadIsMarker(m) && |Decimal(index)| <= 10
    requires !(st.thin && m.origin >= HDR) && |rest| == 44 && index < |names|
    requires raw == MarkedField(st, m, TableText(st, m, index)) + rest && r == Ok((CString(names[index..]), 0))
    ensures NameRead(raw, names, st, r)
  {
    TextHasNoSlash(st, m, index);
    IndexReads(st, m, index, rest, names, raw, r);
  }

  lemma NestedMark(st: Style, m: Named, index: nat, misc: Bytes, rest: Bytes, names: Bytes, raw: Bytes, origin: nat,
                   r: Result<(Bytes, int)>)
    requires ValidStyle(st) && |m.field| == 16 && PadIsMarker(m) && |Decimal(index)| <= 10
    requires st.thin && m.origin == origin + HDR && |misc| == 32 && |rest| == 44 && misc <= rest && index < |names|
    requires raw == MarkedField(st, m, TableText(st, m, index)) + rest && r == Ok((CString(names[index..]), origin))
    requires MarkFits(st, m, index, misc)
    ensures NameRead(raw, names, st, r)
  {
    TextHasNoSlash(st, m, index);
    assert (m.field + rest)[st.maxname] == (m.field + misc)[st.maxname];
    NestedReads(st, m, index, origin, rest, names, raw, r);
  }

  lemma MarkReads(st: Style, m: Named, index: nat, misc: Bytes, rest: Bytes, names: Bytes, raw: Bytes,
                  r: Result<(Bytes, int)>)
    requires ValidStyle(st) && |m.field| == 16 && PadIsMarker(m) && |Decimal(index)| <= 10
    requires |misc| == 32 && |rest| == 44 && misc <= rest && index < |names| && MarkFits(st, m, index, misc)
    requires raw == MarkedField(st, m, TableText(st, m, index)) + rest
    requires r == Ok((CString(names[index..]), Nested(st, m)))
    ensures NameRead(raw, names, st, r)
  {
    if st.thin && m.origin >= HDR {
      NestedMark(st, m, index, misc, rest, names, raw, m.origin - HDR, r);
    } else {
      IndexMark(st, m, index, rest, names, raw, r);
    }
  }

  lemma FieldReads(st: Style, ms: seq<Named>, k: nat, misc: Bytes, rest: Bytes, names: Bytes, raw: Bytes,
                   r: Result<(Bytes, int)>)
    requires ValidStyle(st) && k < |ms| && ValidNamed(ms[k]) && UsesTable(st, ms[k]) && PadIsMarker(ms[k])
    requires |Table(st, ms)| < Pow10(10) && |misc| == 32 && |rest| == 44 && misc <= rest
    requires Fits(st, ms, k, misc) && OffsetOf(st, ms, k) < |names| && raw == FieldOf(st, ms, k) + rest
    requires r == Ok((CString(names[OffsetOf(st, ms, k)..]), Nested(st, ms[k])))
    ensures NameRead(raw, names, st, r)
  {
    OffsetBelow(st, ms, k);
    DecimalLength(OffsetOf(st, ms, k), 10);
    MarkReads(st, ms[k], OffsetOf(st, ms, k), misc, rest, names, raw, r);
  }

  /** The header written for a member that uses the table is read back with the
      member's own name (and, inside a thin archive, its nested origin). */
  lemma TableHeaderReads(st: Style, ms: seq<Named>, k: nat, tail: Bytes, file: Bytes, pos: nat, misc: Bytes,
                         digits: Bytes, size: nat)
    requires ValidStyle(st) && ValidNames(ms) && k < |ms| && UsesTable(st, ms[k]) && PadIsMarker(ms[k])
    requires |Table(st, ms)| < Pow10(10) && Survives(st, ms[k].normal)
    requires |misc| == 32 && |digits| == 10 && ParsedSize(digits) == Some(size)
    requires ValidNamed(ms[k]) && Fits(st, ms, k, misc) && At(file, pos, Image(FieldOf(st, ms, k), misc, digits))
    ensures ReadHeader(file, pos, Some(Rewritten(Table(st, ms) + tail)), st.maxname, st.thin)
         == Ok(Element(ms[k].normal, size, 0, Nested(st, ms[k]), pos + HDR))
  {
    var raw, names := Image(FieldOf(st, ms, k), misc, digits), Rewritten(Table(st, ms) + tail);
    var name, origin := ms[k].normal, Nested(st, ms[k]);
    TableNameRead(st, ms, k, tail, misc, digits, raw, names, Ok((name, origin)));
    NamedHeaderReads(file, pos, names, st, raw, size, name, origin, Element(name, size, 0, origin, pos + HDR));
  }

  lemma NamedHeaderReads(file: Bytes, pos: nat, names: Bytes, st: Style, raw: Bytes, size: nat, name: Bytes,
                         origin: int, h: Element)
    requires ValidStyle(st) && |raw| == HDR && At(file, pos, raw) && raw[58..] == FMAG
    requires ParsedSize(raw[48..58]) == Some(size) && NameRead(raw, names, st, Ok((name, origin)))
    requires h == Element(name, size, 0, origin, pos + HDR)
    ensures ReadHeader(file, pos, Some(names), st.maxname, st.thin) == Ok(h)
  {
    ExtendedHeaderReads(file, pos, names, st.maxname, st.thin, raw, size, name, origin, h);
  }

  /** The octets of the header lead to the member's name. */
  lemma TableNameRead(st: Style, ms: seq<Named>, k: nat, tail: Bytes, misc: Bytes, digits: Bytes, raw: Bytes,
                      names: Bytes, r: Result<(Bytes, int)>)
    requires ValidStyle(st) && ValidNames(ms) && k < |ms| && UsesTable(st, ms[k]) && PadIsMarker(ms[k])
    requires |Table(st, ms)| < Pow10(10) && Survives(st, ms[k].normal) && |misc| == 32 && |digits| == 10
    requires ValidNamed(ms[k]) && Fits(st, ms, k, misc)
    requires raw == Image(FieldOf(st, ms, k), misc, digits) && names == Rewritten(Table(st, ms) + tail)
    requires r == Ok((ms[k].normal, Nested(st, ms[k])))
    ensures NameRead(raw, names, st, r)
  {
    var rest := misc + digits + FMAG;
    assert raw == FieldOf(st, ms, k) + rest;
    IndexSelectsName(st, ms, k, tail);
    FieldReads(st, ms, k, misc, rest, names, raw, r);
  }
}
