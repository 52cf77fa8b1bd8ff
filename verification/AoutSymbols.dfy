/** Writing out the symbols of an a.out final link (binutils/bfd/aoutx.h): which
    symbol goes to which slot of the symbol table, and what relocations are told
    about it. */
module AoutSymbols {
  import Stabs = AoutStabs

  /** Size of an external nlist entry. */
  const NLIST: nat := 12

  type Hash = nat

  datatype HashKind =
    | New | Undefined | Undefweak | Defined | Defweak | Common
    | Indirect(link: Hash) | Warning(link: Hash)

  /** Defined, weakly defined or common. */
  predicate IsPlaced(k: HashKind) { k.Defined? || k.Defweak? || k.Common? }

  datatype Strip = StripNone | StripDebugger | StripSome | StripAll

  datatype Discard = DiscardNone | DiscardL | DiscardAll

  /** What the N_TYPE bits of an input symbol tell the loop.  InSection covers N_TEXT,
      N_DATA, N_BSS, N_ABS and their weak forms. */
  datatype SymType = InSection | Indr | WarningSym | SetSym | OtherSym

  /** An input symbol: its type bits, whether any N_STAB bit is set, whether its name
      is in keep_hash or is that of a local label, and the symbol as the duplicate
      header search sees it. */
  datatype InSym = InSym(kind: SymType, stab: bool, kept: bool, localLabel: bool, text: Stabs.Stab)

  function Texts(syms: seq<InSym>): (r: seq<Stabs.Stab>)
    ensures |r| == |syms| && forall j :: 0 <= j < |syms| ==> r[j] == syms[j].text
  {
    seq(|syms|, j requires 0 <= j < |syms| => syms[j].text)
  }

  /** What a header is known by: its name and the checksum of its symbols. */
  function HeaderKey(texts: seq<Stabs.Stab>, i: nat): Stabs.Key
    requires i < |texts|
  {
    Stabs.Key(texts[i].name, Stabs.ScanSum(texts, i + 1, 0))
  }

  datatype Hash? = NoHash | H(h: Hash)

  /** Whose symbol a slot of the output holds. */
  datatype Slot = FileName | Local(i: nat) | Global(h: Hash)

  /** What becomes of one input symbol. */
  datatype Fate = Fate(pass: bool, skipNext: bool, entry: int, made: seq<Slot>)

  /** Where the loop over an input's symbols stands: the hash table's flags and
      numbers, the symbols made, symbol_map, the resolved hash entries, the two
      flags carried from symbol to symbol, and the table of headers seen. */
  datatype Progress = Progress(written: set<Hash>, indx: map<Hash, int>, table: seq<Slot>,
                               entries: seq<int>, hashes: seq<Hash?>, pass: bool, skipNext: bool,
                               seen: set<Stabs.Key>)

  /** symbol_map as the loop finds it. */
  function Zeros(n: nat): (r: seq<int>)
    ensures |r| == n && forall j :: 0 <= j < n ==> r[j] == 0
  {
    seq(n, _ => 0)
  }

  /** symbol_map once the symbols a duplicate header drops are marked. */
  function Excluded(entries: seq<int>, i: nat, excludes: set<nat>): (r: seq<int>)
    ensures |r| == |entries|
    ensures forall j :: 0 <= j < |r| ==> r[j] == if j > i && j in excludes then -1 else entries[j]
  {
    seq(|entries|, j requires 0 <= j < |entries| => if j > i && j in excludes then -1 else entries[j])
  }

  /** symbol_map behind symbol i, which starts a duplicate header or does not. */
  function AfterHeader(texts: seq<Stabs.Stab>, i: nat, dup: bool, entries: seq<int>): (r: seq<int>)
    requires i < |texts|
    ensures |r| == |entries|
  {
    if dup then Excluded(entries, i, Stabs.MarkSet(texts, i + 1, 0)) else entries
  }

  /** Entries aout_link_write_other_symbol leaves out even when they are forced. */
  predicate Unwritable(k: HashKind) { k.New? || k.Indirect? || k.Warning? }

  /** An entry's link and the base of its chain are entries. */
  predicate LinkOk(kinds: map<Hash, HashKind>, base: map<Hash, Hash>, h: Hash)
    requires h in kinds
  {
    && (kinds[h].Indirect? || kinds[h].Warning? ==> kinds[h].link in kinds)
    && h in base && base[h] in kinds
  }

  class FinalLink {
    const kinds: map<Hash, HashKind>
    const base: map<Hash, Hash>        // where a chain of indirections ends
    const strip: Strip
    const discard: Discard
    const keep: set<Hash>
    const start: nat                   // obj_sym_filepos
    var written: set<Hash>
    var indx: map<Hash, int>
    var symCount: nat
    var symoff: nat
    var file: map<int, Slot>           // the symbol table in the output file
    ghost var table: seq<Slot>         // every symbol made so far, slot by slot
    ghost var flushed: nat             // how many of them are in the file

    /** The hash table is closed under following links. */
    ghost predicate Closed()
      reads this
    {
      && indx.Keys == kinds.Keys
      && forall h {:trigger LinkOk(kinds, base, h)} :: h in kinds ==> LinkOk(kinds, base, h)
    }

    ghost predicate HashOk(h: Hash)
      reads this
      requires h in indx
    {
      indx[h] >= -2 && (indx[h] >= 0 ==> indx[h] < |table| && table[indx[h]] == Global(h) && h in written)
    }

    ghost predicate SlotOk(k: nat)
      reads this
      requires k < |table|
    {
      table[k].Global? ==> table[k].h in indx && indx[table[k].h] == k
    }

    /** indx names the slot of every entry that was emitted, and only of those. */
    ghost predicate Indexed()
      reads this
    {
      && (forall h :: h in indx ==> HashOk(h))
      && (forall k :: 0 <= k < |table| ==> SlotOk(k))
    }

    ghost predicate InFile(k: nat)
      reads this
      requires k < |table|
    {
      start + NLIST * k in file && file[start + NLIST * k] == table[k]
    }

    /** The file holds the flushed slots, slot k at start plus k entries. */
    ghost predicate Filed()
      reads this
    {
      && flushed <= |table|
      && symoff == start + NLIST * flushed
      && (forall k :: 0 <= k < flushed ==> InFile(k))
      && (forall at :: at in file ==> start <= at < symoff && (at - start) % NLIST == 0)
    }

    ghost predicate Consistent()
      reads this
    {
      Closed() && Indexed() && Filed() && symCount == |table|
    }

    /** Only entries that cannot be written are left asked for. */
    ghost predicate Settled()
      reads this
    {
      forall h :: h in indx && indx[h] == -2 && h in kinds ==> Unwritable(kinds[h])
    }

    /** Without stripping, an entry done with has a slot if it can have one. */
    ghost predicate NotLost(h: Hash)
      reads this
    {
      strip == StripNone && h in written && h in kinds && h in indx && !Unwritable(kinds[h]) ==> indx[h] >= 0
    }

    ghost predicate Sound()
      reads this
    {
      Consistent() && Settled() && forall h :: h in written ==> NotLost(h)
    }

    ghost predicate Valid()
      reads this
    {
      Sound() && flushed == |table|
    }

    /** final_link once the symbol table starts. */
    constructor (kinds: map<Hash, HashKind>, base: map<Hash, Hash>, strip: Strip, discard: Discard, keep: set<Hash>,
                 start: nat)
      requires forall h {:trigger LinkOk(kinds, base, h)} :: h in kinds ==> LinkOk(kinds, base, h)
      ensures Valid() && table == [] && written == {} && indx == map h | h in kinds :: -1
      ensures this.kinds == kinds && this.base == base && this.strip == strip && this.discard == discard
    {
      this.kinds, this.base, this.keep := kinds, base, keep;
      this.strip, this.discard, this.start := strip, discard, start;
      written, indx := {}, map h | h in kinds :: -1;
      symCount, symoff, file, table, flushed := 0, start, map[], [], 0;
    }

    // ----- what it means -----------------------------------------------------

    /** No hash entry is emitted twice. */
    lemma {:induction false} EmittedOnce(j: nat, k: nat)
      requires Valid() && j < |table| && k < |table| && table[j].Global? && table[j] == table[k]
      ensures j == k
    {
      assert SlotOk(j) && SlotOk(k);
    }

    /** indx is a slot number exactly for the entries that were emitted, and the
        entry is in the file at that slot. */
    lemma {:induction false} IndexedIffEmitted(h: Hash)
      requires Valid() && h in kinds
      ensures indx[h] >= 0 <==> Global(h) in table
      ensures indx[h] >= 0 ==> start + NLIST * indx[h] in file && file[start + NLIST * indx[h]] == Global(h)
    {
      assert HashOk(h);
      if Global(h) in table {
        var k :| 0 <= k < |table| && table[k] == Global(h);
        assert SlotOk(k);
      }
      if indx[h] >= 0 {
        assert table[indx[h]] == Global(h) && InFile(indx[h]);
      }
    }

    /** Slot k is at the start of the table plus k entries, and the file holds
        nothing else. */
    lemma {:induction false} SlotPosition(at: int)
      requires Valid()
      ensures at in file <==> start <= at < start + NLIST * symCount && (at - start) % NLIST == 0
    {
      if start <= at < symoff && (at - start) % NLIST == 0 {
        var k := (at - start) / NLIST;
        assert at == start + NLIST * k && InFile(k);
      }
    }

    // ----- symbols not from an a.out input -----------------------------------

    predicate Stripped(h: Hash)
      reads this
      requires h in indx
    {
      indx[h] != -2 && (strip == StripAll || (strip == StripSome && h !in keep))
    }

    /** Make a symbol: it takes the next number. */
    method Make(slot: Slot)
      requires Consistent() && (slot.Global? ==> slot.h in kinds && slot.h in written && indx[slot.h] < 0)
      modifies this`indx, this`symCount, this`table
      ensures Consistent() && table == old(table) + [slot]
      ensures indx == if slot.Global? then old(indx)[slot.h := |old(table)|] else old(indx)
    {
      table := table + [slot];
      if slot.Global? {
        indx := indx[slot.h := symCount];
      }
      symCount := symCount + 1;
      forall h | h in indx
        ensures HashOk(h)
      {
        assert old(HashOk(h));
      }
      forall k | 0 <= k < |table|
        ensures SlotOk(k)
      {
        if k < |old(table)| {
          assert old(SlotOk(k));
          assert table[k] == old(table)[k];
        }
      }
      forall k | 0 <= k < flushed
        ensures InFile(k)
      {
        assert old(InFile(k));
      }
    }

    /** Write the symbols made but not written, at symoff. */
    method Flush(buf: seq<Slot>)
      requires Consistent() && flushed + |buf| == |table| && buf == table[flushed..]
      modifies this`symoff, this`file, this`flushed
      ensures Consistent() && flushed == |table|
    {
      var i := 0;
      while i < |buf|
        invariant i <= |buf| && flushed == old(flushed) + i && Filed()
      {
        WriteAtEnd(buf[i]);
        i := i + 1;
      }
      forall h | h in indx
        ensures HashOk(h)
      {
        assert old(HashOk(h));
      }
      forall k | 0 <= k < |table|
        ensures SlotOk(k)
      {
        assert old(SlotOk(k));
      }
    }

    method WriteAtEnd(slot: Slot)
      requires Filed() && flushed < |table| && slot == table[flushed]
      modifies this`symoff, this`file, this`flushed
      ensures Filed() && flushed == old(flushed) + 1
    {
      file := file[symoff := slot];
      symoff, flushed := symoff + NLIST, flushed + 1;
      forall k | 0 <= k < flushed
        ensures InFile(k)
      {
        assert k < old(flushed) ==> old(InFile(k));
      }
    }

    /** The entry a call is about: a warning stands for its link. */
    function Meant(h: Hash): Hash
      requires h in kinds
    {
      if kinds[h].Warning? then kinds[h].link else h
    }

    /** aout_link_write_other_symbol; ok is false where it would abort. */
    method WriteOtherSymbol(h0: Hash) returns (ok: bool)
      requires Consistent() && flushed == |table| && h0 in kinds && LinkOk(kinds, base, h0)
      modifies this`indx, this`symCount, this`symoff, this`file, this`table, this`flushed, this`written
      ensures Consistent() && flushed == |table|
      ensures var h := Meant(h0);
        if h in old(written) || (kinds[h0].Warning? && kinds[h].New?) then
          ok && written == old(written) && table == old(table) && indx == old(indx)
        else if old(Stripped(h)) || Unwritable(kinds[h]) then
          && ok == (old(Stripped(h)) || !kinds[h].Warning?)
          && written == old(written) + {h} && table == old(table) && indx == old(indx)
        else
          ok && written == old(written) + {h} && table == old(table) + [Global(h)]
            && indx == old(indx)[h := |old(table)|]
    {
      var h := h0;
      ok := true;
      if kinds[h].Warning? {
        h := kinds[h].link;
        if kinds[h].New? {
          return;
        }
      }
      if h in written {
        return;
      }
      written := written + {h};
      StillConsistent();
      if Stripped(h) {
        return;
      }
      if kinds[h].Warning? {
        ok := false;
      } else if !kinds[h].New? && !kinds[h].Indirect? {
        assert indx[h] < 0 by { assert old(HashOk(h)); }
        Make(Global(h));
        Flush([Global(h)]);
      }
    }

    /** Marking entries that have no slot changes nothing else. */
    twostate lemma StillConsistent()
      requires old(Consistent())
      requires unchanged(`table) && unchanged(`flushed) && unchanged(`symCount) && unchanged(`symoff)
        && unchanged(`file)
      requires indx.Keys == old(indx).Keys
      requires forall h :: h in indx ==>
        if old(indx)[h] >= 0 then indx[h] == old(indx)[h] && (h in old(written) ==> h in written)
        else -2 <= indx[h] < 0
      ensures Consistent()
    {
      forall h | h in indx
        ensures HashOk(h)
      {
        assert old(HashOk(h));
      }
      forall k | 0 <= k < |table|
        ensures SlotOk(k)
      {
        assert old(SlotOk(k));
      }
      forall k | 0 <= k < flushed
        ensures InFile(k)
      {
        assert old(InFile(k));
      }
    }

    /** What a relocation does that turns out to need a symbol (lines 4134-4147,
        4470-4483 and 3786-3796): force the symbol out unless it has a slot.  An
        entry that can be written gets one; a new or indirect entry is left marked. */
    method Force(h: Hash) returns (ok: bool, index: int)
      requires Valid() && h in kinds
      modifies this`indx, this`symCount, this`symoff, this`file, this`table, this`flushed, this`written
      ensures ok ==> Valid() && index == indx[h]
      ensures old(indx[h]) >= 0 ==> ok && table == old(table) && indx == old(indx) && written == old(written)
      ensures old(indx[h]) < 0 && !Unwritable(kinds[h]) ==>
        ok && table == old(table) + [Global(h)] && indx == old(indx)[h := |old(table)|] && written == old(written) + {h}
      ensures old(indx[h]) < 0 && (kinds[h].New? || kinds[h].Indirect?) ==>
        ok && table == old(table) && indx == old(indx)[h := -2] && written == old(written) + {h}
      ensures old(indx[h]) < 0 && kinds[h].Warning? && ok ==> index == -2
      ensures old(table) <= table
    {
      ok := true;
      if indx[h] < 0 {
        indx := indx[h := -2];
        written := written - {h};
        StillConsistent();
        assert LinkOk(kinds, base, h);
        ok := WriteOtherSymbol(h);
      }
      index := indx[h];
    }

    /** Entries that can be written are never left marked. */
    lemma {:induction false} WritableNeverMarked(h: Hash)
      requires Valid() && h in kinds && !Unwritable(kinds[h])
      ensures indx[h] != -2
    {
    }

    // ----- the end of the link -------------------------------------------------

    /** The traversal of the hash table that ends final_link: without stripping,
        every entry that can be written has its slot afterwards. */
    method WriteRemaining() returns (ok: bool)
      requires Valid()
      modifies this`indx, this`symCount, this`symoff, this`file, this`table, this`flushed, this`written
      ensures ok ==> Valid()
      ensures ok && strip == StripNone ==> forall h :: h in kinds && !Unwritable(kinds[h]) ==> indx[h] >= 0
    {
      var todo := kinds.Keys;
      ok := true;
      while todo != {}
        invariant Valid() && ok && todo <= kinds.Keys
        invariant forall h :: h in kinds && h !in todo && !Unwritable(kinds[h]) ==> h in written
      {
        var h :| h in todo;
        assert LinkOk(kinds, base, h);
        ghost var was := written;
        ok := WriteOtherSymbol(h);
        if !ok {
          return;
        }
        assert forall x :: x in was ==> x in written;
        todo := todo - {h};
      }
      assert strip == StripNone ==> forall h :: h in written ==> NotLost(h);
    }

    // ----- the symbols of one input --------------------------------------------

    /** An entry of symbol_map once its symbol was looked at: not copied, the
        number of its slot, or the mark of an entry that could not be written. */
    ghost predicate MapOk(t: seq<Slot>, entry: int, i: nat, h: Hash?)
    {
      || entry == -1
      || (0 <= entry < |t| && (t[entry] == Local(i) || (h.H? && t[entry] == Global(h.h))))
      || (entry == -2 && h.H? && h.h in kinds && Unwritable(kinds[h.h]))
    }

    /** The loop of aout_link_write_symbols has handled i symbols. */
    ghost predicate Halfway(syms: seq<InSym>, hashes: seq<Hash?>, symHashes: array<Hash?>, symbolMap: array<int>,
                            i: nat)
      reads this, symHashes, symbolMap
    {
      && i <= |syms| == |hashes| == symHashes.Length == symbolMap.Length
      && (forall j :: 0 <= j < |hashes| && hashes[j].H? ==> hashes[j].h in kinds)
      && (forall j :: 0 <= j < i ==> MapOk(table, symbolMap[j], j, hashes[j]))
      && (forall j :: 0 <= j < |hashes| ==>
            symHashes[j] == hashes[j] || (hashes[j].H? && symHashes[j] == H(Base(hashes[j].h))))
      && (forall j :: i <= j < |hashes| ==> symHashes[j] == hashes[j])
    }

    function Base(h: Hash): Hash { if h in base then base[h] else h }

    /** Whether the loop strips a symbol. */
    predicate Strips(sym: InSym)
    {
      match strip
      case StripNone => false
      case StripDebugger => sym.stab
      case StripSome => !sym.kept
      case StripAll => true
    }

    predicate Discards(sym: InSym)
    {
      !sym.kind.SetSym? &&
      match discard
      case DiscardNone => false
      case DiscardL => !sym.stab && sym.localLabel
      case DiscardAll => true
    }

    /** An indirect symbol without a definition, or a warning: the next symbol is
        passed through. */
    predicate PassesNext(sym: InSym, h: Hash?)
    {
      || sym.kind.WarningSym?
      || (sym.kind.Indr? && !(h.H? && Base(h.h) in kinds && IsPlaced(kinds[Base(h.h)])))
    }

    // ----- what an input must produce --------------------------------------------

    /** What becomes of a symbol: the two flags, its map entry, and the slot it
        makes if any. */
    function FateOf(sym: InSym, h: Hash?, i: nat, p: Progress): Fate
      requires h.H? ==> h.h in p.indx
    {
      if p.pass then Fate(false, p.skipNext, |p.table|, [Local(i)])
      else if p.skipNext then Fate(false, false, -1, [])
      else if h.H? then HashedFate(sym, h.h, p)
      else LocalFate(sym, i, p)
    }

    /** A symbol with a hash entry, reached without pass or skip_next. */
    function HashedFate(sym: InSym, h: Hash, p: Progress): Fate
      requires h in p.indx
    {
      if h in p.written then Fate(false, sym.kind.Indr? || sym.kind.WarningSym?, p.indx[h], [])
      else if Strips(sym) then Fate(false, false, -1, [])
      else
        var pass := !sym.kind.InSection? && PassesNext(sym, H(h));
        Fate(pass, sym.kind.Indr? && !sym.stab && !pass, |p.table|, [Global(h)])
    }

    /** A symbol without a hash entry, reached without pass or skip_next. */
    function LocalFate(sym: InSym, i: nat, p: Progress): Fate
    {
      var skipNext := !Strips(sym) && sym.kind.Indr? && !sym.stab && !PassesNext(sym, NoHash);
      if Strips(sym) || Discards(sym) then Fate(false, skipNext, -1, [])
      else Fate(!sym.kind.InSection? && PassesNext(sym, NoHash), skipNext, |p.table|, [Local(i)])
    }

    /** Symbol i is looked up: not dropped with its header, passed through or
        skipped. */
    predicate Looked(i: nat, p: Progress)
      requires i < |p.entries|
    {
      p.entries[i] != -1 && !p.pass && !p.skipNext
    }

    function Resolved(h: Hash?): Hash?
    {
      if h.H? && h.h in kinds && (kinds[h.h].Indirect? || kinds[h.h].Warning?) then H(Base(h.h)) else h
    }

    /** One turn of the loop. */
    function Turn(syms: seq<InSym>, i: nat, p: Progress): (r: Progress)
      requires Shaped(syms, p) && i < |syms|
      ensures Shaped(syms, r)
    {
      if p.entries[i] == -1 then p
      else
        var sym, h := syms[i], p.hashes[i];
        var f := FateOf(sym, h, i, p);
        var looked := Looked(i, p);
        var header := looked && f.made != [] && sym.text.kind.BINCL?;
        var key := HeaderKey(Texts(syms), i);
        assert h.H? ==> LinkOk(kinds, base, h.h);
        Progress(
          if looked && h.H? then p.written + {h.h} else p.written,
          if looked && h.H? && f.made != [] then p.indx[h.h := |p.table|] else p.indx,
          p.table + f.made,
          AfterHeader(Texts(syms), i, header && key in p.seen, p.entries)[i := f.entry],
          if looked then p.hashes[i := Resolved(h)] else p.hashes,
          f.pass, f.skipNext,
          if header then p.seen + {key} else p.seen)
    }

    predicate Shaped(syms: seq<InSym>, p: Progress)
    {
      match p
      case Progress(_, indx, _, entries, hashes, _, _, _) =>
        && |entries| == |hashes| == |syms| && indx.Keys == kinds.Keys
        && (forall j :: 0 <= j < |hashes| && hashes[j].H? ==> hashes[j].h in kinds)
        && (forall h {:trigger LinkOk(kinds, base, h)} :: h in kinds ==> LinkOk(kinds, base, h))
    }

    /** The first k turns. */
    function Turns(syms: seq<InSym>, k: nat, p: Progress): (r: Progress)
      requires Shaped(syms, p) && k <= |syms|
      ensures Shaped(syms, r)
    {
      if k == 0 then p else Turn(syms, k - 1, Turns(syms, k - 1, p))
    }

    function NameSlot(nameKept: bool): seq<Slot>
    {
      if strip != StripAll && (strip != StripSome || nameKept) && discard != DiscardAll then [FileName] else []
    }

    /** Where the loop starts. */
    function Begin(n: nat, hashes: seq<Hash?>, nameKept: bool, written: set<Hash>, indx: map<Hash, int>,
                   table: seq<Slot>, seen: set<Stabs.Key>)
      : Progress
    {
      Progress(written, indx, table + NameSlot(nameKept), Zeros(n), hashes, false, false, seen)
    }

    /** A symbol makes at most one output symbol, and the table only grows. */
    lemma {:induction false} TurnsGrow(syms: seq<InSym>, k: nat, p: Progress)
      requires Shaped(syms, p) && k <= |syms|
      ensures p.table <= Turns(syms, k, p).table && |Turns(syms, k, p).table| <= |p.table| + k
    {
      if k > 0 {
        TurnsGrow(syms, k - 1, p);
      }
    }

    // ----- when symbol_map holds -2 ------------------------------------------------

    /** Symbol i is looked up, counting from where the loop starts. */
    predicate LooksUp(syms: seq<InSym>, p: Progress, i: nat, h: Hash)
      requires Shaped(syms, p) && i < |syms|
    {
      Looked(i, Turns(syms, i, p)) && p.hashes[i] == H(h)
    }

    /** The first of the symbols before k to look up h is stripped. */
    ghost predicate StrippedFirst(syms: seq<InSym>, p: Progress, h: Hash, k: nat)
      requires Shaped(syms, p) && k <= |syms|
    {
      exists i :: 0 <= i < k && LooksUp(syms, p, i, h) && Strips(syms[i]) && Unseen(syms, p, h, i)
    }

    /** No symbol before k looks up h. */
    ghost predicate Unseen(syms: seq<InSym>, p: Progress, h: Hash, k: nat)
      requires Shaped(syms, p) && k <= |syms|
    {
      forall i :: 0 <= i < k ==> !LooksUp(syms, p, i, h)
    }

    lemma {:induction false} HashesAhead(syms: seq<InSym>, p: Progress, k: nat, i: nat)
      requires Shaped(syms, p) && k <= i < |syms|
      ensures Turns(syms, k, p).hashes[i] == p.hashes[i]
    {
      if k > 0 {
        HashesAhead(syms, p, k - 1, i);
      }
    }

    /** What the loop has made of a marked entry by symbol k. */
    ghost predicate MarkState(syms: seq<InSym>, p: Progress, h: Hash, k: nat)
      requires Shaped(syms, p) && k <= |syms| && h in kinds
    {
      match Turns(syms, k, p)
      case Progress(written, indx, _, _, _, _, _, _) =>
        Marks(p.indx[h], h in p.written, indx[h], h in written, Unseen(syms, p, h, k), StrippedFirst(syms, p, h, k))
    }

    lemma {:induction false} MarkAfter(syms: seq<InSym>, p: Progress, h: Hash, k: nat)
      requires Shaped(syms, p) && k <= |syms| && h in kinds
      ensures MarkState(syms, p, h, k)
    {
      if k > 0 {
        MarkAfter(syms, p, h, k - 1);
        MarkOne(syms, p, h, k - 1);
      }
    }

    lemma MarkOne(syms: seq<InSym>, p: Progress, h: Hash, k: nat)
      requires Shaped(syms, p) && k < |syms| && h in kinds && MarkState(syms, p, h, k)
      ensures MarkState(syms, p, h, k + 1)
    {
      var q, r := Turns(syms, k, p), Turns(syms, k + 1, p);
      HashesAhead(syms, p, k, k);
      TurnOnHash(syms, k, q, h);
      MarkNext(syms, p, h, k, q.indx[h], h in q.written, r.indx[h], h in r.written);
    }

    /** Index and flag of an entry before and after a turn. */
    predicate OnHash(indx1: int, written1: bool, indx2: int, written2: bool, looks: bool, strips: bool)
    {
      if looks then written2 && (if written1 || strips then indx2 == indx1 else indx2 >= 0)
      else written2 == written1 && indx2 == indx1
    }

    lemma MarkNext(syms: seq<InSym>, p: Progress, h: Hash, k: nat,
                   indx1: int, written1: bool, indx2: int, written2: bool)
      requires Shaped(syms, p) && k < |syms| && h in kinds
      requires Marks(p.indx[h], h in p.written, indx1, written1, Unseen(syms, p, h, k), StrippedFirst(syms, p, h, k))
      requires OnHash(indx1, written1, indx2, written2, LooksUp(syms, p, k, h), Strips(syms[k]))
      ensures Marks(p.indx[h], h in p.written, indx2, written2,
                    Unseen(syms, p, h, k + 1), StrippedFirst(syms, p, h, k + 1))
    {
      MarkStep(syms, p, h, k + 1);
      MarkLogic(p.indx[h], h in p.written, indx1, written1, indx2, written2,
                Unseen(syms, p, h, k), StrippedFirst(syms, p, h, k),
                Unseen(syms, p, h, k + 1), StrippedFirst(syms, p, h, k + 1),
                LooksUp(syms, p, k, h), Strips(syms[k]));
    }

    /** The index and flag of an entry that came in with indx0 and written0: whether
        it was looked up since, and stripped at its first look-up. */
    predicate Marks(indx0: int, written0: bool, indx1: int, written1: bool, unseen: bool, stripped: bool)
    {
      && (indx0 != -2 ==> indx1 != -2)
      && (written1 <==> written0 || !unseen)
      && (indx0 == -2 && (written0 || unseen) ==> indx1 == -2)
      && (indx0 == -2 && !written0 && !unseen ==> (indx1 == -2 <==> stripped))
    }

    lemma MarkLogic(indx0: int, written0: bool, indx1: int, written1: bool, indx2: int, written2: bool,
                    unseen1: bool, stripped1: bool, unseen2: bool, stripped2: bool, looks: bool, strips: bool)
      requires Marks(indx0, written0, indx1, written1, unseen1, stripped1)
      requires unseen2 <==> unseen1 && !looks
      requires !unseen1 ==> (stripped2 <==> stripped1)
      requires unseen1 && looks ==> (stripped2 <==> strips)
      requires OnHash(indx1, written1, indx2, written2, looks, strips)
      ensures Marks(indx0, written0, indx2, written2, unseen2, stripped2)
    {
    }

    /** One turn, as one hash entry sees it. */
    lemma TurnOnHash(syms: seq<InSym>, i: nat, q: Progress, h: Hash)
      requires Shaped(syms, q) && i < |syms| && h in kinds
      ensures var r := Turn(syms, i, q);
        OnHash(q.indx[h], h in q.written, r.indx[h], h in r.written,
               Looked(i, q) && q.hashes[i] == H(h), Strips(syms[i]))
    {
    }

    lemma MarkStep(syms: seq<InSym>, p: Progress, h: Hash, k: nat)
      requires Shaped(syms, p) && 0 < k <= |syms| && h in kinds
      ensures Unseen(syms, p, h, k) <==> Unseen(syms, p, h, k - 1) && !LooksUp(syms, p, k - 1, h)
      ensures !Unseen(syms, p, h, k - 1) ==> (StrippedFirst(syms, p, h, k) <==> StrippedFirst(syms, p, h, k - 1))
      ensures Unseen(syms, p, h, k - 1) && LooksUp(syms, p, k - 1, h) ==>
        (StrippedFirst(syms, p, h, k) <==> Strips(syms[k - 1]))
    {
      if StrippedFirst(syms, p, h, k - 1) {
        var i :| 0 <= i < k - 1 && LooksUp(syms, p, i, h) && Strips(syms[i]) && Unseen(syms, p, h, i);
        assert 0 <= i < k;
      }
    }

    /** An entry of symbol_map does not change once its symbol was handled. */
    lemma {:induction false} EntryStays(syms: seq<InSym>, p: Progress, j: nat, k: nat)
      requires Shaped(syms, p) && j < k <= |syms|
      ensures Turns(syms, k, p).entries[j] == Turns(syms, j + 1, p).entries[j]
      decreases k
    {
      if j + 1 < k {
        EntryStays(syms, p, j, k - 1);
      }
    }

    lemma {:induction false} EntryAhead(syms: seq<InSym>, p: Progress, k: nat, j: nat)
      requires Shaped(syms, p) && k <= j < |syms| && p.entries[j] == 0
      ensures Turns(syms, k, p).entries[j] == 0 || Turns(syms, k, p).entries[j] == -1
    {
      if k > 0 {
        EntryAhead(syms, p, k - 1, j);
      }
    }

    /** symbol_map ends up with -2 for a symbol exactly when it is looked up, its
        entry came in marked -2, and the entry was done with already or its first
        look-up in this input stripped it. */
    lemma {:induction false} EntryMarkedIff(syms: seq<InSym>, p: Progress, j: nat)
      requires Shaped(syms, p) && p.entries == Zeros(|syms|) && j < |syms|
      ensures Turns(syms, |syms|, p).entries[j] == -2 <==>
        && Looked(j, Turns(syms, j, p)) && p.hashes[j].H? && p.indx[p.hashes[j].h] == -2
        && (p.hashes[j].h in p.written || StrippedFirst(syms, p, p.hashes[j].h, j))
    {
      var q := Turns(syms, j, p);
      EntryStays(syms, p, j, |syms|);
      EntryAhead(syms, p, j, j);
      HashesAhead(syms, p, j, j);
      if p.hashes[j].H? {
        MarkAfter(syms, p, p.hashes[j].h, j);
      }
    }

    /** In particular no entry is -2 when no entry of the hash table the input names
        is marked. */
    lemma NoMarkNoMinusTwo(syms: seq<InSym>, p: Progress)
      requires Shaped(syms, p) && p.entries == Zeros(|syms|)
      requires forall j :: 0 <= j < |syms| && p.hashes[j].H? ==> p.indx[p.hashes[j].h] != -2
      ensures -2 !in Turns(syms, |syms|, p).entries
    {
      forall j | 0 <= j < |syms|
        ensures Turns(syms, |syms|, p).entries[j] != -2
      {
        EntryMarkedIff(syms, p, j);
      }
    }

    // ----- which symbols are copied --------------------------------------------------

    /** A turn on a symbol that is looked up, by the fields of the symbol: what the
        strip option spares, and of symbols without a hash entry what the discard
        option spares, is copied, an entry of the hash table once. */
    lemma TurnCopies(syms: seq<InSym>, i: nat, q: Progress)
      requires Shaped(syms, q) && i < |syms| && Looked(i, q)
      ensures var sym, h, r := syms[i], q.hashes[i], Turn(syms, i, q);
        var spared := strip == StripNone || (strip == StripDebugger && !sym.stab) || (strip == StripSome && sym.kept);
        var wanted :=
          discard == DiscardNone || sym.kind.SetSym? || (discard == DiscardL && (sym.stab || !sym.localLabel));
        && r.table == q.table + (if h.H? then (if spared && h.h !in q.written then [Global(h.h)] else [])
                                 else if spared && wanted then [Local(i)] else [])
        && (!h.H? ==> r.entries[i] == if spared && wanted then |q.table| else -1)
    {
    }

    /** A symbol without a hash entry that is looked up has a slot of its own in the
        end exactly when neither option drops it: StripDebugger drops the stabs,
        StripSome what is not kept, StripAll everything; DiscardL the local labels
        that are no stabs, DiscardAll everything but set elements. */
    lemma LocalCopiedIff(syms: seq<InSym>, p: Progress, j: nat)
      requires Shaped(syms, p) && j < |syms| && Looked(j, Turns(syms, j, p)) && !p.hashes[j].H?
      ensures var r := Turns(syms, |syms|, p);
        && (r.entries[j] != -1 <==>
              && (strip == StripDebugger ==> !syms[j].stab) && (strip == StripSome ==> syms[j].kept)
              && strip != StripAll
              && (discard == DiscardL && !syms[j].kind.SetSym? ==> syms[j].stab || !syms[j].localLabel)
              && (discard == DiscardAll ==> syms[j].kind.SetSym?))
        && (r.entries[j] != -1 ==> 0 <= r.entries[j] < |r.table| && r.table[r.entries[j]] == Local(j))
    {
      var q := Turns(syms, j, p);
      HashesAhead(syms, p, j, j);
      TurnCopies(syms, j, q);
      TurnsLater(syms, p, j, |syms|);
    }

    /** From q to r: the table grows, map entry j stays, and so do the numbers of hash
        entries that are done with. */
    ghost predicate Later(q: Progress, r: Progress, j: nat)
    {
      match q
      case Progress(written, indx, table, entries, _, _, _, _) =>
        && table <= r.table && j < |entries| == |r.entries| && r.entries[j] == entries[j] && r.indx.Keys == indx.Keys
        && forall h :: h in written && h in indx ==> h in r.written && r.indx[h] == indx[h]
    }

    lemma TurnLater(syms: seq<InSym>, i: nat, q: Progress, j: nat)
      requires Shaped(syms, q) && j < i < |syms|
      ensures Later(q, Turn(syms, i, q), j)
    {
    }

    lemma LaterJoins(q: Progress, r: Progress, s: Progress, j: nat)
      requires Later(q, r, j) && Later(r, s, j)
      ensures Later(q, s, j)
    {
    }

    /** What is behind the loop stays. */
    lemma {:induction false} TurnsLater(syms: seq<InSym>, p: Progress, j: nat, k: nat)
      requires Shaped(syms, p) && j < k <= |syms|
      ensures Later(Turns(syms, j + 1, p), Turns(syms, k, p), j)
      decreases k
    {
      if j + 1 < k {
        TurnsLater(syms, p, j, k - 1);
        TurnLater(syms, k - 1, Turns(syms, k - 1, p), j);
        LaterJoins(Turns(syms, j + 1, p), Turns(syms, k - 1, p), Turns(syms, k, p), j);
      }
    }

    /** The same for a symbol with a hash entry that is not done with. */
    lemma TurnGlobal(syms: seq<InSym>, i: nat, q: Progress, h: Hash)
      requires Shaped(syms, q) && i < |syms| && Looked(i, q) && q.hashes[i] == H(h) && h !in q.written
      ensures var r := Turn(syms, i, q);
        && h in r.written
        && if (strip == StripDebugger && syms[i].stab) || (strip == StripSome && !syms[i].kept) || strip == StripAll
           then r.entries[i] == -1 && r.indx[h] == q.indx[h]
           else r.entries[i] == r.indx[h] == |q.table| && r.table == q.table + [Global(h)]
    {
    }

    /** The first symbol to look up an entry of the hash table that is not done with
        decides: it gives the entry its slot unless it is stripped, and either way the
        entry is done with. */
    lemma HashedCopiedIff(syms: seq<InSym>, p: Progress, j: nat, h: Hash)
      requires Shaped(syms, p) && j < |syms| && Looked(j, Turns(syms, j, p)) && p.hashes[j] == H(h)
      requires h !in Turns(syms, j, p).written
      ensures var q, r := Turns(syms, j, p), Turns(syms, |syms|, p);
        && h in r.written
        && if (strip == StripDebugger && syms[j].stab) || (strip == StripSome && !syms[j].kept) || strip == StripAll
           then r.entries[j] == -1 && r.indx[h] == q.indx[h]
           else r.entries[j] == r.indx[h] == |q.table| < |r.table| && r.table[r.indx[h]] == Global(h)
    {
      HashesAhead(syms, p, j, j);
      TurnGlobal(syms, j, Turns(syms, j, p), h);
      TurnsLater(syms, p, j, |syms|);
    }

    /** With StripAll an input leaves nothing in the table. */
    lemma {:induction false} StripAllCopiesNothing(syms: seq<InSym>, p: Progress, k: nat)
      requires Shaped(syms, p) && k <= |syms| && strip == StripAll && !p.pass
      ensures Turns(syms, k, p).table == p.table && !Turns(syms, k, p).pass
    {
      if k > 0 {
        StripAllCopiesNothing(syms, p, k - 1);
      }
    }

    /** An indirect symbol that is copied brings its target, the next symbol, with it,
        unless its own chain ends in a definition: then it is written as defined, and
        the next symbol is left out. */
    lemma IndirectTarget(syms: seq<InSym>, p: Progress, j: nat, h: Hash)
      requires Shaped(syms, p) && j + 1 < |syms| && Looked(j, Turns(syms, j, p))
        && Turns(syms, j, p).entries[j + 1] == 0
      requires syms[j].kind.Indr? && !syms[j].stab && !syms[j].text.kind.BINCL? && strip == StripNone
      requires p.hashes[j] == H(h) && h !in Turns(syms, j, p).written && h in kinds && LinkOk(kinds, base, h)
      ensures var end, r := kinds[base[h]], Turns(syms, |syms|, p);
        if end.Defined? || end.Defweak? || end.Common? then r.entries[j + 1] == -1
        else 0 <= r.entries[j + 1] < |r.table| && r.table[r.entries[j + 1]] == Local(j + 1)
    {
      var i := j + 1;
      HashesAhead(syms, p, j, j);
      TurnsOnce(syms, p, j);
      TurnsOnce(syms, p, i);
      TurnsLater(syms, p, i, |syms|);
      IndirectEnds(syms, j, h, Turns(syms, j, p), Turns(syms, i, p), Turns(syms, i + 1, p), Turns(syms, |syms|, p));
    }

    lemma IndirectEnds(syms: seq<InSym>, j: nat, h: Hash, q: Progress, q1: Progress, q2: Progress, r: Progress)
      requires Shaped(syms, q) && j + 1 < |syms| && Looked(j, q) && q.entries[j + 1] == 0 && strip == StripNone
      requires syms[j].kind.Indr? && !syms[j].stab && !syms[j].text.kind.BINCL?
      requires q.hashes[j] == H(h) && h !in q.written && h in kinds && LinkOk(kinds, base, h)
      requires Shaped(syms, q1) && q1 == Turn(syms, j, q) && q2 == Turn(syms, j + 1, q1) && Later(q2, r, j + 1)
      ensures |r.entries| == |syms|
      ensures var end := kinds[base[h]];
        if end.Defined? || end.Defweak? || end.Common? then r.entries[j + 1] == -1
        else 0 <= r.entries[j + 1] < |r.table| && r.table[r.entries[j + 1]] == Local(j + 1)
    {
      TwoTurns(syms, j, h, q, q1, q2);
      TargetStays(j + 1, kinds[base[h]], q1, q2, r);
    }

    lemma TurnsOnce(syms: seq<InSym>, p: Progress, j: nat)
      requires Shaped(syms, p) && j < |syms|
      ensures Turns(syms, j + 1, p) == Turn(syms, j, Turns(syms, j, p))
    {
    }

    lemma TargetStays(i: nat, end: HashKind, q1: Progress, q2: Progress, r: Progress)
      requires i < |q2.entries| && Later(q2, r, i)
      requires if end.Defined? || end.Defweak? || end.Common? then q2.entries[i] == -1
               else q2.entries[i] == |q1.table| && q2.table == q1.table + [Local(i)]
      ensures i < |r.entries| == |q2.entries|
      ensures if end.Defined? || end.Defweak? || end.Common? then r.entries[i] == -1
              else 0 <= r.entries[i] < |r.table| && r.table[r.entries[i]] == Local(i)
    {
    }

    lemma TwoTurns(syms: seq<InSym>, j: nat, h: Hash, q: Progress, q1: Progress, q2: Progress)
      requires Shaped(syms, q) && j + 1 < |syms| && Looked(j, q) && q.entries[j + 1] == 0 && strip == StripNone
      requires syms[j].kind.Indr? && !syms[j].stab && !syms[j].text.kind.BINCL?
      requires q.hashes[j] == H(h) && h !in q.written && h in kinds && LinkOk(kinds, base, h)
      requires Shaped(syms, q1) && q1 == Turn(syms, j, q) && q2 == Turn(syms, j + 1, q1)
      ensures |q2.entries| == |syms|
      ensures var end := kinds[base[h]];
        if end.Defined? || end.Defweak? || end.Common? then q2.entries[j + 1] == -1
        else q2.entries[j + 1] == |q1.table| && q2.table == q1.table + [Local(j + 1)]
    {
      TurnIndirect(syms, j, q, h);
      TurnFlagged(syms, j + 1, q1);
    }

    /** Behind an indirect symbol that is copied one of the flags is up. */
    lemma TurnIndirect(syms: seq<InSym>, i: nat, q: Progress, h: Hash)
      requires Shaped(syms, q) && i + 1 < |syms| && Looked(i, q) && q.entries[i + 1] == 0 && strip == StripNone
      requires syms[i].kind.Indr? && !syms[i].stab && !syms[i].text.kind.BINCL?
      requires q.hashes[i] == H(h) && h !in q.written && h in kinds && LinkOk(kinds, base, h)
      ensures var end, r := kinds[base[h]], Turn(syms, i, q);
        && r.skipNext == (end.Defined? || end.Defweak? || end.Common?) && r.pass == !r.skipNext
        && r.entries[i + 1] == 0
    {
    }

    /** A symbol behind a raised flag is passed through or left out. */
    lemma TurnFlagged(syms: seq<InSym>, i: nat, q: Progress)
      requires Shaped(syms, q) && i < |syms| && q.entries[i] == 0 && (q.pass || q.skipNext)
      ensures var r := Turn(syms, i, q);
        && !r.pass && r.entries[i] == (if q.pass then |q.table| else -1)
        && r.table == q.table + if q.pass then [Local(i)] else []
    {
    }

    // ----- the headers -------------------------------------------------------------

    /** Symbols without a hash entry say they pass the next one through when they do,
        and those with one are neither indirect symbols, warnings nor headers. */
    predicate Typed(sym: InSym, h: Hash?)
    {
      var flagged := sym.kind.Indr? || sym.kind.WarningSym?;
      if h.H? then !flagged && !sym.text.kind.MAIN? && !sym.text.kind.BINCL?
      else sym.text.kind.MAIN? == flagged
    }

    /** A link that neither strips nor discards starts on such symbols. */
    ghost predicate Debugging(syms: seq<InSym>, p: Progress)
    {
      && Shaped(syms, p) && strip == StripNone && discard == DiscardNone
      && p.entries == Zeros(|syms|) && !p.pass && !p.skipNext
      && forall j :: 0 <= j < |syms| ==> Typed(syms[j], p.hashes[j])
    }

    /** Headers, marks and the pass flag are as in the search for duplicates. */
    ghost predicate AsStabs(syms: seq<InSym>, q: Progress, st: Stabs.State, k: nat)
    {
      && |q.entries| == |syms| && q.seen == st.seen && q.pass == st.pass && !q.skipNext
      && forall j :: k <= j < |syms| ==> q.entries[j] == if j in st.marks then -1 else 0
    }

    /** The loop treats the headers among all symbols as it treats them among the
        debugging symbols alone. */
    lemma {:induction false} HeadersAsStabs(syms: seq<InSym>, p: Progress, k: nat)
      requires Debugging(syms, p) && k <= |syms|
      ensures AsStabs(syms, Turns(syms, k, p), Stabs.Run(Texts(syms), 0, k, Stabs.Fresh(p.seen)), k)
    {
      if k > 0 {
        HeadersAsStabs(syms, p, k - 1);
        HashesAhead(syms, p, k - 1, k - 1);
        TurnAsStep(syms, Turns(syms, k - 1, p), Stabs.Run(Texts(syms), 0, k - 1, Stabs.Fresh(p.seen)), k - 1);
      }
    }

    lemma TurnAsStep(syms: seq<InSym>, q: Progress, st: Stabs.State, i: nat)
      requires Shaped(syms, q) && strip == StripNone && discard == DiscardNone && i < |syms|
      requires Typed(syms[i], q.hashes[i]) && AsStabs(syms, q, st, i)
      ensures AsStabs(syms, Turn(syms, i, q), Stabs.Step(Texts(syms), i, st), i + 1)
    {
      var sym, h := syms[i], q.hashes[i];
      if q.entries[i] != -1 && !q.pass {
        FlagsAsStep(sym, h, i, q);
        if sym.text.kind.BINCL? {
          MarksAsStep(Texts(syms), q.entries, st, i, HeaderKey(Texts(syms), i) in q.seen);
        }
      }
    }

    /** The flags behind a symbol that is looked at. */
    lemma FlagsAsStep(sym: InSym, h: Hash?, i: nat, q: Progress)
      requires strip == StripNone && discard == DiscardNone && Typed(sym, h) && (h.H? ==> h.h in q.indx)
      requires !q.pass && !q.skipNext
      ensures var f := FateOf(sym, h, i, q);
        f.pass == sym.text.kind.MAIN? && !f.skipNext && (!h.H? ==> f.made != [] && f.entry == |q.table|)
    {
    }

    /** symbol_map behind a header. */
    lemma MarksAsStep(texts: seq<Stabs.Stab>, entries: seq<int>, st: Stabs.State, i: nat, dup: bool)
      requires i < |texts| == |entries|
      requires forall j :: i <= j < |entries| ==> entries[j] == if j in st.marks then -1 else 0
      ensures var marks := if dup then st.marks + Stabs.MarkSet(texts, i + 1, 0) else st.marks;
        forall j :: i < j < |entries| ==> AfterHeader(texts, i, dup, entries)[j] == if j in marks then -1 else 0
    {
    }

    /** A symbol without a hash entry is not copied exactly when a duplicate header
        drops it. */
    lemma DroppedIff(syms: seq<InSym>, p: Progress, j: nat)
      requires Debugging(syms, p) && j < |syms| && !p.hashes[j].H?
      ensures Turns(syms, |syms|, p).entries[j] == -1
        <==> j in Stabs.Run(Texts(syms), 0, j, Stabs.Fresh(p.seen)).marks
    {
      HeadersAsStabs(syms, p, j);
      EntryStays(syms, p, j, |syms|);
      HashesAhead(syms, p, j, j);
      var q := Turns(syms, j, p);
      if q.entries[j] != -1 && !q.pass {
        FlagsAsStep(syms[j], p.hashes[j], j, q);
      }
    }

    /** So the table of headers after an input is that of its deduplication. */
    lemma HeadersDeduped(syms: seq<InSym>, p: Progress, f: Stabs.Forest)
      requires Debugging(syms, p) && Stabs.Shows(Texts(syms), 0, f) && |syms| == Stabs.Size(f)
      ensures Turns(syms, |syms|, p).seen == Stabs.Dedup(f, p.seen, false, false).seen
    {
      HeadersAsStabs(syms, p, |syms|);
      Stabs.OutputIsDedup(Texts(syms), f, p.seen);
    }

    // ----- the loop ----------------------------------------------------------------

    method WriteHashed(sym: InSym, h: Hash, i: nat, ghost p: Progress)
      returns (pass: bool, skipNext: bool, entry: int, made: seq<Slot>)
      requires Sound() && h in kinds && p.written == written && p.indx == indx && p.table == table
      modifies this`indx, this`symCount, this`table, this`written
      ensures Sound() && table == old(table) + made && MapOk(table, entry, i, H(h))
      ensures Fate(pass, skipNext, entry, made) == HashedFate(sym, h, p)
      ensures written == old(written) + {h} && indx == if made != [] then old(indx)[h := |old(table)|] else old(indx)
    {
      pass, skipNext, entry, made := false, false, -1, [];
      assert HashOk(h);
      if h in written {
        skipNext := sym.kind.Indr? || sym.kind.WarningSym?;
        entry := indx[h];
        assert written + {h} == written;
        return;
      }
      written := written + {h};
      StillConsistent();
      assert forall x :: x in old(written) ==> old(NotLost(x));
      if Strips(sym) {
        return;
      }
      if !sym.kind.InSection? {
        if PassesNext(sym, H(h)) {
          pass := true;
        } else if sym.kind.Indr? && !sym.stab {
          skipNext := true;
        }
      }
      entry := symCount;
      Make(Global(h));
      made := [Global(h)];
    }

    method WriteLocal(sym: InSym, i: nat, ghost p: Progress)
      returns (pass: bool, skipNext: bool, entry: int, made: seq<Slot>)
      requires Sound() && p.table == table
      modifies this`indx, this`symCount, this`table
      ensures Sound() && table == old(table) + made && MapOk(table, entry, i, NoHash) && indx == old(indx)
      ensures Fate(pass, skipNext, entry, made) == LocalFate(sym, i, p)
    {
      pass, skipNext, entry, made := false, false, -1, [];
      if Strips(sym) {
        return;
      }
      if !sym.kind.InSection? {
        if PassesNext(sym, NoHash) {
          pass := true;
        } else if sym.kind.Indr? && !sym.stab {
          skipNext := true;
        }
      }
      if Discards(sym) {
        pass := false;
        return;
      }
      entry := symCount;
      Make(Local(i));
      made := [Local(i)];
    }

    /** A symbol that was not dropped: passed through, skipped, or looked at. */
    method WriteOne(sym: InSym, h: Hash?, i: nat, ghost p: Progress, pass0: bool, skipNext0: bool)
      returns (pass: bool, skipNext: bool, entry: int, made: seq<Slot>)
      requires Sound() && (h.H? ==> h.h in kinds) && p.written == written && p.indx == indx && p.table == table
      requires p.pass == pass0 && p.skipNext == skipNext0
      modifies this`indx, this`symCount, this`table, this`written
      ensures Sound() && table == old(table) + made && MapOk(table, entry, i, h)
      ensures Fate(pass, skipNext, entry, made) == FateOf(sym, h, i, p)
      ensures var looked := !pass0 && !skipNext0;
        && written == (if looked && h.H? then old(written) + {h.h} else old(written))
        && indx == if looked && h.H? && made != [] then old(indx)[h.h := |old(table)|] else old(indx)
    {
      pass, skipNext, entry, made := pass0, skipNext0, -1, [];
      if pass {
        pass := false;
        entry := symCount;
        Make(Local(i));
        made := [Local(i)];
      } else if skipNext {
        skipNext := false;
      } else if h.H? {
        pass, skipNext, entry, made := WriteHashed(sym, h.h, i, p);
      } else {
        pass, skipNext, entry, made := WriteLocal(sym, i, p);
      }
    }

    /** Where the loop stands. */
    ghost function Here(symHashes: array<Hash?>, symbolMap: array<int>, pass: bool, skipNext: bool,
                        seen: set<Stabs.Key>): Progress
      reads this, symHashes, symbolMap
    {
      Progress(written, indx, table, symbolMap[..], symHashes[..], pass, skipNext, seen)
    }

    /** One turn of the loop. */
    method WriteSymbol(syms: seq<InSym>, ghost hashes: seq<Hash?>, symHashes: array<Hash?>,
                       symbolMap: array<int>, i: nat,
                       ghost p: Progress, pass0: bool, skipNext0: bool, seen0: set<Stabs.Key>)
      returns (pass: bool, skipNext: bool, seen: set<Stabs.Key>, made: seq<Slot>)
      requires Sound() && Halfway(syms, hashes, symHashes, symbolMap, i) && i < |syms|
      requires Shaped(syms, p) && Here(symHashes, symbolMap, pass0, skipNext0, seen0) == p
      modifies this`indx, this`symCount, this`table, this`written, symHashes, symbolMap
      ensures Sound() && Halfway(syms, hashes, symHashes, symbolMap, i + 1)
      ensures table == old(table) + made
      ensures Here(symHashes, symbolMap, pass, skipNext, seen) == Turn(syms, i, p)
    {
      pass, skipNext, seen, made := pass0, skipNext0, seen0, [];
      if symbolMap[i] == -1 {
        return;
      }
      var sym, h := syms[i], symHashes[i];
      var entry;
      pass, skipNext, entry, made := WriteOne(sym, h, i, p, pass0, skipNext0);
      ghost var entries := symbolMap[..];
      forall j | 0 <= j < i
        ensures MapOk(table, entries[j], j, hashes[j])
      {
        MapOkGrows(old(table), table, symbolMap[j], j, hashes[j]);
      }
      seen := PutEntry(Texts(syms), h, symHashes, symbolMap, i, !pass0 && !skipNext0, made, entry, seen0);
      forall j | 0 <= j <= i
        ensures MapOk(table, symbolMap[j], j, hashes[j])
      {
        assert symbolMap[..][j] == if j == i then entry else entries[j];
      }
      assert forall j :: 0 <= j < |hashes| ==> symHashes[..][j] == symHashes[j];
    }

    /** The hash entry resolved, a header looked up and its symbols marked if it is a
        duplicate, and the map entry set. */
    method PutEntry(texts: seq<Stabs.Stab>, h: Hash?, symHashes: array<Hash?>, symbolMap: array<int>, i: nat,
                    looked: bool, made: seq<Slot>, entry: int, seen0: set<Stabs.Key>)
      returns (seen: set<Stabs.Key>)
      requires i < symHashes.Length == symbolMap.Length == |texts| && h == symHashes[i] && (h.H? ==> h.h in kinds)
      modifies symHashes, symbolMap
      ensures symHashes[..] == if looked then old(symHashes[..])[i := Resolved(h)] else old(symHashes[..])
      ensures var header := looked && made != [] && texts[i].kind.BINCL?; var key := HeaderKey(texts, i);
        && symbolMap[..] == AfterHeader(texts, i, header && key in seen0, old(symbolMap[..]))[i := entry]
        && seen == if header then seen0 + {key} else seen0
    {
      seen := seen0;
      if looked {
        Resolve(symHashes, i);
        if made != [] && texts[i].kind.BINCL? {
          seen := LookUpHeader(texts, symbolMap, i, seen0);
        }
      }
      symbolMap[i] := entry;
    }

    /** The N_BINCL part: the checksum, the look-up, the marks. */
    method LookUpHeader(texts: seq<Stabs.Stab>, symbolMap: array<int>, i: nat, seen0: set<Stabs.Key>)
      returns (seen: set<Stabs.Key>)
      requires i < symbolMap.Length == |texts|
      modifies symbolMap
      ensures seen == seen0 + {HeaderKey(texts, i)}
      ensures symbolMap[..] == AfterHeader(texts, i, HeaderKey(texts, i) in seen0, old(symbolMap[..]))
    {
      var val := Stabs.HeaderSum(texts, i + 1);
      var key := Stabs.Key(texts[i].name, val);
      seen := seen0 + {key};
      if key in seen0 {
        Stabs.MarksAhead(texts, i + 1, 0);
        Stabs.MarkHeader(texts, i + 1, symbolMap);
      }
    }

    /** *sym_hash is moved to the base of its chain. */
    method Resolve(symHashes: array<Hash?>, i: nat)
      requires i < symHashes.Length && (symHashes[i].H? ==> symHashes[i].h in kinds)
      modifies symHashes
      ensures symHashes[..] == old(symHashes[..])[i := Resolved(old(symHashes[i]))]
    {
      var h := symHashes[i];
      if h.H? && (kinds[h.h].Indirect? || kinds[h.h].Warning?) {
        symHashes[i] := H(Base(h.h));
      }
    }

    /** Entries made before stay right while the table grows. */
    lemma {:induction false} MapOkGrows(t: seq<Slot>, u: seq<Slot>, entry: int, i: nat, h: Hash?)
      requires MapOk(t, entry, i, h) && t <= u
      ensures MapOk(u, entry, i, h)
    {
    }

    /** The loop over the input's symbols; `buf` collects the entries made. */
    method WriteEach(syms: seq<InSym>, ghost hashes: seq<Hash?>, symHashes: array<Hash?>, symbolMap: array<int>,
                     ghost before: seq<Slot>, first: seq<Slot>, seen0: set<Stabs.Key>)
      returns (buf: seq<Slot>, seen: set<Stabs.Key>)
      requires symHashes.Length == symbolMap.Length == |syms| == |hashes|
      requires Sound() && Halfway(syms, hashes, symHashes, symbolMap, 0) && flushed == |before|
        && table == before + first
      requires Shaped(syms, Here(symHashes, symbolMap, false, false, seen0))
      modifies this`indx, this`symCount, this`table, this`written, symHashes, symbolMap
      ensures Sound() && Halfway(syms, hashes, symHashes, symbolMap, |syms|)
      ensures table == before + buf
      ensures var r := Turns(syms, |syms|, old(Here(symHashes, symbolMap, false, false, seen0)));
        Here(symHashes, symbolMap, r.pass, r.skipNext, seen) == r
    {
      ghost var p := Here(symHashes, symbolMap, false, false, seen0);
      buf, seen := first, seen0;
      var pass, skipNext, i := false, false, 0;
      while i < |syms|
        invariant i <= |syms| && Reached(syms, hashes, symHashes, symbolMap, p, i, pass, skipNext, seen)
        invariant flushed == |before| && table == before + buf
      {
        pass, skipNext, seen, buf :=
          WriteTurn(syms, hashes, symHashes, symbolMap, p, i, pass, skipNext, seen, before, buf);
        i := i + 1;
      }
    }

    /** The loop has come to symbol i, having started at p. */
    ghost predicate Reached(syms: seq<InSym>, hashes: seq<Hash?>, symHashes: array<Hash?>, symbolMap: array<int>,
                            p: Progress, i: nat, pass: bool, skipNext: bool, seen: set<Stabs.Key>)
      requires Shaped(syms, p) && i <= |syms|
      reads this, symHashes, symbolMap
    {
      match p
      case Progress(_, _, _, _, _, _, _, _) =>
        && Sound() && Halfway(syms, hashes, symHashes, symbolMap, i)
        && Here(symHashes, symbolMap, pass, skipNext, seen) == Turns(syms, i, p)
    }

    method WriteTurn(syms: seq<InSym>, ghost hashes: seq<Hash?>, symHashes: array<Hash?>, symbolMap: array<int>,
                     ghost p: Progress, i: nat, pass0: bool, skipNext0: bool, seen0: set<Stabs.Key>,
                     ghost before: seq<Slot>, buf0: seq<Slot>)
      returns (pass: bool, skipNext: bool, seen: set<Stabs.Key>, buf: seq<Slot>)
      requires Shaped(syms, p) && i < |syms|
      requires Reached(syms, hashes, symHashes, symbolMap, p, i, pass0, skipNext0, seen0)
      requires table == before + buf0
      modifies this`indx, this`symCount, this`table, this`written, symHashes, symbolMap
      ensures Reached(syms, hashes, symHashes, symbolMap, p, i + 1, pass, skipNext, seen) && table == before + buf
    {
      ghost var q := Turns(syms, i, p);
      var made;
      pass, skipNext, seen, made := WriteSymbol(syms, hashes, symHashes, symbolMap, i, q, pass0, skipNext0, seen0);
      assert Turn(syms, i, q) == Turns(syms, i + 1, p);
      buf := Joined(before, buf0, made);
    }

    method Joined(ghost before: seq<Slot>, buf0: seq<Slot>, made: seq<Slot>) returns (buf: seq<Slot>)
      ensures buf == buf0 + made && before + buf0 + made == before + buf
    {
      buf := buf0 + made;
    }

    /** aout_link_write_symbols: the name of the file, then its symbols. */
    method WriteSymbols(syms: seq<InSym>, symHashes: array<Hash?>, symbolMap: array<int>, nameKept: bool,
                        seen0: set<Stabs.Key>)
      returns (seen: set<Stabs.Key>)
      requires Valid() && symHashes.Length == symbolMap.Length == |syms|
      requires forall j :: 0 <= j < |syms| && symHashes[j].H? ==> symHashes[j].h in kinds
      modifies this`indx, this`symCount, this`symoff, this`file, this`table, this`flushed, this`written,
        symHashes, symbolMap
      ensures Valid() && Halfway(syms, old(symHashes[..]), symHashes, symbolMap, |syms|)
      ensures var p := Begin(|syms|, old(symHashes[..]), nameKept, old(written), old(indx), old(table), seen0);
        Shaped(syms, p) &&
        var r := Turns(syms, |syms|, p);
        Here(symHashes, symbolMap, r.pass, r.skipNext, seen) == r
      ensures old(table) <= table && |table| <= |old(table)| + |syms| + 1
      ensures strip == StripAll ==> table == old(table)
      ensures strip != StripAll && discard != DiscardAll && (strip == StripSome ==> nameKept) ==>
        |table| > |old(table)| && table[|old(table)|] == FileName
    {
      ghost var hashes := symHashes[..];
      ghost var p := Begin(|syms|, hashes, nameKept, written, indx, table, seen0);
      var first := WriteName(nameKept, |syms|, symHashes, symbolMap, seen0);
      var buf;
      buf, seen := WriteEach(syms, hashes, symHashes, symbolMap, old(table), first, seen0);
      TurnsGrow(syms, |syms|, p);
      NameComesFirst(syms, p, old(table), nameKept);
      WriteBuffer(buf, syms, hashes, symHashes, symbolMap);
    }

    lemma NameComesFirst(syms: seq<InSym>, p: Progress, before: seq<Slot>, nameKept: bool)
      requires Shaped(syms, p) && !p.pass && p.table == before + NameSlot(nameKept)
      ensures var t := Turns(syms, |syms|, p).table;
        && (strip == StripAll ==> t == before)
        && (strip != StripAll && discard != DiscardAll && (strip == StripSome ==> nameKept) ==>
              |t| > |before| && t[|before|] == FileName)
    {
      TurnsGrow(syms, |syms|, p);
      if strip == StripAll {
        StripAllCopiesNothing(syms, p, |syms|);
      }
    }

    /** The symbol for the file itself, and symbol_map cleared. */
    method WriteName(nameKept: bool, n: nat, symHashes: array<Hash?>, symbolMap: array<int>, ghost seen: set<Stabs.Key>)
      returns (buf: seq<Slot>)
      requires Valid() && symbolMap.Length == n
      modifies this`indx, this`symCount, this`table, symbolMap
      ensures Sound() && buf == NameSlot(nameKept) && table == old(table) + buf
      ensures Here(symHashes, symbolMap, false, false, seen)
           == Begin(n, old(symHashes[..]), nameKept, old(written), old(indx), old(table), seen)
    {
      buf := [];
      if strip != StripAll && (strip != StripSome || nameKept) && discard != DiscardAll {
        Make(FileName);
        buf := [FileName];
      }
      forall j | 0 <= j < n {
        symbolMap[j] := 0;
      }
      assert symbolMap[..] == Zeros(n);
      assert forall h :: h in written ==> old(NotLost(h));
      assert table == old(table) + buf;
    }

    /** The buffered symbols go to the file. */
    method WriteBuffer(buf: seq<Slot>, ghost syms: seq<InSym>, ghost hashes: seq<Hash?>, ghost symHashes: array<Hash?>,
                       ghost symbolMap: array<int>)
      requires Sound() && flushed + |buf| == |table| && buf == table[flushed..]
      requires Halfway(syms, hashes, symHashes, symbolMap, |syms|)
      modifies this`symoff, this`file, this`flushed
      ensures Valid() && Halfway(syms, hashes, symHashes, symbolMap, |syms|)
    {
      if buf != [] {
        Flush(buf);
      }
      assert forall h :: h in written ==> old(NotLost(h));
      assert forall j :: 0 <= j < |syms| ==> old(MapOk(table, symbolMap[j], j, hashes[j]));
    }

    // ----- relocations against symbols ---------------------------------------------

    /** What an external relocation becomes in a relocatable link.  Against a
        defined symbol it turns section-relative; otherwise it gets the slot of its
        symbol, which is forced out if it has none.  Without a hash entry a symbol
        that was not copied leaves the relocation unattached, with index 0. */
    method RelocIndex(i: nat, ghost hashes: seq<Hash?>, symHashes: array<Hash?>, symbolMap: array<int>)
      returns (ok: bool, index: int, sectionRelative: bool)
      requires Valid() && i < |hashes| == symHashes.Length == symbolMap.Length
      requires MapOk(table, symbolMap[i], i, hashes[i]) && (symHashes[i].H? ==> symHashes[i].h in kinds)
      requires hashes[i].H? <==> symHashes[i].H?
      modifies this`indx, this`symCount, this`symoff, this`file, this`table, this`flushed, this`written
      ensures ok ==> Valid()
      ensures old(table) <= table
      ensures sectionRelative <==> symHashes[i].H? && (kinds[symHashes[i].h].Defined? || kinds[symHashes[i].h].Defweak?)
      ensures sectionRelative || !symHashes[i].H? || symbolMap[i] != -1 ==>
        ok && table == old(table) && indx == old(indx) && written == old(written)
      ensures !symHashes[i].H? ==> index == if symbolMap[i] == -1 then 0 else symbolMap[i]
      ensures symHashes[i].H? && !sectionRelative && symbolMap[i] != -1 ==> index == symbolMap[i]
      ensures symHashes[i].H? && !sectionRelative && symbolMap[i] == -1 ==>
        var h := symHashes[i].h;
        && (ok ==> index == indx[h])
        && (!Unwritable(kinds[h]) ==> ok && 0 <= index < |table| && table[index] == Global(h))
        && (old(indx[h]) < 0 && (kinds[h].New? || kinds[h].Indirect?) ==>
              ok && table == old(table) && indx == old(indx)[h := -2] && written == old(written) + {h})
      ensures ok && !sectionRelative && index >= 0 && (symHashes[i].H? || symbolMap[i] != -1) ==>
        && index < |table|
        && (table[index] == Local(i) || table[index] == Global(hashes[i].h) || table[index] == Global(symHashes[i].h))
    {
      ok, sectionRelative, index := true, false, 0;
      var h := symHashes[i];
      if h.H? && (kinds[h.h].Defined? || kinds[h.h].Defweak?) {
        sectionRelative := true;
        return;
      }
      index := symbolMap[i];
      if index == -1 {
        if h.H? {
          assert HashOk(h.h);
          ok, index := Force(h.h);
          assert ok ==> HashOk(h.h);
        } else {
          index := 0;   // unattached_reloc
        }
      }
    }
  }

  const TARGET_KINDS: map<Hash, HashKind> := map[0 := Indirect(1), 1 := Indirect(2), 2 := Defined]
  const TARGET_BASE: map<Hash, Hash> := map[0 := 2, 1 := 2, 2 := 2]
  const NO_STAB: Stabs.Stab := Stabs.Stab(Stabs.PLAIN, [], 0)
  const INDIRECT_THEN_TARGET: seq<InSym> :=
    [InSym(Indr, false, true, false, NO_STAB), InSym(OtherSym, false, true, false, NO_STAB)]
  const TARGET: seq<InSym> := [InSym(OtherSym, false, true, false, NO_STAB)]

  /** Behind an indirect symbol written with its definition the target is skipped:
      it is not copied, and its hash entry not resolved. */
  lemma TargetSkipped(l: FinalLink, p: Progress)
    requires l.kinds == TARGET_KINDS && l.base == TARGET_BASE && l.strip == StripNone && l.discard == DiscardNone
    requires l.Shaped(INDIRECT_THEN_TARGET, p) && p.entries == Zeros(2) && p.hashes == [H(0), H(1)]
    requires p.written == {} && !p.pass && !p.skipNext
    ensures l.Turns(INDIRECT_THEN_TARGET, 2, p).entries[1] == -1
      && l.Turns(INDIRECT_THEN_TARGET, 2, p).hashes[1] == H(1)
    ensures 1 !in l.Turns(INDIRECT_THEN_TARGET, 2, p).written
    ensures l.Turns(INDIRECT_THEN_TARGET, 2, p).indx[1] == p.indx[1]
  {
    var syms := INDIRECT_THEN_TARGET;
    assert l.Turns(syms, 0, p) == p;
    var q := l.Turn(syms, 0, p);
    assert l.Turns(syms, 1, p) == q;
    assert q.skipNext && !q.pass && q.entries[1] == 0 && q.hashes[1] == H(1);
    assert l.Turns(syms, 2, p) == l.Turn(syms, 1, q);
  }

  lemma MarkCopied(l: FinalLink, p: Progress)
    requires l.kinds == TARGET_KINDS && l.Shaped(TARGET, p) && p.entries == Zeros(1) && p.hashes == [H(1)]
    requires 1 in p.written && p.indx[1] == -2 && !p.pass && !p.skipNext
    ensures l.Turns(TARGET, 1, p).entries[0] == -2
  {
    assert l.Turns(TARGET, 0, p) == p;
  }

  /** A run that leaves -2 in symbol_map.  Symbol 0 is indirect to 1, which is
      indirect to 2, which is defined.  In the first input the second symbol is the
      target of the indirect one and skipped, so its hash entry is not resolved; a
      relocation forces that entry, which is itself indirect; the next input names
      it. */
  method MarkReached() returns (entry: int)
    ensures entry == -2
  {
    assert LinkOk(TARGET_KINDS, TARGET_BASE, 0) && LinkOk(TARGET_KINDS, TARGET_BASE, 1)
        && LinkOk(TARGET_KINDS, TARGET_BASE, 2);
    var l := new FinalLink(TARGET_KINDS, TARGET_BASE, StripNone, DiscardNone, {}, 0);
    ForceTarget(l);
    entry := NameTarget(l);
  }

  method ForceTarget(l: FinalLink)
    requires l.Valid() && l.kinds == TARGET_KINDS && l.base == TARGET_BASE && l.written == {} && l.indx[1] == -1
    requires l.strip == StripNone && l.discard == DiscardNone
    modifies l
    ensures l.Valid() && 1 in l.written && l.indx[1] == -2
  {
    var hashes := new Hash?[2](k => if k == 0 then H(0) else H(1));
    var symbolMap := new int[2](_ => 0);
    WriteTarget(l, hashes, symbolMap);
    RelocTarget(l, hashes, symbolMap);
  }

  method WriteTarget(l: FinalLink, hashes: array<Hash?>, symbolMap: array<int>)
    requires l.Valid() && l.kinds == TARGET_KINDS && l.base == TARGET_BASE && l.written == {} && l.indx[1] == -1
    requires l.strip == StripNone && l.discard == DiscardNone
    requires hashes.Length == symbolMap.Length == 2 && hashes[0] == H(0) && hashes[1] == H(1)
    modifies l, hashes, symbolMap
    ensures l.Valid() && symbolMap[1] == -1 && hashes[1] == H(1) && l.indx[1] == -1
  {
    ghost var was := hashes[..];
    assert was == [H(0), H(1)];
    ghost var p := l.Begin(2, was, true, l.written, l.indx, l.table, {});
    var seen := l.WriteSymbols(INDIRECT_THEN_TARGET, hashes, symbolMap, true, {});
    TargetSkipped(l, p);
    assert symbolMap[..][1] == -1 && hashes[..][1] == H(1);
  }

  method RelocTarget(l: FinalLink, hashes: array<Hash?>, symbolMap: array<int>)
    requires l.Valid() && l.kinds == TARGET_KINDS && l.indx[1] == -1
    requires hashes.Length == symbolMap.Length == 2 && symbolMap[1] == -1 && hashes[1] == H(1)
    modifies l
    ensures l.Valid() && 1 in l.written && l.indx[1] == -2
  {
    var ok, index, sectionRelative := l.RelocIndex(1, [H(0), H(1)], hashes, symbolMap);
  }

  method NameTarget(l: FinalLink) returns (entry: int)
    requires l.Valid() && l.kinds == TARGET_KINDS && l.base == TARGET_BASE && 1 in l.written && l.indx[1] == -2
    modifies l
    ensures entry == -2
  {
    var hashes := new Hash?[1](_ => H(1));
    var symbolMap := new int[1](_ => 0);
    assert hashes[..] == [H(1)];
    ghost var p := l.Begin(1, hashes[..], true, l.written, l.indx, l.table, {});
    var seen := l.WriteSymbols(TARGET, hashes, symbolMap, true, {});
    MarkCopied(l, p);
    entry := symbolMap[0];
    assert entry == symbolMap[..][0];
  }
}
