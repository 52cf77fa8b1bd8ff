/** The ARC GOT: slots and relocation space are reserved while relocations are
    scanned and used up while the output is written (binutils/bfd/arc-got.h). */
module GotAllocator {
  import opened Octets

  datatype TlsType = Unknown | Normal | TlsGd | TlsIe | TlsLe

  datatype Existing = NoneYet | Mod | Off | ModAndOff

  /** struct got_entry; a symbol's chain of entries is a sequence. */
  datatype Entry = Entry(kind: TlsType, offset: nat, processed: bool, created: bool, existing: Existing)

  /** The fields of an elf_link_hash_entry the allocator looks at.  A symbol of a
      `plugin` is never made dynamic; a `hidden` one is made local, and stays out of
      the dynamic symbols unless it is `exported` from a relocatable executable. */
  datatype HashSym = HashSym(dynindx: int, forcedLocal: bool, plugin: bool, hidden: bool, exported: bool,
                             defRegular: bool, undefWeak: bool)

  /** A symbol that need not be recorded any more. */
  predicate Known(h: HashSym) { h.plugin || h.forcedLocal || h.dynindx != -1 }

  /** A symbol once recorded as dynamic, `index` being the next free index. */
  function Recorded(h: HashSym, index: nat): HashSym
  {
    if h.dynindx != -1 || h.plugin then h
    else
      var local := h.(forcedLocal := h.forcedLocal || h.hidden);
      if h.hidden && !h.exported then local else local.(dynindx := index)
  }

  type Sym = nat

  /** Who a slot or a relocation belongs to. */
  datatype Key = Key(sym: Sym, kind: TlsType)

  datatype RelaKind = Relative | GlobDat | DtpMod | DtpOff | TpOff

  datatype Rela = Rela(offset: nat, symIndex: int, kind: RelaKind, addend: nat)

  // ----- what the dynamic linker does with a slot ------------------------------

  const WORD: nat := 0x1_0000_0000

  predicate Same(a: int, b: int) { a % WORD == b % WORD }

  /** TCB_SIZE: the thread pointer points at this many bytes before any block. */
  const TCB: nat := 8

  function Pow2(n: nat): (r: nat)
    ensures r > 0
  {
    if n == 0 then 1 else 2 * Pow2(n - 1)
  }

  /** align_power: the next multiple of two to the power given. */
  function AlignPower(v: nat, power: nat): (r: nat)
    ensures v <= r < v + Pow2(power) && r % Pow2(power) == 0
  {
    var unit := Pow2(power);
    var up := v + unit - 1;
    MultipleOf(up / unit, unit);
    up / unit * unit
  }

  lemma {:induction false} MultipleOf(q: nat, unit: nat)
    requires unit > 0
    ensures q * unit % unit == 0
  {
    var x := q * unit;
    var d := q - x / unit;
    assert x == x / unit * unit + x % unit;
    assert d * unit == x % unit;
    NoMultiple(d, unit);
  }

  lemma {:induction false} NoMultiple(d: int, unit: nat)
    ensures d > 0 ==> d * unit >= unit
    ensures d < 0 ==> d * unit + unit <= 0
  {
    if d > 0 {
      assert d * unit == (d - 1) * unit + unit;
      AtLeast(d - 1, unit);
    } else if d < 0 {
      assert d * unit == -((-d - 1) * unit) - unit;
      AtLeast(-d - 1, unit);
    }
  }

  lemma {:induction false} AtLeast(n: nat, unit: nat)
    ensures n * unit >= 0
  {
  }

  /** Where the linker puts a symbol, and where its thread-local section starts. */
  datatype Home = Home(address: int, tlsBase: int)

  /** What a program may ask of a symbol while it runs: its address, or the number
      of its module, its offset there, and its offset from the thread pointer. */
  datatype Found = Found(address: int, mod: int, offset: int, thread: int)

  /** A loaded module: how far it was moved, its number, where its thread-local
      block starts counted from the thread pointer, and what the dynamic linker
      binds the entries of the dynamic symbol table to. */
  datatype Loaded = Loaded(shift: int, mod: int, block: int, bound: map<int, Found>)

  /** Index 0 stands for the module itself. */
  function Lookup(m: Loaded, index: int): Found
  {
    if index == 0 then Found(0, m.mod, 0, m.block)
    else if index in m.bound then m.bound[index]
    else Found(0, 0, 0, 0)
  }

  /** What a symbol defined in the module itself is found to be. */
  function Here(m: Loaded, home: Home): Found
  {
    var offset := home.address - home.tlsBase;
    Found(home.address + m.shift, m.mod, offset, m.block + offset)
  }

  /** One relocation applied to the word of its slot. */
  function Apply(m: Loaded, r: Rela, word: int): int
  {
    match r.kind
    case Relative => word + m.shift
    case GlobDat => Lookup(m, r.symIndex).address
    case DtpMod => Lookup(m, r.symIndex).mod
    case DtpOff => word + Lookup(m, r.symIndex).offset
    case TpOff => Lookup(m, r.symIndex).thread + r.addend
  }

  /** The word of the slot at `at` once all relocations have been applied. */
  function AtRun(m: Loaded, relocs: seq<Rela>, at: nat, word: int): int
  {
    if relocs == [] then word
    else
      var r, before := relocs[|relocs| - 1], AtRun(m, relocs[..|relocs| - 1], at, word);
      if r.offset == at then Apply(m, r, before) else before
  }

  lemma {:induction false} AtRunJoin(m: Loaded, a: seq<Rela>, b: seq<Rela>, at: nat, word: int)
    ensures AtRun(m, a + b, at, word) == AtRun(m, b, at, AtRun(m, a, at, word))
  {
    if b == [] {
      assert a + b == a;
    } else {
      assert (a + b)[..|a + b| - 1] == a + b[..|b| - 1];
      AtRunJoin(m, a, b[..|b| - 1], at, word);
    }
  }

  predicate NoneAt(relocs: seq<Rela>, at: nat) { forall j :: 0 <= j < |relocs| ==> relocs[j].offset != at }

  lemma {:induction false} AtRunNone(m: Loaded, relocs: seq<Rela>, at: nat, word: int)
    requires NoneAt(relocs, at)
    ensures AtRun(m, relocs, at, word) == word
  {
    if relocs != [] {
      AtRunNone(m, relocs[..|relocs| - 1], at, word);
    }
  }

  lemma AtRunOne(m: Loaded, before: seq<Rela>, r: Rela, at: nat, word: int)
    requires NoneAt(before, at)
    ensures AtRun(m, before + [r], at, word) == if r.offset == at then Apply(m, r, word) else word
  {
    assert (before + [r])[..|before|] == before;
    AtRunNone(m, before, at, word);
  }

  lemma SameShift(a: int, b: int, c: int)
    ensures Same(a, b) <==> Same(a + c, b + c)
  {
  }

  /** A value cut to a word, then moved, is right; added to itself, only if zero. */
  lemma CutWord(v: int, w: nat, c: int)
    requires w == v % WORD
    ensures Same(w + c, v + c)
    ensures Same(c + w, c) <==> Same(v, 0)
  {
    assert Same(w, v);
    SameShift(w, v, c);
    SameShift(w, 0, c);
  }

  function Slots(t: TlsType): nat
  {
    match t
    case Unknown => 0
    case TlsGd => 2
    case _ => 1
  }

  function ExistingFor(t: TlsType): Existing
  {
    match t
    case TlsGd => ModAndOff
    case TlsIe => Off
    case TlsLe => Off
    case _ => NoneYet
  }

  /** got_entry_for_type */
  method EntryForType(list: seq<Entry>, t: TlsType) returns (at: Option<nat>)
    ensures at.None? ==> forall i :: 0 <= i < |list| ==> list[i].kind != t
    ensures at.Some? ==>
      at.value < |list| && list[at.value].kind == t && forall i :: 0 <= i < at.value ==> list[i].kind != t
  {
    var p := 0;
    while p < |list|
      invariant p <= |list|
      invariant forall i :: 0 <= i < p ==> list[i].kind != t
    {
      if list[p].kind == t {
        return Some(p);
      }
      p := p + 1;
    }
    return None;
  }

  /** new_got_entry_to_list */
  method NewEntryToList(list: seq<Entry>, t: TlsType, offset: nat, existing: Existing) returns (r: seq<Entry>)
    ensures (exists i :: 0 <= i < |list| && list[i].kind == t) ==> r == list
    ensures (forall i :: 0 <= i < |list| ==> list[i].kind != t) ==>
      r == list + [Entry(t, offset, false, false, existing)]
  {
    var at := EntryForType(list, t);
    r := if at.Some? then list else list + [Entry(t, offset, false, false, existing)];
  }

  /** The same entries but for their flags, none of them handled less. */
  ghost predicate SameShape(a: seq<Entry>, b: seq<Entry>)
  {
    && |a| == |b|
    && forall i :: 0 <= i < |a| ==>
         b[i] == a[i].(processed := b[i].processed, created := b[i].created) && (a[i].created ==> b[i].created)
  }

  lemma SubMultisetSize(a: multiset<Key>, b: multiset<Key>)
    requires a <= b
    ensures |a| <= |b|
  {
    assert b == a + (b - a);
  }

  class Got {
    const pic: bool
    const symbolic: bool
    const dynamic: bool
    const endian: Endian
    const base: nat              // the size of .got before the first request
    var gotSize: nat
    var relSize: nat
    var lists: map<Sym, seq<Entry>>
    var globals: map<Sym, HashSym>
    var relocs: seq<Rela>
    var contents: array<Byte>
    ghost var slots: seq<Key>          // the owner of every slot allocated
    ghost var reserved: multiset<Key>  // the owner of every relocation reserved
    ghost var emitted: seq<Key>        // the owner of every relocation written

    function List(s: Sym): seq<Entry>
      reads this
    {
      if s in lists then lists[s] else []
    }

    /** The number of the entry's first slot. */
    ghost function First(e: Entry): int
      reads this
    {
      (e.offset - base) / 4
    }

    /** How many relocations an entry may still ask for. */
    ghost function Need(k: Key): nat
      reads this
    {
      match k.kind
      case Unknown => 0
      case Normal => if pic || k.sym in globals then 1 else 0
      case TlsGd => 2
      case _ => 1
    }

    ghost predicate Owns(s: Sym, e: Entry)
      reads this
    {
      && e.kind != Unknown && e.existing == ExistingFor(e.kind)
      && e.offset == base + 4 * First(e) && 0 <= First(e) && First(e) + Slots(e.kind) <= |slots|
      && forall j :: First(e) <= j < First(e) + Slots(e.kind) ==> slots[j] == Key(s, e.kind)
    }

    ghost predicate Paid(s: Sym, e: Entry)
      reads this
    {
      var k := Key(s, e.kind);
      && Need(k) <= reserved[k]
      && multiset(emitted)[k] <= if e.created then Need(k) else 0
    }

    ghost predicate EntryOk(s: Sym, i: nat)
      reads this
      requires i < |List(s)|
    {
      && Owns(s, List(s)[i]) && Paid(s, List(s)[i])
      && forall j :: 0 <= j < i ==> List(s)[j].kind != List(s)[i].kind
    }

    ghost predicate IsEntry(k: Key, i: nat)
      reads this
    {
      i < |List(k.sym)| && List(k.sym)[i].kind == k.kind
    }

    ghost predicate HasEntry(k: Key)
      reads this
    {
      exists i :: IsEntry(k, i)
    }

    ghost predicate Covers(j: nat, i: nat)
      reads this
      requires j < |slots|
    {
      IsEntry(slots[j], i) && First(List(slots[j].sym)[i]) <= j < First(List(slots[j].sym)[i]) + Slots(slots[j].kind)
    }

    /** Slot j belongs to an entry that covers it. */
    ghost predicate SlotUsed(j: nat)
      reads this
      requires j < |slots|
    {
      exists i :: Covers(j, i)
    }

    /** Relocation j patches a slot of its own entry. */
    ghost predicate RelocOk(j: nat)
      reads this
      requires j < |relocs| && |emitted| == |relocs|
    {
      && HasEntry(emitted[j])
      && base <= relocs[j].offset
      && (relocs[j].offset - base) / 4 < |slots|
      && slots[(relocs[j].offset - base) / 4] == emitted[j]
    }

    /** All is well but the slots from number n on have no entry yet. */
    ghost predicate Pending(n: nat)
      reads this
    {
      && n <= |slots|
      && gotSize == base + 4 * |slots|
      && relSize == 12 * |reserved|
      && |emitted| == |relocs|
      && (forall s, i :: s in lists && 0 <= i < |List(s)| ==> EntryOk(s, i))
      && (forall j :: 0 <= j < n ==> SlotUsed(j))
      && (forall j :: 0 <= j < |relocs| ==> RelocOk(j))
    }

    ghost predicate Valid()
      reads this
    {
      Pending(|slots|)
    }

    constructor (pic: bool, symbolic: bool, dynamic: bool, endian: Endian, base: nat, globals: map<Sym, HashSym>)
      ensures Valid() && lists == map[] && slots == [] && reserved == multiset{} && relocs == []
      ensures this.globals == globals && gotSize == base
    {
      this.pic, this.symbolic, this.dynamic, this.endian, this.base := pic, symbolic, dynamic, endian, base;
      this.globals := globals;
      gotSize, relSize, lists, relocs := base, 0, map[], [];
      contents := new Byte[0];
      slots, reserved, emitted := [], multiset{}, [];
    }

    // ----- what Valid() means ----------------------------------------------

    ghost predicate Occupies(e: Entry, at: int)
    {
      e.offset <= at < e.offset + 4 * Slots(e.kind)
    }

    /** Entries never share a byte of the GOT: a byte tells its entry. */
    lemma SlotRangesDisjoint(s: Sym, i: nat, t: Sym, j: nat, at: int)
      requires Valid() && i < |List(s)| && j < |List(t)|
      requires Occupies(List(s)[i], at) && Occupies(List(t)[j], at)
      ensures s == t && i == j
    {
      assert EntryOk(s, i) && EntryOk(t, j);
      assert slots[(at - base) / 4] == Key(s, List(s)[i].kind);
      assert slots[(at - base) / 4] == Key(t, List(t)[j].kind);
    }

    /** The GOT grows only by allocated slots: every byte added belongs to an entry. */
    lemma EveryByteOwned(at: int) returns (s: Sym, i: nat)
      requires Valid() && base <= at < gotSize
      ensures i < |List(s)| && Occupies(List(s)[i], at)
    {
      var j := (at - base) / 4;
      assert SlotUsed(j);
      s := slots[j].sym;
      i :| Covers(j, i);
      assert EntryOk(s, i);
    }

    /** A symbol has at most one entry of each type. */
    lemma OneEntryPerType(s: Sym, i: nat, j: nat)
      requires Valid() && i < |List(s)| && j < |List(s)| && List(s)[i].kind == List(s)[j].kind
      ensures i == j
    {
      assert EntryOk(s, i) && EntryOk(s, j);
    }

    lemma EmittedWithinReserved()
      requires Valid()
      ensures multiset(emitted) <= reserved
      ensures 12 * |relocs| <= relSize
    {
      forall k: Key
        ensures multiset(emitted)[k] <= reserved[k]
      {
        if k in multiset(emitted) {
          var j :| 0 <= j < |emitted| && emitted[j] == k;
          assert RelocOk(j);
          var i :| IsEntry(k, i);
          assert EntryOk(k.sym, i);
        }
      }
      SubMultisetSize(multiset(emitted), reserved);
    }

    // ----- reserving ---------------------------------------------------------

    /** bfd_elf_link_record_dynamic_symbol, as far as the allocator sees it:
        stringOk tells whether the string table could take the name. */
    method RecordDynamic(s: Sym, index: nat, stringOk: bool) returns (ok: bool)
      requires s in globals
      modifies this`globals
      ensures globals == old(globals)[s := Recorded(old(globals)[s], index)]
      ensures ok <==> stringOk || globals[s].dynindx == old(globals)[s].dynindx
      ensures ok ==> Known(globals[s])
    {
      var h := globals[s];
      ok := true;
      if h.dynindx == -1 {
        if h.plugin {
          return;
        }
        if h.hidden {
          h := h.(forcedLocal := true);
          globals := globals[s := h];
          if !h.exported {
            return;
          }
        }
        globals := globals[s := h.(dynindx := index)];
        ok := stringOk;
      }
    }

    /** ADD_SYMBOL_REF_SEC_AND_RELOC: reserve a relocation if asked, record the
        symbol, then take one slot for `k`.  A failure leaves the GOT as it was. */
    method AddSlot(k: Key, wantReloc: bool, index: nat, stringOk: bool, ghost n: nat) returns (ok: bool, offset: nat)
      requires Pending(n)
      modifies this`relSize, this`gotSize, this`globals, this`slots, this`reserved
      ensures Pending(n) && offset == old(gotSize)
      ensures globals.Keys == old(globals).Keys
      ensures reserved == old(reserved) + (if wantReloc then multiset{k} else multiset{})
      ensures relSize == old(relSize) + if wantReloc then 12 else 0
      ensures if ok then gotSize == old(gotSize) + 4 && slots == old(slots) + [k]
              else gotSize == old(gotSize) && slots == old(slots)
      ensures k.sym !in globals ==> ok
      ensures ok && k.sym in globals ==> Known(globals[k.sym])
      ensures k.sym in globals && Known(old(globals)[k.sym]) ==> ok
    {
      offset, ok := gotSize, true;
      if wantReloc {
        relSize := relSize + 12;
        reserved := reserved + multiset{k};
      }
      if k.sym in globals {
        var h := globals[k.sym];
        if h.dynindx == -1 && !h.forcedLocal {
          ok := RecordDynamic(k.sym, index, stringOk);
        }
      }
      if ok {
        gotSize := gotSize + 4;
        slots := slots + [k];
      }
      StillPending(n);
    }

    /** More slots and more reserved space disturb no entry. */
    twostate lemma StillPending(n: nat)
      requires old(Pending(n))
      requires old(slots) <= slots && old(reserved) <= reserved && globals.Keys == old(globals).Keys
      requires unchanged(`lists) && unchanged(`relocs) && unchanged(`emitted)
      requires gotSize == base + 4 * |slots| && relSize == 12 * |reserved|
      ensures Pending(n)
    {
      assert forall x :: List(x) == old(List(x));
      forall x, i | x in lists && 0 <= i < |List(x)|
        ensures EntryOk(x, i)
      {
        assert old(EntryOk(x, i));
      }
      forall j | 0 <= j < n
        ensures SlotUsed(j)
      {
        assert old(SlotUsed(j));
        var i :| old(Covers(j, i));
        assert Covers(j, i);
      }
      forall j | 0 <= j < |relocs|
        ensures RelocOk(j)
      {
        assert old(RelocOk(j));
        var i :| old(IsEntry(emitted[j], i));
        assert IsEntry(emitted[j], i);
      }
    }

    /** Give the slots from number n on, all taken for (s, t), their entry. */
    method Install(s: Sym, t: TlsType, offset: nat, ghost n: nat)
      requires Pending(n) && t != Unknown && !HasEntry(Key(s, t))
      requires slots[n..] == seq(Slots(t), _ => Key(s, t)) && offset == base + 4 * n
      requires Need(Key(s, t)) <= reserved[Key(s, t)]
      modifies this`lists
      ensures Valid()
      ensures lists == old(lists)[s := old(List(s)) + [Entry(t, offset, false, false, ExistingFor(t))]]
    {
      var list := List(s);
      ghost var k := Key(s, t);
      NothingEmittedWithoutEntry(k, n);
      forall i | 0 <= i < |list|
        ensures list[i].kind != t
      {
        assert !IsEntry(k, i);
      }
      var grown := NewEntryToList(list, t, offset, ExistingFor(t));
      lists := lists[s := grown];
      forall j | n <= j < |slots|
        ensures slots[j] == k
      {
        assert slots[j] == slots[n..][j - n];
      }
      forall x, i | x in lists && 0 <= i < |List(x)|
        ensures EntryOk(x, i)
      {
        if x != s || i < |list| {
          assert old(EntryOk(x, i));
        }
      }
      forall j | 0 <= j < |slots|
        ensures SlotUsed(j)
      {
        if j < n {
          assert old(SlotUsed(j));
          var i :| old(Covers(j, i));
          assert Covers(j, i);
        } else {
          assert Covers(j, |list|);
        }
      }
      forall j | 0 <= j < |relocs|
        ensures RelocOk(j)
      {
        assert old(RelocOk(j));
        var i :| old(IsEntry(emitted[j], i));
        assert IsEntry(emitted[j], i);
      }
    }

    /** The slots of a type, each with its relocation where one may be needed. */
    method Reserve(t: TlsType, s: Sym, index: nat, stringOk: bool, ghost n: nat) returns (ok: bool, offset: nat)
      requires Valid() && n == |slots| && t != Unknown
      modifies this`relSize, this`gotSize, this`globals, this`slots, this`reserved
      ensures Pending(n) && offset == old(gotSize) && globals.Keys == old(globals).Keys
      ensures old(reserved) <= reserved && (ok ==> reserved[Key(s, t)] >= Need(Key(s, t)))
      ensures slots == old(slots) + if ok then seq(Slots(t), _ => Key(s, t)) else []
      ensures !ok ==> gotSize == old(gotSize)
    {
      var k := Key(s, t);
      ok, offset := AddSlot(k, t != Normal || pic || s in globals, index, stringOk, n);
      if ok && t == TlsGd {
        var again, unneeded := AddSlot(k, true, index, stringOk, n);
        assert again;
      }
    }

    /** arc_fill_got_info_for_reloc */
    method Fill(t: TlsType, s: Sym, index: nat, stringOk: bool) returns (ok: bool)
      requires Valid()
      modifies this`relSize, this`gotSize, this`globals, this`slots, this`reserved, this`lists
      ensures Valid() && globals.Keys == old(globals).Keys
      ensures old(HasEntry(Key(s, t))) ==>
        ok && gotSize == old(gotSize) && relSize == old(relSize) && lists == old(lists)
      ensures !old(HasEntry(Key(s, t))) && ok ==>
        && t != Unknown
        && slots == old(slots) + seq(Slots(t), _ => Key(s, t))
        && lists == old(lists)[s := old(List(s)) + [Entry(t, old(gotSize), false, false, ExistingFor(t))]]
      ensures !ok ==> gotSize == old(gotSize) && slots == old(slots) && lists == old(lists)
      ensures t == Unknown && !old(HasEntry(Key(s, t))) ==> !ok
    {
      var at := EntryForType(List(s), t);
      if at.Some? {
        assert IsEntry(Key(s, t), at.value);
        return true;
      }
      assert forall i :: !IsEntry(Key(s, t), i);
      if t == Unknown {
        return false;
      }
      ghost var n := |slots|;
      var offset;
      ok, offset := Reserve(t, s, index, stringOk, n);
      if ok {
        assert slots[n..] == seq(Slots(t), _ => Key(s, t));
        assert forall i :: IsEntry(Key(s, t), i) == old(IsEntry(Key(s, t), i));
        Install(s, t, offset, n);
      } else {
        assert slots == old(slots);
      }
    }

    lemma NothingEmittedWithoutEntry(k: Key, n: nat)
      requires Pending(n) && !HasEntry(k)
      ensures multiset(emitted)[k] == 0
    {
      forall j | 0 <= j < |emitted|
        ensures emitted[j] != k
      {
        assert RelocOk(j);
      }
      assert k !in emitted;
    }

    // ----- filling in values -------------------------------------------------

    /** Change the flags of one entry. */
    method SetEntry(s: Sym, i: nat, e: Entry)
      requires Valid() && i < |List(s)|
      requires var was := List(s)[i];
        e == was.(processed := e.processed, created := e.created) && (was.created ==> e.created)
      modifies this`lists
      ensures Valid() && lists == old(lists)[s := old(List(s))[i := e]]
    {
      lists := lists[s := List(s)[i := e]];
      FlagsOnly(|slots|);
    }

    /** Changing flags disturbs no entry. */
    twostate lemma FlagsOnly(n: nat)
      requires old(Pending(n))
      requires unchanged(this`slots) && unchanged(this`reserved) && unchanged(this`globals)
      requires unchanged(this`relocs) && unchanged(this`emitted) && unchanged(this`gotSize) && unchanged(this`relSize)
      requires forall x :: SameShape(old(List(x)), List(x))
      requires forall x :: x in lists ==> x in old(lists)
      ensures Pending(n)
    {
      forall x, j | x in lists && 0 <= j < |List(x)|
        ensures EntryOk(x, j)
      {
        assert old(EntryOk(x, j)) && SameShape(old(List(x)), List(x));
      }
      forall j | 0 <= j < n
        ensures SlotUsed(j)
      {
        assert old(SlotUsed(j));
        var i :| old(Covers(j, i));
        assert SameShape(old(List(slots[j].sym)), List(slots[j].sym));
        assert Covers(j, i);
      }
      forall j | 0 <= j < |relocs|
        ensures RelocOk(j)
      {
        assert old(RelocOk(j));
        var i :| old(IsEntry(emitted[j], i));
        assert SameShape(old(List(emitted[j].sym)), List(emitted[j].sym));
        assert IsEntry(emitted[j], i);
      }
    }

    /** The section gets its zeroed contents once its size is final. */
    method AllocateContents()
      requires Valid()
      modifies this`contents
      ensures Valid() && fresh(contents) && contents.Length == gotSize
      ensures forall b :: 0 <= b < contents.Length ==> contents[b] == 0
    {
      contents := new Byte[gotSize](_ => 0);
      SameEntries();
    }

    /** Nothing but the contents changed. */
    twostate lemma SameEntries()
      requires old(Valid()) && unchanged(`lists) && unchanged(`slots) && unchanged(`reserved) && unchanged(`emitted)
      requires unchanged(`relocs) && unchanged(`gotSize) && unchanged(`relSize) && unchanged(`globals)
      ensures Valid()
    {
      forall s, i | s in lists && 0 <= i < |List(s)|
        ensures EntryOk(s, i)
      {
        assert old(EntryOk(s, i));
      }
      forall j | 0 <= j < |slots|
        ensures SlotUsed(j)
      {
        assert old(SlotUsed(j));
        var i :| old(Covers(j, i));
        assert Covers(j, i);
      }
      forall j | 0 <= j < |relocs|
        ensures RelocOk(j)
      {
        assert old(RelocOk(j));
        var i :| old(IsEntry(emitted[j], i));
        assert IsEntry(emitted[j], i);
      }
    }

    /** bfd_put_32 into the GOT */
    method PutValue(at: nat, value: int)
      requires at + 4 <= contents.Length
      modifies contents
      ensures contents[at..at + 4] == Put(endian, 4, value % 0x1_0000_0000)
      ensures forall b :: 0 <= b < contents.Length && !(at <= b < at + 4) ==> contents[b] == old(contents[b])
    {
      var v := Put(endian, 4, value % 0x1_0000_0000);
      forall b | at <= b < at + 4 {
        contents[b] := v[b - at];
      }
    }

    /** bfd_get_32 from the GOT */
    ghost function Word(c: seq<Byte>, at: nat): nat
    {
      if at + 4 <= |c| then Get(endian, c[at..at + 4]) else 0
    }

    /** Where relocate_fix_got_relocs_for_got_info puts an entry's value. */
    function ValueAt(e: Entry): nat { e.offset + if e.existing == ModAndOff then 4 else 0 }

    /** The link editor, not the dynamic linker, settles the symbol's value. */
    predicate Settled(s: Sym, refsLocal: bool)
      reads this
    {
      s !in globals || globals[s].forcedLocal || !dynamic || (pic && refsLocal)
    }

    /** The word a first visit stores in the entry's slot, if any. */
    function Patch(s: Sym, e: Entry, refsLocal: bool, home: Home, power: nat): Option<int>
      reads this
    {
      if e.processed || !Settled(s, refsLocal) then None
      else if e.kind == TlsGd then
        if s !in globals || globals[s].forcedLocal || !dynamic
        then Some(home.address - home.tlsBase + if dynamic then 0 else AlignPower(0, power)) else None
      else if e.kind == TlsIe then Some(home.address - home.tlsBase + if dynamic then 0 else AlignPower(TCB, power))
      else if s in globals && globals[s].undefWeak then None
      else Some(home.address)
    }

    /** The switch on the entry's type inside relocate_fix_got_relocs_for_got_info. */
    method StoreValue(s: Sym, e: Entry, refsLocal: bool, home: Home, power: nat)
      requires Owns(s, e) && contents.Length == gotSize == base + 4 * |slots|
      modifies contents
      ensures forall b :: 0 <= b < contents.Length && !Occupies(e, b) ==> contents[b] == old(contents[b])
      ensures match Patch(s, e, refsLocal, home, power)
        case None => contents[..] == old(contents[..])
        case Some(v) => contents[ValueAt(e)..ValueAt(e) + 4] == Put(endian, 4, v % 0x1_0000_0000)
    {
      var isGlobal := s in globals;
      if Settled(s, refsLocal) {
        if !e.processed {
          if e.kind == TlsGd {
            if !isGlobal || globals[s].forcedLocal || !dynamic {
              PutValue(ValueAt(e), home.address - home.tlsBase + if dynamic then 0 else AlignPower(0, power));
            }
          } else if e.kind == TlsIe {
            PutValue(ValueAt(e), home.address - home.tlsBase + if dynamic then 0 else AlignPower(TCB, power));
          } else if !(isGlobal && globals[s].undefWeak) {
            PutValue(e.offset, home.address);
          }
        }
      }
    }

    /** The entry's value is in its slot: the symbol's address, or its offset in
        the thread-local section, unless the dynamic linker will add that. */
    ghost predicate Filled(s: Sym, e: Entry, g: map<Sym, HashSym>, c: seq<Byte>, home: Home)
    {
      match e.kind
      case Normal => Word(c, e.offset) == home.address % WORD
      case TlsIe => Word(c, e.offset) == (home.address - home.tlsBase) % WORD
      case TlsGd =>
        Word(c, e.offset + 4) == if s !in g || g[s].forcedLocal then (home.address - home.tlsBase) % WORD else 0
      case _ => true
    }

    ghost predicate Blank(e: Entry, c: seq<Byte>)
    {
      match e.kind
      case TlsGd => Word(c, e.offset) == Word(c, e.offset + 4) == 0
      case _ => Word(c, e.offset) == 0
    }

    lemma WordPut(c: seq<Byte>, at: nat, v: int)
      requires at + 4 <= |c| && c[at..at + 4] == Put(endian, 4, v % WORD)
      ensures Word(c, at) == v % WORD
    {
      Pow256Values();
      GetPut(endian, 4, v % WORD);
    }

    /** Without dynamic sections the word is what the program needs: the address,
        the offset from the thread pointer (the block starts behind the control
        block, aligned), or the offset in the module. */
    ghost predicate Final(e: Entry, c: seq<Byte>, home: Home, power: nat)
    {
      match e.kind
      case Normal => Word(c, e.offset) == home.address % WORD
      case TlsIe => Word(c, e.offset) == (home.address - home.tlsBase + AlignPower(TCB, power)) % WORD
      case TlsGd => Word(c, e.offset + 4) == (home.address - home.tlsBase) % WORD
      case _ => true
    }

    lemma {:induction false} AlignZero(power: nat)
      ensures AlignPower(0, power) == 0
    {
      SmallRest(AlignPower(0, power), Pow2(power));
    }

    lemma {:induction false} SmallRest(r: nat, unit: nat)
      requires r < unit
      ensures r % unit == r
    {
    }

    lemma StoredMeans(s: Sym, e: Entry, refsLocal: bool, home: Home, power: nat, was: seq<Byte>, c: seq<Byte>)
      requires e.existing == ExistingFor(e.kind) && e.kind != TlsLe && |c| == |was| && ValueAt(e) + 4 <= |c|
      requires !e.processed && Settled(s, refsLocal) && !(e.kind == Normal && s in globals && globals[s].undefWeak)
      requires match Patch(s, e, refsLocal, home, power)
        case None => c == was
        case Some(v) => c[ValueAt(e)..ValueAt(e) + 4] == Put(endian, 4, v % WORD)
      ensures !dynamic ==> Final(e, c, home, power)
      ensures dynamic && Blank(e, was) ==> Filled(s, e, globals, c, home)
    {
      AlignZero(power);
      match Patch(s, e, refsLocal, home, power)
      case None =>
      case Some(v) => WordPut(c, ValueAt(e), v);
    }

    /** A visit to an entry, and what its slot holds afterwards. */
    method StoreEntry(s: Sym, e: Entry, refsLocal: bool, home: Home, power: nat)
      requires Owns(s, e) && contents.Length == gotSize == base + 4 * |slots| && e.kind != TlsLe
      modifies contents
      ensures forall b :: 0 <= b < contents.Length && !Occupies(e, b) ==> contents[b] == old(contents[b])
      ensures ValueAt(e) + 4 <= contents.Length
      ensures match Patch(s, e, refsLocal, home, power)
        case None => contents[..] == old(contents[..])
        case Some(v) => contents[ValueAt(e)..ValueAt(e) + 4] == Put(endian, 4, v % 0x1_0000_0000)
      ensures !e.processed && !dynamic && !(e.kind == Normal && s in globals && globals[s].undefWeak) ==>
        Final(e, contents[..], home, power)
      ensures
        && !e.processed && dynamic && Settled(s, refsLocal) && Blank(e, old(contents[..]))
        && !(e.kind == Normal && s in globals && globals[s].undefWeak)
        ==> Filled(s, e, globals, contents[..], home)
    {
      StoreValue(s, e, refsLocal, home, power);
      if !e.processed && Settled(s, refsLocal) && !(e.kind == Normal && s in globals && globals[s].undefWeak) {
        StoredMeans(s, e, refsLocal, home, power, old(contents[..]), contents[..]);
      }
    }

    /** relocate_fix_got_relocs_for_got_info, for a type that has entries and a
        symbol that has one of this type.  `power` is the alignment of the
        thread-local section; refsLocal is SYMBOL_REFERENCES_LOCAL.  Without
        dynamic sections the word stored is all the program will see. */
    method FixValue(s: Sym, t: TlsType, refsLocal: bool, home: Home, power: nat)
      returns (offset: nat, ghost index: nat)
      requires Valid() && HasEntry(Key(s, t)) && t != TlsLe && contents.Length == gotSize
      modifies this`lists, contents
      ensures Valid() && HasEntry(Key(s, t))
      ensures index < |old(List(s))| && old(List(s))[index].kind == t && offset == old(List(s))[index].offset
      ensures forall b :: 0 <= b < contents.Length && !Occupies(old(List(s))[index], b) ==>
        contents[b] == old(contents[b])
      ensures var e := old(List(s))[index];
        match old(Patch(s, e, refsLocal, home, power))
        case None => contents[..] == old(contents[..])
        case Some(v) =>
          && ValueAt(e) + 4 <= contents.Length
          && contents[ValueAt(e)..ValueAt(e) + 4] == Put(endian, 4, v % 0x1_0000_0000)
      ensures var e := old(List(s))[index];
        !e.processed && !dynamic && !(t == Normal && s in globals && globals[s].undefWeak) ==>
          Final(e, contents[..], home, power)
      ensures var e := old(List(s))[index];
        && !e.processed && dynamic && old(Settled(s, refsLocal)) && old(Blank(e, contents[..]))
        && !(t == Normal && s in globals && globals[s].undefWeak)
        ==> Filled(s, e, globals, contents[..], home)
      ensures var e := old(List(s))[index];
        e.processed || !old(Settled(s, refsLocal)) || (t == Normal && s in globals && globals[s].undefWeak) ==>
          contents[..] == old(contents[..])
      ensures var e := old(List(s))[index];
        List(s) == old(List(s))[index := e.(processed := e.processed || old(Settled(s, refsLocal)))]
      ensures forall x :: x != s ==> List(x) == old(List(x))
    {
      var list := List(s);
      var at := EntryForType(list, t);
      var i := at.value;
      var e := list[i];
      assert EntryOk(s, i);
      StoreEntry(s, e, refsLocal, home, power);
      if Settled(s, refsLocal) && !e.processed {
        SetEntry(s, i, e.(processed := true));
      }
      assert IsEntry(Key(s, t), i);
      return e.offset, i;
    }

    // ----- dynamic relocations -------------------------------------------------

    /** ADD_RELA: nothing without dynamic sections; otherwise one more record,
        which the space reserved for .rela.got always has room for. */
    method AddRela(s: Sym, i: nat, r: Rela)
      requires Valid() && i < |List(s)| && List(s)[i].created
      requires List(s)[i].offset <= r.offset < List(s)[i].offset + 4 * Slots(List(s)[i].kind)
      requires multiset(emitted)[Key(s, List(s)[i].kind)] < Need(Key(s, List(s)[i].kind))
      modifies this`relocs, this`emitted
      ensures Valid()
      ensures relocs == if dynamic then old(relocs) + [r] else old(relocs)
      ensures emitted == if dynamic then old(emitted) + [Key(s, List(s)[i].kind)] else old(emitted)
      ensures 12 * |relocs| <= relSize
    {
      ghost var k := Key(s, List(s)[i].kind);
      assert EntryOk(s, i);
      if dynamic {
        relocs, emitted := relocs + [r], emitted + [k];
        assert multiset(emitted) == multiset(old(emitted)) + multiset{k};
        forall x, j | x in lists && 0 <= j < |List(x)|
          ensures EntryOk(x, j)
        {
          assert old(EntryOk(x, j));
          if x == s && List(s)[j].kind == k.kind {
            assert old(EntryOk(s, i)) && i == j;
          }
        }
        forall j | 0 <= j < |slots|
          ensures SlotUsed(j)
        {
          assert old(SlotUsed(j));
          var x :| old(Covers(j, x));
          assert Covers(j, x);
        }
        forall j | 0 <= j < |relocs|
          ensures RelocOk(j)
        {
          if j < |old(relocs)| {
            assert old(RelocOk(j));
            var x :| old(IsEntry(emitted[j], x));
            assert IsEntry(emitted[j], x);
          } else {
            assert IsEntry(k, i);
          }
        }
      }
      EmittedWithinReserved();
    }

    /** The dynamic relocations an entry calls for: one for the slot of an
        ordinary entry that the dynamic linker must fix, one for each slot of a
        thread-local entry. */
    ghost function Wanted(s: Sym, e: Entry, g: map<Sym, HashSym>, c: seq<Byte>): seq<Rela>
    {
      var dynindx := if s in g then g[s].dynindx else -1;
      var index := if dynindx == -1 then 0 else dynindx;
      match e.kind
      case Unknown => []
      case Normal =>
        if s !in g then []
        else if pic && (symbolic || dynindx == -1) && g[s].defRegular then [Rela(e.offset, 0, Relative, 0)]
        else if dynindx != -1 then [Rela(e.offset, dynindx, GlobDat, 0)]
        else []
      case TlsGd => [Rela(e.offset, index, DtpMod, 0), OffsetRela(e, index, c)]
      case _ => [OffsetRela(e, index, c)]
    }

    /** The relocation of an ordinary entry, if the dynamic linker must fix it. */
    method CreateNormal(s: Sym, i: nat, e: Entry)
      requires Valid() && i < |List(s)| && e == List(s)[i] && e.kind == Normal && e.created
      requires multiset(emitted)[Key(s, Normal)] == 0
      modifies this`relocs, this`emitted
      ensures Valid() && 12 * |relocs| <= relSize
      ensures relocs == old(relocs) + if dynamic then Wanted(s, e, globals, contents[..]) else []
    {
      assert EntryOk(s, i);
      EmittedWithinReserved();
      var isGlobal := s in globals;
      if pic && isGlobal && (symbolic || globals[s].dynindx == -1) && globals[s].defRegular {
        AddRela(s, i, Rela(e.offset, 0, Relative, 0));
      } else if isGlobal && globals[s].dynindx != -1 {
        AddRela(s, i, Rela(e.offset, globals[s].dynindx, GlobDat, 0));
      }
    }

    /** The relocations of a thread-local entry: module, offset, or both. */
    method CreateTls(s: Sym, i: nat, e: Entry)
      requires Valid() && i < |List(s)| && e == List(s)[i] && e.kind != Normal && e.created
        && contents.Length == gotSize
      requires multiset(emitted)[Key(s, e.kind)] == 0
      modifies this`relocs, this`emitted
      ensures Valid() && 12 * |relocs| <= relSize
      ensures relocs == old(relocs) + if dynamic then Wanted(s, e, globals, contents[..]) else []
    {
      assert EntryOk(s, i);
      EmittedWithinReserved();
      var isGlobal := s in globals;
      if e.existing != NoneYet {
        var index := if !isGlobal || globals[s].dynindx == -1 then 0 else globals[s].dynindx;
        if e.existing == ModAndOff || e.existing == Mod {
          AddRela(s, i, Rela(e.offset, index, DtpMod, 0));
        }
        if e.existing == ModAndOff || e.existing == Off {
          CreateOffset(s, i, e, index);
        }
      }
    }

    /** The relocation of the slot that holds an offset. */
    method CreateOffset(s: Sym, i: nat, e: Entry, index: int)
      requires Valid() && i < |List(s)| && e == List(s)[i] && e.kind != Normal && e.created
        && contents.Length == gotSize
      requires multiset(emitted)[Key(s, e.kind)] < Need(Key(s, e.kind))
      modifies this`relocs, this`emitted
      ensures Valid() && 12 * |relocs| <= relSize
      ensures relocs == old(relocs) + if dynamic then [OffsetRela(e, index, contents[..])] else []
    {
      assert EntryOk(s, i);
      assert contents[..][e.offset..e.offset + 4] == contents[e.offset..e.offset + 4];
      var addend := if e.kind == TlsIe then Get(endian, contents[e.offset..e.offset + 4]) else 0;
      AddRela(s, i, Rela(ValueAt(e), index, if e.kind == TlsIe then TpOff else DtpOff, addend));
    }

    /** TPOFF, with what the slot holds, for TlsIe; DTPOFF for the others. */
    ghost function OffsetRela(e: Entry, index: int, c: seq<Byte>): Rela
    {
      if e.kind == TlsIe then
        Rela(e.offset, index, TpOff, Word(c, e.offset))
      else Rela(ValueAt(e), index, DtpOff, 0)
    }

    // ----- what the program finds ----------------------------------------------

    /** Each slot of the entry gives, in the running program, what it is there for. */
    ghost predicate Right(m: Loaded, e: Entry, relocs: seq<Rela>, c: seq<Byte>, f: Found)
    {
      match e.kind
      case Normal => Same(AtRun(m, relocs, e.offset, Word(c, e.offset)), f.address)
      case TlsIe => Same(AtRun(m, relocs, e.offset, Word(c, e.offset)), f.thread)
      case TlsGd =>
        && Same(AtRun(m, relocs, e.offset, Word(c, e.offset)), f.mod)
        && Same(AtRun(m, relocs, e.offset + 4, Word(c, e.offset + 4)), f.offset)
      case _ => true
    }

    /** The dynamic symbol, if there is one, is bound to the definition in this module. */
    ghost predicate BoundHere(s: Sym, g: map<Sym, HashSym>, m: Loaded, home: Home)
    {
      s in g && g[s].dynindx != -1 ==> g[s].dynindx != 0 && Lookup(m, g[s].dynindx) == Here(m, home)
    }

    /** Whether a slot that holds the symbol's value comes out right: an address,
        if some relocation covers it or the module is not moved; an offset, if it
        is not added twice (or never). */
    predicate ComesRight(s: Sym, e: Entry, g: map<Sym, HashSym>, shift: int, home: Home)
    {
      match e.kind
      case Normal => (s in g && (g[s].dynindx != -1 || (pic && g[s].defRegular))) || Same(shift, 0)
      case TlsIe => s !in g || g[s].dynindx == -1 || Same(home.address, home.tlsBase)
      case TlsGd =>
        || (s in g && g[s].dynindx != -1 <==> s in g && !g[s].forcedLocal)
        || Same(home.address, home.tlsBase)
      case _ => true
    }

    ghost predicate ClearOf(relocs: seq<Rela>, e: Entry)
    {
      NoneAt(relocs, e.offset) && (e.kind == TlsGd ==> NoneAt(relocs, e.offset + 4))
    }

    lemma NormalComesRight(s: Sym, e: Entry, g: map<Sym, HashSym>, c: seq<Byte>, before: seq<Rela>, m: Loaded,
                           home: Home)
      requires e.kind == Normal && ClearOf(before, e) && Filled(s, e, g, c, home) && BoundHere(s, g, m, home)
      ensures Right(m, e, before + Wanted(s, e, g, c), c, Here(m, home)) <==> ComesRight(s, e, g, m.shift, home)
    {
      var w := Word(c, e.offset);
      var want := Wanted(s, e, g, c);
      CutWord(home.address, w, m.shift);
      if want == [] {
        assert before + want == before;
        AtRunNone(m, before, e.offset, w);
        assert Same(w, home.address);
        SameShift(m.shift, 0, home.address);
      } else {
        AtRunOne(m, before, want[0], e.offset, w);
      }
    }

    lemma IeComesRight(s: Sym, e: Entry, g: map<Sym, HashSym>, c: seq<Byte>, before: seq<Rela>, m: Loaded, home: Home)
      requires e.kind == TlsIe && ClearOf(before, e) && Filled(s, e, g, c, home) && BoundHere(s, g, m, home)
      ensures Right(m, e, before + Wanted(s, e, g, c), c, Here(m, home)) <==> ComesRight(s, e, g, m.shift, home)
    {
      var w, v := Word(c, e.offset), home.address - home.tlsBase;
      AtRunOne(m, before, Wanted(s, e, g, c)[0], e.offset, w);
      CutWord(v, w, m.block);
      CutWord(v, w, m.block + v);
      SameShift(v, 0, home.tlsBase);
    }

    lemma TwoRelocs(m: Loaded, before: seq<Rela>, a: Rela, b: Rela, w: int, x: int)
      requires NoneAt(before, a.offset) && NoneAt(before, b.offset) && a.offset != b.offset
      ensures AtRun(m, before + [a, b], a.offset, w) == Apply(m, a, w)
      ensures AtRun(m, before + [a, b], b.offset, x) == Apply(m, b, x)
    {
      AtRunOne(m, before, a, a.offset, w);
      assert before + [a, b] == before + [a] + [b];
      assert (before + [a] + [b])[..|before| + 1] == before + [a];
      AtRunOne(m, before + [a], b, b.offset, x);
    }

    lemma GdComesRight(s: Sym, e: Entry, g: map<Sym, HashSym>, c: seq<Byte>, before: seq<Rela>, m: Loaded, home: Home)
      requires e.kind == TlsGd && e.existing == ModAndOff && ClearOf(before, e)
      requires Filled(s, e, g, c, home) && BoundHere(s, g, m, home)
      ensures Right(m, e, before + Wanted(s, e, g, c), c, Here(m, home)) <==> ComesRight(s, e, g, m.shift, home)
    {
      var w, v, want := Word(c, e.offset + 4), home.address - home.tlsBase, Wanted(s, e, g, c);
      TwoRelocs(m, before, want[0], want[1], Word(c, e.offset), w);
      if s !in g || g[s].forcedLocal {
        CutWord(v, w, 0);
        CutWord(v, w, v);
      } else {
        assert w == 0;
      }
      SameShift(v, 0, home.tlsBase);
    }

    /** A symbol settled by the link editor and defined in this module: the words
        stored and the relocations the entry calls for give the program the
        symbol's address, its module and offset there, or its offset from the
        thread pointer, if and only if ComesRight says so. */
    lemma SettledComesRight(s: Sym, e: Entry, g: map<Sym, HashSym>, c: seq<Byte>, before: seq<Rela>, m: Loaded,
                            home: Home)
      requires e.kind != Unknown && e.existing == ExistingFor(e.kind) && ClearOf(before, e)
      requires Filled(s, e, g, c, home) && BoundHere(s, g, m, home)
      ensures Right(m, e, before + Wanted(s, e, g, c), c, Here(m, home)) <==> ComesRight(s, e, g, m.shift, home)
    {
      match e.kind
      case Normal => NormalComesRight(s, e, g, c, before, m, home);
      case TlsIe => IeComesRight(s, e, g, c, before, m, home);
      case TlsGd => GdComesRight(s, e, g, c, before, m, home);
      case _ =>
    }

    /** A symbol left to the dynamic linker, its slots still zero: the program
        finds what the dynamic linker bound the symbol to, wherever that is. */
    lemma BoundComesRight(s: Sym, e: Entry, g: map<Sym, HashSym>, c: seq<Byte>, before: seq<Rela>, m: Loaded)
      requires e.kind != Unknown && e.existing == ExistingFor(e.kind) && ClearOf(before, e) && Blank(e, c)
      requires s in g && g[s].dynindx != -1 && g[s].dynindx != 0
      ensures Right(m, e, before + Wanted(s, e, g, c), c, Lookup(m, g[s].dynindx))
        <==> (e.kind == Normal && pic && symbolic && g[s].defRegular ==> Same(m.shift, Lookup(m, g[s].dynindx).address))
    {
      var want := Wanted(s, e, g, c);
      if e.kind == TlsGd {
        TwoRelocs(m, before, want[0], want[1], 0, 0);
      } else {
        AtRunOne(m, before, want[0], want[0].offset, 0);
      }
    }

    /** How a program fares with the entry: what a settled symbol's slots give it,
        and what those of a symbol left to the dynamic linker do. */
    ghost predicate Outcome(s: Sym, e: Entry, g: map<Sym, HashSym>, c: seq<Byte>, relocs: seq<Rela>)
    {
      && (forall m: Loaded, home: Home {:trigger Right(m, e, relocs, c, Here(m, home))} ::
           Filled(s, e, g, c, home) && BoundHere(s, g, m, home) ==>
             (Right(m, e, relocs, c, Here(m, home)) <==> ComesRight(s, e, g, m.shift, home)))
      && (Blank(e, c) && s in g && g[s].dynindx != -1 && g[s].dynindx != 0 ==>
           forall m: Loaded {:trigger Right(m, e, relocs, c, Lookup(m, g[s].dynindx))} ::
             Right(m, e, relocs, c, Lookup(m, g[s].dynindx))
             <==> (e.kind == Normal && pic && symbolic && g[s].defRegular ==>
                    Same(m.shift, Lookup(m, g[s].dynindx).address)))
    }

    lemma OutcomeOf(s: Sym, e: Entry, g: map<Sym, HashSym>, c: seq<Byte>, before: seq<Rela>)
      requires e.kind != Unknown && e.existing == ExistingFor(e.kind) && ClearOf(before, e)
      ensures Outcome(s, e, g, c, before + Wanted(s, e, g, c))
    {
      var after := before + Wanted(s, e, g, c);
      forall m: Loaded, home: Home | Filled(s, e, g, c, home) && BoundHere(s, g, m, home)
        ensures Right(m, e, after, c, Here(m, home)) <==> ComesRight(s, e, g, m.shift, home)
      {
        SettledComesRight(s, e, g, c, before, m, home);
      }
      if Blank(e, c) && s in g && g[s].dynindx != -1 && g[s].dynindx != 0 {
        forall m: Loaded
          ensures Right(m, e, after, c, Lookup(m, g[s].dynindx))
            <==> (e.kind == Normal && pic && symbolic && g[s].defRegular ==>
                   Same(m.shift, Lookup(m, g[s].dynindx).address))
        {
          BoundComesRight(s, e, g, c, before, m);
        }
      }
    }

    /** No relocation is in a slot of an entry that has not been handled. */
    lemma UntouchedYet(s: Sym, i: nat)
      requires Valid() && i < |List(s)| && !List(s)[i].created
      ensures ClearOf(relocs, List(s)[i])
      ensures List(s)[i].kind != Unknown && List(s)[i].existing == ExistingFor(List(s)[i].kind)
    {
      var e := List(s)[i];
      assert EntryOk(s, i);
      forall j | 0 <= j < |relocs|
        ensures !Occupies(e, relocs[j].offset)
      {
        assert RelocOk(j);
        assert Key(s, e.kind) !in emitted;
      }
      assert Occupies(e, e.offset);
    }

    lemma OutcomeAhead(s: Sym, i: nat, c: seq<Byte>)
      requires Valid() && i < |List(s)| && !List(s)[i].created
      ensures Outcome(s, List(s)[i], globals, c, relocs + Wanted(s, List(s)[i], globals, c))
    {
      UntouchedYet(s, i);
      OutcomeOf(s, List(s)[i], globals, c, relocs);
    }

    /** create_got_dynrelocs_for_single_entry.  Entries already handled are left alone. */
    method CreateForEntry(s: Sym, i: nat)
      requires Valid() && i < |List(s)| && contents.Length == gotSize
      modifies this`lists, this`relocs, this`emitted
      ensures Valid() && 12 * |relocs| <= relSize
      ensures lists == old(lists)[s := old(List(s))[i := old(List(s))[i].(created := true)]]
      ensures relocs == old(relocs) + if dynamic && !old(List(s))[i].created
        then old(Wanted(s, List(s)[i], globals, contents[..])) else []
      ensures dynamic && !old(List(s))[i].created ==> Outcome(s, old(List(s))[i], globals, contents[..], relocs)
    {
      var e := List(s)[i];
      assert EntryOk(s, i);
      EmittedWithinReserved();
      if !e.created {
        OutcomeAhead(s, i, contents[..]);
      }
      SetEntry(s, i, e.(created := true));
      if e.created {
        return;
      }
      if e.kind == Normal {
        CreateNormal(s, i, e.(created := true));
      } else {
        CreateTls(s, i, e.(created := true));
      }
    }

    /** The relocations the first i entries of a symbol still call for. */
    ghost function WantedUpto(s: Sym, list: seq<Entry>, g: map<Sym, HashSym>, c: seq<Byte>, i: nat): seq<Rela>
      requires i <= |list|
    {
      if i == 0 then []
      else
        WantedUpto(s, list, g, c, i - 1)
        + if dynamic && !list[i - 1].created then Wanted(s, list[i - 1], g, c) else []
    }

    lemma {:induction false} NoneWanted(s: Sym, list: seq<Entry>, g: map<Sym, HashSym>, c: seq<Byte>, i: nat)
      requires i <= |list| && forall j :: 0 <= j < |list| ==> list[j].created
      ensures WantedUpto(s, list, g, c, i) == []
    {
      if i > 0 {
        NoneWanted(s, list, g, c, i - 1);
      }
    }

    lemma NoneWantedIf(s: Sym, list: seq<Entry>, g: map<Sym, HashSym>, c: seq<Byte>)
      ensures (forall j :: 0 <= j < |list| ==> list[j].created) ==> WantedUpto(s, list, g, c, |list|) == []
    {
      if forall j :: 0 <= j < |list| ==> list[j].created {
        NoneWanted(s, list, g, c, |list|);
      }
    }

    /** The entries of a symbol with the first i handled. */
    ghost predicate CreatedUpto(s: Sym, list: seq<Entry>, i: nat)
      reads this
    {
      && |List(s)| == |list|
      && forall j :: 0 <= j < |list| ==> List(s)[j] == if j < i then list[j].(created := true) else list[j]
    }

    lemma WantedInside(s: Sym, e: Entry, g: map<Sym, HashSym>, c: seq<Byte>)
      requires e.kind != Unknown && e.existing == ExistingFor(e.kind)
      ensures forall j :: 0 <= j < |Wanted(s, e, g, c)| ==> Occupies(e, Wanted(s, e, g, c)[j].offset)
    {
    }

    /** The relocations of one entry are in no slot of another. */
    lemma ClearOfOthers(s: Sym, i: nat, j: nat, g: map<Sym, HashSym>, c: seq<Byte>)
      requires Valid() && i < |List(s)| && j < |List(s)| && i != j
      ensures ClearOf(Wanted(s, List(s)[i], g, c), List(s)[j])
    {
      assert EntryOk(s, i) && EntryOk(s, j);
      var e, want := List(s)[j], Wanted(s, List(s)[i], g, c);
      WantedInside(s, List(s)[i], g, c);
      forall k | 0 <= k < |want|
        ensures !Occupies(e, want[k].offset)
      {
        if Occupies(e, want[k].offset) {
          SlotRangesDisjoint(s, i, s, j, want[k].offset);
        }
      }
      assert Occupies(e, e.offset);
    }

    lemma RightKept(m: Loaded, e: Entry, relocs: seq<Rela>, more: seq<Rela>, c: seq<Byte>, f: Found)
      requires ClearOf(more, e)
      ensures Right(m, e, relocs + more, c, f) <==> Right(m, e, relocs, c, f)
    {
      AtRunJoin(m, relocs, more, e.offset, Word(c, e.offset));
      AtRunNone(m, more, e.offset, AtRun(m, relocs, e.offset, Word(c, e.offset)));
      if e.kind == TlsGd {
        AtRunJoin(m, relocs, more, e.offset + 4, Word(c, e.offset + 4));
        AtRunNone(m, more, e.offset + 4, AtRun(m, relocs, e.offset + 4, Word(c, e.offset + 4)));
      }
    }

    lemma OutcomeKept(s: Sym, e: Entry, g: map<Sym, HashSym>, c: seq<Byte>, relocs: seq<Rela>, more: seq<Rela>)
      requires Outcome(s, e, g, c, relocs) && ClearOf(more, e)
      ensures Outcome(s, e, g, c, relocs + more)
    {
      forall m: Loaded, f: Found
        ensures Right(m, e, relocs + more, c, f) <==> Right(m, e, relocs, c, f)
      {
        RightKept(m, e, relocs, more, c, f);
      }
    }

    /** The first i entries not handled before have had their outcome. */
    ghost predicate Served(s: Sym, list: seq<Entry>, g: map<Sym, HashSym>, c: seq<Byte>, relocs: seq<Rela>, i: nat)
    {
      forall j :: 0 <= j < i && j < |list| && !list[j].created ==> Outcome(s, list[j], g, c, relocs)
    }

    /** What the next entry adds leaves the outcome of the others. */
    lemma ServedKept(s: Sym, list: seq<Entry>, c: seq<Byte>, relocs: seq<Rela>, i: nat)
      requires Valid() && CreatedUpto(s, list, i) && i < |list| && Served(s, list, globals, c, relocs, i)
      ensures Served(s, list, globals, c, relocs + Wanted(s, list[i], globals, c), i)
    {
      forall j | 0 <= j < i && !list[j].created
        ensures Outcome(s, list[j], globals, c, relocs + Wanted(s, list[i], globals, c))
      {
        ClearOfOthers(s, i, j, globals, c);
        assert List(s)[i] == list[i] && List(s)[j] == list[j].(created := true);
        OutcomeKept(s, list[j], globals, c, relocs, Wanted(s, list[i], globals, c));
      }
    }

    /** elf_arc_relocate_section, for a relocation that uses the GOT entry of a local
        symbol: its value, then its relocations.  Thread-local slots come out right
        in every program; an address does if and only if the module is not moved. */
    method RelocateLocal(s: Sym, t: TlsType, home: Home, power: nat) returns (offset: nat, ghost e: Entry)
      requires Valid() && HasEntry(Key(s, t)) && t != TlsLe && contents.Length == gotSize && s !in globals
      modifies this`lists, this`relocs, this`emitted, contents
      ensures Valid() && e in old(List(s)) && e.kind == t && offset == e.offset
      ensures forall b :: 0 <= b < contents.Length && !Occupies(e, b) ==> contents[b] == old(contents[b])
      ensures !dynamic ==> relocs == old(relocs)
      ensures !dynamic && !e.processed ==> Final(e, contents[..], home, power)
      ensures dynamic && !e.processed && !e.created && old(Blank(e, contents[..])) ==> forall m: Loaded ::
        Right(m, e, relocs, contents[..], Here(m, home)) <==> (t == Normal ==> Same(m.shift, 0))
    {
      ghost var index;
      offset, index := FixValue(s, t, true, home, power);
      e := old(List(s))[index];
      assert IsEntry(Key(s, t), index);
      var at := EntryForType(List(s), t);
      OneEntryPerType(s, at.value, index);
      assert List(s)[index] == e.(processed := true);
      CreateForEntry(s, at.value);
      if dynamic && !e.processed && !e.created && old(Blank(e, contents[..])) {
        LocalOutcome(s, e, globals, contents[..], relocs, home);
      }
    }

    lemma LocalOutcome(s: Sym, e: Entry, g: map<Sym, HashSym>, c: seq<Byte>, relocs: seq<Rela>, home: Home)
      requires s !in g && Outcome(s, e.(processed := true), g, c, relocs) && Filled(s, e, g, c, home)
      ensures forall m: Loaded ::
        Right(m, e, relocs, c, Here(m, home)) <==> (e.kind == Normal ==> Same(m.shift, 0))
    {
      var seen := e.(processed := true);
      forall m: Loaded
        ensures Right(m, e, relocs, c, Here(m, home)) <==> (e.kind == Normal ==> Same(m.shift, 0))
      {
        assert Filled(s, seen, g, c, home) && BoundHere(s, g, m, home);
        assert Right(m, seen, relocs, c, Here(m, home)) <==> ComesRight(s, seen, g, m.shift, home);
      }
    }

    /** A program linked without dynamic sections is not moved, and its thread-local
        block starts at the first aligned place behind the control block: the words
        alone give it what it needs.  (Nothing fills in the module number.) */
    lemma FinalIsRight(m: Loaded, e: Entry, relocs: seq<Rela>, c: seq<Byte>, home: Home, power: nat)
      requires Final(e, c, home, power) && ClearOf(relocs, e) && m.shift == 0 && m.block == AlignPower(TCB, power)
      ensures e.kind != TlsGd ==> Right(m, e, relocs, c, Here(m, home))
      ensures e.kind == TlsGd ==>
        Same(AtRun(m, relocs, e.offset + 4, Word(c, e.offset + 4)), Here(m, home).offset)
    {
      AtRunNone(m, relocs, e.offset, Word(c, e.offset));
      if e.kind == TlsGd {
        AtRunNone(m, relocs, e.offset + 4, Word(c, e.offset + 4));
      }
    }

    /** Two entries that come out wrong: a local symbol's address in a module that
        was moved, and the thread offset of a symbol settled here that is in the
        dynamic symbol table as well, which is added twice. */
    lemma WrongSlots(c: seq<Byte>)
      requires c == Put(endian, 4, 8)
      ensures var e, home, m := Entry(Normal, 0, true, false, NoneYet), Home(8, 0), Loaded(0x1000, 1, 0, map[]);
        Filled(0, e, map[], c, home) && !Right(m, e, Wanted(0, e, map[], c), c, Here(m, home))
      ensures var e, home := Entry(TlsIe, 0, true, false, Off), Home(8, 0);
        var g := map[0 := HashSym(5, false, false, false, false, true, false)];
        var m := Loaded(0, 1, 0, map[5 := Found(8, 1, 8, 8)]);
        && Filled(0, e, g, c, home) && BoundHere(0, g, m, home)
        && !Right(m, e, Wanted(0, e, g, c), c, Here(m, home))
    {
      WordPut(c, 0, 8);
      var e, m := Entry(Normal, 0, true, false, NoneYet), Loaded(0x1000, 1, 0, map[]);
      SettledComesRight(0, e, map[], c, [], m, Home(8, 0));
      assert [] + Wanted(0, e, map[], c) == Wanted(0, e, map[], c);
      var x, n := Entry(TlsIe, 0, true, false, Off), Loaded(0, 1, 0, map[5 := Found(8, 1, 8, 8)]);
      var g := map[0 := HashSym(5, false, false, false, false, true, false)];
      SettledComesRight(0, x, g, c, [], n, Home(8, 0));
      assert [] + Wanted(0, x, g, c) == Wanted(0, x, g, c);
    }

    /** Where the loop stands after i entries: their relocations follow those there before. */
    ghost predicate Progress(s: Sym, list: seq<Entry>, g: map<Sym, HashSym>, c: seq<Byte>, before: seq<Rela>, i: nat)
      reads this
    {
      && i <= |list| && CreatedUpto(s, list, i) && 12 * |relocs| <= relSize
      && relocs == before + WantedUpto(s, list, g, c, i)
      && (dynamic ==> Served(s, list, g, c, relocs, i))
    }

    /** One entry of the loop. */
    method CreateTurn(s: Sym, i: nat, ghost list: seq<Entry>, ghost before: seq<Rela>)
      requires Valid() && contents.Length == gotSize && i < |list|
      requires Progress(s, list, globals, contents[..], before, i)
      modifies this`lists, this`relocs, this`emitted
      ensures Valid() && Progress(s, list, globals, contents[..], before, i + 1)
    {
      assert List(s)[i] == list[i];
      if dynamic {
        ServedKept(s, list, contents[..], relocs, i);
      }
      ghost var so := relocs;
      CreateForEntry(s, i);
      assert list[i].created || !dynamic ==> relocs == so;
    }

    /** create_got_dynrelocs_for_got_info: the relocations of every entry of the
        symbol, in order.  Running it again adds nothing. */
    method CreateForSymbol(s: Sym)
      requires Valid() && contents.Length == gotSize
      modifies this`lists, this`relocs, this`emitted
      ensures Valid() && 12 * |relocs| <= relSize
      ensures CreatedUpto(s, old(List(s)), |old(List(s))|)
      ensures relocs == old(relocs) + WantedUpto(s, old(List(s)), globals, contents[..], |old(List(s))|)
      ensures (forall i :: 0 <= i < |old(List(s))| ==> old(List(s))[i].created) ==> relocs == old(relocs)
      ensures dynamic ==> forall i :: 0 <= i < |old(List(s))| && !old(List(s))[i].created ==>
        Outcome(s, old(List(s))[i], globals, contents[..], relocs)
    {
      EmittedWithinReserved();
      ghost var list, before := List(s), relocs;
      assert relocs == before + [];
      var i := 0;
      while i < |List(s)|
        invariant Valid() && |List(s)| == |list| && i <= |list|
        invariant Progress(s, list, globals, contents[..], before, i)
      {
        CreateTurn(s, i, list, before);
        i := i + 1;
      }
      NoneWantedIf(s, list, globals, contents[..]);
    }
  }
}
