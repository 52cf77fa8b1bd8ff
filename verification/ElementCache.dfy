/** The cache of opened archive elements, keyed by file position
    (binutils/bfd/archive.c). */
module ElementCache {

  // ----- what the cache promises ---------------------------------------------

  /** The archive's format is known or not, and its table of elements. */
  datatype State<!E> = State(known: bool, m: map<int, E>)

  /** `Open` of a position that misses yields `made`; `Recognise` is one attempt to
      recognise the file as an archive, probe included. */
  datatype Op<!E> = Open(pos: int, made: E) | Close(elt: E) | Recognise(accepts: bool)

  function Opened<E>(m: map<int, E>, pos: int, made: E): E
  {
    if pos in m then m[pos] else made
  }

  function AfterOpen<E>(m: map<int, E>, pos: int, made: E, probe: bool): map<int, E>
  {
    if pos in m || probe then m else m[pos := made]
  }

  function AfterClose<E(==)>(m: map<int, E>, elt: E): map<int, E>
  {
    map k | k in m && m[k] != elt :: m[k]
  }

  /** A file is recognised once; being recognised it starts with no elements. */
  function AfterRecognise<E>(s: State<E>, accepts: bool): State<E>
  {
    if s.known || !accepts then s else State(true, map[])
  }

  function After<E(==)>(s: State<E>, op: Op<E>): State<E>
  {
    match op
    case Open(pos, made) => s.(m := AfterOpen(s.m, pos, made, false))
    case Close(elt) => s.(m := AfterClose(s.m, elt))
    case Recognise(accepts) => AfterRecognise(s, accepts)
  }

  function AfterAll<E(==)>(s: State<E>, ops: seq<Op<E>>): State<E>
    decreases ops
  {
    if ops == [] then s else AfterAll(After(s, ops[0]), ops[1..])
  }

  /** An opened position keeps returning the same element, whatever else is
      opened, closed or tried, until that element is closed. */
  lemma {:induction false} CachedUntilClosed<E>(s: State<E>, pos: int, made: E, ops: seq<Op<E>>, later: E)
    requires s.known && Close(Opened(s.m, pos, made)) !in ops
    ensures var m1 := AfterAll(After(s, Open(pos, made)), ops).m;
      pos in m1 && Opened(m1, pos, later) == Opened(s.m, pos, made)
    decreases ops
  {
    StaysCached(After(s, Open(pos, made)), pos, ops);
  }

  lemma {:induction false} StaysCached<E>(s: State<E>, pos: int, ops: seq<Op<E>>)
    requires s.known && pos in s.m && Close(s.m[pos]) !in ops
    ensures AfterAll(s, ops).known && pos in AfterAll(s, ops).m && AfterAll(s, ops).m[pos] == s.m[pos]
    decreases ops
  {
    if ops != [] {
      assert ops[0] != Close(s.m[pos]);
      StaysCached(After(s, ops[0]), pos, ops[1..]);
    }
  }

  /** The operations of a run that are no attempts at recognition. */
  function Proper<E>(ops: seq<Op<E>>): seq<Op<E>>
    decreases ops
  {
    if ops == [] then []
    else if ops[0].Recognise? then Proper(ops[1..])
    else [ops[0]] + Proper(ops[1..])
  }

  /** The first attempt that succeeds, or the end of the run. */
  function Accepted<E>(ops: seq<Op<E>>): (k: nat)
    ensures k <= |ops|
    decreases ops
  {
    if ops == [] || ops[0] == Recognise(true) then 0 else 1 + Accepted(ops[1..])
  }

  /** What a run leaves, attempts at recognition left out: everything before the
      first that succeeds is forgotten. */
  function Undisturbed<E(==)>(s: State<E>, ops: seq<Op<E>>): State<E>
  {
    if s.known || Accepted(ops) == |ops| then AfterAll(s, Proper(ops))
    else AfterAll(State(true, map[]), Proper(ops[Accepted(ops) + 1..]))
  }

  /** Attempts at recognition, and so the probes inside them, never disturb the
      table: every run, on a file whose format is known or not, leaves it as the
      same run without them does; the one that succeeds leaves it empty. */
  lemma {:induction false} ProbesNeverDisturb<E>(s: State<E>, ops: seq<Op<E>>)
    ensures AfterAll(s, ops) == Undisturbed(s, ops)
    decreases ops
  {
    if ops != [] {
      ProbesNeverDisturb(After(s, ops[0]), ops[1..]);
      if !ops[0].Recognise? {
        assert Proper(ops)[1..] == Proper(ops[1..]);
      }
      if ops[0] != Recognise(true) {
        assert ops[1..][Accepted(ops[1..])..] == ops[Accepted(ops)..];
        if Accepted(ops) < |ops| {
          assert ops[1..][Accepted(ops[1..]) + 1..] == ops[Accepted(ops) + 1..];
        }
      }
    }
  }

  /** Before recognition nothing but recognition matters: the archive starts with
      an empty table whatever was tried before. */
  lemma {:induction false} RecognisedEmpty<E>(s: State<E>, n: nat)
    requires !s.known
    ensures AfterAll(s, seq(n, _ => Recognise(false)) + [Recognise(true)]) == State(true, map[])
  {
    var ops: seq<Op<E>> := seq(n, _ => Recognise(false)) + [Recognise(true)];
    if n > 0 {
      var rest: seq<Op<E>> := seq(n - 1, _ => Recognise(false)) + [Recognise(true)];
      assert ops[1..] == rest;
      RecognisedEmpty(s, n - 1);
    } else {
      assert ops == [Recognise(true)];
      assert ops[1..] == [];
    }
  }

  /** A remark on the flag alone: it suppresses only the insertion, so opening
      with it set and closing what came back would leave a table alone exactly
      when the position was not in it. */
  lemma FlagAloneUndisturbedIffMiss<E>(m: map<int, E>, pos: int, made: E)
    requires made !in m.Values
    ensures AfterClose(AfterOpen(m, pos, made, true), Opened(m, pos, made)) == m <==> pos !in m
  {
    var r := AfterClose(AfterOpen(m, pos, made, true), Opened(m, pos, made));
    if pos in m {
      assert pos !in r;
    } else {
      assert forall k :: k in m ==> m[k] in m.Values;
      assert r == m;
    }
  }

  // ----- the pointers that implement it --------------------------------------

  class Element {
    var parentCache: Table?
    var key: int
    var open: bool

    constructor ()
      ensures parentCache == null && open
    {
      parentCache, key, open := null, 0, true;
    }
  }

  /** htab_t, as a finite map. */
  class Table {
    var entries: map<int, Element>

    constructor ()
      ensures entries == map[]
    {
      entries := map[];
    }
  }

  /** struct artdata: the table, made when first needed, and the position of the
      first member. */
  class Artdata {
    var cache: Table?
    var firstFilepos: int

    constructor ()
      ensures cache == null
    {
      cache, firstFilepos := null, 8;
    }
  }

  lemma Some<T>(s: set<T>) returns (k: T)
    requires s != {}
    ensures k in s
  {
    k :| k in s;
  }

  class Archive {
    var data: Artdata?
    var known: bool                    // format is no longer bfd_unknown
    var noElementCache: bool
    ghost var elements: set<Element>   // the elements opened and not yet closed
    ghost var tables: set<Table>       // every table made for this file

    ghost function Entries(): map<int, Element>
      reads this, data, if data == null then {} else {data.cache}
    {
      if data == null || data.cache == null then map[] else data.cache.entries
    }

    /** An element in a table knows the table and its own key there. */
    ghost predicate Filed(e: Element)
      reads this, e, tables
    {
      e.parentCache != null ==>
        && e.parentCache in tables
        && e.key in e.parentCache.entries && e.parentCache.entries[e.key] == e
    }

    /** A table holds open elements, each filed in it under its key. */
    ghost predicate TableOk(t: Table)
      reads this, t, elements
    {
      forall k :: k in t.entries ==>
        t.entries[k] in elements && t.entries[k].parentCache == t && t.entries[k].key == k
    }

    ghost predicate Valid()
      reads this, data, tables, elements
    {
      && (data != null && data.cache != null ==> data.cache in tables)
      && (known ==> data != null)
      && (forall e :: e in elements ==> e.open && Filed(e))
      && (forall t :: t in tables ==> TableOk(t))
    }

    ghost function Abstract(): State<Element>
      reads this, data, if data == null then {} else {data.cache}
    {
      State(known, Entries())
    }

    constructor ()
      ensures Valid() && !known && Entries() == map[] && elements == {} && tables == {} && !noElementCache
    {
      data, known, noElementCache, elements, tables := null, false, false, {}, {};
    }

    /** _bfd_look_for_bfd_in_cache */
    method LookFor(filepos: int) returns (e: Element?)
      requires data != null
      ensures e == if filepos in Entries() then Entries()[filepos] else null
    {
      if data.cache != null && filepos in data.cache.entries {
        e := data.cache.entries[filepos];
      } else {
        e := null;
      }
    }

    /** _bfd_add_bfd_to_archive_cache */
    method AddToCache(filepos: int, elt: Element)
      requires Valid() && data != null && elt !in elements && elt.open && elt.parentCache == null
      requires filepos !in Entries()
      modifies this`elements, this`tables, data`cache, data.cache, elt
      ensures Valid() && Entries() == old(Entries())[filepos := elt]
      ensures elements == old(elements) + {elt}
      ensures data.cache == old(data.cache) || (fresh(data.cache) && old(data.cache) == null)
      ensures tables == old(tables) + {data.cache}
      ensures elt.parentCache == data.cache && elt.key == filepos && elt.open
    {
      if data.cache == null {
        data.cache := new Table();
        tables := tables + {data.cache};
      }
      var htab := data.cache;
      htab.entries := htab.entries[filepos := elt];
      elt.parentCache := htab;
      elt.key := filepos;
      elements := elements + {elt};
      forall e | e in elements
        ensures e.open && Filed(e)
      {
        assert e != elt ==> old(Filed(e));
      }
      forall t | t in tables
        ensures TableOk(t)
      {
        assert t in old(tables) ==> old(TableOk(t));
      }
    }

    /** _bfd_get_elt_at_filepos on a non-thin archive; readable tells whether
        the header at filepos could be read. */
    method GetEltAtFilepos(filepos: int, readable: bool) returns (e: Element?)
      requires Valid() && data != null
      modifies this`elements, this`tables, data`cache, data.cache
      ensures Valid()
      ensures data.cache == old(data.cache) || (fresh(data.cache) && old(data.cache) == null)
      ensures e == null <==> filepos !in old(Entries()) && !readable
      ensures e == null ==> Entries() == old(Entries()) && elements == old(elements) && tables == old(tables)
      ensures e != null ==>
        && e in elements && (filepos !in old(Entries()) ==> fresh(e))
        && e == Opened(old(Entries()), filepos, e)
        && Entries() == AfterOpen(old(Entries()), filepos, e, noElementCache)
        && elements == old(elements) + {e}
      ensures noElementCache ==>
        data.cache == old(data.cache) && tables == old(tables) && (data.cache != null ==> unchanged(data.cache))
    {
      e := LookFor(filepos);
      if e != null {
        assert TableOk(data.cache);
        return;
      }
      if !readable {
        return;
      }
      e := new Element();
      if noElementCache {
        elements := elements + {e};
        forall x | x in elements
          ensures x.open && Filed(x)
        {
          assert x != e ==> old(Filed(x));
        }
        assert forall t :: t in tables ==> old(TableOk(t));
      } else {
        AddToCache(filepos, e);
      }
    }

    /** bfd_close on an element: _bfd_unlink_from_archive_parent, then delete.
        The entry it clears is its own, so the assertion there cannot fail; it is
        in the table the element was filed in, current or not. */
    method CloseElement(e: Element)
      requires Valid() && e in elements
      modifies this`elements, tables, e
      ensures Valid() && Entries() == AfterClose(old(Entries()), e)
      ensures elements == old(elements) - {e} && !e.open
      ensures forall t :: t in tables ==> t.entries == AfterClose(old(t.entries), e)
    {
      assert Filed(e);
      forall t | t in tables
        ensures AfterClose(t.entries, e) == if t == e.parentCache then t.entries - {e.key} else t.entries
      {
        OnlyOwnEntry(e, t);
      }
      if e.parentCache != null {
        var htab := e.parentCache;
        if e.key in htab.entries {
          assert htab.entries[e.key] == e;
          htab.entries := htab.entries - {e.key};
        }
      }
      e.open := false;
      elements := elements - {e};
      forall t | t in tables
        ensures TableOk(t)
      {
        assert old(TableOk(t));
      }
      forall x | x in elements
        ensures x.open && Filed(x)
      {
        assert old(Filed(x));
      }
    }

    /** The only entry that holds an element is the one it is filed under. */
    lemma OnlyOwnEntry(e: Element, t: Table)
      requires Valid() && e in elements && t in tables
      ensures AfterClose(t.entries, e) == if t == e.parentCache then t.entries - {e.key} else t.entries
    {
      assert Filed(e) && TableOk(t);
      assert forall k :: k in t.entries && t.entries[k] == e ==> t == e.parentCache && k == e.key;
    }

    /** Elements never filed leave every table alone when they go. */
    lemma UnfiledCloseKeeps(e: Element)
      requires Valid() && e.parentCache == null
      ensures AfterClose(Entries(), e) == Entries()
      ensures forall t :: t in tables ==> AfterClose(t.entries, e) == t.entries
    {
      forall t | t in tables
        ensures AfterClose(t.entries, e) == t.entries
      {
        assert TableOk(t);
        assert forall k :: k in t.entries ==> t.entries[k] != e;
      }
    }

    /** The look at the first member: opened with the cache off, and closed. */
    method Probe(filepos: int, readable: bool)
      requires Valid() && data != null && data.cache == null
      modifies this`noElementCache, this`elements, this`tables, data`cache, tables
      ensures Valid() && noElementCache == old(noElementCache) && data.cache == null
      ensures elements == old(elements) && tables == old(tables)
      ensures forall t :: t in tables ==> t.entries == old(t.entries)
    {
      var save := noElementCache;
      noElementCache := true;
      assert Valid() by {
        assert forall e :: e in elements ==> old(Filed(e));
        assert forall t :: t in tables ==> old(TableOk(t));
      }
      var first := GetEltAtFilepos(filepos, readable);
      if first != null {
        UnfiledCloseKeeps(first);
        CloseElement(first);
      }
      noElementCache := save;
      assert forall e :: e in elements ==> Filed(e);
      assert forall t :: t in tables ==> TableOk(t);
    }

    /** bfd_generic_archive_p: the octets of the magic, the map and the name table
        are what they are; a fresh artdata is installed before anything is read,
        so the probe of the first member misses and files nothing.  Refusal puts
        the old artdata back. */
    method ArchiveP(magicOk: bool, armapOk: bool, namesOk: bool, mapped: bool, targetDefaulted: bool,
                    firstFilepos: int, readable: bool)
      returns (accepted: bool)
      requires Valid()
      modifies this`data, this`noElementCache, this`elements, this`tables, tables
      ensures Valid() && noElementCache == old(noElementCache)
      ensures accepted <==> magicOk && armapOk && namesOk
      ensures accepted ==> fresh(data) && data.cache == null && data.firstFilepos == firstFilepos
      ensures !accepted ==> data == old(data)
      ensures elements == old(elements) && tables == old(tables)
      ensures forall t :: t in tables ==> t.entries == old(t.entries)
    {
      if !magicOk {
        return false;
      }
      var hold := data;
      data := new Artdata();
      if !armapOk || !namesOk {
        data := hold;
        return false;
      }
      data.firstFilepos := firstFilepos;
      assert Valid() by {
        assert forall e :: e in elements ==> old(Filed(e));
        assert forall t :: t in tables ==> old(TableOk(t));
      }
      if targetDefaulted && mapped {
        Probe(data.firstFilepos, readable);
      }
      accepted := true;
    }

    /** bfd_check_format for archives: a format once known is not tried again. */
    method Recognise(magicOk: bool, armapOk: bool, namesOk: bool, mapped: bool, targetDefaulted: bool,
                     firstFilepos: int, readable: bool)
      returns (accepted: bool)
      requires Valid()
      modifies this`data, this`known, this`noElementCache, this`elements, this`tables, tables
      ensures Valid() && noElementCache == old(noElementCache)
      ensures Abstract() == AfterRecognise(old(Abstract()), accepted)
      ensures accepted <==> old(known) || (magicOk && armapOk && namesOk)
      ensures elements == old(elements) && tables == old(tables)
      ensures forall t :: t in tables ==> t.entries == old(t.entries)
    {
      if known {
        return true;
      }
      accepted := ArchiveP(magicOk, armapOk, namesOk, mapped, targetDefaulted, firstFilepos, readable);
      if accepted {
        known := true;
      }
    }

    /** _bfd_archive_close_and_cleanup: every cached element is closed, then the
        table goes. */
    method CloseArchive()
      requires Valid() && data != null
      modifies this`elements, data`cache, tables, elements
      ensures data.cache == null && Valid()
      ensures elements == old(elements) - Held(old(Entries()), old(Entries()).Keys)
      ensures forall e :: e in Held(old(Entries()), old(Entries()).Keys) ==> !e.open
    {
      if data.cache != null {
        CloseAll();
        assert forall e :: e in elements ==> Filed(e);
        assert forall t :: t in tables ==> TableOk(t);
        data.cache := null;
      }
    }

    /** archive_close_worker on one slot. */
    method CloseSlot(k: int)
      requires Valid() && data != null && data.cache != null && k in Entries()
      modifies this`elements, tables, elements
      ensures Valid() && Entries() == old(Entries()) - {k}
      ensures elements == old(elements) - {old(Entries())[k]} && !old(Entries())[k].open
      ensures forall e :: e in elements ==> e.open
    {
      assert TableOk(data.cache);
      var e := data.cache.entries[k];
      assert forall j :: j in Entries() && j != k ==> Entries()[j].key == j;
      CloseElement(e);
      assert AfterClose(old(Entries()), e) == old(Entries()) - {k};
    }

    /** archive_close_worker over the whole table. */
    method CloseAll()
      requires Valid() && data != null && data.cache != null
      modifies this`elements, tables, elements
      ensures Valid() && Entries() == map[]
      ensures elements == old(elements) - Held(old(Entries()), old(Entries()).Keys)
      ensures forall e :: e in Held(old(Entries()), old(Entries()).Keys) ==> !e.open
    {
      ghost var was := Entries();
      ghost var done := {};
      while data.cache.entries.Keys != {}
        invariant Valid() && elements <= old(elements)
        invariant Entries() == was - done && done <= was.Keys
        invariant elements == old(elements) - Held(was, done)
        invariant forall e :: e in Held(was, done) ==> !e.open
        decreases was.Keys - done
      {
        ghost var one := Some(data.cache.entries.Keys);
        var k :| k in data.cache.entries.Keys;
        HeldMore(was, done, k);
        CloseSlot(k);
        done := done + {k};
      }
    }
  }

  /** The elements a table holds under some keys. */
  ghost function Held<E>(m: map<int, E>, keys: set<int>): set<E>
    requires keys <= m.Keys
  {
    set k | k in keys :: m[k]
  }

  lemma HeldMore<E>(m: map<int, E>, keys: set<int>, k: int)
    requires keys <= m.Keys && k in m
    ensures Held(m, keys + {k}) == Held(m, keys) + {m[k]}
  {
    assert forall e :: e in Held(m, keys) ==> e in Held(m, keys + {k});
    assert m[k] in Held(m, keys + {k});
  }
}
