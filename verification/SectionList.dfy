/** The intrusive doubly linked list of a bfd's sections
    (binutils/bfd/bfd-in2.h).  A removed section keeps its stale links. */
module SectionList {

  class Section {
    var next: Section?
    var prev: Section?

    constructor ()
      ensures next == null && prev == null
    {
      next, prev := null, null;
    }
  }

  ghost function IndexOf(s: seq<Section>, x: Section): (k: nat)
    requires x in s
    ensures k < |s| && s[k] == x
  {
    var k :| 0 <= k < |s| && s[k] == x;
    k
  }

  ghost function Without(s: seq<Section>, k: nat): seq<Section>
    requires k < |s|
  {
    s[..k] + s[k + 1..]
  }

  ghost function With(s: seq<Section>, k: nat, x: Section): seq<Section>
    requires k <= |s|
  {
    s[..k] + [x] + s[k..]
  }

  ghost predicate Distinct(s: seq<Section>)
  {
    forall i, j :: 0 <= i < j < |s| ==> s[i] != s[j]
  }

  /** The neighbour at position i, null past either end. */
  ghost function At(s: seq<Section>, i: int): Section?
  {
    if 0 <= i < |s| then s[i] else null
  }

  /** What the list pointers of all sections were at some time. */
  datatype Links = Links(list: seq<Section>, ever: set<Section>,
                         next: map<Section, Section?>, prev: map<Section, Section?>)

  ghost predicate LinkOk(l: Links, i: nat)
    requires i < |l.list|
  {
    var x := l.list[i];
    x in l.ever && x in l.next && x in l.prev && l.next[x] == At(l.list, i + 1) && l.prev[x] == At(l.list, i - 1)
  }

  ghost predicate SeveredIn(l: Links, t: Section)
  {
    && t in l.next
    && (l.next[t] != null ==>
          l.next[t] in l.ever && l.next[t] in l.prev && (t !in l.list ==> l.prev[l.next[t]] != t))
  }

  ghost predicate LinksOk(l: Links)
  {
    && Distinct(l.list)
    && (forall i :: 0 <= i < |l.list| ==> LinkOk(l, i))
    && (forall t :: t in l.ever ==> SeveredIn(l, t))
  }

  /** The list pointers of `struct bfd`. */
  class Bfd {
    var sections: Section?
    var sectionLast: Section?
    ghost var list: seq<Section>   // the sections now in the list, in order
    ghost var ever: set<Section>   // every section that was ever inserted

    /** The links of the section at position i. */
    ghost predicate Cell(i: nat)
      reads this, ever
      requires i < |list|
    {
      && list[i] in ever
      && list[i].next == At(list, i + 1)
      && list[i].prev == At(list, i - 1)
    }

    /** The pointers represent `list`. */
    ghost predicate Linked()
      reads this, ever
    {
      && Distinct(list)
      && sections == At(list, 0)
      && sectionLast == At(list, |list| - 1)
      && forall i :: 0 <= i < |list| ==> Cell(i)
    }

    /** The successor of a section that was removed does not point back at it. */
    ghost predicate Severed(s: Section)
      reads this, ever
      requires s in ever
    {
      s.next != null ==> s.next in ever && (s !in list ==> s.next.prev != s)
    }

    ghost predicate Valid()
      reads this, ever
    {
      Linked() && forall s :: s in ever ==> Severed(s)
    }

    constructor ()
      ensures Valid() && list == [] && ever == {}
    {
      sections, sectionLast, list, ever := null, null, [], {};
    }

    /** bfd_section_list_remove */
    method Remove(s: Section)
      requires Valid() && s in list
      modifies this, ever
      ensures Valid() && ever == old(ever)
      ensures list == Without(old(list), IndexOf(old(list), s))
      ensures s !in list
    {
      ghost var was, k := list, IndexOf(list, s);
      assert Cell(k);
      assert k > 0 ==> Cell(k - 1);
      assert k < |was| - 1 ==> Cell(k + 1);
      var next := s.next;
      var prev := s.prev;
      if prev != null {
        prev.next := next;
      } else {
        sections := next;
      }
      if next != null {
        next.prev := prev;
      } else {
        sectionLast := prev;
      }
      list := Without(was, k);
      forall i | 0 <= i < |list|
        ensures Cell(i)
      {
        assert old(Cell(if i < k then i else i + 1));
      }
      forall t | t in ever
        ensures Severed(t)
      {
        assert old(Severed(t));
      }
    }

    /** The pointers as they are now. */
    ghost function Snapshot(): Links
      reads this, ever
    {
      Links(list, ever, map t | t in ever :: t.next, map t | t in ever :: t.prev)
    }

    lemma SnapshotOk()
      requires Valid()
      ensures LinksOk(Snapshot())
    {
      var l := Snapshot();
      forall i | 0 <= i < |l.list|
        ensures LinkOk(l, i)
      {
        assert Cell(i);
      }
      forall t | t in l.ever
        ensures SeveredIn(l, t)
      {
        assert Severed(t);
      }
    }

    /** Since l only the pointers around position k moved, and they moved to s. */
    ghost predicate SplicedAt(l: Links, k: nat, s: Section)
      reads this, ever
    {
      && k <= |l.list| && ever == l.ever + {s} && list == With(l.list, k, s)
      && s.next == At(l.list, k) && s.prev == At(l.list, k - 1)
      && (forall t :: t in l.ever && t != s ==>
            && t in l.next && t in l.prev
            && t.next == (if t == At(l.list, k - 1) then s else l.next[t])
            && t.prev == (if t == At(l.list, k) then s else l.prev[t]))
      && sections == At(list, 0) && sectionLast == At(list, |list| - 1)
    }

    lemma SplicedCell(l: Links, k: nat, s: Section, i: nat)
      requires LinksOk(l) && s !in l.list && SplicedAt(l, k, s) && i < |list|
      ensures Cell(i)
    {
      if i < k {
        assert LinkOk(l, i);
      } else if i > k {
        assert LinkOk(l, i - 1);
      }
    }

    lemma SplicedSevered(l: Links, k: nat, s: Section, t: Section)
      requires LinksOk(l) && s !in l.list && SplicedAt(l, k, s) && t in ever
      requires forall i :: 0 <= i < |list| ==> Cell(i)
      ensures Severed(t)
    {
      if t == s {
        assert k < |l.list| ==> LinkOk(l, k);
      } else {
        assert SeveredIn(l, t);
        if k > 0 && t == l.list[k - 1] {
          assert list[k - 1] == t;
        }
      }
    }

    /** A section spliced in keeps the list a list. */
    lemma Spliced(l: Links, k: nat, s: Section)
      requires LinksOk(l) && s !in l.list && SplicedAt(l, k, s)
      ensures Valid()
    {
      forall i | 0 <= i < |list|
        ensures Cell(i)
      {
        SplicedCell(l, k, s, i);
      }
      forall t | t in ever
        ensures Severed(t)
      {
        SplicedSevered(l, k, s, t);
      }
    }

    /** bfd_section_list_append */
    method Append(s: Section)
      requires Valid() && s !in list
      modifies this, ever, s
      ensures Valid() && list == old(list) + [s] && ever == old(ever) + {s}
    {
      ghost var l := Snapshot();
      SnapshotOk();
      assert list != [] ==> Cell(|list| - 1);
      s.next := null;
      if sectionLast != null {
        s.prev := sectionLast;
        sectionLast.next := s;
      } else {
        s.prev := null;
        sections := s;
      }
      sectionLast := s;
      list, ever := With(list, |list|, s), ever + {s};
      Spliced(l, |l.list|, s);
    }

    /** bfd_section_list_prepend */
    method Prepend(s: Section)
      requires Valid() && s !in list
      modifies this, ever, s
      ensures Valid() && list == [s] + old(list) && ever == old(ever) + {s}
    {
      ghost var l := Snapshot();
      SnapshotOk();
      assert list != [] ==> Cell(0);
      s.prev := null;
      if sections != null {
        s.next := sections;
        sections.prev := s;
      } else {
        s.next := null;
        sectionLast := s;
      }
      sections := s;
      list, ever := With(list, 0, s), ever + {s};
      Spliced(l, 0, s);
    }

    /** bfd_section_list_insert_after */
    method InsertAfter(a: Section, s: Section)
      requires Valid() && a in list && s !in list
      modifies this, ever, s
      ensures Valid() && ever == old(ever) + {s}
      ensures list == With(old(list), IndexOf(old(list), a) + 1, s)
    {
      ghost var l, k := Snapshot(), IndexOf(list, a) + 1;
      SnapshotOk();
      assert Cell(k - 1);
      assert At(list, k - 1) == a && At(list, k) == a.next;
      LinkAfter(a, s);
      list, ever := With(list, k, s), ever + {s};
      assert sectionLast == At(list, |list| - 1);
      Spliced(l, k, s);
    }

    /** Its pointers. */
    method LinkAfter(a: Section, s: Section)
      requires a in ever && s != a && a.next != a && a.next != s && (a.next != null ==> a.next in ever)
      modifies this`sectionLast, ever, s
      ensures s.next == old(a.next) && s.prev == a
      ensures forall t :: t in ever && t != s ==> t.next == if t == a then s else old(t.next)
      ensures forall t :: t in ever && t != s ==> t.prev == if t == old(a.next) then s else old(t.prev)
      ensures sectionLast == if old(a.next) == null then s else old(sectionLast)
    {
      var next := a.next;
      s.next := next;
      s.prev := a;
      a.next := s;
      if next != null {
        next.prev := s;
      } else {
        sectionLast := s;
      }
    }

    /** bfd_section_list_insert_before */
    method InsertBefore(b: Section, s: Section)
      requires Valid() && b in list && s !in list
      modifies this, ever, s
      ensures Valid() && ever == old(ever) + {s}
      ensures list == With(old(list), IndexOf(old(list), b), s)
    {
      ghost var l, k := Snapshot(), IndexOf(list, b);
      SnapshotOk();
      assert Cell(k);
      assert k > 0 ==> Cell(k - 1);
      LinkBefore(b, s);
      list, ever := With(list, k, s), ever + {s};
      Spliced(l, k, s);
    }

    /** Its pointers. */
    method LinkBefore(b: Section, s: Section)
      requires b in ever && s != b && b.prev != b && b.prev != s && (b.prev != null ==> b.prev in ever)
      modifies this`sections, ever, s
      ensures s.next == b && s.prev == old(b.prev)
      ensures forall t :: t in ever && t != s ==> t.next == if t == old(b.prev) then s else old(t.next)
      ensures forall t :: t in ever && t != s ==> t.prev == if t == b then s else old(t.prev)
      ensures sections == if old(b.prev) == null then s else old(sections)
    {
      var prev := b.prev;
      s.prev := prev;
      s.next := b;
      b.prev := s;
      if prev != null {
        prev.next := s;
      } else {
        sections := s;
      }
    }

    /** bfd_section_removed_from_list: exact for every section ever inserted. */
    function Removed(s: Section): (r: bool)
      reads this, s, s.next, ever
      requires Valid() && s in ever
      ensures r <==> s !in list
    {
      assert Severed(s);
      assert s in list ==> Cell(IndexOf(list, s)) && (s.next != null ==> Cell(IndexOf(list, s) + 1));
      if s.next != null then s.next.prev != s else sectionLast != s
    }
  }
}
