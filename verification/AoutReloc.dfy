/** Relocating a.out sections (binutils/bfd/aoutx.h): linking in two steps, first
    to a relocatable file and then to an executable, against linking at once. */
module AoutReloc {

  /** Where a section was and where a link puts it: its vma, the vma of its
      output section and its offset in there. */
  datatype Placement = Placement(vma: int, outVma: int, outOffset: nat)

  datatype SecId = Text | Data | Bss | Abs

  /** The absolute section never moves. */
  const FIXED := Placement(0, 0, 0)

  datatype Layout = Layout(text: Placement, data: Placement, bss: Placement)
  {
    function At(s: SecId): Placement
    {
      match s
      case Text => text
      case Data => data
      case Bss => bss
      case Abs => FIXED
    }
  }

  /** What a symbol is at the time of a link: defined in a section of one of the
      inputs, known by its final address only, or not defined. */
  datatype SymState = Defined(value: int, sec: SecId) | Elsewhere(address: int) | Undefined

  datatype Target = Section(sec: SecId) | Symbol(n: nat)

  /** One link: how it lays out the sections of the input, which section is being
      relocated, and what it knows about the symbols. */
  datatype Link = Link(layout: Layout, here: SecId, table: map<nat, SymState>)
  {
    function Here(): Placement { layout.At(here) }

    function Sym(n: nat): SymState { if n in table then table[n] else Undefined }
  }

  function MovedBy(p: Placement): int { p.outVma + p.outOffset - p.vma }

  /** The relocation a relocatable link adds to the addend. */
  function Partial(l: Link, t: Target, pcRelative: bool, pcrelOffset: bool): int
  {
    var r := match t
      case Section(s) => MovedBy(l.layout.At(s))
      case Symbol(n) =>
        match l.Sym(n)
        case Defined(v, s) => v + l.layout.At(s).outVma + l.layout.At(s).outOffset
        case Elsewhere(_) => 0
        case Undefined => 0;
    r - if pcRelative && !pcrelOffset then MovedBy(l.Here()) else 0
  }

  /** The target after a relocatable link: a symbol it defines becomes the
      section the symbol went to. */
  function Retarget(l: Link, t: Target): Target
  {
    match t
    case Section(_) => t
    case Symbol(n) => if l.Sym(n).Defined? then Section(l.Sym(n).sec) else t
  }

  /** The value a final link computes: relocation and addend, less the source for
      a pc-relative type (_bfd_final_link_relocate). */
  function Final(l: Link, t: Target, pcRelative: bool, pcrelOffset: bool, addr: int, addend: int): int
  {
    var relocation := match t
      case Section(s) => MovedBy(l.layout.At(s)) + if pcRelative then l.Here().vma else 0
      case Symbol(n) =>
        match l.Sym(n)
        case Defined(v, s) => v + l.layout.At(s).outVma + l.layout.At(s).outOffset
        case Elsewhere(a) => a
        case Undefined => 0;
    relocation + addend
      - (if pcRelative then l.Here().outVma + l.Here().outOffset else 0)
      - (if pcRelative && pcrelOffset then addr else 0)
  }

  // ----- what a field refers to ------------------------------------------------

  /** Where a link puts the start of a section. */
  function Goes(p: Placement): int { p.outVma + p.outOffset }

  /** The address a target has in the output of a link; 0 for what is not defined. */
  function Address(l: Link, t: Target): int
  {
    match t
    case Section(s) => Goes(l.layout.At(s))
    case Symbol(n) =>
      match l.Sym(n)
      case Defined(value, s) => Goes(l.layout.At(s)) + value
      case Elsewhere(address) => address
      case Undefined => 0
  }

  /** What an input holds, in the field or in the addend, to refer to the place k
      behind its target: an address counted from where the target's section is in
      the input, from 0 for a symbol; less the place of the field itself if the
      reference is pc-relative, that place counted the same way, and without the
      offset of the field when the type has pcrel_offset. */
  function Given(layout: Layout, here: SecId, t: Target, k: int, pcRelative: bool, pcrelOffset: bool, addr: int): int
  {
    var target := if t.Section? then layout.At(t.sec).vma else 0;
    var source := if t.Section? then layout.At(here).vma else 0;
    target + k - (if !pcRelative then 0 else if pcrelOffset then source else source + addr)
  }

  /** What the field of an executable must hold for it: that place in the output,
      less where the field itself goes if the reference is pc-relative. */
  function Meant(l: Link, t: Target, k: int, pcRelative: bool, addr: int): int
  {
    Address(l, t) + k - if pcRelative then Goes(l.Here()) + addr else 0
  }

  /** A final link keeps every reference: to a section, and to a symbol that is
      defined, known elsewhere or undefined. */
  lemma FinalKeeps(l: Link, t: Target, k: int, pcRelative: bool, pcrelOffset: bool, addr: int)
    ensures Final(l, t, pcRelative, pcrelOffset, addr, Given(l.layout, l.here, t, k, pcRelative, pcrelOffset, addr))
         == Meant(l, t, k, pcRelative, addr)
  {
  }

  /** How far behind its new target a reference points after a relocatable link. */
  function Behind(l: Link, t: Target, k: int): int
  {
    match t
    case Section(s) => l.layout.At(s).outOffset + k
    case Symbol(n) =>
      if l.Sym(n).Defined? then l.layout.At(l.Sym(n).sec).outOffset + l.Sym(n).value + k else k
  }

  /** The sections of the file a relocatable link makes, as an input of the next. */
  predicate MadeBy(l: Link, layout: Layout) { forall s :: layout.At(s).vma == l.layout.At(s).outVma }

  /** A relocatable link keeps the reference, as the next link will understand it,
      exactly under this condition. */
  lemma PartialKeepsIff(l: Link, next: Layout, t: Target, k: int, pcRelative: bool, pcrelOffset: bool, addr: int)
    requires MadeBy(l, next)
    ensures Given(l.layout, l.here, t, k, pcRelative, pcrelOffset, addr) + Partial(l, t, pcRelative, pcrelOffset)
         == Given(next, l.here, Retarget(l, t), Behind(l, t, k), pcRelative, pcrelOffset, addr + l.Here().outOffset)
      <==> Exact(l, t, pcRelative, pcrelOffset)
  {
    assert next.At(l.here).vma == l.Here().outVma;
    match Retarget(l, t)
    case Section(s) => assert next.At(s).vma == l.layout.At(s).outVma;
    case Symbol(_) =>
  }

  // ----- two links in a row ----------------------------------------------------

  function Compose(p: Placement, q: Placement): Placement
  {
    Placement(p.vma, q.outVma, p.outOffset + q.outOffset)
  }

  /** `first` makes a relocatable file, `second` links that file, `direct` does
      both at once: output sections of the first link are the input sections of
      the second, and a symbol is known to the second link by its final address
      if the first did not define it. */
  ghost predicate Successive(first: Link, second: Link, direct: Link)
  {
    && first.here == second.here == direct.here
    && (forall s :: second.layout.At(s).vma == first.layout.At(s).outVma)
    && (forall s :: direct.layout.At(s) == Compose(first.layout.At(s), second.layout.At(s)))
    && (forall n: nat {:trigger first.Sym(n)} {:trigger direct.Sym(n)} ::
          direct.Sym(n) == if first.Sym(n).Defined? then first.Sym(n) else second.Sym(n))
    && (forall n: nat {:trigger second.Sym(n)} :: !first.Sym(n).Defined? ==> !second.Sym(n).Defined?)
  }

  /** By how much two steps miss the direct link. */
  function Discrepancy(first: Link, t: Target, pcRelative: bool, pcrelOffset: bool): int
  {
    var here := first.Here();
    var moved := match t
      case Section(_) => 0
      case Symbol(n) => if first.Sym(n).Defined? then here.vma else here.vma - here.outVma;
    if !pcRelative then 0
    else if pcrelOffset then moved + here.outVma - here.vma
    else moved
  }

  /** Two steps give the direct value plus the discrepancy. */
  lemma {:induction false} TwoSteps(first: Link, second: Link, direct: Link, t: Target, pcRelative: bool,
                                    pcrelOffset: bool, addr: int, addend: int)
    requires Successive(first, second, direct)
    ensures
      Final(second, Retarget(first, t), pcRelative, pcrelOffset, addr + first.Here().outOffset,
            addend + Partial(first, t, pcRelative, pcrelOffset))
      == Final(direct, t, pcRelative, pcrelOffset, addr, addend) + Discrepancy(first, t, pcRelative, pcrelOffset)
  {
    var s := first.here;
    assert direct.layout.At(s) == Compose(first.layout.At(s), second.layout.At(s));
    match t
    case Section(x) =>
      assert direct.layout.At(x) == Compose(first.layout.At(x), second.layout.At(x));
      assert second.layout.At(x).vma == first.layout.At(x).outVma;
    case Symbol(n) =>
      assert direct.Sym(n) == if first.Sym(n).Defined? then first.Sym(n) else second.Sym(n);
      if first.Sym(n).Defined? {
        var x := first.Sym(n).sec;
        assert direct.layout.At(x) == Compose(first.layout.At(x), second.layout.At(x));
        assert second.layout.At(x).vma == first.layout.At(x).outVma;
      }
  }

  /** The value two steps give less the value of the direct link. */
  function Error(first: Link, second: Link, direct: Link, t: Target, pcRelative: bool, pcrelOffset: bool, addr: int,
                 addend: int): int
  {
    Final(second, Retarget(first, t), pcRelative, pcrelOffset, addr + first.Here().outOffset,
          addend + Partial(first, t, pcRelative, pcrelOffset))
    - Final(direct, t, pcRelative, pcrelOffset, addr, addend)
  }

  /** A pc-relative relocation against a symbol the first link defines is right
      exactly when the section it is in was at address zero: the first link turns
      it into a section-relative one, whose addend the second link takes to
      include that address. */
  lemma {:induction false} PcRelativeSymbolExactIff(first: Link, second: Link, direct: Link, n: nat, addr: int,
                                                    addend: int)
    requires Successive(first, second, direct) && first.Sym(n).Defined?
    ensures Error(first, second, direct, Symbol(n), true, false, addr, addend) == 0 <==> first.Here().vma == 0
  {
    TwoSteps(first, second, direct, Symbol(n), true, false, addr, addend);
  }

  /** When two steps are exact, case by case. */
  predicate Exact(first: Link, t: Target, pcRelative: bool, pcrelOffset: bool)
  {
    var here := first.Here();
    !pcRelative ||
    match t
    case Section(_) => !pcrelOffset || here.outVma == here.vma
    case Symbol(n) =>
      if first.Sym(n).Defined? then (if pcrelOffset then here.outVma else here.vma) == 0
      else pcrelOffset || here.outVma == here.vma
  }

  /** Every relocation that is not pc-relative comes out right.  A pc-relative one
      does exactly: against a section without pcrel_offset, or if its own section
      keeps its address; against a symbol the first link defines, if the address its
      section had (with pcrel_offset, gets) is zero; against any other symbol, with
      pcrel_offset, or if its own section keeps its address. */
  lemma {:induction false} ExactIff(first: Link, second: Link, direct: Link, t: Target, pcRelative: bool,
                                    pcrelOffset: bool, addr: int, addend: int)
    requires Successive(first, second, direct)
    ensures Error(first, second, direct, t, pcRelative, pcrelOffset, addr, addend) == 0
      <==> Exact(first, t, pcRelative, pcrelOffset)
  {
    TwoSteps(first, second, direct, t, pcRelative, pcrelOffset, addr, addend);
  }

  // ----- section contents ------------------------------------------------------------

  /** What a relocation does to the field it covers, the field read as a number
      that counts modulo its width: add to it, or replace it. */
  datatype Op = Add(amount: int) | Store(value: int)

  /** A change to one cell of a section: the field at an address. */
  datatype Change = Change(addr: nat, op: Op)

  function Effect(op: Op, x: int): int
  {
    if op.Add? then x + op.amount else op.value
  }

  predicate Inside(cs: seq<Change>, n: nat) { forall i :: 0 <= i < |cs| ==> cs[i].addr < n }

  /** The cells after the first n changes. */
  function Upto(cells: seq<int>, cs: seq<Change>, n: nat): (r: seq<int>)
    requires n <= |cs| && Inside(cs, |cells|)
    ensures |r| == |cells|
  {
    if n == 0 then cells
    else
      var before, c := Upto(cells, cs, n - 1), cs[n - 1];
      before[c.addr := Effect(c.op, before[c.addr])]
  }

  function Applied(cells: seq<int>, cs: seq<Change>): (r: seq<int>)
    requires Inside(cs, |cells|)
    ensures |r| == |cells|
  {
    Upto(cells, cs, |cs|)
  }

  lemma {:induction false} UptoPrefix(cells: seq<int>, a: seq<Change>, b: seq<Change>, n: nat)
    requires Inside(a, |cells|) && Inside(a + b, |cells|) && n <= |a|
    ensures Upto(cells, a + b, n) == Upto(cells, a, n)
  {
    if n > 0 {
      UptoPrefix(cells, a, b, n - 1);
    }
  }

  lemma {:induction false} UptoSuffix(cells: seq<int>, a: seq<Change>, b: seq<Change>, n: nat)
    requires Inside(a, |cells|) && Inside(b, |cells|) && Inside(a + b, |cells|) && n <= |b|
    ensures Upto(cells, a + b, |a| + n) == Upto(Applied(cells, a), b, n)
  {
    if n == 0 {
      UptoPrefix(cells, a, b, |a|);
    } else {
      UptoSuffix(cells, a, b, n - 1);
    }
  }

  lemma {:induction false} AppliedTwice(cells: seq<int>, a: seq<Change>, b: seq<Change>)
    requires Inside(a, |cells|) && Inside(b, |cells|)
    ensures Inside(a + b, |cells|) && Applied(cells, a + b) == Applied(Applied(cells, a), b)
  {
    UptoSuffix(cells, a, b, |b|);
  }

  ghost predicate Avoids(cs: seq<Change>, lo: nat, hi: nat)
  {
    forall i :: 0 <= i < |cs| ==> !(lo <= cs[i].addr < hi)
  }

  lemma {:induction false} OutsideKeeps(cells: seq<int>, cs: seq<Change>, lo: nat, hi: nat, n: nat)
    requires n <= |cs| && Inside(cs, |cells|) && lo <= hi <= |cells| && Avoids(cs, lo, hi)
    ensures Upto(cells, cs, n)[lo..hi] == cells[lo..hi]
  {
    if n > 0 {
      OutsideKeeps(cells, cs, lo, hi, n - 1);
    }
  }

  function Shifted(cs: seq<Change>, lo: nat): (r: seq<Change>)
    ensures |r| == |cs| && forall i :: 0 <= i < |cs| ==> r[i] == Change(cs[i].addr + lo, cs[i].op)
  {
    seq(|cs|, i requires 0 <= i < |cs| => Change(cs[i].addr + lo, cs[i].op))
  }

  /** Changes made at an offset act on the part at that offset. */
  lemma {:induction false} ShiftedActsInside(whole: seq<int>, cs: seq<Change>, lo: nat, size: nat, n: nat)
    requires lo + size <= |whole| && Inside(cs, size) && n <= |cs|
    ensures Inside(Shifted(cs, lo), |whole|)
    ensures Upto(whole, Shifted(cs, lo), n)[lo..lo + size] == Upto(whole[lo..lo + size], cs, n)
  {
    if n > 0 {
      ShiftedActsInside(whole, cs, lo, size, n - 1);
      var c := cs[n - 1];
      var outer, inner := Upto(whole, Shifted(cs, lo), n - 1), Upto(whole[lo..lo + size], cs, n - 1);
      assert outer[lo + c.addr] == outer[lo..lo + size][c.addr] == inner[c.addr];
      var y := Effect(c.op, inner[c.addr]);
      assert Upto(whole, Shifted(cs, lo), n) == outer[lo + c.addr := y];
      UpdateInside(outer, lo, size, c.addr, y);
    }
  }

  lemma UpdateInside(s: seq<int>, lo: nat, size: nat, a: nat, y: int)
    requires lo + size <= |s| && a < size
    ensures s[lo + a := y][lo..lo + size] == s[lo..lo + size][a := y]
  {
  }

  /** A section laid in the middle of a bigger one, changed together with
      neighbours that stay out of it. */
  lemma {:induction false} MiddleOfMerged(pre: seq<int>, cells: seq<int>, post: seq<int>, before: seq<Change>,
                                          ours: seq<Change>, after: seq<Change>)
    requires Inside(ours, |cells|)
    requires Inside(before, |pre + cells + post|) && Avoids(before, |pre|, |pre| + |cells|)
    requires Inside(after, |pre + cells + post|) && Avoids(after, |pre|, |pre| + |cells|)
    ensures Inside(before + Shifted(ours, |pre|) + after, |pre + cells + post|)
    ensures Applied(pre + cells + post, before + Shifted(ours, |pre|) + after)[|pre|..|pre| + |cells|]
      == Applied(cells, ours)
  {
    var whole, lo, hi := pre + cells + post, |pre|, |pre| + |cells|;
    assert whole[lo..hi] == cells;
    ThreeRounds(whole, before, ours, after, lo, |cells|);
  }

  lemma {:induction false} ThreeRounds(whole: seq<int>, before: seq<Change>, ours: seq<Change>, after: seq<Change>,
                                       lo: nat, n: nat)
    requires lo + n <= |whole| && Inside(ours, n)
    requires Inside(before, |whole|) && Avoids(before, lo, lo + n)
    requires Inside(after, |whole|) && Avoids(after, lo, lo + n)
    ensures Inside(before + Shifted(ours, lo) + after, |whole|)
    ensures Applied(whole, before + Shifted(ours, lo) + after)[lo..lo + n] == Applied(whole[lo..lo + n], ours)
  {
    var mid := Shifted(ours, lo);
    var one := Applied(whole, before);
    OutsideKeeps(whole, before, lo, lo + n, |before|);
    ShiftedActsInside(one, ours, lo, n, |ours|);
    AppliedTwice(whole, before, mid);
    AppliedTwice(whole, before + mid, after);
    OutsideKeeps(Applied(one, mid), after, lo, lo + n, |after|);
  }

  // ----- widths --------------------------------------------------------------------

  datatype Width = W8 | W16 | W32

  function Modulus(w: Width): (m: nat)
    ensures m > 0
  {
    match w
    case W8 => 0x100
    case W16 => 0x1_0000
    case W32 => 0x1_0000_0000
  }

  /** A number as a field of that width keeps it. */
  function Trunc(x: int, w: Width): (r: nat) { x % Modulus(w) }

  /** The remainder is determined by any quotient that leaves it in range. */
  lemma {:induction false} RemainderIs(x: int, q: int, r: int, w: Width)
    requires x == Modulus(w) * q + r && 0 <= r < Modulus(w)
    ensures x % Modulus(w) == r
  {
    match w
    case W8 => assert x == 0x100 * q + r;
    case W16 => assert x == 0x1_0000 * q + r;
    case W32 => assert x == 0x1_0000_0000 * q + r;
  }

  lemma {:induction false} TruncAdd(x: int, amount: int, w: Width)
    ensures Trunc(Trunc(x, w) + amount, w) == Trunc(x + amount, w)
  {
    var m := Modulus(w);
    var q, y := x / m, x % m + amount;
    assert m * (q + y / m) == m * q + m * (y / m);
    RemainderIs(x + amount, q + y / m, y % m, w);
  }

  // ----- fields keep numbers modulo their width ---------------------------------

  /** The cells after the first n changes, each result cut to the width of its
      field. */
  function UptoCut(cells: seq<nat>, widths: seq<Width>, cs: seq<Change>, n: nat): (r: seq<nat>)
    requires n <= |cs| && Inside(cs, |cells|) && |widths| == |cells|
    ensures |r| == |cells|
  {
    if n == 0 then cells
    else
      var before, c := UptoCut(cells, widths, cs, n - 1), cs[n - 1];
      before[c.addr := Trunc(Effect(c.op, before[c.addr]), widths[c.addr])]
  }

  function AppliedCut(cells: seq<nat>, widths: seq<Width>, cs: seq<Change>): (r: seq<nat>)
    requires Inside(cs, |cells|) && |widths| == |cells|
    ensures |r| == |cells|
  {
    UptoCut(cells, widths, cs, |cs|)
  }

  /** `kept` is what fields of those widths keep of `exact`. */
  ghost predicate CutTo(kept: seq<nat>, widths: seq<Width>, exact: seq<int>)
  {
    && |kept| == |widths| == |exact|
    && forall a :: 0 <= a < |kept| ==> kept[a] == Trunc(exact[a], widths[a])
  }

  lemma {:induction false} CutOne(kept: seq<nat>, widths: seq<Width>, exact: seq<int>, c: Change)
    requires CutTo(kept, widths, exact) && c.addr < |kept|
    ensures CutTo(kept[c.addr := Trunc(Effect(c.op, kept[c.addr]), widths[c.addr])], widths,
                  exact[c.addr := Effect(c.op, exact[c.addr])])
  {
    if c.op.Add? {
      TruncAdd(exact[c.addr], c.op.amount, widths[c.addr]);
    }
  }

  /** Cutting every result and cutting the last one only come to the same, from
      wherever the fields start. */
  lemma {:induction false} CuttingCommutes(kept: seq<nat>, widths: seq<Width>, exact: seq<int>, cs: seq<Change>, n: nat)
    requires n <= |cs| && Inside(cs, |kept|) && CutTo(kept, widths, exact)
    ensures CutTo(UptoCut(kept, widths, cs, n), widths, Upto(exact, cs, n))
  {
    if n > 0 {
      CuttingCommutes(kept, widths, exact, cs, n - 1);
      CutOne(UptoCut(kept, widths, cs, n - 1), widths, Upto(exact, cs, n - 1), cs[n - 1]);
    }
  }

  lemma CutJoins(a: seq<nat>, b: seq<nat>, c: seq<nat>, wa: seq<Width>, wb: seq<Width>, wc: seq<Width>, x: seq<int>)
    requires CutTo(a, wa, a) && CutTo(b, wb, x) && CutTo(c, wc, c)
    ensures CutTo(a + b + c, wa + wb + wc, a + x + c)
  {
  }

  /** The contents of a whole section between neighbours, as fields keep them, from
      what holds of the exact numbers. */
  lemma CutMiddle(kept: seq<nat>, widths: seq<Width>, pre: seq<nat>, post: seq<nat>,
                  wpre: seq<Width>, wpost: seq<Width>,
                  ours: seq<Change>, all: seq<Change>, direct: seq<Change>)
    requires CutTo(kept, widths, kept) && CutTo(pre, wpre, pre) && CutTo(post, wpost, post)
    requires Inside(ours, |kept|) && Inside(direct, |kept|) && Inside(all, |pre| + |kept| + |post|)
    requires Applied(pre + Applied(kept, ours) + post, all)[|pre|..|pre| + |kept|] == Applied(kept, direct)
    ensures AppliedCut(pre + AppliedCut(kept, widths, ours) + post, wpre + widths + wpost, all)[|pre|..|pre| + |kept|]
         == AppliedCut(kept, widths, direct)
  {
    var ws := wpre + widths + wpost;
    var mid, exact := AppliedCut(kept, widths, ours), Applied(kept, ours);
    CuttingCommutes(kept, widths, kept, ours, |ours|);
    CutJoins(pre, mid, post, wpre, widths, wpost, exact);
    CuttingCommutes(pre + mid + post, ws, pre + exact + post, all, |all|);
    CuttingCommutes(kept, widths, kept, direct, |direct|);
    MiddleOfCut(AppliedCut(pre + mid + post, ws, all), Applied(pre + exact + post, all), wpre, widths, wpost,
                AppliedCut(kept, widths, direct), Applied(kept, direct));
  }

  /** Cut from the same numbers with the same widths, the same fields. */
  lemma MiddleOfCut(whole: seq<nat>, exact: seq<int>, wpre: seq<Width>, widths: seq<Width>, wpost: seq<Width>,
                    part: seq<nat>, partExact: seq<int>)
    requires CutTo(whole, wpre + widths + wpost, exact) && CutTo(part, widths, partExact)
    requires |exact| == |wpre| + |widths| + |wpost| && exact[|wpre|..|wpre| + |widths|] == partExact
    ensures whole[|wpre|..|wpre| + |widths|] == part
  {
    var ws := wpre + widths + wpost;
    forall a | 0 <= a < |widths|
      ensures whole[|wpre| + a] == part[a]
    {
      assert exact[|wpre| + a] == exact[|wpre|..|wpre| + |widths|][a];
      assert ws[|wpre| + a] == widths[a];
    }
  }

  // ----- one change alone in its field ---------------------------------------------

  /** A field of width w holds what it can keep of x.  (The quantifier keeps the
      remainder out of sight where only x matters.) */
  ghost predicate Keeps(cell: nat, x: int, w: Width)
  {
    forall y: int {:trigger Trunc(y, w)} :: y == x ==> cell == Trunc(y, w)
  }

  /** Of the first n changes, i is the only one to its field. */
  ghost predicate Alone(cs: seq<Change>, n: nat, i: nat)
  {
    i < n <= |cs| && forall j :: 0 <= j < n && j != i ==> cs[j].addr != cs[i].addr
  }

  lemma {:induction false} AloneActs(cells: seq<nat>, widths: seq<Width>, cs: seq<Change>, n: nat, i: nat, m: nat)
    requires |widths| == |cells| && Inside(cs, |cells|) && Alone(cs, n, i) && m <= n
    ensures UptoCut(cells, widths, cs, m)[cs[i].addr]
      == if i < m then Trunc(Effect(cs[i].op, cells[cs[i].addr]), widths[cs[i].addr]) else cells[cs[i].addr]
  {
    if m > 0 {
      AloneActs(cells, widths, cs, n, i, m - 1);
    }
  }

  lemma AloneAdds(cells: seq<nat>, widths: seq<Width>, cs: seq<Change>, n: nat, i: nat, x: int, amount: int, w: Width)
    requires |widths| == |cells| && Inside(cs, |cells|) && Alone(cs, n, i)
    requires cs[i].op == Add(amount) && widths[cs[i].addr] == w && Keeps(cells[cs[i].addr], x, w)
    ensures Keeps(UptoCut(cells, widths, cs, n)[cs[i].addr], x + amount, w)
  {
    AloneActs(cells, widths, cs, n, i, n);
    KeepsSum(cells[cs[i].addr], x, amount, w, UptoCut(cells, widths, cs, n)[cs[i].addr]);
  }

  lemma KeepsSum(cell: nat, x: int, amount: int, w: Width, sum: nat)
    requires Keeps(cell, x, w) && sum == Trunc(cell + amount, w)
    ensures Keeps(sum, x + amount, w)
  {
    assert cell == Trunc(x, w);
    TruncAdd(x, amount, w);
  }

  lemma AloneStores(cells: seq<nat>, widths: seq<Width>, cs: seq<Change>, n: nat, i: nat, x: int, w: Width)
    requires |widths| == |cells| && Inside(cs, |cells|) && Alone(cs, n, i)
    requires widths[cs[i].addr] == w && Effect(cs[i].op, cells[cs[i].addr]) == x
    ensures Keeps(UptoCut(cells, widths, cs, n)[cs[i].addr], x, w)
  {
    AloneActs(cells, widths, cs, n, i, n);
  }

  // ----- standard relocations: the addend is in the section -----------------------

  /** A standard relocation; `known` unless its bits select no howto. */
  datatype StdReloc = StdReloc(addr: nat, target: Target, pcRelative: bool, width: Width, known: bool)

  function MoveStd(l: Link, r: StdReloc): StdReloc
  {
    r.(addr := r.addr + l.Here().outOffset, target := Retarget(l, r.target))
  }

  /** A relocation as a link leaves it. */
  function StdAfter(l: Link, relocatable: bool, r: StdReloc): StdReloc { if relocatable then MoveStd(l, r) else r }

  function MovedStd(l: Link, rs: seq<StdReloc>): (m: seq<StdReloc>)
    ensures |m| == |rs| && forall i :: 0 <= i < |rs| ==> m[i] == MoveStd(l, rs[i])
  {
    seq(|rs|, i requires 0 <= i < |rs| => MoveStd(l, rs[i]))
  }

  /** All relocations as a link leaves them. */
  function StdAfters(l: Link, relocatable: bool, rs: seq<StdReloc>): (m: seq<StdReloc>)
    ensures |m| == |rs| && forall i :: 0 <= i < |rs| ==> m[i] == StdAfter(l, relocatable, rs[i])
  {
    if relocatable then MovedStd(l, rs) else rs
  }

  function StdAmount(l: Link, relocatable: bool, t: Target, pcRelative: bool): int
  {
    if relocatable then Partial(l, t, pcRelative, false) else Final(l, t, pcRelative, false, 0, 0)
  }

  /** What a link adds to the contents for one relocation. */
  function StdChange(l: Link, relocatable: bool, r: StdReloc): Change
  {
    Change(r.addr, Add(StdAmount(l, relocatable, r.target, r.pcRelative)))
  }

  function StdChanges(l: Link, relocatable: bool, rs: seq<StdReloc>): (cs: seq<Change>)
    ensures |cs| == |rs| && forall i :: 0 <= i < |rs| ==> cs[i] == StdChange(l, relocatable, rs[i])
  {
    seq(|rs|, i requires 0 <= i < |rs| => StdChange(l, relocatable, rs[i]))
  }

  predicate StdInside(rs: seq<StdReloc>, n: nat) { forall i :: 0 <= i < |rs| ==> rs[i].addr < n }

  /** Relocations lie inside the section, and those of one field agree on its width. */
  predicate StdFits(rs: seq<StdReloc>, widths: seq<Width>)
  {
    forall i :: 0 <= i < |rs| ==> rs[i].addr < |widths| && rs[i].width == widths[rs[i].addr]
  }

  /** The first relocation of no known type, or their number. */
  function StdStop(rs: seq<StdReloc>, i: nat): (r: nat)
    requires i <= |rs|
    ensures i <= r <= |rs| && (forall k :: i <= k < r ==> rs[k].known) && (r < |rs| ==> !rs[r].known)
    decreases |rs| - i
  {
    if i < |rs| && rs[i].known then StdStop(rs, i + 1) else i
  }

  /** The relocatable branch: the relocation, and what it is now against. */
  method RelocatableAmount(l: Link, t: Target, pcRelative: bool, pcrelOffset: bool)
    returns (relocation: int, target: Target)
    ensures relocation == Partial(l, t, pcRelative, pcrelOffset) && target == Retarget(l, t)
  {
    target := t;
    if t.Symbol? {
      var h := l.Sym(t.n);
      if h.Defined? {
        target := Section(h.sec);
        var section := l.layout.At(h.sec);
        relocation := h.value + section.outVma + section.outOffset;
      } else {
        relocation := 0;
      }
    } else {
      var section := l.layout.At(t.sec);
      relocation := section.outVma + section.outOffset - section.vma;
    }
    if pcRelative && !pcrelOffset {
      relocation := relocation - (l.Here().outVma + l.Here().outOffset - l.Here().vma);
    }
  }

  /** The executable branch, with the source taken off as _bfd_final_link_relocate does. */
  method FinalAmount(l: Link, t: Target, pcRelative: bool, pcrelOffset: bool, addr: int, addend: int)
    returns (relocation: int)
    ensures relocation == Final(l, t, pcRelative, pcrelOffset, addr, addend)
  {
    if t.Symbol? {
      match l.Sym(t.n) {
        case Defined(value, s) => relocation := value + l.layout.At(s).outVma + l.layout.At(s).outOffset;
        case Elsewhere(address) => relocation := address;
        case Undefined => relocation := 0;
      }
    } else {
      var section := l.layout.At(t.sec);
      relocation := section.outVma + section.outOffset - section.vma;
      if pcRelative {
        relocation := relocation + l.Here().vma;
      }
    }
    relocation := relocation + addend;
    if pcRelative {
      relocation := relocation - (l.Here().outVma + l.Here().outOffset);
      if pcrelOffset {
        relocation := relocation - addr;
      }
    }
  }

  /** What one relocation adds, and what it is afterwards. */
  method StdRelocation(l: Link, relocatable: bool, rel: StdReloc) returns (relocation: int, r: StdReloc)
    ensures relocation == StdAmount(l, relocatable, rel.target, rel.pcRelative) && r == StdAfter(l, relocatable, rel)
  {
    r := rel;
    if relocatable {
      var target;
      relocation, target := RelocatableAmount(l, rel.target, rel.pcRelative, false);
      r := rel.(target := target, addr := rel.addr + l.Here().outOffset);
    } else {
      relocation := FinalAmount(l, rel.target, rel.pcRelative, false, rel.addr, 0);
      AddressUnused(l, rel.target, rel.pcRelative, rel.addr, 0);
    }
  }

  /** The field of a relocation, added to unless there is nothing to add. */
  method AddToField(contents: array<nat>, addr: nat, width: Width, relocation: int)
    requires addr < contents.Length && contents[addr] < Modulus(width)
    modifies contents
    ensures contents[..] == old(contents[..])[addr := Trunc(old(contents[addr]) + relocation, width)]
  {
    if relocation != 0 {
      contents[addr] := Trunc(contents[addr] + relocation, width);
    } else {
      RemainderIs(contents[addr], 0, contents[addr], width);
    }
  }

  /** Every field is in its range. */
  ghost predicate InWidth(cells: seq<nat>, widths: seq<Width>)
  {
    |cells| == |widths| && forall a :: 0 <= a < |cells| ==> cells[a] < Modulus(widths[a])
  }

  /** The loop has handled i relocations. */
  ghost predicate DoneStd(relocs: array<StdReloc>, contents: array<nat>, widths: seq<Width>, was: seq<StdReloc>,
                          after: seq<StdReloc>, start: seq<nat>, cs: seq<Change>, i: nat)
    reads relocs, contents
  {
    && relocs.Length == |was| == |after| == |cs| && contents.Length == |start| == |widths| && Inside(cs, |start|)
    && i <= |was| && StdFits(was, widths) && InWidth(contents[..], widths)
    && contents[..] == UptoCut(start, widths, cs, i)
    && relocs[..] == after[..i] + was[i..]
  }

  method TurnStd(l: Link, relocatable: bool, relocs: array<StdReloc>, contents: array<nat>,
                 i: nat, ghost widths: seq<Width>,
                 ghost was: seq<StdReloc>, ghost after: seq<StdReloc>, ghost start: seq<nat>, ghost cs: seq<Change>)
    requires DoneStd(relocs, contents, widths, was, after, start, cs, i) && i < |was|
    requires cs[i] == StdChange(l, relocatable, was[i]) && after[i] == StdAfter(l, relocatable, was[i])
    modifies relocs, contents
    ensures DoneStd(relocs, contents, widths, was, after, start, cs, i + 1)
  {
    assert relocs[i] == relocs[..][i] == was[i];
    var relocation, rel := StdRelocation(l, relocatable, relocs[i]);
    FieldTurn(contents, relocs[i].addr, relocs[i].width, relocation, widths, start, cs, i);
    ReplaceAt(relocs, i, rel, was, after);
  }

  /** One field changed. */
  method FieldTurn(contents: array<nat>, addr: nat, width: Width, relocation: int, ghost widths: seq<Width>,
                   ghost start: seq<nat>, ghost cs: seq<Change>, ghost i: nat)
    requires contents.Length == |start| == |widths| && Inside(cs, |start|) && i < |cs| && InWidth(contents[..], widths)
    requires contents[..] == UptoCut(start, widths, cs, i) && cs[i] == Change(addr, Add(relocation))
    requires addr < |widths| && width == widths[addr]
    modifies contents
    ensures InWidth(contents[..], widths) && contents[..] == UptoCut(start, widths, cs, i + 1)
  {
    assert contents[addr] == contents[..][addr];
    AddToField(contents, addr, width, relocation);
  }

  /** One record replaced. */
  method ReplaceAt<T>(relocs: array<T>, i: nat, rel: T, ghost was: seq<T>, ghost after: seq<T>)
    requires i < relocs.Length == |was| == |after| && relocs[..] == after[..i] + was[i..] && rel == after[i]
    modifies relocs
    ensures relocs[..] == after[..i + 1] + was[i + 1..]
  {
    relocs[i] := rel;
  }

  method LoopStd(l: Link, relocatable: bool, relocs: array<StdReloc>, contents: array<nat>, ghost widths: seq<Width>,
                 ghost was: seq<StdReloc>, ghost after: seq<StdReloc>, ghost start: seq<nat>, ghost cs: seq<Change>)
    returns (ok: bool)
    requires DoneStd(relocs, contents, widths, was, after, start, cs, 0)
    requires forall i :: 0 <= i < |was| ==> cs[i] == StdChange(l, relocatable, was[i])
    requires forall i :: 0 <= i < |was| ==> after[i] == StdAfter(l, relocatable, was[i])
    modifies relocs, contents
    ensures DoneStd(relocs, contents, widths, was, after, start, cs, StdStop(was, 0))
      && ok == (StdStop(was, 0) == |was|)
  {
    var i := 0;
    while i < relocs.Length
      invariant DoneStd(relocs, contents, widths, was, after, start, cs, i) && StdStop(was, 0) == StdStop(was, i)
    {
      assert relocs[i] == relocs[..][i] == was[i];
      if !relocs[i].known {
        return false;
      }
      TurnStd(l, relocatable, relocs, contents, i, widths, was, after, start, cs);
      i := i + 1;
    }
    ok := true;
  }

  /** aout_link_input_section_std: in order, up to the first relocation of no known
      type, which makes it fail. */
  method LinkInputSectionStd(l: Link, relocatable: bool, relocs: array<StdReloc>, contents: array<nat>,
                             ghost widths: seq<Width>)
    returns (ok: bool)
    requires StdFits(relocs[..], widths) && InWidth(contents[..], widths)
    modifies relocs, contents
    ensures Inside(StdChanges(l, relocatable, old(relocs[..])), contents.Length) && InWidth(contents[..], widths)
    ensures var was := old(relocs[..]); var n := StdStop(was, 0);
      && ok == (n == |was|)
      && contents[..] == UptoCut(old(contents[..]), widths, StdChanges(l, relocatable, was), n)
      && relocs[..] == StdAfters(l, relocatable, was)[..n] + was[n..]
    ensures var was := old(relocs[..]); forall i, k ::
      StdRefers(l, was, widths, old(contents[..]), StdStop(was, 0), i, k) ==>
        StdKept(l, relocatable, was, widths, contents[..], relocs[..], i, k)
  {
    ghost var was, start := relocs[..], contents[..];
    ghost var cs, after := StdChanges(l, relocatable, was), StdAfters(l, relocatable, was);
    assert relocs[..] == after[..0] + was[0..];
    ok := LoopStd(l, relocatable, relocs, contents, widths, was, after, start, cs);
    StdAllKept(l, relocatable, was, widths, start, contents[..], relocs[..]);
  }

  /** Relocation i, one of the first n and alone in its field, refers to the place k
      behind its target. */
  ghost predicate StdRefers(l: Link, rs: seq<StdReloc>, widths: seq<Width>, cells: seq<nat>, n: nat, i: nat, k: int)
  {
    && i < n <= |rs| && StdFits(rs, widths) && |widths| == |cells|
    && (forall j :: 0 <= j < n && j != i ==> rs[j].addr != rs[i].addr)
    && Keeps(cells[rs[i].addr], Given(l.layout, l.here, rs[i].target, k, rs[i].pcRelative, false, rs[i].addr),
             rs[i].width)
  }

  /** After a link its field refers to that place in the output; after a relocatable
      one field and record do so for the next link, when that is exact. */
  ghost predicate StdKept(l: Link, relocatable: bool, was: seq<StdReloc>, widths: seq<Width>, cells: seq<nat>,
                          rs: seq<StdReloc>, i: nat, k: int)
    requires i < |was| == |rs| && StdFits(was, widths) && |widths| == |cells|
  {
    var r := was[i];
    if !relocatable then Keeps(cells[r.addr], Meant(l, r.target, k, r.pcRelative, r.addr), r.width)
    else Exact(l, r.target, r.pcRelative, false) ==>
      && rs[i].addr == r.addr + l.Here().outOffset && rs[i].pcRelative == r.pcRelative && rs[i].width == r.width
      && forall next :: MadeBy(l, next) ==>
           Keeps(cells[r.addr], Given(next, l.here, rs[i].target, Behind(l, r.target, k), r.pcRelative, false,
                                      rs[i].addr), r.width)
  }

  lemma StdOneKept(l: Link, relocatable: bool, was: seq<StdReloc>, widths: seq<Width>, start: seq<nat>,
                   cells: seq<nat>, rs: seq<StdReloc>, i: nat, k: int)
    requires StdRefers(l, was, widths, start, StdStop(was, 0), i, k) && Inside(StdChanges(l, relocatable, was), |start|)
    requires cells == UptoCut(start, widths, StdChanges(l, relocatable, was), StdStop(was, 0))
    requires |rs| == |was| && rs[i] == StdAfter(l, relocatable, was[i])
    ensures StdKept(l, relocatable, was, widths, cells, rs, i, k)
  {
    var r := was[i];
    StdHolds(l, relocatable, was, widths, start, cells, i, k);
    if relocatable {
      StdPartKept(l, r, k, cells[r.addr], rs[i]);
    } else {
      StdFinalKept(l, r, k);
    }
  }

  lemma StdFinalKept(l: Link, r: StdReloc, k: int)
    ensures Given(l.layout, l.here, r.target, k, r.pcRelative, false, r.addr)
            + StdAmount(l, false, r.target, r.pcRelative)
         == Meant(l, r.target, k, r.pcRelative, r.addr)
  {
    FinalKeeps(l, r.target, k, r.pcRelative, false, r.addr);
    FinalAdds(l, r.target, r.pcRelative, r.addr,
              Given(l.layout, l.here, r.target, k, r.pcRelative, false, r.addr));
  }

  /** What the field holds afterwards. */
  lemma StdHolds(l: Link, relocatable: bool, was: seq<StdReloc>, widths: seq<Width>, start: seq<nat>,
                 cells: seq<nat>, i: nat, k: int)
    requires StdRefers(l, was, widths, start, StdStop(was, 0), i, k) && Inside(StdChanges(l, relocatable, was), |start|)
    requires cells == UptoCut(start, widths, StdChanges(l, relocatable, was), StdStop(was, 0))
    ensures var r := was[i];
      Keeps(cells[r.addr], Given(l.layout, l.here, r.target, k, r.pcRelative, false, r.addr)
                           + StdAmount(l, relocatable, r.target, r.pcRelative), r.width)
  {
    var cs, n, r := StdChanges(l, relocatable, was), StdStop(was, 0), was[i];
    assert Alone(cs, n, i);
    AloneAdds(start, widths, cs, n, i, Given(l.layout, l.here, r.target, k, r.pcRelative, false, r.addr),
              StdAmount(l, relocatable, r.target, r.pcRelative), r.width);
  }

  lemma StdPartKept(l: Link, r: StdReloc, k: int, cell: nat, moved: StdReloc)
    requires moved == MoveStd(l, r)
    requires Keeps(cell, Given(l.layout, l.here, r.target, k, r.pcRelative, false, r.addr)
                         + Partial(l, r.target, r.pcRelative, false), r.width)
    ensures Exact(l, r.target, r.pcRelative, false) ==>
      forall next :: MadeBy(l, next) ==>
        Keeps(cell, Given(next, l.here, moved.target, Behind(l, r.target, k), r.pcRelative, false, moved.addr), r.width)
  {
    forall next | MadeBy(l, next) && Exact(l, r.target, r.pcRelative, false)
      ensures Given(l.layout, l.here, r.target, k, r.pcRelative, false, r.addr)
              + Partial(l, r.target, r.pcRelative, false)
           == Given(next, l.here, moved.target, Behind(l, r.target, k), r.pcRelative, false, moved.addr)
    {
      PartialKeepsIff(l, next, r.target, k, r.pcRelative, false, r.addr);
    }
  }

  lemma FinalAdds(l: Link, t: Target, pcRelative: bool, addr: int, addend: int)
    ensures Final(l, t, pcRelative, false, 0, 0) + addend == Final(l, t, pcRelative, false, addr, addend)
  {
  }

  lemma StdAllKept(l: Link, relocatable: bool, was: seq<StdReloc>, widths: seq<Width>, start: seq<nat>,
                   cells: seq<nat>, rs: seq<StdReloc>)
    requires StdFits(was, widths) && |start| == |widths| && Inside(StdChanges(l, relocatable, was), |start|)
    requires cells == UptoCut(start, widths, StdChanges(l, relocatable, was), StdStop(was, 0))
    requires rs == StdAfters(l, relocatable, was)[..StdStop(was, 0)] + was[StdStop(was, 0)..]
    ensures forall i, k :: StdRefers(l, was, widths, start, StdStop(was, 0), i, k) ==>
      StdKept(l, relocatable, was, widths, cells, rs, i, k)
  {
    forall i, k | StdRefers(l, was, widths, start, StdStop(was, 0), i, k)
      ensures StdKept(l, relocatable, was, widths, cells, rs, i, k)
    {
      StdOneKept(l, relocatable, was, widths, start, cells, rs, i, k);
    }
  }

  /** The relocations after the first link, before the section moved. */
  function Retargeted(l: Link, rs: seq<StdReloc>): (m: seq<StdReloc>)
    ensures |m| == |rs| && forall i :: 0 <= i < |rs| ==> m[i] == rs[i].(target := Retarget(l, rs[i].target))
  {
    seq(|rs|, i requires 0 <= i < |rs| => rs[i].(target := Retarget(l, rs[i].target)))
  }

  ghost predicate StdExact(first: Link, rs: seq<StdReloc>)
  {
    forall i :: 0 <= i < |rs| ==> Discrepancy(first, rs[i].target, rs[i].pcRelative, false) == 0
  }

  lemma {:induction false} StdAmounts(first: Link, second: Link, direct: Link, r: StdReloc)
    requires Successive(first, second, direct)
    ensures StdChange(first, true, r).op.amount
            + StdChange(second, false, r.(target := Retarget(first, r.target))).op.amount
            == StdChange(direct, false, r).op.amount + Discrepancy(first, r.target, r.pcRelative, false)
  {
    TwoSteps(first, second, direct, r.target, r.pcRelative, false, r.addr, 0);
  }

  /** Two rounds of additions come to one round of their sums. */
  lemma {:induction false} RoundsAdd(cells: seq<int>, c1: seq<Change>, c2: seq<Change>, c12: seq<Change>, n: nat)
    requires n <= |c1| == |c2| == |c12| && Inside(c1, |cells|) && Inside(c2, |cells|) && Inside(c12, |cells|)
    requires forall i :: 0 <= i < |c1| ==> c1[i].op.Add? && c2[i].op.Add? && c12[i].op.Add?
    requires forall i :: 0 <= i < |c1| ==> c1[i].addr == c2[i].addr == c12[i].addr
    requires forall i :: 0 <= i < |c1| ==> c1[i].op.amount + c2[i].op.amount == c12[i].op.amount
    ensures Upto(Upto(cells, c1, n), c2, n) == Upto(cells, c12, n)
  {
    if n > 0 {
      RoundsAdd(cells, c1, c2, c12, n - 1);
      AddSlidesOut(Upto(cells, c1, n - 1), c2, c1[n - 1], n - 1);
    }
  }

  /** An addition may be made before or after other additions. */
  lemma {:induction false} AddSlidesOut(cells: seq<int>, cs: seq<Change>, c: Change, n: nat)
    requires n <= |cs| && Inside(cs, |cells|) && c.addr < |cells| && c.op.Add?
    requires forall i :: 0 <= i < |cs| ==> cs[i].op.Add?
    ensures var late := Upto(cells, cs, n);
      Upto(cells[c.addr := cells[c.addr] + c.op.amount], cs, n) == late[c.addr := late[c.addr] + c.op.amount]
  {
    if n > 0 {
      AddSlidesOut(cells, cs, c, n - 1);
    }
  }

  /** The section's fields agree before it is laid among others. */
  lemma {:induction false} StdCellsAgree(first: Link, second: Link, direct: Link, cells: seq<int>, rs: seq<StdReloc>)
    requires Successive(first, second, direct) && StdExact(first, rs) && StdInside(rs, |cells|)
    ensures Applied(Applied(cells, StdChanges(first, true, rs)), StdChanges(second, false, Retargeted(first, rs)))
            == Applied(cells, StdChanges(direct, false, rs))
  {
    var c1, c2, c12 := StdChanges(first, true, rs), StdChanges(second, false, Retargeted(first, rs)),
        StdChanges(direct, false, rs);
    forall i | 0 <= i < |rs|
      ensures c1[i].op.amount + c2[i].op.amount == c12[i].op.amount
    {
      StdAmounts(first, second, direct, rs[i]);
    }
    RoundsAdd(cells, c1, c2, c12, |rs|);
  }

  /** Relocations of the neighbours: before or after a section of n cells at lo. */
  ghost predicate StdBeside(rs: seq<StdReloc>, lo: nat, n: nat, rest: nat)
  {
    forall i :: 0 <= i < |rs| ==> rs[i].addr < lo || lo + n <= rs[i].addr < lo + n + rest
  }

  lemma {:induction false} StdMergedChanges(first: Link, second: Link, rs: seq<StdReloc>, before: seq<StdReloc>,
                                            after: seq<StdReloc>)
    ensures StdChanges(second, false, before + MovedStd(first, rs) + after)
            == StdChanges(second, false, before)
             + Shifted(StdChanges(second, false, Retargeted(first, rs)), first.Here().outOffset)
             + StdChanges(second, false, after)
  {
    StdChangesConcat(second, before, MovedStd(first, rs));
    StdChangesConcat(second, before + MovedStd(first, rs), after);
    StdChangesMoved(first, second, rs);
  }

  /** Standard relocations, a whole section: link it relocatably, lay it in the
      output section among neighbours with relocations of their own, link that;
      its part of the result is what linking it at once gives. */
  lemma {:induction false} StdTwoStepsAgree(first: Link, second: Link, direct: Link, cells: seq<int>, rs: seq<StdReloc>,
                                            pre: seq<int>, post: seq<int>, before: seq<StdReloc>, after: seq<StdReloc>)
    requires Successive(first, second, direct) && StdExact(first, rs) && StdInside(rs, |cells|)
    requires |pre| == first.Here().outOffset
    requires StdBeside(before, |pre|, |cells|, |post|) && StdBeside(after, |pre|, |cells|, |post|)
    ensures var merged := pre + Applied(cells, StdChanges(first, true, rs)) + post;
      var all := StdChanges(second, false, before + MovedStd(first, rs) + after);
      && Inside(all, |merged|)
      && Applied(merged, all)[|pre|..|pre| + |cells|] == Applied(cells, StdChanges(direct, false, rs))
  {
    var mid := Applied(cells, StdChanges(first, true, rs));
    var ours := StdChanges(second, false, Retargeted(first, rs));
    var b, a := StdChanges(second, false, before), StdChanges(second, false, after);
    StdMergedChanges(first, second, rs, before, after);
    MiddleOfMerged(pre, mid, post, b, ours, a);
    StdCellsAgree(first, second, direct, cells, rs);
  }

  /** The same on fields of fixed width, the second link starting from what the
      first one left. */
  lemma {:induction false} StdFieldsAgree(first: Link, second: Link, direct: Link,
                                          cells: seq<nat>, widths: seq<Width>,
                                          rs: seq<StdReloc>, pre: seq<nat>, post: seq<nat>,
                                          wpre: seq<Width>, wpost: seq<Width>,
                                          before: seq<StdReloc>, after: seq<StdReloc>)
    requires Successive(first, second, direct) && StdExact(first, rs) && StdInside(rs, |cells|)
    requires CutTo(cells, widths, cells) && CutTo(pre, wpre, pre) && CutTo(post, wpost, post)
    requires |pre| == first.Here().outOffset
    requires StdBeside(before, |pre|, |cells|, |post|) && StdBeside(after, |pre|, |cells|, |post|)
    ensures var all := StdChanges(second, false, before + MovedStd(first, rs) + after);
      var merged := pre + AppliedCut(cells, widths, StdChanges(first, true, rs)) + post;
      && Inside(all, |merged|)
      && AppliedCut(merged, wpre + widths + wpost, all)[|pre|..|pre| + |cells|]
         == AppliedCut(cells, widths, StdChanges(direct, false, rs))
  {
    StdTwoStepsAgree(first, second, direct, cells, rs, pre, post, before, after);
    CutMiddle(cells, widths, pre, post, wpre, wpost, StdChanges(first, true, rs),
              StdChanges(second, false, before + MovedStd(first, rs) + after), StdChanges(direct, false, rs));
  }

  ghost predicate StdSections(rs: seq<StdReloc>) { forall i :: 0 <= i < |rs| ==> rs[i].target.Section? }

  /** In particular for section-relative relocations, pc-relative or not:
      linking twice and linking once leave the same contents. */
  lemma {:induction false} StdSectionsAgree(first: Link, second: Link, direct: Link,
                                            cells: seq<nat>, widths: seq<Width>,
                                            rs: seq<StdReloc>, pre: seq<nat>, post: seq<nat>,
                                            wpre: seq<Width>, wpost: seq<Width>,
                                            before: seq<StdReloc>, after: seq<StdReloc>)
    requires Successive(first, second, direct) && StdSections(rs) && StdInside(rs, |cells|)
    requires CutTo(cells, widths, cells) && CutTo(pre, wpre, pre) && CutTo(post, wpost, post)
    requires |pre| == first.Here().outOffset
    requires StdBeside(before, |pre|, |cells|, |post|) && StdBeside(after, |pre|, |cells|, |post|)
    ensures var all := StdChanges(second, false, before + MovedStd(first, rs) + after);
      var merged := pre + AppliedCut(cells, widths, StdChanges(first, true, rs)) + post;
      && Inside(all, |merged|)
      && AppliedCut(merged, wpre + widths + wpost, all)[|pre|..|pre| + |cells|]
         == AppliedCut(cells, widths, StdChanges(direct, false, rs))
  {
    StdFieldsAgree(first, second, direct, cells, widths, rs, pre, post, wpre, wpost, before, after);
  }

  lemma {:induction false} StdChangesConcat(l: Link, a: seq<StdReloc>, b: seq<StdReloc>)
    ensures StdChanges(l, false, a + b) == StdChanges(l, false, a) + StdChanges(l, false, b)
  {
  }

  lemma {:induction false} StdChangesMoved(first: Link, second: Link, rs: seq<StdReloc>)
    ensures StdChanges(second, false, MovedStd(first, rs))
            == Shifted(StdChanges(second, false, Retargeted(first, rs)), first.Here().outOffset)
  {
    var a, b := StdChanges(second, false, MovedStd(first, rs)),
        Shifted(StdChanges(second, false, Retargeted(first, rs)), first.Here().outOffset);
    forall i | 0 <= i < |rs|
      ensures a[i] == b[i]
    {
      var r, r2 := rs[i].(target := Retarget(first, rs[i].target)), MoveStd(first, rs[i]);
      assert a[i] == StdChange(second, false, r2) && r2.target == r.target
        && r2.addr == r.addr + first.Here().outOffset;
      assert b[i] == Change(r2.addr, StdChange(second, false, r).op);
      AddressUnused(second, r.target, r.pcRelative, r.addr, r2.addr);
    }
  }

  lemma {:induction false} AddressUnused(l: Link, t: Target, pcRelative: bool, a: int, b: int)
    ensures Final(l, t, pcRelative, false, a, 0) == Final(l, t, pcRelative, false, b, 0)
  {
  }

  // ----- extended relocations: the addend is in the record --------------------------

  /** A type of extended relocation (howto_table_ext); `reversed` is
      RELOC_SPARC_REV32, the one that adds to the section. */
  datatype Howto = Howto(pcRelative: bool, pcrelOffset: bool, reversed: bool, width: Width)

  /** An extended relocation; `known` unless its type is outside the table. */
  datatype ExtReloc = ExtReloc(addr: nat, target: Target, howto: Howto, addend: int, known: bool)

  function ExtAfter(l: Link, relocatable: bool, r: ExtReloc): ExtReloc
  {
    if relocatable
    then r.(addr := r.addr + l.Here().outOffset, target := Retarget(l, r.target),
            addend := r.addend + Partial(l, r.target, r.howto.pcRelative, r.howto.pcrelOffset))
    else r
  }

  function MovedExt(l: Link, rs: seq<ExtReloc>): (m: seq<ExtReloc>)
    ensures |m| == |rs| && forall i :: 0 <= i < |rs| ==> m[i] == ExtAfter(l, true, rs[i])
  {
    seq(|rs|, i requires 0 <= i < |rs| => ExtAfter(l, true, rs[i]))
  }

  function ExtChange(l: Link, r: ExtReloc): Change
  {
    var v := Final(l, r.target, r.howto.pcRelative, r.howto.pcrelOffset, r.addr, r.addend);
    Change(r.addr, if r.howto.reversed then Add(v) else Store(v))
  }

  function ExtChanges(l: Link, rs: seq<ExtReloc>): (cs: seq<Change>)
    ensures |cs| == |rs| && forall i :: 0 <= i < |rs| ==> cs[i] == ExtChange(l, rs[i])
  {
    seq(|rs|, i requires 0 <= i < |rs| => ExtChange(l, rs[i]))
  }

  /** A relocatable link changes the records only. */
  function ExtLinkChanges(l: Link, relocatable: bool, rs: seq<ExtReloc>): (cs: seq<Change>)
    ensures |cs| == if relocatable then 0 else |rs|
  {
    if relocatable then [] else ExtChanges(l, rs)
  }

  function ExtAfters(l: Link, relocatable: bool, rs: seq<ExtReloc>): (m: seq<ExtReloc>)
    ensures |m| == |rs| && forall i :: 0 <= i < |rs| ==> m[i] == ExtAfter(l, relocatable, rs[i])
  {
    if relocatable then MovedExt(l, rs) else rs
  }

  predicate ExtInside(rs: seq<ExtReloc>, n: nat) { forall i :: 0 <= i < |rs| ==> rs[i].addr < n }

  predicate ExtFits(rs: seq<ExtReloc>, widths: seq<Width>)
  {
    forall i :: 0 <= i < |rs| ==> rs[i].addr < |widths| && rs[i].howto.width == widths[rs[i].addr]
  }

  function ExtStop(rs: seq<ExtReloc>, i: nat): (r: nat)
    requires i <= |rs|
    ensures i <= r <= |rs| && (forall k :: i <= k < r ==> rs[k].known) && (r < |rs| ==> !rs[r].known)
    decreases |rs| - i
  {
    if i < |rs| && rs[i].known then ExtStop(rs, i + 1) else i
  }

  /** The relocatable branch for one record. */
  method MoveExt(l: Link, rel: ExtReloc) returns (r: ExtReloc)
    ensures r == ExtAfter(l, true, rel)
  {
    var relocation, target := RelocatableAmount(l, rel.target, rel.howto.pcRelative, rel.howto.pcrelOffset);
    r := rel.(target := target);
    if relocation != 0 {
      r := r.(addend := rel.addend + relocation);
    }
    r := r.(addr := rel.addr + l.Here().outOffset);
  }

  /** The executable branch for one record. */
  method StoreExt(l: Link, rel: ExtReloc, contents: array<nat>)
    requires rel.addr < contents.Length
    modifies contents
    ensures var c := ExtChange(l, rel);
      contents[..] == old(contents[..])[c.addr := Trunc(Effect(c.op, old(contents[c.addr])), rel.howto.width)]
  {
    var h := rel.howto;
    var value := FinalAmount(l, rel.target, h.pcRelative, h.pcrelOffset, rel.addr, rel.addend);
    contents[rel.addr] := Trunc(if h.reversed then contents[rel.addr] + value else value, h.width);
  }

  /** The loop has handled i relocations. */
  ghost predicate DoneExt(relocs: array<ExtReloc>, contents: array<nat>, widths: seq<Width>, was: seq<ExtReloc>,
                          after: seq<ExtReloc>, start: seq<nat>, cs: seq<Change>, i: nat)
    reads relocs, contents
  {
    && relocs.Length == |was| == |after| && contents.Length == |start| == |widths| && Inside(cs, |start|)
    && i <= |was| && ExtFits(was, widths) && (|cs| == 0 || |cs| == |was|)
    && contents[..] == UptoCut(start, widths, cs, if |cs| == 0 then 0 else i)
    && relocs[..] == after[..i] + was[i..]
  }

  method TurnExt(l: Link, relocatable: bool, relocs: array<ExtReloc>, contents: array<nat>,
                 i: nat, ghost widths: seq<Width>,
                 ghost was: seq<ExtReloc>, ghost after: seq<ExtReloc>, ghost start: seq<nat>, ghost cs: seq<Change>)
    requires DoneExt(relocs, contents, widths, was, after, start, cs, i) && i < |was|
    requires cs == ExtLinkChanges(l, relocatable, was) && after[i] == ExtAfter(l, relocatable, was[i])
    modifies relocs, contents
    ensures DoneExt(relocs, contents, widths, was, after, start, cs, i + 1)
  {
    var rel := relocs[i];
    assert rel == relocs[..][i] == was[i];
    if relocatable {
      rel := MoveExt(l, rel);
    } else {
      StoreExt(l, rel, contents);
    }
    ReplaceAt(relocs, i, rel, was, after);
  }

  method LoopExt(l: Link, relocatable: bool, relocs: array<ExtReloc>, contents: array<nat>, ghost widths: seq<Width>,
                 ghost was: seq<ExtReloc>, ghost after: seq<ExtReloc>, ghost start: seq<nat>, ghost cs: seq<Change>)
    returns (ok: bool)
    requires DoneExt(relocs, contents, widths, was, after, start, cs, 0)
    requires cs == ExtLinkChanges(l, relocatable, was)
    requires forall i :: 0 <= i < |was| ==> after[i] == ExtAfter(l, relocatable, was[i])
    modifies relocs, contents
    ensures DoneExt(relocs, contents, widths, was, after, start, cs, ExtStop(was, 0))
      && ok == (ExtStop(was, 0) == |was|)
  {
    var i := 0;
    while i < relocs.Length
      invariant DoneExt(relocs, contents, widths, was, after, start, cs, i) && ExtStop(was, 0) == ExtStop(was, i)
    {
      assert relocs[i] == relocs[..][i] == was[i];
      if !relocs[i].known {
        return false;
      }
      TurnExt(l, relocatable, relocs, contents, i, widths, was, after, start, cs);
      i := i + 1;
    }
    ok := true;
  }

  /** aout_link_input_section_ext: in order, up to the first relocation whose type
      is outside the table, which makes it fail. */
  method LinkInputSectionExt(l: Link, relocatable: bool, relocs: array<ExtReloc>, contents: array<nat>,
                             ghost widths: seq<Width>)
    returns (ok: bool)
    requires ExtFits(relocs[..], widths) && contents.Length == |widths|
    modifies relocs, contents
    ensures Inside(ExtLinkChanges(l, relocatable, old(relocs[..])), contents.Length)
    ensures var was := old(relocs[..]); var n := ExtStop(was, 0);
      && ok == (n == |was|)
      && contents[..]
         == UptoCut(old(contents[..]), widths, ExtLinkChanges(l, relocatable, was), if relocatable then 0 else n)
      && relocs[..] == ExtAfters(l, relocatable, was)[..n] + was[n..]
    ensures var was := old(relocs[..]); forall i, k ::
      ExtRefers(l, was, widths, old(contents[..]), ExtStop(was, 0), i, k) ==>
        ExtKept(l, relocatable, was, widths, old(contents[..]), contents[..], relocs[..], i, k)
  {
    ghost var was, start := relocs[..], contents[..];
    ghost var cs, after := ExtLinkChanges(l, relocatable, was), ExtAfters(l, relocatable, was);
    assert relocs[..] == after[..0] + was[0..];
    ok := LoopExt(l, relocatable, relocs, contents, widths, was, after, start, cs);
    ExtAllKept(l, relocatable, was, widths, start, contents[..], relocs[..]);
  }

  /** Relocation i, one of the first n and alone in its field, refers to the place k
      behind its target. */
  ghost predicate ExtRefers(l: Link, rs: seq<ExtReloc>, widths: seq<Width>, cells: seq<nat>, n: nat, i: nat, k: int)
  {
    && i < n <= |rs| && ExtFits(rs, widths) && |widths| == |cells|
    && (forall j :: 0 <= j < n && j != i ==> rs[j].addr != rs[i].addr)
    && rs[i].addend
       == Given(l.layout, l.here, rs[i].target, k, rs[i].howto.pcRelative, rs[i].howto.pcrelOffset, rs[i].addr)
  }

  /** After a link its field holds that place in the output, added to what it held
      for RELOC_SPARC_REV32; after a relocatable one its record refers to it for the
      next link, when that is exact, and the field is as it was. */
  ghost predicate ExtKept(l: Link, relocatable: bool, was: seq<ExtReloc>, widths: seq<Width>, start: seq<nat>,
                          cells: seq<nat>, rs: seq<ExtReloc>, i: nat, k: int)
    requires i < |was| == |rs| && ExtFits(was, widths) && |widths| == |cells| == |start|
  {
    var r, h := was[i], was[i].howto;
    if !relocatable then
      Keeps(cells[r.addr],
            (if h.reversed then start[r.addr] else 0) + Meant(l, r.target, k, h.pcRelative, r.addr), h.width)
    else
      && cells[r.addr] == start[r.addr] && rs[i].howto == h && rs[i].addr == r.addr + l.Here().outOffset
      && (Exact(l, r.target, h.pcRelative, h.pcrelOffset) ==>
            forall next :: MadeBy(l, next) ==>
              rs[i].addend == Given(next, l.here, rs[i].target, Behind(l, r.target, k), h.pcRelative, h.pcrelOffset,
                                    rs[i].addr))
  }

  lemma ExtOneKept(l: Link, relocatable: bool, was: seq<ExtReloc>, widths: seq<Width>, start: seq<nat>,
                   cells: seq<nat>, rs: seq<ExtReloc>, i: nat, k: int)
    requires ExtRefers(l, was, widths, start, ExtStop(was, 0), i, k)
    requires Inside(ExtLinkChanges(l, relocatable, was), |start|)
    requires cells == UptoCut(start, widths, ExtLinkChanges(l, relocatable, was),
                              if relocatable then 0 else ExtStop(was, 0))
    requires |rs| == |was| && rs[i] == ExtAfter(l, relocatable, was[i])
    ensures ExtKept(l, relocatable, was, widths, start, cells, rs, i, k)
  {
    var r, h := was[i], was[i].howto;
    if relocatable {
      forall next | MadeBy(l, next) && Exact(l, r.target, h.pcRelative, h.pcrelOffset)
        ensures rs[i].addend
             == Given(next, l.here, rs[i].target, Behind(l, r.target, k), h.pcRelative, h.pcrelOffset, rs[i].addr)
      {
        PartialKeepsIff(l, next, r.target, k, h.pcRelative, h.pcrelOffset, r.addr);
      }
    } else {
      var cs, n := ExtChanges(l, was), ExtStop(was, 0);
      assert Alone(cs, n, i);
      FinalKeeps(l, r.target, k, h.pcRelative, h.pcrelOffset, r.addr);
      AloneStores(start, widths, cs, n, i,
                  (if h.reversed then start[r.addr] else 0) + Meant(l, r.target, k, h.pcRelative, r.addr), h.width);
    }
  }

  lemma ExtAllKept(l: Link, relocatable: bool, was: seq<ExtReloc>, widths: seq<Width>, start: seq<nat>,
                   cells: seq<nat>, rs: seq<ExtReloc>)
    requires ExtFits(was, widths) && |start| == |widths| && Inside(ExtLinkChanges(l, relocatable, was), |start|)
    requires cells == UptoCut(start, widths, ExtLinkChanges(l, relocatable, was),
                              if relocatable then 0 else ExtStop(was, 0))
    requires rs == ExtAfters(l, relocatable, was)[..ExtStop(was, 0)] + was[ExtStop(was, 0)..]
    ensures forall i, k :: ExtRefers(l, was, widths, start, ExtStop(was, 0), i, k) ==>
      ExtKept(l, relocatable, was, widths, start, cells, rs, i, k)
  {
    forall i, k | ExtRefers(l, was, widths, start, ExtStop(was, 0), i, k)
      ensures ExtKept(l, relocatable, was, widths, start, cells, rs, i, k)
    {
      ExtOneKept(l, relocatable, was, widths, start, cells, rs, i, k);
    }
  }

  ghost predicate ExtExact(first: Link, rs: seq<ExtReloc>)
  {
    forall i :: 0 <= i < |rs| ==> Discrepancy(first, rs[i].target, rs[i].howto.pcRelative, rs[i].howto.pcrelOffset) == 0
  }

  /** The same value is stored, in the same way, after two steps as after one. */
  lemma {:induction false} ExtValuesAgree(first: Link, second: Link, direct: Link, r: ExtReloc)
    requires Successive(first, second, direct)
    requires Discrepancy(first, r.target, r.howto.pcRelative, r.howto.pcrelOffset) == 0
    ensures ExtChange(second, ExtAfter(first, true, r))
      == Change(r.addr + first.Here().outOffset, ExtChange(direct, r).op)
  {
    var r2 := ExtAfter(first, true, r);
    ExtFinalsAgree(first, second, direct, r, r2);
    SameFinalSameOp(second, r2, direct, r);
  }

  lemma {:induction false} ExtFinalsAgree(first: Link, second: Link, direct: Link, r: ExtReloc, r2: ExtReloc)
    requires Successive(first, second, direct) && r2 == ExtAfter(first, true, r)
    requires Discrepancy(first, r.target, r.howto.pcRelative, r.howto.pcrelOffset) == 0
    ensures Final(second, r2.target, r.howto.pcRelative, r.howto.pcrelOffset, r2.addr, r2.addend)
      == Final(direct, r.target, r.howto.pcRelative, r.howto.pcrelOffset, r.addr, r.addend)
  {
    TwoSteps(first, second, direct, r.target, r.howto.pcRelative, r.howto.pcrelOffset, r.addr, r.addend);
  }

  lemma {:induction false} SameFinalSameOp(l: Link, r: ExtReloc, k: Link, q: ExtReloc)
    requires r.howto == q.howto
    requires Final(l, r.target, q.howto.pcRelative, q.howto.pcrelOffset, r.addr, r.addend)
      == Final(k, q.target, q.howto.pcRelative, q.howto.pcrelOffset, q.addr, q.addend)
    ensures ExtChange(l, r) == Change(r.addr, ExtChange(k, q).op)
  {
  }

  lemma {:induction false} ExtChangesConcat(l: Link, a: seq<ExtReloc>, b: seq<ExtReloc>)
    ensures ExtChanges(l, a + b) == ExtChanges(l, a) + ExtChanges(l, b)
  {
  }

  /** Relocations of the neighbours: before or after a section of n cells at lo. */
  ghost predicate ExtBeside(rs: seq<ExtReloc>, lo: nat, n: nat, rest: nat)
  {
    forall i :: 0 <= i < |rs| ==> rs[i].addr < lo || lo + n <= rs[i].addr < lo + n + rest
  }

  /** Extended relocations, a whole section, as for standard ones. */
  lemma {:induction false} ExtTwoStepsAgree(first: Link, second: Link, direct: Link, cells: seq<int>, rs: seq<ExtReloc>,
                                            pre: seq<int>, post: seq<int>, before: seq<ExtReloc>, after: seq<ExtReloc>)
    requires Successive(first, second, direct) && ExtExact(first, rs) && ExtInside(rs, |cells|)
    requires |pre| == first.Here().outOffset
    requires ExtBeside(before, |pre|, |cells|, |post|) && ExtBeside(after, |pre|, |cells|, |post|)
    ensures var merged := pre + cells + post;
      var all := ExtChanges(second, before + MovedExt(first, rs) + after);
      && Inside(all, |merged|)
      && Applied(merged, all)[|pre|..|pre| + |cells|] == Applied(cells, ExtChanges(direct, rs))
  {
    var ours := ExtChanges(direct, rs);
    var b, a := ExtChanges(second, before), ExtChanges(second, after);
    MiddleOfMerged(pre, cells, post, b, ours, a);
    ExtChangesConcat(second, before, MovedExt(first, rs));
    ExtChangesConcat(second, before + MovedExt(first, rs), after);
    forall i | 0 <= i < |rs|
      ensures ExtChanges(second, MovedExt(first, rs))[i] == Shifted(ours, |pre|)[i]
    {
      ExtValuesAgree(first, second, direct, rs[i]);
    }
    assert ExtChanges(second, MovedExt(first, rs)) == Shifted(ours, |pre|);
  }

  /** The same on fields of fixed width, the second link starting from what the
      first one left. */
  lemma {:induction false} ExtFieldsAgree(first: Link, second: Link, direct: Link,
                                          cells: seq<nat>, widths: seq<Width>,
                                          rs: seq<ExtReloc>, pre: seq<nat>, post: seq<nat>,
                                          wpre: seq<Width>, wpost: seq<Width>,
                                          before: seq<ExtReloc>, after: seq<ExtReloc>)
    requires Successive(first, second, direct) && ExtExact(first, rs) && ExtInside(rs, |cells|)
    requires CutTo(cells, widths, cells) && CutTo(pre, wpre, pre) && CutTo(post, wpost, post)
    requires |pre| == first.Here().outOffset
    requires ExtBeside(before, |pre|, |cells|, |post|) && ExtBeside(after, |pre|, |cells|, |post|)
    ensures var all := ExtChanges(second, before + MovedExt(first, rs) + after);
      var merged := pre + AppliedCut(cells, widths, ExtLinkChanges(first, true, rs)) + post;
      && Inside(all, |merged|)
      && AppliedCut(merged, wpre + widths + wpost, all)[|pre|..|pre| + |cells|]
         == AppliedCut(cells, widths, ExtLinkChanges(direct, false, rs))
  {
    ExtTwoStepsAgree(first, second, direct, cells, rs, pre, post, before, after);
    assert Applied(cells, []) == cells;
    CutMiddle(cells, widths, pre, post, wpre, wpost, ExtLinkChanges(first, true, rs),
              ExtChanges(second, before + MovedExt(first, rs) + after), ExtChanges(direct, rs));
  }

  ghost predicate ExtSections(rs: seq<ExtReloc>)
  {
    forall i :: 0 <= i < |rs| ==> rs[i].target.Section? && !rs[i].howto.pcrelOffset
  }

  /** In particular for section-relative relocations without pcrel_offset,
      pc-relative or not. */
  lemma {:induction false} ExtSectionsAgree(first: Link, second: Link, direct: Link,
                                            cells: seq<nat>, widths: seq<Width>,
                                            rs: seq<ExtReloc>, pre: seq<nat>, post: seq<nat>,
                                            wpre: seq<Width>, wpost: seq<Width>,
                                            before: seq<ExtReloc>, after: seq<ExtReloc>)
    requires Successive(first, second, direct) && ExtSections(rs) && ExtInside(rs, |cells|)
    requires CutTo(cells, widths, cells) && CutTo(pre, wpre, pre) && CutTo(post, wpost, post)
    requires |pre| == first.Here().outOffset
    requires ExtBeside(before, |pre|, |cells|, |post|) && ExtBeside(after, |pre|, |cells|, |post|)
    ensures var all := ExtChanges(second, before + MovedExt(first, rs) + after);
      var merged := pre + AppliedCut(cells, widths, ExtLinkChanges(first, true, rs)) + post;
      && Inside(all, |merged|)
      && AppliedCut(merged, wpre + widths + wpost, all)[|pre|..|pre| + |cells|]
         == AppliedCut(cells, widths, ExtLinkChanges(direct, false, rs))
  {
    ExtFieldsAgree(first, second, direct, cells, widths, rs, pre, post, wpre, wpost, before, after);
  }
}
