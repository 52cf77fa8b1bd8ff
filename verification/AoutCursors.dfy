/** The relocation file cursors of an a.out link: space counted up front, spent
    input by input and order by order (binutils/bfd/aoutx.h). */
module AoutCursors {

  /** An input file: its exec header's relocation sizes, whether it is a.out, and
      whether the back end takes it over as a dynamic object. */
  datatype Input = Input(trsize: nat, drsize: nat, aout: bool, hooked: bool)

  datatype Which = Text | Data | Other

  /** A link order: a section of an input, a relocation to make up, or data. */
  datatype Order = Indirect(owner: nat, which: Which) | Reloc | Fill

  // ----- sums over inputs ----------------------------------------------------

  function Size(w: Which, i: Input): nat { match w case Text => i.trsize case Data => i.drsize case Other => 0 }

  function Total(w: Which, inputs: seq<Input>, k: nat): nat
    requires k <= |inputs|
  {
    if k == 0 then 0 else Total(w, inputs, k - 1) + Size(w, inputs[k - 1])
  }

  /** The sizes of the inputs picked out by a flag. */
  function Picked(w: Which, inputs: seq<Input>, flags: seq<bool>, k: nat): nat
    requires k <= |inputs| == |flags|
  {
    if k == 0 then 0
    else Picked(w, inputs, flags, k - 1) + if flags[k - 1] then Size(w, inputs[k - 1]) else 0
  }

  lemma {:induction false} PickOne(w: Which, inputs: seq<Input>, flags: seq<bool>, i: nat, k: nat)
    requires k <= |inputs| == |flags| && i < |flags| && !flags[i]
    ensures Picked(w, inputs, flags[i := true], k)
         == Picked(w, inputs, flags, k) + if i < k then Size(w, inputs[i]) else 0
  {
    if k > 0 {
      PickOne(w, inputs, flags, i, k - 1);
    }
  }

  /** What was picked is at most everything, and is everything exactly when all
      that was left has no relocations. */
  lemma {:induction false} PickedBelow(w: Which, inputs: seq<Input>, flags: seq<bool>, k: nat)
    requires k <= |inputs| == |flags|
    ensures Picked(w, inputs, flags, k) <= Total(w, inputs, k)
    ensures Picked(w, inputs, flags, k) == Total(w, inputs, k)
      <==> forall i :: 0 <= i < k ==> flags[i] || Size(w, inputs[i]) == 0
  {
    if k > 0 {
      PickedBelow(w, inputs, flags, k - 1);
    }
  }

  lemma {:induction false} NonePicked(w: Which, inputs: seq<Input>, flags: seq<bool>, k: nat)
    requires k <= |inputs| == |flags| && forall i :: 0 <= i < |flags| ==> !flags[i]
    ensures Picked(w, inputs, flags, k) == 0
  {
    if k > 0 {
      NonePicked(w, inputs, flags, k - 1);
    }
  }

  // ----- link orders ---------------------------------------------------------

  /** _bfd_count_link_order_relocs over the first k orders. */
  function Relocs(orders: seq<Order>, k: nat): nat
    requires k <= |orders|
  {
    if k == 0 then 0 else Relocs(orders, k - 1) + if orders[k - 1].Reloc? then 1 else 0
  }

  lemma {:induction false} RelocsGrow(orders: seq<Order>, j: nat, k: nat)
    requires j <= k <= |orders|
    ensures Relocs(orders, j) <= Relocs(orders, k)
    decreases k
  {
    if j < k {
      RelocsGrow(orders, j, k - 1);
    }
  }

  method CountRelocs(orders: seq<Order>) returns (c: nat)
    ensures c == Relocs(orders, |orders|)
  {
    c := 0;
    for k := 0 to |orders|
      invariant c == Relocs(orders, k)
    {
      if orders[k].Reloc? {
        c := c + 1;
      }
    }
  }

  /** An order before the k-th of section s names this section of the input. */
  ghost predicate Met(sections: seq<seq<Order>>, s: nat, k: nat, i: nat, w: Which)
  {
    exists s', k' :: 0 <= s' < |sections| && 0 <= k' < |sections[s']| && (s' < s || (s' == s && k' < k))
      && sections[s'][k'] == Indirect(i, w)
  }

  ghost predicate Named(sections: seq<seq<Order>>, i: nat, w: Which) { Met(sections, |sections|, 0, i, w) }

  lemma MetNext(sections: seq<seq<Order>>, s: nat, k: nat, i: nat, w: Which)
    requires s < |sections| && k < |sections[s]|
    ensures Met(sections, s, k + 1, i, w) <==> Met(sections, s, k, i, w) || sections[s][k] == Indirect(i, w)
  {
  }

  lemma MetSection(sections: seq<seq<Order>>, s: nat, i: nat, w: Which)
    requires s < |sections|
    ensures Met(sections, s + 1, 0, i, w) <==> Met(sections, s, |sections[s]|, i, w)
  {
  }

  /** Some order before the k-th of section s names a section of the input. */
  ghost predicate Seen(sections: seq<seq<Order>>, s: nat, k: nat, i: nat)
  {
    Met(sections, s, k, i, Text) || Met(sections, s, k, i, Data) || Met(sections, s, k, i, Other)
  }

  lemma SeenNext(sections: seq<seq<Order>>, s: nat, k: nat, i: nat)
    requires s < |sections| && k < |sections[s]|
    ensures Seen(sections, s, k + 1, i)
      <==> Seen(sections, s, k, i) || (sections[s][k].Indirect? && sections[s][k].owner == i)
  {
    MetNext(sections, s, k, i, Text);
    MetNext(sections, s, k, i, Data);
    MetNext(sections, s, k, i, Other);
    var o := sections[s][k];
    if o.Indirect? && o.owner == i {
      match o.which
      case Text => assert o == Indirect(i, Text);
      case Data => assert o == Indirect(i, Data);
      case Other => assert o == Indirect(i, Other);
    }
  }

  lemma SeenSection(sections: seq<seq<Order>>, s: nat, i: nat)
    requires s < |sections|
    ensures Seen(sections, s + 1, 0, i) <==> Seen(sections, s, |sections[s]|, i)
  {
    MetSection(sections, s, i, Text);
    MetSection(sections, s, i, Data);
    MetSection(sections, s, i, Other);
  }

  // ----- space counted and space used ----------------------------------------

  /** What a link is given. */
  datatype Job = Job(inputs: seq<Input>, sections: seq<seq<Order>>, text: nat, data: nat, entry: nat, relocatable: bool)

  /** .text and .data are two of the output sections, and the owners of indirect
      orders are among the inputs. */
  predicate ValidJob(j: Job)
  {
    && j.text < |j.sections| && j.data < |j.sections| && j.text != j.data && j.entry > 0
    && forall s, k :: 0 <= s < |j.sections| && 0 <= k < |j.sections[s]| && j.sections[s][k].Indirect? ==>
         j.sections[s][k].owner < |j.inputs|
  }

  function OrdersOf(j: Job, w: Which): seq<Order>
    requires ValidJob(j) && w != Other
  {
    if w == Text then j.sections[j.text] else j.sections[j.data]
  }

  function RelocOrders(j: Job, w: Which): nat
    requires ValidJob(j) && w != Other
  {
    Relocs(OrdersOf(j, w), |OrdersOf(j, w)|)
  }

  /** The space counted for one kind of relocation. */
  function Counted(j: Job, w: Which): nat
    requires ValidJob(j) && w != Other
  {
    if j.relocatable then Total(w, j.inputs, |j.inputs|) + j.entry * RelocOrders(j, w) else 0
  }

  /** The space used once the relocations of the picked inputs and `made` link
      orders have been written. */
  function Used(j: Job, w: Which, picked: seq<bool>, made: nat): nat
    requires |picked| == |j.inputs|
  {
    (if j.relocatable then Picked(w, j.inputs, picked, |j.inputs|) else 0) + j.entry * made
  }

  lemma MulMonotone(e: nat, a: nat, b: nat)
    requires a <= b
    ensures e * a <= e * b
  {
  }

  lemma UsedStep(j: Job, w: Which, picked: seq<bool>, made: nat)
    requires |picked| == |j.inputs| && j.entry > 0
    ensures Used(j, w, picked, made + 1) == Used(j, w, picked, made) + j.entry
    ensures Used(j, w, picked, made + 1) > 0
  {
    assert j.entry * (made + 1) == j.entry * made + j.entry;
  }

  /** In a relocatable link no more is used than was counted. */
  lemma UsedBelowCounted(j: Job, w: Which, picked: seq<bool>, made: nat)
    requires ValidJob(j) && w != Other && j.relocatable && |picked| == |j.inputs| && made <= RelocOrders(j, w)
    ensures Used(j, w, picked, made) <= Counted(j, w)
  {
    PickedBelow(w, j.inputs, picked, |j.inputs|);
    MulMonotone(j.entry, made, RelocOrders(j, w));
  }

  /** Nothing counted is left over exactly when every input with relocations of
      this kind was written and every link order was made. */
  lemma AllUsedIff(j: Job, w: Which, picked: seq<bool>, made: nat)
    requires ValidJob(j) && w != Other && j.relocatable && |picked| == |j.inputs| && made <= RelocOrders(j, w)
    ensures Used(j, w, picked, made) == Counted(j, w)
      <==> made == RelocOrders(j, w) && forall i :: 0 <= i < |picked| ==> picked[i] || Size(w, j.inputs[i]) == 0
  {
    PickedBelow(w, j.inputs, picked, |j.inputs|);
    var n := RelocOrders(j, w);
    MulMonotone(j.entry, made, n);
    if made < n {
      assert j.entry * n == j.entry * made + j.entry * (n - made);
      assert j.entry * (n - made) >= 1;
    }
  }

  // ----- the link ------------------------------------------------------------

  datatype Outcome = Finished | Refused | Aborted

  /** One of treloff and dreloff, with the position it started from. */
  class Cursor {
    const which: Which
    var at: nat
    var start: nat
    ghost var picked: seq<bool>   // inputs whose relocations were written
    ghost var made: nat           // link-order relocations written

    constructor (which: Which, start: nat, ghost inputs: nat)
      ensures this.which == which && at == start && this.start == start
      ensures made == 0 && |picked| == inputs && forall i :: 0 <= i < inputs ==> !picked[i]
    {
      this.which, at, this.start, made, picked := which, start, start, 0, seq(inputs, _ => false);
    }

    /** The cursor stands right after what has been written. */
    ghost predicate Exact(j: Job)
      reads this
    {
      |picked| == |j.inputs| && at == start + Used(j, which, picked, made)
    }
  }

  class FinalLink {
    const job: Job
    const text: Cursor
    const data: Cursor
    const symFilepos: nat
    var begun: seq<bool>     // output_has_begun
    var violated: bool       // a BFD_ASSERT reported

    ghost predicate Valid()
      reads this, text, data
    {
      && ValidJob(job) && text != data && text.which == Text && data.which == Data
      && text.Exact(job) && data.Exact(job) && |begun| == |job.inputs|
      && data.start == text.start + Counted(job, Text) && symFilepos == data.start + Counted(job, Data)
      && text.made <= RelocOrders(job, Text) && data.made <= RelocOrders(job, Data)
      && (forall i :: 0 <= i < |begun| && !begun[i] ==> !text.picked[i] && !data.picked[i])
      && (violated <==> !job.relocatable && text.made + data.made > 0)
    }

    /** Positions as the default back ends compute them: text relocations, data
        relocations, symbols, one after the other. */
    constructor (job: Job, base: nat, trsize: nat, drsize: nat)
      requires ValidJob(job) && trsize == Counted(job, Text) && drsize == Counted(job, Data)
      ensures Valid() && fresh(text) && fresh(data) && this.job == job && !violated
      ensures text.made == data.made == 0 && text.start == base && forall i :: 0 <= i < |begun| ==> !begun[i]
    {
      this.job := job;
      var n := |job.inputs|;
      text := new Cursor(Text, base, n);
      data := new Cursor(Data, base + trsize, n);
      symFilepos := base + trsize + drsize;
      begun, violated := seq(n, _ => false), false;
      new;
      NonePicked(Text, job.inputs, text.picked, n);
      NonePicked(Data, job.inputs, data.picked, n);
    }

    /** The condition of the two assertions. */
    predicate InPlace(c: Cursor)
      reads c, text, data
    {
      c.at <= symFilepos && (c != text || c.at <= data.start)
    }

    /** aout_link_input_section: the relocations of one input section, written
        only in a relocatable link. */
    method InputSection(c: Cursor, i: nat)
      requires Valid() && (c == text || c == data) && i < |begun| && !c.picked[i] && job.relocatable
      modifies c`at, c`picked, this`violated
      ensures c.picked == old(c.picked)[i := true] && c.Exact(job) && violated == old(violated) && InPlace(c)
    {
      var size := Size(c.which, job.inputs[i]);
      PickOne(c.which, job.inputs, c.picked, i, |job.inputs|);
      c.picked := c.picked[i := true];
      c.at := c.at + size;
      UsedBelowCounted(job, c.which, c.picked, c.made);
      violated := violated || !InPlace(c);
    }

    /** aout_link_input_bfd, as far as the cursors go. */
    method InputBfd(i: nat, textMark: bool, dataMark: bool)
      requires Valid() && i < |begun| && !begun[i]
      modifies text`at, text`picked, data`at, data`picked, this`begun, this`violated
      ensures Valid() && begun == old(begun)[i := true]
      ensures text.picked == old(text.picked)[i := job.relocatable && textMark && !job.inputs[i].hooked]
      ensures data.picked == old(data.picked)[i := job.relocatable && dataMark && !job.inputs[i].hooked]
    {
      begun := begun[i := true];
      if !job.inputs[i].hooked && job.relocatable {
        if textMark {
          InputSection(text, i);
        }
        if dataMark {
          InputSection(data, i);
        }
      }
    }

    /** aout_link_reloc_link_order, as far as the cursors go. */
    method RelocOrder(c: Cursor)
      requires Valid() && (c == text || c == data) && c.made < RelocOrders(job, c.which)
      modifies c`at, c`made, this`violated
      ensures Valid() && c.made == old(c.made) + 1
    {
      UsedStep(job, c.which, c.picked, c.made);
      c.at := c.at + job.entry;
      c.made := c.made + 1;
      assert c.Exact(job);
      if job.relocatable {
        UsedBelowCounted(job, c.which, c.picked, c.made);
      }
      assert InPlace(c) <==> job.relocatable;
      violated := violated || !InPlace(c);
    }

    // ----- first pass over the orders: the inputs ----------------------------

    /** Input i has been processed exactly when some a.out order named one of its
        sections; then the relocations of its marked sections are written. */
    ghost predicate InputState(s: nat, k: nat, i: nat, textMark: seq<bool>, dataMark: seq<bool>)
      requires Valid() && i < |begun| && |textMark| == |dataMark| == |begun|
      reads this, text, data
    {
      && (begun[i] <==> job.inputs[i].aout && Seen(job.sections, s, k, i))
      && (text.picked[i] <==> begun[i] && job.relocatable && textMark[i] && !job.inputs[i].hooked)
      && (data.picked[i] <==> begun[i] && job.relocatable && dataMark[i] && !job.inputs[i].hooked)
    }

    ghost predicate Progress(s: nat, k: nat, textMark: seq<bool>, dataMark: seq<bool>)
      requires Valid() && |textMark| == |dataMark| == |begun|
      reads this, text, data
    {
      forall i :: 0 <= i < |begun| ==> InputState(s, k, i, textMark, dataMark)
    }

    /** One link order of the first pass. */
    method FirstPassOrder(s: nat, k: nat, textMark: seq<bool>, dataMark: seq<bool>)
      requires Valid() && s < |job.sections| && k < |job.sections[s]| && |textMark| == |dataMark| == |begun|
      requires Progress(s, k, textMark, dataMark)
      modifies text`at, text`picked, data`at, data`picked, this`begun, this`violated
      ensures Valid() && |begun| == old(|begun|) && Progress(s, k + 1, textMark, dataMark)
    {
      var o := job.sections[s][k];
      if o.Indirect? && job.inputs[o.owner].aout && !begun[o.owner] {
        InputBfd(o.owner, textMark[o.owner], dataMark[o.owner]);
      }
      var next := k + 1;
      forall i | 0 <= i < |begun|
        ensures InputState(s, next, i, textMark, dataMark)
      {
        assert old(InputState(s, k, i, textMark, dataMark));
        SeenNext(job.sections, s, k, i);
      }
    }

    method FirstPass(textMark: seq<bool>, dataMark: seq<bool>)
      requires Valid() && |textMark| == |dataMark| == |begun|
      requires forall i :: 0 <= i < |begun| ==> !begun[i]
      modifies text`at, text`picked, data`at, data`picked, this`begun, this`violated
      ensures Valid() && |begun| == old(|begun|) && Progress(|job.sections|, 0, textMark, dataMark)
    {
      for s := 0 to |job.sections|
        invariant Valid() && |begun| == old(|begun|) && Progress(s, 0, textMark, dataMark)
      {
        for k := 0 to |job.sections[s]|
          invariant Valid() && |begun| == old(|begun|) && Progress(s, k, textMark, dataMark)
        {
          FirstPassOrder(s, k, textMark, dataMark);
        }
        var next := s + 1;
        forall i | 0 <= i < |begun|
          ensures InputState(next, 0, i, textMark, dataMark)
        {
          assert InputState(s, |job.sections[s]|, i, textMark, dataMark);
          SeenSection(job.sections, s, i);
        }
      }
    }

    // ----- second pass: relocations the linker makes up ----------------------

    /** What has been made after the first k orders of section s. */
    ghost predicate Made(s: nat, k: nat)
      requires Valid() && s <= |job.sections| && (s < |job.sections| ==> k <= |job.sections[s]|)
      reads this, text, data
    {
      && text.made == MadeIn(job, job.text, s, k)
      && data.made == MadeIn(job, job.data, s, k)
    }

    /** One order of the second pass; false stands for abort. */
    method SecondPassOrder(s: nat, k: nat) returns (ok: bool)
      requires Valid() && s < |job.sections| && k < |job.sections[s]| && Made(s, k)
      modifies text`at, text`made, data`at, data`made, this`violated
      ensures Valid()
      ensures ok ==> Made(s, k + 1)
      ensures ok <==> job.sections[s][k].Reloc? ==> s == job.text || s == job.data
    {
      ok := true;
      if job.sections[s][k].Reloc? {
        RelocsGrow(job.sections[s], k + 1, |job.sections[s]|);
        if s == job.text {
          RelocOrder(text);
        } else if s == job.data {
          RelocOrder(data);
        } else {
          ok := false;
        }
      }
    }

    method SecondPass() returns (ok: bool)
      requires Valid() && text.made == 0 && data.made == 0
      modifies text`at, text`made, data`at, data`made, this`violated
      ensures Valid()
      ensures ok ==> text.made == RelocOrders(job, Text) && data.made == RelocOrders(job, Data)
      ensures ok <==> forall s, k ::
        0 <= s < |job.sections| && 0 <= k < |job.sections[s]| && job.sections[s][k].Reloc? ==>
        s == job.text || s == job.data
    {
      for s := 0 to |job.sections|
        invariant Valid() && Made(s, 0)
        invariant forall s', k :: 0 <= s' < s && 0 <= k < |job.sections[s']| && job.sections[s'][k].Reloc? ==>
          s' == job.text || s' == job.data
      {
        for k := 0 to |job.sections[s]|
          invariant Valid() && Made(s, k)
          invariant forall k' :: 0 <= k' < k && job.sections[s][k'].Reloc? ==> s == job.text || s == job.data
        {
          ok := SecondPassOrder(s, k);
          if !ok {
            return;
          }
        }
      }
      ok := true;
    }
  }

  /** How many relocation orders of section `which` come before the k-th order of
      section s. */
  function MadeIn(j: Job, which: nat, s: nat, k: nat): nat
    requires which < |j.sections| && s <= |j.sections| && (s < |j.sections| ==> k <= |j.sections[s]|)
  {
    if s > which then Relocs(j.sections[which], |j.sections[which]|)
    else if s == which then Relocs(j.sections[which], k)
    else 0
  }

  // ----- counting and marking ------------------------------------------------

  /** The first loop of final_link: the space the inputs need; a relocatable link
      refuses inputs of another flavour. */
  method CountInputs(j: Job) returns (ok: bool, trsize: nat, drsize: nat)
    ensures ok <==> j.relocatable ==> forall i :: 0 <= i < |j.inputs| ==> j.inputs[i].aout
    ensures ok ==> trsize == if j.relocatable then Total(Text, j.inputs, |j.inputs|) else 0
    ensures ok ==> drsize == if j.relocatable then Total(Data, j.inputs, |j.inputs|) else 0
  {
    trsize, drsize := 0, 0;
    for k := 0 to |j.inputs|
      invariant j.relocatable ==> forall i :: 0 <= i < k ==> j.inputs[i].aout
      invariant trsize == if j.relocatable then Total(Text, j.inputs, k) else 0
      invariant drsize == if j.relocatable then Total(Data, j.inputs, k) else 0
    {
      if j.relocatable {
        if !j.inputs[k].aout {
          return false, trsize, drsize;
        }
        trsize := trsize + j.inputs[k].trsize;
        drsize := drsize + j.inputs[k].drsize;
      }
    }
    ok := true;
  }

  /** All the space: what the inputs have and what the linker makes up. */
  method CountSpace(j: Job) returns (ok: bool, trsize: nat, drsize: nat)
    requires ValidJob(j)
    ensures ok <==> j.relocatable ==> forall i :: 0 <= i < |j.inputs| ==> j.inputs[i].aout
    ensures ok ==> trsize == Counted(j, Text) && drsize == Counted(j, Data)
  {
    ok, trsize, drsize := CountInputs(j);
    if ok && j.relocatable {
      var t := CountRelocs(j.sections[j.text]);
      var d := CountRelocs(j.sections[j.data]);
      trsize, drsize := trsize + j.entry * t, drsize + j.entry * d;
    }
  }

  ghost predicate MarkState(j: Job, marks: seq<bool>, w: Which, s: nat, k: nat)
    requires |marks| == |j.inputs|
  {
    forall i :: 0 <= i < |marks| ==> (marks[i] <==> Met(j.sections, s, k, i, w))
  }

  method MarkOrder(j: Job, marks: seq<bool>, w: Which, s: nat, k: nat) returns (marks': seq<bool>)
    requires ValidJob(j) && |marks| == |j.inputs| && s < |j.sections| && k < |j.sections[s]|
      && MarkState(j, marks, w, s, k)
    ensures |marks'| == |marks| && MarkState(j, marks', w, s, k + 1)
  {
    marks' := marks;
    var o := j.sections[s][k];
    if o.Indirect? && o.which == w {
      marks' := marks[o.owner := true];
    }
    var next := k + 1;
    forall i | 0 <= i < |marks'|
      ensures marks'[i] <==> Met(j.sections, s, next, i, w)
    {
      MetNext(j.sections, s, k, i, w);
    }
  }

  /** linker_mark: the input sections that some order includes. */
  method MarkSections(j: Job, w: Which) returns (marks: seq<bool>)
    requires ValidJob(j)
    ensures |marks| == |j.inputs| && MarkState(j, marks, w, |j.sections|, 0)
  {
    marks := seq(|j.inputs|, _ => false);
    for s := 0 to |j.sections|
      invariant |marks| == |j.inputs| && MarkState(j, marks, w, s, 0)
    {
      for k := 0 to |j.sections[s]|
        invariant |marks| == |j.inputs| && MarkState(j, marks, w, s, k)
      {
        marks := MarkOrder(j, marks, w, s, k);
      }
      var next := s + 1;
      forall i | 0 <= i < |marks|
        ensures marks[i] <==> Met(j.sections, next, 0, i, w)
      {
        MetSection(j.sections, s, i, w);
      }
    }
  }

  // ----- the whole link ------------------------------------------------------

  /** The relocations of this kind that reach the output come from this input. */
  ghost predicate Contributes(j: Job, w: Which, i: nat)
    requires i < |j.inputs|
  {
    j.inputs[i].aout && !j.inputs[i].hooked && Named(j.sections, i, w)
  }

  /** Every relocation of this kind is in an input that contributes it. */
  ghost predicate NoneLost(j: Job, w: Which)
  {
    forall i :: 0 <= i < |j.inputs| ==> Contributes(j, w, i) || Size(w, j.inputs[i]) == 0
  }

  /** A relocation order outside .text and .data. */
  ghost predicate Stray(j: Job)
  {
    exists s, k ::
      0 <= s < |j.sections| && 0 <= k < |j.sections[s]| && j.sections[s][k].Reloc? && s != j.text && s != j.data
  }

  lemma PickedIffContributes(l: FinalLink, textMark: seq<bool>, dataMark: seq<bool>)
    requires l.Valid() && l.job.relocatable && |textMark| == |dataMark| == |l.begun|
    requires l.Progress(|l.job.sections|, 0, textMark, dataMark)
    requires MarkState(l.job, textMark, Text, |l.job.sections|, 0)
    requires MarkState(l.job, dataMark, Data, |l.job.sections|, 0)
    ensures forall i :: 0 <= i < |l.begun| ==>
      (l.text.picked[i] <==> Contributes(l.job, Text, i)) && (l.data.picked[i] <==> Contributes(l.job, Data, i))
  {
    forall i | 0 <= i < |l.begun|
      ensures (l.text.picked[i] <==> Contributes(l.job, Text, i)) && (l.data.picked[i] <==> Contributes(l.job, Data, i))
    {
      assert l.InputState(|l.job.sections|, 0, i, textMark, dataMark);
    }
  }

  /** final_link.  In a relocatable link neither assertion can fail, each cursor
      ends at or before the end of its space, and at its end exactly when no
      input's relocations were left out.  In any other link an assertion fails
      exactly when the linker was asked to make up a relocation. */
  method Link(j: Job, base: nat) returns (r: Outcome, l: FinalLink?)
    requires ValidJob(j)
    ensures r == Refused <==> j.relocatable && exists i :: 0 <= i < |j.inputs| && !j.inputs[i].aout
    ensures r == Aborted <==> r != Refused && Stray(j)
    ensures r != Refused ==> l != null && l.job == j && l.Valid() && (j.relocatable ==> !l.violated)
    ensures r == Finished ==>
      (l.violated <==> !j.relocatable && RelocOrders(j, Text) + RelocOrders(j, Data) > 0)
    ensures r == Finished && j.relocatable ==>
      && l.text.at <= l.data.start && l.data.at <= l.symFilepos
      && (l.text.at == l.data.start <==> NoneLost(j, Text))
      && (l.data.at == l.symFilepos <==> NoneLost(j, Data))
  {
    var ok, trsize, drsize := CountSpace(j);
    if !ok {
      return Refused, null;
    }
    l := new FinalLink(j, base, trsize, drsize);
    var textMark := MarkSections(j, Text);
    var dataMark := MarkSections(j, Data);
    l.FirstPass(textMark, dataMark);
    if j.relocatable {
      PickedIffContributes(l, textMark, dataMark);
    }
    ok := l.SecondPass();
    if !ok {
      return Aborted, l;
    }
    if j.relocatable {
      UsedBelowCounted(j, Text, l.text.picked, l.text.made);
      UsedBelowCounted(j, Data, l.data.picked, l.data.made);
      AllUsedIff(j, Text, l.text.picked, l.text.made);
      AllUsedIff(j, Data, l.data.picked, l.data.made);
    }
    r := Finished;
  }
}
