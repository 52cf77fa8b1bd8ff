/** The two-pass format interpreter of binutils/bfd/bfd.c: a scanner fetches the
    arguments, then a printer walks the same format on its own and uses them. */
module DoPrnt {
  import opened Octets

  const MAX_ARGS: nat := 9

  datatype ArgType = Bad | Int | Long | LongLong | Double | LongDouble | Ptr

  /** One use of an argument: its number and the union member it is used as. */
  datatype Use = Use(index: nat, kind: ArgType)

  /** How a walk ends: at the end of the format, in abort(), or past the NUL of
      a directive that is cut short among its flags. */
  datatype Stop = End | Aborts | Overruns

  datatype Walk = Walk(uses: seq<Use>, stop: Stop)

  // ----- the format language -------------------------------------------------

  /** *ptr, NUL at the end of the format. */
  function At(f: string, i: nat): char { if i < |f| then f[i] else '\0' }

  predicate IsFlag(c: char) { c in "-+ #0'I" }

  predicate IsDigit(c: char) { '0' <= c <= '9' }

  /** A digit 1..9 followed by '$' names an argument. */
  function Position(f: string, i: nat): (r: Option<nat>)
    ensures r.Some? ==> r.value < MAX_ARGS && i + 2 <= |f|
  {
    if '1' <= At(f, i) <= '9' && At(f, i + 1) == '$' then Some((At(f, i) - '1') as nat) else None
  }

  function SkipFlags(f: string, i: nat): (r: nat)
    requires i <= |f|
    ensures i <= r <= |f|
    decreases |f| - i
  {
    if i < |f| && IsFlag(f[i]) then SkipFlags(f, i + 1) else i
  }

  function SkipDigits(f: string, i: nat): (r: nat)
    requires i <= |f|
    ensures i <= r <= |f|
    decreases |f| - i
  {
    if i < |f| && IsDigit(f[i]) then SkipDigits(f, i + 1) else i
  }

  /** A width or precision: '*', or a possibly empty number. */
  function Measure(f: string, i: nat, count: nat): (r: (nat, seq<Use>))
    requires i <= |f|
    ensures i <= r.0 <= |f| && |r.1| <= 1
  {
    if At(f, i) == '*' then
      match Position(f, i + 1)
      case Some(d) => (i + 3, [Use(d, Int)])
      case None => (i + 1, [Use(count, Int)])
    else (SkipDigits(f, i), [])
  }

  /** The length modifiers: where they end, the width they add up to, any 'h'. */
  function Lengths(f: string, i: nat, wide: nat, short: bool): (r: (nat, nat, bool))
    requires i <= |f|
    ensures i <= r.0 <= |f|
    decreases |f| - i
  {
    if i < |f| && f[i] == 'h' then Lengths(f, i + 1, wide, true)
    else if i < |f| && f[i] == 'l' then Lengths(f, i + 1, wide + 1, short)
    else if i < |f| && f[i] == 'L' then Lengths(f, i + 1, 2, short)
    else (i, wide, short)
  }

  function Conversion(c: char, wide: nat, short: bool): ArgType
  {
    if c in "diouxXc" then
      if short || wide == 0 then Int else if wide == 1 then Long else LongLong
    else if c in "feEgG" then if wide == 0 then Double else LongDouble
    else if c == 's' || c == 'p' then Ptr
    else Bad
  }

  /** Width, then an optional precision. */
  function Stars(f: string, i: nat, count: nat): (r: (nat, seq<Use>))
    requires i <= |f|
    ensures i <= r.0 <= |f|
  {
    var (i, width) := Measure(f, i, count);
    if At(f, i) == '.' then
      var (i, precision) := Measure(f, i + 1, count + |width|);
      (i, width + precision)
    else (i, width)
  }

  /** Length modifiers and conversion: the type used, how it ends, and where. */
  function Finish(f: string, i: nat): (r: (ArgType, Stop, nat))
    requires i <= |f|
    ensures r.1.End? ==> i < r.2 <= |f|
  {
    var (i, wide, short) := Lengths(f, i, 0, false);
    if i == |f| then (Bad, Aborts, i)
    else
      var kind := Conversion(f[i], wide, short);
      var next := if f[i] == 'p' && i + 1 < |f| && f[i + 1] in "AB" then i + 2 else i + 1;
      (kind, if kind == Bad then Aborts else End, next)
  }

  /** An argument number, then flags. */
  function Opening(f: string, i: nat): (r: (Option<nat>, nat))
    requires i <= |f|
    ensures i <= r.1 <= |f|
  {
    var pos := Position(f, i);
    (pos, SkipFlags(f, if pos.Some? then i + 2 else i))
  }

  /** One directive, from just past its '%': its uses, how it ends, and where. */
  function Directive(f: string, i: nat, count: nat): (r: (seq<Use>, Stop, nat))
    requires i <= |f|
    ensures r.1.End? ==> i < r.2 <= |f|
  {
    var (pos, i) := Opening(f, i);
    if i == |f| then ([], Overruns, i)
    else
      var (i, stars) := Stars(f, i, count);
      var (kind, stop, next) := Finish(f, i);
      var index := if pos.Some? then pos.value else count + |stars|;
      (if stop.End? then stars + [Use(index, kind)] else stars, stop, next)
  }

  // ----- a directive as C spells it --------------------------------------------

  /** The type an argument has in C, by length modifier and conversion. */
  function TypeInC(length: string, c: char): Option<ArgType>
  {
    match c
    case 'd' | 'i' | 'o' | 'u' | 'x' | 'X' | 'c' =>
      if length == "" || length == "h" || length == "hh" then Some(Int)
      else if length == "l" then Some(Long)
      else if length == "ll" then Some(LongLong)
      else None
    case 'f' | 'e' | 'E' | 'g' | 'G' =>
      if length == "" then Some(Double) else if length == "L" then Some(LongDouble) else None
    case 's' | 'p' => if length == "" then Some(Ptr) else None
    case _ => None
  }

  lemma {:induction false} FlagsSkipped(f: string, i: nat, a: nat)
    requires i <= a <= |f| && forall k :: i <= k < a ==> f[k] in {'-', '+', ' ', '#', '0', '\'', 'I'}
    requires a < |f| ==> f[a] !in {'-', '+', ' ', '#', '0', '\'', 'I'}
    ensures SkipFlags(f, i) == a
    decreases a - i
  {
    if i < a {
      FlagsSkipped(f, i + 1, a);
    }
  }

  lemma {:induction false} DigitsSkipped(f: string, i: nat, b: nat)
    requires i <= b <= |f| && forall k :: i <= k < b ==> '0' <= f[k] <= '9'
    requires b < |f| ==> !('0' <= f[b] <= '9')
    ensures SkipDigits(f, i) == b
    decreases b - i
  {
    if i < b {
      DigitsSkipped(f, i + 1, b);
    }
  }

  /** The counts the length modifiers of C add up to. */
  lemma LengthsAsInC(f: string, b: nat, d: nat)
    requires b <= d < |f| && f[d] !in {'h', 'l', 'L'}
    ensures f[b..d] == "" ==> Lengths(f, b, 0, false) == (d, 0, false)
    ensures f[b..d] == "h" || f[b..d] == "hh" ==> Lengths(f, b, 0, false) == (d, 0, true)
    ensures f[b..d] == "l" ==> Lengths(f, b, 0, false) == (d, 1, false)
    ensures f[b..d] == "ll" || f[b..d] == "L" ==> Lengths(f, b, 0, false) == (d, 2, false)
  {
    var length := f[b..d];
    assert forall k :: 0 <= k < |length| ==> length[k] == f[b + k];
    assert Lengths(f, d, 0, true) == (d, 0, true) && Lengths(f, d, 2, false) == (d, 2, false);
    if d == b + 2 {
      assert f[b] == length[0] && f[b + 1] == length[1];
    } else if d == b + 1 {
      assert f[b] == length[0];
    }
  }

  lemma ConversionInC(length: string, c: char, t: ArgType)
    requires TypeInC(length, c) == Some(t)
    ensures c !in {'h', 'l', 'L', '*', '.', '$'} && !('0' <= c <= '9') && t != Bad
    ensures length == "" ==> Conversion(c, 0, false) == t
    ensures length == "h" || length == "hh" ==> Conversion(c, 0, true) == t
    ensures length == "l" ==> Conversion(c, 1, false) == t
    ensures length == "ll" || length == "L" ==> Conversion(c, 2, false) == t
    ensures length in ["", "h", "hh", "l", "ll", "L"]
  {
  }

  lemma LengthRead(f: string, b: nat, d: nat, t: ArgType)
    requires b <= d < |f| && TypeInC(f[b..d], f[d]) == Some(t)
    ensures var (i, wide, short) := Lengths(f, b, 0, false); i == d && Conversion(f[d], wide, short) == t
    ensures f[b] !in {'*', '.', '$'} && !('0' <= f[b] <= '9') && t != Bad
  {
    ConversionInC(f[b..d], f[d], t);
    LengthsAsInC(f, b, d);
    if b < d {
      assert f[b] == f[b..d][0];
    }
  }

  lemma FinishInC(f: string, b: nat, d: nat, t: ArgType)
    requires b <= d < |f| && TypeInC(f[b..d], f[d]) == Some(t)
    ensures var next := if f[d] == 'p' && d + 1 < |f| && (f[d + 1] == 'A' || f[d + 1] == 'B') then d + 2 else d + 1;
      Finish(f, b) == (t, End, next)
  {
    LengthRead(f, b, d, t);
  }

  /** A directive of flags, a width, a length modifier and a conversion C has
      uses one argument, the next, as the type C gives it, and ends behind the
      conversion (behind "pA" and "pB" likewise). */
  lemma DirectiveAsInC(f: string, i: nat, a: nat, b: nat, d: nat, count: nat, t: ArgType)
    requires i <= a <= b <= d < |f| && TypeInC(f[b..d], f[d]) == Some(t)
    requires forall k :: i <= k < a ==> f[k] in {'-', '+', ' ', '#', '0', '\'', 'I'}
    requires f[a] !in {'-', '+', ' ', '#', '0', '\'', 'I'} && forall k :: a <= k < b ==> '0' <= f[k] <= '9'
    ensures var next := if f[d] == 'p' && d + 1 < |f| && (f[d + 1] == 'A' || f[d + 1] == 'B') then d + 2 else d + 1;
      Directive(f, i, count) == ([Use(count, t)], End, next)
  {
    FlagsSkipped(f, i, a);
    LengthRead(f, b, d, t);
    FinishInC(f, b, d, t);
    DigitsSkipped(f, a, b);
    assert Position(f, i).None?;
    assert Opening(f, i) == (None, a);
    assert Stars(f, a, count) == (b, []);
    assert [] + [Use(count, t)] == [Use(count, t)];
  }

  /** All the uses of a format from i on, `count` of them being behind. */
  function WalkFrom(f: string, i: nat, count: nat): Walk
    requires i <= |f|
    decreases |f| - i
  {
    if i == |f| then Walk([], End)
    else if f[i] != '%' then WalkFrom(f, i + 1, count)
    else if At(f, i + 1) == '%' then WalkFrom(f, i + 2, count)
    else
      var (uses, stop, next) := Directive(f, i + 1, count);
      if stop != End then Walk(uses, stop)
      else Prepend(uses, WalkFrom(f, next, count + |uses|))
  }

  function Prepend(uses: seq<Use>, w: Walk): Walk { Walk(uses + w.uses, w.stop) }

  // ----- what the scanner makes of it ----------------------------------------

  predicate InRange(uses: seq<Use>) { forall k :: 0 <= k < |uses| ==> uses[k].index < MAX_ARGS }

  const ALL_BAD: seq<ArgType> := [Bad, Bad, Bad, Bad, Bad, Bad, Bad, Bad, Bad]

  /** args[].type after the assignments in order. */
  function Apply(types: seq<ArgType>, uses: seq<Use>): (r: seq<ArgType>)
    requires InRange(uses) && |types| == MAX_ARGS
    ensures |r| == MAX_ARGS
  {
    if uses == [] then types
    else
      var last := uses[|uses| - 1];
      Apply(types, uses[..|uses| - 1])[last.index := last.kind]
  }

  function Record(uses: seq<Use>): (r: seq<ArgType>)
    requires InRange(uses)
    ensures |r| == MAX_ARGS
  {
    Apply(ALL_BAD, uses)
  }

  datatype Verdict = Accepted(types: seq<ArgType>) | Aborted | Overran | OutOfBounds

  /** The scanner's answer: it aborts on a number of nine or more, on an unknown
      conversion and on an argument nobody uses; with more than nine uses its
      last loop leaves the args array. */
  ghost function Judge(w: Walk): Verdict
  {
    if !InRange(w.uses) then Aborted
    else if w.stop.Aborts? then Aborted
    else if w.stop.Overruns? then Overran
    else JudgeTypes(Record(w.uses), |w.uses|)
  }

  ghost function JudgeTypes(types: seq<ArgType>, n: nat): Verdict
    requires |types| == MAX_ARGS
  {
    if exists i :: 0 <= i < n && i < MAX_ARGS && types[i] == Bad then Aborted
    else if n > MAX_ARGS then OutOfBounds
    else Accepted(types[..n])
  }

  // ----- agreement -----------------------------------------------------------

  ghost predicate Onto(s: seq<nat>, n: nat) { forall i: nat :: i < n ==> i in s }

  /** n numbers that take every value below n take each exactly once. */
  lemma {:induction false} Pigeonhole(s: seq<nat>, n: nat)
    requires |s| == n && Onto(s, n)
    ensures forall k :: 0 <= k < n ==> s[k] < n
    ensures forall j, k :: 0 <= j < k < n ==> s[j] != s[k]
  {
    if n > 0 {
      assert n - 1 in s;
      var p :| 0 <= p < n && s[p] == n - 1;
      var t := s[..p] + s[p + 1..];
      forall i: nat | i < n - 1
        ensures i in t
      {
        assert i in s;
        var k :| 0 <= k < n && s[k] == i;
        assert t[if k < p then k else k - 1] == i;
      }
      Pigeonhole(t, n - 1);
      forall k | 0 <= k < n && k != p
        ensures s[k] < n - 1
      {
        assert s[k] == t[if k < p then k else k - 1];
      }
      forall j, k | 0 <= j < k < n && j != p && k != p
        ensures s[j] != s[k]
      {
        assert s[j] == t[if j < p then j else j - 1];
        assert s[k] == t[if k < p then k else k - 1];
      }
    }
  }

  function Indices(uses: seq<Use>): (r: seq<nat>)
    ensures |r| == |uses| && forall k :: 0 <= k < |r| ==> r[k] == uses[k].index
  {
    seq(|uses|, k requires 0 <= k < |uses| => uses[k].index)
  }

  /** A type other than Bad was recorded by some use. */
  lemma {:induction false} RecordedByUse(uses: seq<Use>, i: nat)
    requires InRange(uses) && i < MAX_ARGS && Record(uses)[i] != Bad
    ensures i in Indices(uses)
  {
    var n := |uses|;
    if uses != [] {
      if uses[n - 1].index == i {
        assert Indices(uses)[n - 1] == i;
      } else {
        RecordedByUse(uses[..n - 1], i);
        var k :| 0 <= k < n - 1 && Indices(uses[..n - 1])[k] == i;
        assert Indices(uses)[k] == i;
      }
    }
  }

  /** The last use of an argument decides its recorded type. */
  lemma {:induction false} LastUseRecorded(uses: seq<Use>, k: nat)
    requires InRange(uses) && k < |uses|
    requires forall j :: k < j < |uses| ==> uses[j].index != uses[k].index
    ensures Record(uses)[uses[k].index] == uses[k].kind
  {
    var n := |uses|;
    if k < n - 1 {
      assert uses[..n - 1][k] == uses[k];
      LastUseRecorded(uses[..n - 1], k);
    }
  }

  /** Whenever the scanner accepts, the argument numbers are a permutation of
      0..n-1 and every use, by the scanner or by the printer, is of the type
      the argument was fetched with. */
  lemma AcceptedIsPermutation(f: string)
    requires Judge(WalkFrom(f, 0, 0)).Accepted?
    ensures var uses := WalkFrom(f, 0, 0).uses; var types := Judge(WalkFrom(f, 0, 0)).types;
      && |types| == |uses| <= MAX_ARGS
      && (forall k :: 0 <= k < |uses| ==> uses[k].index < |uses|)
      && (forall j, k :: 0 <= j < k < |uses| ==> uses[j].index != uses[k].index)
      && (forall i: nat :: i < |uses| ==> i in Indices(uses))
      && (forall k :: 0 <= k < |uses| ==> types[uses[k].index] == uses[k].kind)
  {
    var uses := WalkFrom(f, 0, 0).uses;
    forall i: nat | i < |uses|
      ensures i in Indices(uses)
    {
      RecordedByUse(uses, i);
    }
    Pigeonhole(Indices(uses), |uses|);
    forall k | 0 <= k < |uses|
      ensures Record(uses)[uses[k].index] == uses[k].kind
    {
      assert forall j :: k < j < |uses| ==> Indices(uses)[k] != Indices(uses)[j];
      LastUseRecorded(uses, k);
    }
  }

  predicate NoBadKind(uses: seq<Use>) { forall k :: 0 <= k < |uses| ==> uses[k].kind != Bad }

  /** An argument has a type recorded exactly when some use names it. */
  lemma {:induction false} RecordedIffUsed(uses: seq<Use>, i: nat)
    requires InRange(uses) && NoBadKind(uses) && i < MAX_ARGS
    ensures Record(uses)[i] != Bad <==> i in Indices(uses)
  {
    var n := |uses|;
    if n > 0 {
      RecordedIffUsed(uses[..n - 1], i);
      assert Indices(uses) == Indices(uses[..n - 1]) + [uses[n - 1].index];
    }
  }

  lemma DirectiveHasNoBadKind(f: string, i: nat, count: nat)
    requires i <= |f|
    ensures NoBadKind(Directive(f, i, count).0)
  {
  }

  lemma {:induction false} WalkHasNoBadKind(f: string, i: nat, count: nat)
    requires i <= |f|
    ensures NoBadKind(WalkFrom(f, i, count).uses)
    decreases |f| - i
  {
    if i < |f| {
      if f[i] != '%' {
        WalkHasNoBadKind(f, i + 1, count);
      } else if At(f, i + 1) == '%' {
        WalkHasNoBadKind(f, i + 2, count);
      } else {
        var (uses, stop, next) := Directive(f, i + 1, count);
        DirectiveHasNoBadKind(f, i + 1, count);
        if stop == End {
          WalkHasNoBadKind(f, next, count + |uses|);
        }
      }
    }
  }

  /** What a format the scanner has walked to its end leads to: it is accepted
      exactly when there are at most nine uses and they name every argument below
      their number; the loop that fetches the arguments leaves the array exactly
      when there are more than nine uses and all nine arguments are named. */
  lemma VerdictIff(f: string, w: Walk)
    requires w == WalkFrom(f, 0, 0) && w.stop.End? && InRange(w.uses)
    ensures Judge(w).Accepted? <==> |w.uses| <= MAX_ARGS && Onto(Indices(w.uses), |w.uses|)
    ensures Judge(w).OutOfBounds? <==> |w.uses| > MAX_ARGS && Onto(Indices(w.uses), MAX_ARGS)
  {
    WalkHasNoBadKind(f, 0, 0);
    forall i: nat | i < MAX_ARGS
      ensures Record(w.uses)[i] != Bad <==> i in Indices(w.uses)
    {
      RecordedIffUsed(w.uses, i);
    }
  }

  // ----- two families of formats ---------------------------------------------

  /** A directive cut off behind its flags aborts, whatever precedes it: "%5",
      "%l", "%*" and "%.3" do.  One cut off among its flags overruns: "%" and "%-". */
  lemma CutOff(f: string, i: nat, count: nat)
    requires i < |f| && f[i] == '%' && At(f, i + 1) != '%'
    ensures Opening(f, i + 1).1 == |f| ==> WalkFrom(f, i, count).stop == Overruns
    ensures var p := Opening(f, i + 1).1; var q := Stars(f, p, count).0;
      p < |f| && Lengths(f, q, 0, false).0 == |f| ==> WalkFrom(f, i, count).stop == Aborts
  {
  }

  lemma CutOffInstances()
    ensures Judge(WalkFrom("%5", 0, 0)) == Judge(WalkFrom("%l", 0, 0)) == Aborted
    ensures Judge(WalkFrom("%-", 0, 0)) == Overran
  {
    CutOff("%5", 0, 0);
    assert SkipFlags("%5", 1) == 1;
    assert SkipDigits("%5", 1) == SkipDigits("%5", 2) == 2;
    CutOff("%l", 0, 0);
    assert SkipFlags("%l", 1) == 1 && SkipDigits("%l", 1) == 1;
    assert Lengths("%l", 1, 0, false) == Lengths("%l", 2, 1, false);
    CutOff("%-", 0, 0);
    assert SkipFlags("%-", 1) == SkipFlags("%-", 2) == 2;
  }

  /** The number of an argument, as a place from '1' to '9' names it. */
  type Place = d: nat | d < MAX_ARGS

  /** "%d$d" for each place in turn. */
  function Positional(ds: seq<Place>): (f: string)
    ensures |f| == 4 * |ds|
  {
    if ds == [] then "" else Positional(ds[..|ds| - 1]) + ['%', '1' + (ds[|ds| - 1] as char), '$', 'd']
  }

  lemma {:induction false} PositionalAt(ds: seq<Place>, i: nat)
    requires i < |ds|
    ensures Positional(ds)[4 * i..4 * i + 4] == ['%', '1' + (ds[i] as char), '$', 'd']
  {
    if i < |ds| - 1 {
      PositionalAt(ds[..|ds| - 1], i);
      assert Positional(ds)[4 * i..4 * i + 4] == Positional(ds[..|ds| - 1])[4 * i..4 * i + 4];
    }
  }

  function UsesOf(ds: seq<Place>, i: nat): (r: seq<Use>)
    requires i <= |ds|
    ensures |r| == |ds| - i && forall k :: 0 <= k < |r| ==> r[k] == Use(ds[i + k], Int)
    decreases |ds| - i
  {
    if i == |ds| then [] else [Use(ds[i], Int)] + UsesOf(ds, i + 1)
  }

  lemma PositionalDirective(f: string, p: nat, d: Place, count: nat)
    requires p + 4 <= |f| && f[p..p + 4] == ['%', '1' + (d as char), '$', 'd']
    ensures f[p] == '%' && f[p + 1] != '%'
    ensures Directive(f, p + 1, count) == ([Use(d, Int)], End, p + 4)
  {
    assert f[p] == f[p..p + 4][0] && f[p + 1] == f[p..p + 4][1];
    assert f[p + 2] == f[p..p + 4][2] == '$' && f[p + 3] == f[p..p + 4][3] == 'd';
    assert Position(f, p + 1) == Some(d);
    assert SkipFlags(f, p + 3) == p + 3 && SkipDigits(f, p + 3) == p + 3;
    assert Opening(f, p + 1) == (Some(d), p + 3);
    assert Stars(f, p + 3, count) == (p + 3, []);
    assert Lengths(f, p + 3, 0, false) == (p + 3, 0, false);
    assert Finish(f, p + 3) == (Int, End, p + 4);
    var none: seq<Use> := [];
    assert none + [Use(d, Int)] == [Use(d, Int)];
  }

  lemma WalkStep(f: string, p: nat, count: nat, u: Use, next: nat)
    requires p < next <= |f| && f[p] == '%' && At(f, p + 1) != '%' && Directive(f, p + 1, count) == ([u], End, next)
    ensures WalkFrom(f, p, count) == Prepend([u], WalkFrom(f, next, count + 1))
  {
  }

  lemma {:induction false} PositionalWalk(ds: seq<Place>, i: nat)
    requires i <= |ds|
    ensures WalkFrom(Positional(ds), 4 * i, i) == Walk(UsesOf(ds, i), End)
    decreases |ds| - i
  {
    if i < |ds| {
      PositionalAt(ds, i);
      PositionalDirective(Positional(ds), 4 * i, ds[i], i);
      WalkStep(Positional(ds), 4 * i, i, Use(ds[i], Int), 4 * (i + 1));
      PositionalWalk(ds, i + 1);
    }
  }

  /** Nine arguments and ten uses: the format "%1$d%2$d%3$d%4$d%5$d%6$d%7$d%8$d%9$d%1$d"
      takes the scanner out of its array. */
  lemma TenUsesLeaveTheArray()
    ensures Judge(WalkFrom(Positional([0, 1, 2, 3, 4, 5, 6, 7, 8, 0]), 0, 0)) == OutOfBounds
  {
    var ds: seq<Place> := [0, 1, 2, 3, 4, 5, 6, 7, 8, 0];
    var w := WalkFrom(Positional(ds), 0, 0);
    PositionalWalk(ds, 0);
    forall i: nat | i < MAX_ARGS
      ensures i in Indices(w.uses)
    {
      assert w.uses[i] == Use(ds[i], Int) && ds[i] == i;
      assert Indices(w.uses)[i] == i;
    }
    VerdictIff(Positional(ds), w);
  }

  /** An argument used twice is refused, as the pigeonhole leaves one unused:
      "%1$d%1$s" aborts. */
  lemma RepeatedArgumentRefused(f: string, j: nat, k: nat)
    requires var w := WalkFrom(f, 0, 0); j < k < |w.uses| && w.uses[j].index == w.uses[k].index
    ensures !Judge(WalkFrom(f, 0, 0)).Accepted?
  {
    if Judge(WalkFrom(f, 0, 0)).Accepted? {
      AcceptedIsPermutation(f);
    }
  }

  // ----- the scanner -----------------------------------------------------------

  lemma {:induction false} ApplyTwice(types: seq<ArgType>, a: seq<Use>, b: seq<Use>)
    requires InRange(a) && InRange(b) && |types| == MAX_ARGS
    ensures InRange(a + b) && Apply(types, a + b) == Apply(Apply(types, a), b)
  {
    if b == [] {
      assert a + b == a;
    } else {
      ApplyTwice(types, a, b[..|b| - 1]);
      assert (a + b)[..|a + b| - 1] == a + b[..|b| - 1];
    }
  }

  lemma ApplyOne(types: seq<ArgType>, u: Use)
    requires u.index < MAX_ARGS && |types| == MAX_ARGS
    ensures Apply(types, [u]) == types[u.index := u.kind]
  {
    assert [u][..0] == [];
  }

  lemma InRangeConcat(a: seq<Use>, b: seq<Use>)
    ensures InRange(a + b) <==> InRange(a) && InRange(b)
  {
    assert forall k :: 0 <= k < |a| ==> (a + b)[k] == a[k];
    assert forall k :: 0 <= k < |b| ==> (a + b)[|a| + k] == b[k];
  }

  /** The width or precision of _bfd_doprnt_scan; not ok is its abort(). */
  method ScanMeasure(f: string, start: nat, count: nat, args: array<ArgType>)
    returns (ok: bool, ptr: nat, argCount: nat)
    requires start <= |f| && args.Length == MAX_ARGS
    modifies args
    ensures var (next, uses) := Measure(f, start, count);
      && ok == InRange(uses)
      && (ok ==> ptr == next && argCount == count + |uses| && args[..] == Apply(old(args[..]), uses))
  {
    ok, ptr, argCount := true, start, count;
    if At(f, ptr) == '*' {
      ptr := ptr + 1;
      var argIndex := argCount;
      if At(f, ptr) != '0' && IsDigit(At(f, ptr)) && At(f, ptr + 1) == '$' {
        argIndex := (At(f, ptr) - '1') as nat;
        ptr := ptr + 2;
      }
      ghost var u := Use(argIndex, Int);
      assert Measure(f, start, count) == (ptr, [u]);
      if argIndex >= MAX_ARGS {
        assert [u][0].index >= MAX_ARGS;
        return false, ptr, argCount;
      }
      ApplyOne(args[..], u);
      args[argIndex] := Int;
      argCount := argCount + 1;
    } else {
      while ptr < |f| && IsDigit(f[ptr])
        invariant ptr <= |f| && SkipDigits(f, ptr) == SkipDigits(f, start)
      {
        ptr := ptr + 1;
      }
    }
  }

  /** The switch on the conversion in _bfd_doprnt_scan; Bad is its abort(). */
  method ScanConversion(c: char, wideWidth: nat, shortWidth: bool) returns (t: ArgType)
    ensures t == Conversion(c, wideWidth, shortWidth)
  {
    t := Bad;
    match c {
      case 'd' | 'i' | 'o' | 'u' | 'x' | 'X' | 'c' =>
        if shortWidth {
          t := Int;
        } else {
          match wideWidth {
            case 0 => t := Int;
            case 1 => t := Long;
            case _ => t := LongLong;
          }
        }
      case 'f' | 'e' | 'E' | 'g' | 'G' =>
        t := if wideWidth == 0 then Double else LongDouble;
      case 's' => t := Ptr;
      case 'p' => t := Ptr;
      case _ =>
    }
  }

  method ScanOpening(f: string, start: nat) returns (argNo: Option<nat>, ptr: nat)
    requires start <= |f|
    ensures (argNo, ptr) == Opening(f, start)
  {
    argNo, ptr := None, start;
    if At(f, ptr) != '0' && IsDigit(At(f, ptr)) && At(f, ptr + 1) == '$' {
      argNo := Some((At(f, ptr) - '1') as nat);
      ptr := ptr + 2;
    }
    ghost var afterPos := ptr;
    while ptr < |f| && IsFlag(f[ptr])
      invariant ptr <= |f| && SkipFlags(f, ptr) == SkipFlags(f, afterPos)
    {
      ptr := ptr + 1;
    }
  }

  method ScanStars(f: string, start: nat, count: nat, args: array<ArgType>)
    returns (ok: bool, ptr: nat, argCount: nat)
    requires start <= |f| && args.Length == MAX_ARGS
    modifies args
    ensures var (next, uses) := Stars(f, start, count);
      && ok == InRange(uses)
      && (ok ==> ptr == next && argCount == count + |uses| && args[..] == Apply(old(args[..]), uses))
  {
    ok, ptr, argCount := ScanMeasure(f, start, count, args);
    if At(f, Measure(f, start, count).0) == '.' {
      ghost var (i, width) := Measure(f, start, count);
      ghost var (_, precision) := Measure(f, i + 1, count + |width|);
      InRangeConcat(width, precision);
      if ok {
        ok, ptr, argCount := ScanMeasure(f, ptr + 1, argCount, args);
        if ok {
          ApplyTwice(old(args[..]), width, precision);
        }
      }
    }
  }

  method ScanFinish(f: string, start: nat) returns (argType: ArgType, stop: Stop, ptr: nat)
    requires start <= |f|
    ensures (argType, stop) == (Finish(f, start).0, Finish(f, start).1)
    ensures stop.End? ==> ptr == Finish(f, start).2
  {
    var wideWidth, shortWidth := 0, false;
    ptr := start;
    while ptr < |f| && f[ptr] in "hlL"
      invariant start <= ptr <= |f| && Lengths(f, start, 0, false) == Lengths(f, ptr, wideWidth, shortWidth)
    {
      match f[ptr] {
        case 'h' => shortWidth := true;
        case 'l' => wideWidth := wideWidth + 1;
        case _ => wideWidth := 2;
      }
      ptr := ptr + 1;
    }
    if ptr == |f| {
      return Bad, Aborts, ptr;   // strchr finds the NUL, and the switch has no case for it
    }
    ptr := ptr + 1;
    argType := ScanConversion(f[ptr - 1], wideWidth, shortWidth);
    if f[ptr - 1] == 'p' && ptr < |f| && f[ptr] in "AB" {
      ptr := ptr + 1;
    }
    stop := if argType == Bad then Aborts else End;
  }

  /** One turn of _bfd_doprnt_scan's loop, from just past the '%'. */
  method ScanDirective(f: string, start: nat, count: nat, args: array<ArgType>)
    returns (stop: Stop, ptr: nat, argCount: nat)
    requires start <= |f| && args.Length == MAX_ARGS
    modifies args
    ensures var (uses, how, next) := Directive(f, start, count);
      && stop == (if InRange(uses) then how else Aborts)
      && (stop.End? ==> ptr == next && argCount == count + |uses| && args[..] == Apply(old(args[..]), uses))
  {
    argCount := count;
    var argNo;
    argNo, ptr := ScanOpening(f, start);
    if ptr == |f| {
      return Overruns, ptr, argCount;   // strchr finds the NUL and the loop runs on
    }
    ghost var stars := Stars(f, ptr, count).1;
    ghost var uses := Directive(f, start, count).0;
    var ok;
    ok, ptr, argCount := ScanStars(f, ptr, argCount, args);
    if !ok {
      InRangeConcat(stars, uses[|stars|..]);
      assert uses == stars + uses[|stars|..];
      return Aborts, ptr, argCount;
    }
    var argType;
    argType, stop, ptr := ScanFinish(f, ptr);
    if stop != End {
      return stop, ptr, argCount;
    }
    var number := if argNo.Some? then argNo.value else argCount;
    ghost var u := Use(number, argType);
    InRangeConcat(stars, [u]);
    if number >= MAX_ARGS {
      assert [u][0].index >= MAX_ARGS;
      return Aborts, ptr, argCount;
    }
    ApplyOne(args[..], u);
    ApplyTwice(old(args[..]), stars, [u]);
    args[number] := argType;
    argCount := argCount + 1;
  }

  /** A walk seen from the start of a directive and from its end. */
  lemma {:induction false} Advance(f: string, ptr: nat, seen: seq<Use>)
    requires ptr < |f| && f[ptr] == '%' && At(f, ptr + 1) != '%'
    ensures var (uses, stop, next) := Directive(f, ptr + 1, |seen|);
      Prepend(seen, WalkFrom(f, ptr, |seen|)) ==
        if stop.End? then Prepend(seen + uses, WalkFrom(f, next, |seen + uses|)) else Walk(seen + uses, stop)
  {
    var (uses, stop, next) := Directive(f, ptr + 1, |seen|);
    if stop.End? {
      var rest := WalkFrom(f, next, |seen + uses|);
      assert seen + (uses + rest.uses) == seen + uses + rest.uses;
    }
  }

  /** The last loop of _bfd_doprnt_scan, which fetches the arguments. */
  method CheckTypes(args: array<ArgType>, argCount: nat) returns (v: Verdict)
    requires args.Length == MAX_ARGS
    ensures v == JudgeTypes(args[..], argCount)
  {
    var i := 0;
    while i < argCount
      invariant i <= argCount && i <= MAX_ARGS
      invariant forall j :: 0 <= j < i ==> args[..][j] != Bad
    {
      if i == MAX_ARGS {
        return OutOfBounds;
      }
      if args[i] == Bad {
        assert args[..][i] == Bad;
        return Aborted;
      }
      i := i + 1;
    }
    v := Accepted(args[..argCount]);
  }

  /** _bfd_doprnt_scan */
  method Scan(f: string) returns (v: Verdict)
    ensures v == Judge(WalkFrom(f, 0, 0))
  {
    ghost var whole := WalkFrom(f, 0, 0);
    ghost var seen: seq<Use> := [];
    var args := new ArgType[MAX_ARGS](_ => Bad);
    assert args[..] == ALL_BAD;
    var ptr, argCount := 0, 0;
    while ptr < |f|
      invariant ptr <= |f| && argCount == |seen| && InRange(seen) && args[..] == Record(seen)
      invariant whole == Prepend(seen, WalkFrom(f, ptr, argCount))
      decreases |f| - ptr
    {
      if f[ptr] != '%' {
        ptr := ptr + 1;
      } else if At(f, ptr + 1) == '%' {
        ptr := ptr + 2;
      } else {
        ghost var uses := Directive(f, ptr + 1, argCount).0;
        Advance(f, ptr, seen);
        InRangeConcat(seen, uses);
        var stop;
        stop, ptr, argCount := ScanDirective(f, ptr + 1, argCount, args);
        if stop != End {
          StopsHere(seen + uses, whole);
          return if stop == Aborts then Aborted else Overran;
        }
        ApplyTwice(ALL_BAD, seen, uses);
        seen := seen + uses;
      }
    }
    assert whole.uses == seen + [] == seen;
    v := CheckTypes(args, argCount);
  }

  lemma StopsHere(uses: seq<Use>, w: Walk)
    requires uses <= w.uses
    ensures !InRange(uses) ==> Judge(w) == Aborted
  {
    if !InRange(uses) {
      var k :| 0 <= k < |uses| && uses[k].index >= MAX_ARGS;
      assert w.uses[k] == uses[k];
    }
  }

  // ----- the printer -------------------------------------------------------------

  /** An argument together with the type va_arg fetched it with. */
  datatype Value = Value(kind: ArgType, bits: int)

  ghost function Printed(uses: seq<Use>, args: seq<Value>): (r: seq<Value>)
    requires forall k :: 0 <= k < |uses| ==> uses[k].index < |args|
    ensures |r| == |uses|
  {
    seq(|uses|, k requires 0 <= k < |uses| => args[uses[k].index])
  }

  /** What the printer may rely on: each use still ahead names an argument of its type. */
  ghost predicate Served(uses: seq<Use>, args: seq<Value>)
  {
    forall k :: 0 <= k < |uses| ==> uses[k].index < |args| && args[uses[k].index].kind == uses[k].kind
  }

  lemma PrintedConcat(a: seq<Use>, b: seq<Use>, args: seq<Value>)
    requires Served(a + b, args)
    ensures Served(a, args) && Served(b, args)
    ensures Printed(a + b, args) == Printed(a, args) + Printed(b, args)
  {
    assert forall k :: 0 <= k < |a| ==> (a + b)[k] == a[k];
    assert forall k :: 0 <= k < |b| ==> (a + b)[|a| + k] == b[k];
  }

  lemma AheadServed(uses: seq<Use>, w: Walk, args: seq<Value>)
    requires uses <= w.uses && Served(w.uses, args)
    ensures Served(uses, args)
  {
    assert forall k :: 0 <= k < |uses| ==> uses[k] == w.uses[k];
  }

  /** The width or precision of _bfd_doprnt. */
  method PrintMeasure(f: string, start: nat, count: nat, args: seq<Value>)
    returns (ptr: nat, argCount: nat, out: seq<Value>)
    requires start <= |f| && Served(Measure(f, start, count).1, args)
    ensures var (next, uses) := Measure(f, start, count);
      ptr == next && argCount == count + |uses| && out == Printed(uses, args)
  {
    ptr, argCount, out := start, count, [];
    if At(f, ptr) == '*' {
      ptr := ptr + 1;
      var argIndex := argCount;
      if At(f, ptr) != '0' && IsDigit(At(f, ptr)) && At(f, ptr + 1) == '$' {
        argIndex := (At(f, ptr) - '1') as nat;
        ptr := ptr + 2;
      }
      assert Measure(f, start, count).1[0] == Use(argIndex, Int);
      assert args[argIndex].kind == Int;
      out := [args[argIndex]];
      argCount := argCount + 1;
    } else {
      while ptr < |f| && IsDigit(f[ptr])
        invariant ptr <= |f| && SkipDigits(f, ptr) == SkipDigits(f, start)
      {
        ptr := ptr + 1;
      }
    }
  }

  method PrintOpening(f: string, start: nat) returns (argNo: Option<nat>, ptr: nat)
    requires start <= |f|
    ensures (argNo, ptr) == Opening(f, start)
  {
    argNo, ptr := None, start;
    if At(f, ptr) != '0' && IsDigit(At(f, ptr)) && At(f, ptr + 1) == '$' {
      argNo := Some((At(f, ptr) - '1') as nat);
      ptr := ptr + 2;
    }
    ghost var afterPos := ptr;
    while ptr < |f| && IsFlag(f[ptr])
      invariant ptr <= |f| && SkipFlags(f, ptr) == SkipFlags(f, afterPos)
    {
      ptr := ptr + 1;
    }
  }

  method PrintStars(f: string, start: nat, count: nat, args: seq<Value>)
    returns (ptr: nat, argCount: nat, out: seq<Value>)
    requires start <= |f| && Served(Stars(f, start, count).1, args)
    ensures var (next, uses) := Stars(f, start, count);
      ptr == next && argCount == count + |uses| && out == Printed(uses, args)
  {
    ghost var (i, width) := Measure(f, start, count);
    ghost var (_, precision) := if At(f, i) == '.' then Measure(f, i + 1, count + |width|) else (i, []);
    assert Stars(f, start, count).1 == width + precision;
    PrintedConcat(width, precision, args);
    ptr, argCount, out := PrintMeasure(f, start, count, args);
    if At(f, ptr) == '.' {
      var more;
      ptr, argCount, more := PrintMeasure(f, ptr + 1, argCount, args);
      out := out + more;
    }
  }

  method PrintFinish(f: string, start: nat) returns (field: ArgType, ptr: nat)
    requires start <= |f| && Finish(f, start).1.End?
    ensures (field, ptr) == (Finish(f, start).0, Finish(f, start).2)
  {
    var wideWidth, shortWidth := 0, false;
    ptr := start;
    while ptr < |f| && f[ptr] in "hlL"
      invariant start <= ptr <= |f| && Lengths(f, start, 0, false) == Lengths(f, ptr, wideWidth, shortWidth)
    {
      match f[ptr] {
        case 'h' => shortWidth := true;
        case 'l' => wideWidth := wideWidth + 1;
        case _ => wideWidth := 2;
      }
      ptr := ptr + 1;
    }
    ptr := ptr + 1;
    field := PrintField(f[ptr - 1], wideWidth, shortWidth);
    if f[ptr - 1] == 'p' && ptr < |f| && f[ptr] in "AB" {
      ptr := ptr + 1;
    }
  }

  /** One directive of _bfd_doprnt, from just past the '%'. */
  method PrintDirective(f: string, start: nat, count: nat, args: seq<Value>)
    returns (ptr: nat, argCount: nat, out: seq<Value>)
    requires start <= |f| && Directive(f, start, count).1.End? && Served(Directive(f, start, count).0, args)
    ensures var (uses, _, next) := Directive(f, start, count);
      ptr == next && argCount == count + |uses| && out == Printed(uses, args)
  {
    ghost var uses := Directive(f, start, count).0;
    argCount := count;
    var argNo;
    argNo, ptr := PrintOpening(f, start);
    ghost var (_, stars) := Stars(f, ptr, count);
    assert forall k :: 0 <= k < |stars| ==> stars[k] == uses[k];
    ptr, argCount, out := PrintStars(f, ptr, argCount, args);
    var field;
    field, ptr := PrintFinish(f, ptr);
    var number := if argNo.Some? then argNo.value else argCount;
    assert uses[|stars|] == Use(number, field);
    assert args[number].kind == field;
    out := out + [args[number]];
    argCount := argCount + 1;
  }

  /** The union member _bfd_doprnt's switch reads. */
  method PrintField(c: char, wideWidth: nat, shortWidth: bool) returns (t: ArgType)
    requires Conversion(c, wideWidth, shortWidth) != Bad
    ensures t == Conversion(c, wideWidth, shortWidth)
  {
    if c == 's' || c == 'p' {
      t := Ptr;
    } else if c in "feEgG" {
      t := if wideWidth == 0 then Double else LongDouble;
    } else if shortWidth {
      t := Int;
    } else {
      t := if wideWidth == 0 then Int else if wideWidth == 1 then Long else LongLong;
    }
  }

  /** What has been printed when the walk has come to ptr. */
  ghost predicate Printing(f: string, whole: Walk, ptr: nat, seen: seq<Use>, args: seq<Value>, out: seq<Value>)
    requires ptr <= |f|
  {
    && whole == Prepend(seen, WalkFrom(f, ptr, |seen|)) && whole.stop.End? && Served(whole.uses, args)
    && Served(seen, args) && out == Printed(seen, args)
  }

  /** The directive at ptr. */
  method PrintOne(f: string, start: nat, count: nat, args: seq<Value>, before: seq<Value>,
                  ghost whole: Walk, ghost seen: seq<Use>)
    returns (ptr: nat, argCount: nat, out: seq<Value>, ghost seen': seq<Use>)
    requires start < |f| && f[start] == '%' && At(f, start + 1) != '%' && count == |seen|
    requires Printing(f, whole, start, seen, args, before)
    ensures start < ptr <= |f| && argCount == |seen'| && Printing(f, whole, ptr, seen', args, out)
  {
    ghost var uses := Directive(f, start + 1, count).0;
    Advance(f, start, seen);
    AheadServed(seen + uses, whole, args);
    PrintedConcat(seen, uses, args);
    var more;
    ptr, argCount, more := PrintDirective(f, start + 1, count, args);
    seen' := seen + uses;
    out := before + more;
  }

  /** _bfd_doprnt on a format the scanner accepted, with the arguments it fetched:
      every argument is read as the type it was fetched with, at the scanner's
      index, and the values are printed in the order of their uses. */
  method Print(f: string, args: seq<Value>) returns (out: seq<Value>)
    requires var v := Judge(WalkFrom(f, 0, 0));
      v.Accepted? && |args| == |v.types| && forall i :: 0 <= i < |args| ==> args[i].kind == v.types[i]
    ensures var uses := WalkFrom(f, 0, 0).uses;
      Served(uses, args) && out == Printed(uses, args)
  {
    ghost var whole := WalkFrom(f, 0, 0);
    assert whole.stop.End? && Served(whole.uses, args) by {
      AcceptedIsPermutation(f);
    }
    out := PrintWalk(f, args, whole);
  }

  method PrintWalk(f: string, args: seq<Value>, ghost whole: Walk) returns (out: seq<Value>)
    requires whole == WalkFrom(f, 0, 0) && whole.stop.End? && Served(whole.uses, args)
    ensures out == Printed(whole.uses, args)
  {
    ghost var seen: seq<Use> := [];
    out := [];
    var ptr, argCount := 0, 0;
    assert [] + whole.uses == whole.uses;
    while ptr < |f|
      invariant ptr <= |f| && argCount == |seen| && Printing(f, whole, ptr, seen, args, out)
      decreases |f| - ptr
    {
      if f[ptr] != '%' {
        ptr := ptr + 1;
      } else if At(f, ptr + 1) == '%' {
        ptr := ptr + 2;
      } else {
        ptr, argCount, out, seen := PrintOne(f, ptr, argCount, args, out, whole, seen);
      }
    }
    assert whole.uses == seen + [] == seen;
  }
}
