/** Duplicate header files in a.out debugging symbols: the N_BINCL part of
    aout_link_write_symbols (binutils/bfd/aoutx.h), for links that neither strip
    nor discard. */
module AoutStabs {

  /** A C string, one number per char. */
  type Name = seq<int>

  /** The type of a symbol.  MAIN is N_MAIN, whose N_TYPE bits are those of N_INDR,
      and every other symbol without a hash entry that the loop takes for an
      indirect one or a warning: it makes the next symbol pass through. */
  datatype Kind = BINCL | EINCL | EXCL | MAIN | PLAIN

  datatype Stab = Stab(kind: Kind, name: Name, value: int)

  // ----- the checksum ------------------------------------------------------------

  predicate IsDigit(c: int) { 48 <= c <= 57 }

  const PAREN: int := 40

  /** Where the digits that start at i end. */
  function DigitsEnd(s: Name, i: nat): (r: nat)
    requires i <= |s|
    ensures i <= r <= |s|
    decreases |s| - i
  {
    if i < |s| && IsDigit(s[i]) then DigitsEnd(s, i + 1) else i
  }

  /** Where the sum goes on after place i. */
  function Next(s: Name, i: nat): (j: nat)
    requires i < |s|
    ensures i < j <= |s|
  {
    if s[i] == PAREN then DigitsEnd(s, i + 1) else i + 1
  }

  /** The name from i on, with the digits right after every '(' taken out. */
  function Unnumbered(s: Name, i: nat): Name
    requires i <= |s|
    decreases |s| - i
  {
    if i == |s| then []
    else [s[i]] + Unnumbered(s, Next(s, i))
  }

  function SumChars(s: Name): int { if s == [] then 0 else s[0] + SumChars(s[1..]) }

  function Check(s: Name): int { SumChars(Unnumbered(s, 0)) }

  /** The loop over one symbol name: s runs over the chars, and after a '(' over
      the file number as well. */
  method Checksum(name: Name, val0: int) returns (val: int)
    ensures val == val0 + Check(name) == val0 + Weight(Pieces(name))
  {
    CheckIsWeight(name);
    val := val0;
    var s := 0;
    while s < |name|
      invariant 0 <= s <= |name|
      invariant val0 + Check(name) == val + SumChars(Unnumbered(name, s))
    {
      ghost var here := s;
      val := val + name[s];
      if name[s] == PAREN {
        s := s + 1;
        while s < |name| && IsDigit(name[s])
          invariant here < s <= |name|
          invariant DigitsEnd(name, s) == DigitsEnd(name, here + 1)
        {
          s := s + 1;
        }
        s := s - 1;
      }
      s := s + 1;
      FirstChar(name, here, s);
    }
  }

  lemma {:induction false} FirstChar(s: Name, i: nat, j: nat)
    requires i < |s| && j == if s[i] == PAREN then DigitsEnd(s, i + 1) else i + 1
    ensures SumChars(Unnumbered(s, i)) == s[i] + SumChars(Unnumbered(s, j))
  {
    assert Unnumbered(s, i)[1..] == Unnumbered(s, j);
  }

  // ----- what the checksum is blind to -----------------------------------------------

  /** What stab strings are made of: characters, and file numbers, each right behind
      an open parenthesis, as in "x:(1,2)". */
  datatype Piece = Char(c: int) | FileNumber(digits: Name)

  /** Digits are digits, and no open parenthesis and no further digit hides among the
      characters. */
  predicate Legible(ps: seq<Piece>) { forall i :: 0 <= i < |ps| ==> LegibleAt(ps, i) }

  predicate LegibleAt(ps: seq<Piece>, i: nat)
    requires i < |ps|
  {
    if ps[i].Char? then
      ps[i].c != '(' as int && (i > 0 && ps[i - 1].FileNumber? ==> !('0' as int <= ps[i].c <= '9' as int))
    else forall j :: 0 <= j < |ps[i].digits| ==> '0' as int <= ps[i].digits[j] <= '9' as int
  }

  function Spelled(p: Piece): Name
  {
    match p case Char(c) => [c] case FileNumber(d) => ['(' as int] + d
  }

  /** The string they spell. */
  function Render(ps: seq<Piece>): Name
  {
    if ps == [] then [] else Spelled(ps[0]) + Render(ps[1..])
  }

  /** The sum of everything but the file numbers. */
  function Weight(ps: seq<Piece>): int
  {
    if ps == [] then 0
    else (match ps[0] case Char(c) => c case FileNumber(_) => '(' as int) + Weight(ps[1..])
  }

  /** The checksum counts every character once, and of a file number only the
      parenthesis before it. */
  lemma {:induction false} CheckWeighs(ps: seq<Piece>)
    requires Legible(ps)
    ensures Check(Render(ps)) == Weight(ps)
  {
    if ps != [] {
      var rest := ps[1..];
      forall i | 0 <= i < |rest|
        ensures LegibleAt(rest, i)
      {
        assert LegibleAt(ps, i + 1);
      }
      assert LegibleAt(ps, 0) && (rest != [] ==> LegibleAt(ps, 1));
      CheckWeighs(rest);
      RenderStart(rest);
      var s, n := Render(ps), |Spelled(ps[0])|;
      assert s[n..] == Render(rest);
      if ps[0].FileNumber? {
        DigitsEndAt(s, 1, n);
      }
      FromSuffix(s, n);
      FirstChar(s, 0, n);
    }
  }

  /** What a string begins with. */
  lemma RenderStart(ps: seq<Piece>)
    ensures Render(ps) == [] <==> ps == []
    ensures ps != [] ==> Render(ps)[0] == Spelled(ps[0])[0]
  {
  }

  lemma {:induction false} DigitsEndAt(s: Name, i: nat, n: nat)
    requires i <= n <= |s| && (forall j :: i <= j < n ==> IsDigit(s[j])) && (n == |s| || !IsDigit(s[n]))
    ensures DigitsEnd(s, i) == n
    decreases n - i
  {
    if i < n {
      DigitsEndAt(s, i + 1, n);
    }
  }

  lemma {:induction false} DigitsEndSuffix(s: Name, n: nat, i: nat)
    requires n + i <= |s|
    ensures DigitsEnd(s, n + i) == n + DigitsEnd(s[n..], i)
    decreases |s| - n - i
  {
    if n + i < |s| && IsDigit(s[n + i]) {
      DigitsEndSuffix(s, n, i + 1);
    }
  }

  lemma {:induction false} UnnumberedNext(s: Name, i: nat, j: nat)
    requires i < |s| && j == Next(s, i)
    ensures Unnumbered(s, i) == [s[i]] + Unnumbered(s, j)
  {
  }

  lemma {:induction false} NextSuffix(s: Name, n: nat, t: Name, i: nat)
    requires n + i < |s| && t == s[n..]
    ensures t[i] == s[n + i] && Next(s, n + i) == n + Next(t, i)
  {
    DigitsEndSuffix(s, n, i + 1);
  }

  lemma {:induction false} UnnumberedAlike(s: Name, a: nat, b: nat, t: Name, i: nat, j: nat)
    requires a < |s| && i < |t| && s[a] == t[i] && b == Next(s, a) && j == Next(t, i)
    requires Unnumbered(s, b) == Unnumbered(t, j)
    ensures Unnumbered(s, a) == Unnumbered(t, i)
  {
    UnnumberedNext(s, a, b);
    UnnumberedNext(t, i, j);
  }

  lemma {:induction false} UnnumberedSuffix(s: Name, n: nat, t: Name, i: nat)
    requires n + i <= |s| && t == s[n..]
    ensures Unnumbered(s, n + i) == Unnumbered(t, i)
    decreases |s| - n - i
  {
    if n + i < |s| {
      NextSuffix(s, n, t, i);
      var j := Next(t, i);
      UnnumberedSuffix(s, n, t, j);
      UnnumberedAlike(s, n + i, n + j, t, i, j);
    }
  }

  lemma FromSuffix(s: Name, n: nat)
    requires n <= |s|
    ensures Unnumbered(s, n) == Unnumbered(s[n..], 0)
  {
    UnnumberedSuffix(s, n, s[n..], 0);
  }

  /** Two strings that differ in file numbers only. */
  ghost predicate Renumbered(m: Name, n: Name)
  {
    exists ps: seq<Piece>, qs: seq<Piece> :: Matching(ps, qs) && m == Render(ps) && n == Render(qs)
  }

  predicate Matching(ps: seq<Piece>, qs: seq<Piece>)
  {
    Legible(ps) && Legible(qs) && |ps| == |qs| && forall i :: 0 <= i < |ps| ==> Alike(ps[i], qs[i])
  }

  predicate Alike(p: Piece, q: Piece) { p == q || (p.FileNumber? && q.FileNumber?) }

  lemma {:induction false} SameWeight(ps: seq<Piece>, qs: seq<Piece>)
    requires |ps| == |qs| && forall i :: 0 <= i < |ps| ==> Alike(ps[i], qs[i])
    ensures Weight(ps) == Weight(qs)
  {
    if ps != [] {
      assert Alike(ps[0], qs[0]);
      SameWeight(ps[1..], qs[1..]);
    }
  }

  /** The checksum does not tell them apart. */
  lemma BlindToFileNumbers(m: Name, n: Name)
    requires Renumbered(m, n)
    ensures Check(m) == Check(n)
  {
    var ps: seq<Piece>, qs: seq<Piece> :| Matching(ps, qs) && m == Render(ps) && n == Render(qs);
    CheckWeighs(ps);
    CheckWeighs(qs);
    SameWeight(ps, qs);
  }

  /** Every string is made of such pieces. */
  function Pieces(s: Name): seq<Piece>
  {
    if s == [] then []
    else if s[0] == '(' as int then
      var e := DigitsEnd(s, 1);
      [FileNumber(s[1..e])] + Pieces(s[e..])
    else [Char(s[0])] + Pieces(s[1..])
  }

  lemma {:induction false} PiecesSpell(s: Name)
    ensures Render(Pieces(s)) == s && Legible(Pieces(s))
    decreases |s|
  {
    if s != [] {
      var e := if s[0] == '(' as int then DigitsEnd(s, 1) else 1;
      var p := if s[0] == '(' as int then FileNumber(s[1..e]) else Char(s[0]);
      PiecesSpell(s[e..]);
      FirstPiece(s, e, p, Pieces(s[e..]));
    }
  }

  lemma {:induction false} FirstPiece(s: Name, e: nat, p: Piece, rest: seq<Piece>)
    requires s != [] && e == (if s[0] == '(' as int then DigitsEnd(s, 1) else 1)
    requires p == if s[0] == '(' as int then FileNumber(s[1..e]) else Char(s[0])
    requires Render(rest) == s[e..] && Legible(rest)
    ensures Render([p] + rest) == s && Legible([p] + rest)
  {
    DigitsUpTo(s, 1);
    RenderStart(rest);
    assert ([p] + rest)[1..] == rest;
    assert s == s[..e] + s[e..] && Spelled(p) == s[..e];
    assert rest != [] && rest[0].Char? ==> rest[0].c == s[e];
    assert LegibleAt([p], 0) by {
      assert s[0] == '(' as int ==> forall j :: 0 <= j < e - 1 ==> s[1..e][j] == s[1 + j];
    }
    LegibleCons(p, rest);
  }

  lemma {:induction false} DigitsUpTo(s: Name, i: nat)
    requires i <= |s|
    ensures var e := DigitsEnd(s, i); (forall j :: i <= j < e ==> IsDigit(s[j])) && (e == |s| || !IsDigit(s[e]))
    decreases |s| - i
  {
    if i < |s| && IsDigit(s[i]) {
      DigitsUpTo(s, i + 1);
    }
  }

  lemma LegibleCons(p: Piece, ps: seq<Piece>)
    requires Legible(ps) && LegibleAt([p], 0)
    requires p.FileNumber? && ps != [] && ps[0].Char? ==> !IsDigit(ps[0].c)
    ensures Legible([p] + ps)
  {
    var all := [p] + ps;
    forall i | 0 <= i < |all|
      ensures LegibleAt(all, i)
    {
      if i > 0 {
        assert LegibleAt(ps, i - 1);
      } else {
        assert LegibleAt([p], 0);
      }
    }
  }

  /** The checksum of any string. */
  lemma CheckIsWeight(s: Name)
    ensures Check(s) == Weight(Pieces(s))
  {
    PiecesSpell(s);
    CheckWeighs(Pieces(s));
  }

  lemma {:induction false} RenderJoin(ps: seq<Piece>, qs: seq<Piece>)
    ensures Render(ps + qs) == Render(ps) + Render(qs)
  {
    if ps == [] {
      assert ps + qs == qs;
    } else {
      RenderJoin(ps[1..], qs);
      RenderFirst(ps + qs, ps[0], ps[1..] + qs);
      Associate(Spelled(ps[0]), Render(ps[1..]), Render(qs));
    }
  }

  lemma {:induction false} RenderFirst(ps: seq<Piece>, p: Piece, rest: seq<Piece>)
    requires ps == [p] + rest
    ensures Render(ps) == Spelled(p) + Render(rest)
  {
    assert ps[1..] == rest;
  }

  lemma Associate(a: Name, b: Name, c: Name)
    ensures a + b + c == a + (b + c)
  {
  }

  lemma LegibleJoin(ps: seq<Piece>, qs: seq<Piece>)
    requires Legible(ps) && Legible(qs) && (qs == [] || qs[0].FileNumber?)
    ensures Legible(ps + qs)
  {
    var all := ps + qs;
    forall i | 0 <= i < |all|
      ensures LegibleAt(all, i)
    {
      if i < |ps| {
        assert LegibleAt(ps, i);
      } else {
        assert LegibleAt(qs, i - |ps|);
      }
    }
  }

  /** The pieces of a string that begins with a file number. */
  lemma NumberFirst(d: Name, b: Name, ps: seq<Piece>)
    requires (forall j :: 0 <= j < |d| ==> '0' as int <= d[j] <= '9' as int) && (b == [] || !IsDigit(b[0]))
    requires ps == [FileNumber(d)] + Pieces(b)
    ensures Legible(ps) && Render(ps) == ['(' as int] + d + b
  {
    PiecesSpell(b);
    LegibleCons(FileNumber(d), Pieces(b));
    assert ps[1..] == Pieces(b);
  }

  /** And of one with a file number in it. */
  lemma NumberInside(a: Name, d: Name, b: Name) returns (ps: seq<Piece>)
    requires (forall j :: 0 <= j < |d| ==> '0' as int <= d[j] <= '9' as int) && (b == [] || !IsDigit(b[0]))
    ensures ps == Pieces(a) + ([FileNumber(d)] + Pieces(b)) && Legible(ps)
    ensures Render(ps) == a + (['(' as int] + d + b)
  {
    var tail := [FileNumber(d)] + Pieces(b);
    PiecesSpell(a);
    NumberFirst(d, b, tail);
    RenderJoin(Pieces(a), tail);
    LegibleJoin(Pieces(a), tail);
    ps := Pieces(a) + tail;
  }

  lemma MatchingInside(pa: seq<Piece>, d: Name, e: Name, pb: seq<Piece>, ps: seq<Piece>, qs: seq<Piece>)
    requires ps == pa + ([FileNumber(d)] + pb) && qs == pa + ([FileNumber(e)] + pb) && Legible(ps) && Legible(qs)
    ensures Matching(ps, qs)
  {
  }

  /** So any run of digits behind a parenthesis may be exchanged for any other. */
  lemma AnyNumberWillDo(a: Name, d: Name, e: Name, b: Name)
    requires forall j :: 0 <= j < |d| ==> '0' as int <= d[j] <= '9' as int
    requires forall j :: 0 <= j < |e| ==> '0' as int <= e[j] <= '9' as int
    requires b == [] || !('0' as int <= b[0] <= '9' as int)
    ensures Check(a + (['(' as int] + d + b)) == Check(a + (['(' as int] + e + b))
  {
    var ps := NumberInside(a, d, b);
    var qs := NumberInside(a, e, b);
    MatchingInside(Pieces(a), d, e, Pieces(b), ps, qs);
    BlindToFileNumbers(a + (['(' as int] + d + b), a + (['(' as int] + e + b));
  }

  // ----- well-bracketed streams ----------------------------------------------------

  /** The stabs of one object file, nested as the header files were included. */
  datatype Forest =
    | Nil
    | Plain(stab: Stab, rest: Forest)
    | Header(begin: Stab, kids: Forest, end: Stab, rest: Forest)

  function Size(f: Forest): nat
  {
    match f
    case Nil => 0
    case Plain(_, rest) => 1 + Size(rest)
    case Header(_, kids, _, rest) => 2 + Size(kids) + Size(rest)
  }

  /** The stream s shows f from position i on. */
  ghost predicate Shows(s: seq<Stab>, i: nat, f: Forest)
    decreases f
  {
    i + Size(f) <= |s| &&
    match f
    case Nil => true
    case Plain(stab, rest) => s[i] == stab && !stab.kind.BINCL? && !stab.kind.EINCL? && Shows(s, i + 1, rest)
    case Header(begin, kids, end, rest) =>
      && s[i] == begin && begin.kind.BINCL? && Shows(s, i + 1, kids)
      && s[i + 1 + Size(kids)] == end && end.kind.EINCL? && Shows(s, i + 2 + Size(kids), rest)
  }

  /** The checksum of a header file: its own symbols, not those of headers it includes. */
  function Sum(f: Forest): int
  {
    match f
    case Nil => 0
    case Plain(stab, rest) => Check(stab.name) + Sum(rest)
    case Header(_, _, _, rest) => Sum(rest)
  }

  datatype Key = Key(name: Name, sum: int)

  /** The same symbols, but for file numbers, as direct contents. */
  ghost predicate SameContents(f: Forest, g: Forest)
  {
    match f
    case Nil => g.Nil?
    case Plain(stab, rest) => g.Plain? && Renumbered(stab.name, g.stab.name) && SameContents(rest, g.rest)
    case Header(_, _, _, rest) => g.Header? && SameContents(rest, g.rest)
  }

  lemma {:induction false} SameSum(f: Forest, g: Forest)
    requires SameContents(f, g)
    ensures Sum(f) == Sum(g)
  {
    match f
    case Nil =>
    case Plain(stab, rest) =>
      BlindToFileNumbers(stab.name, g.stab.name);
      SameSum(rest, g.rest);
    case Header(_, _, _, rest) => SameSum(rest, g.rest);
  }

  // ----- what the output should be ------------------------------------------------

  /** Output symbols, nested.  OPassed is a header copied without being looked at. */
  datatype OutForest =
    | ONil
    | OPlain(stab: Stab, rest: OutForest)
    | OExcl(key: Key, rest: OutForest)
    | OHeader(key: Key, kids: OutForest, end: Stab, rest: OutForest)
    | OPassed(key: Key, begin: Stab, kids: OutForest, end: Stab, rest: OutForest)

  function Append(a: OutForest, b: OutForest): OutForest
  {
    match a
    case ONil => b
    case OPlain(stab, rest) => OPlain(stab, Append(rest, b))
    case OExcl(key, rest) => OExcl(key, Append(rest, b))
    case OHeader(key, kids, end, rest) => OHeader(key, kids, end, Append(rest, b))
    case OPassed(key, begin, kids, end, rest) => OPassed(key, begin, kids, end, Append(rest, b))
  }

  /** The symbols written out after those in `out`. */
  function Emit(out: seq<Stab>, o: OutForest): seq<Stab>
    decreases o
  {
    match o
    case ONil => out
    case OPlain(stab, rest) => Emit(out + [stab], rest)
    case OExcl(key, rest) => Emit(out + [Stab(EXCL, key.name, key.sum)], rest)
    case OHeader(key, kids, end, rest) => Emit(Emit(out + [Stab(BINCL, key.name, key.sum)], kids) + [end], rest)
    case OPassed(_, begin, kids, end, rest) => Emit(Emit(out + [begin], kids) + [end], rest)
  }

  function Flat(o: OutForest): seq<Stab> { Emit([], o) }

  /** What deduplicating a forest gives: its output, the headers seen, and whether
      the next symbol is passed through. */
  datatype Deduped = Deduped(o: OutForest, seen: set<Key>, pass: bool)

  /** Keep the first copy of every header; replace a later one by N_EXCL and drop
      its own symbols, but treat the headers inside it like any others.  A header
      right behind an N_MAIN that is kept is copied and not remembered. */
  function Dedup(f: Forest, seen: set<Key>, drop: bool, pass: bool): Deduped
  {
    match f
    case Nil => Deduped(ONil, seen, pass)
    case Plain(stab, rest) =>
      if drop then Dedup(rest, seen, drop, pass)
      else
        var r := Dedup(rest, seen, drop, !pass && stab.kind.MAIN?);
        r.(o := OPlain(stab, r.o))
    case Header(begin, kids, end, rest) =>
      var key := Key(begin.name, Sum(kids));
      if pass then
        var k := Dedup(kids, seen, false, false);
        var r := Dedup(rest, k.seen, drop, false);
        r.(o := OPassed(key, begin, k.o, end, r.o))
      else
        var dup := key in seen;
        var k := Dedup(kids, seen + {key}, dup, false);
        var r := Dedup(rest, k.seen, drop, dup && k.pass);
        r.(o := if dup then OExcl(key, Append(k.o, r.o)) else OHeader(key, k.o, end, r.o))
  }

  // ----- how many copies survive ------------------------------------------------

  function One(b: bool): nat { if b then 1 else 0 }

  function Copies(f: Forest, k: Key): nat
  {
    match f
    case Nil => 0
    case Plain(_, rest) => Copies(rest, k)
    case Header(begin, kids, _, rest) => One(Key(begin.name, Sum(kids)) == k) + Copies(kids, k) + Copies(rest, k)
  }

  /** Copies kept in full, in turn. */
  function Full(o: OutForest, k: Key): nat
  {
    match o
    case ONil => 0
    case OPlain(_, rest) => Full(rest, k)
    case OExcl(_, rest) => Full(rest, k)
    case OHeader(key, kids, _, rest) => One(key == k) + Full(kids, k) + Full(rest, k)
    case OPassed(_, _, kids, _, rest) => Full(kids, k) + Full(rest, k)
  }

  /** Copies passed through behind an N_MAIN. */
  function Passed(o: OutForest, k: Key): nat
  {
    match o
    case ONil => 0
    case OPlain(_, rest) => Passed(rest, k)
    case OExcl(_, rest) => Passed(rest, k)
    case OHeader(_, kids, _, rest) => Passed(kids, k) + Passed(rest, k)
    case OPassed(key, _, kids, _, rest) => One(key == k) + Passed(kids, k) + Passed(rest, k)
  }

  function Excluded(o: OutForest, k: Key): nat
  {
    match o
    case ONil => 0
    case OPlain(_, rest) => Excluded(rest, k)
    case OExcl(key, rest) => One(key == k) + Excluded(rest, k)
    case OHeader(_, kids, _, rest) => Excluded(kids, k) + Excluded(rest, k)
    case OPassed(_, _, kids, _, rest) => Excluded(kids, k) + Excluded(rest, k)
  }

  lemma {:induction false} CountsAppend(a: OutForest, b: OutForest, k: Key)
    ensures Full(Append(a, b), k) == Full(a, k) + Full(b, k)
    ensures Passed(Append(a, b), k) == Passed(a, k) + Passed(b, k)
    ensures Excluded(Append(a, b), k) == Excluded(a, k) + Excluded(b, k)
  {
    match a
    case ONil =>
    case OPlain(name, rest) => CountsAppend(rest, b, k);
    case OExcl(key, rest) => CountsAppend(rest, b, k);
    case OHeader(key, kids, end, rest) => CountsAppend(rest, b, k);
    case OPassed(key, begin, kids, end, rest) => CountsAppend(rest, b, k);
  }

  lemma {:induction false} EmitAppend(out: seq<Stab>, a: OutForest, b: OutForest)
    ensures Emit(out, Append(a, b)) == Emit(Emit(out, a), b)
    decreases a
  {
    match a
    case ONil =>
    case OPlain(stab, rest) => EmitAppend(out + [stab], rest, b);
    case OExcl(key, rest) => EmitAppend(out + [Stab(EXCL, key.name, key.sum)], rest, b);
    case OHeader(key, kids, end, rest) =>
      EmitAppend(Emit(out + [Stab(BINCL, key.name, key.sum)], kids) + [end], rest, b);
    case OPassed(key, begin, kids, end, rest) => EmitAppend(Emit(out + [begin], kids) + [end], rest, b);
  }

  lemma HeaderCounts(key: Key, k: Key, dup: bool, kids: OutForest, end: Stab, rest: OutForest)
    ensures var o := if dup then OExcl(key, Append(kids, rest)) else OHeader(key, kids, end, rest);
      && Full(o, k) == One(!dup && key == k) + Full(kids, k) + Full(rest, k)
      && Passed(o, k) == Passed(kids, k) + Passed(rest, k)
      && Excluded(o, k) == One(dup && key == k) + Excluded(kids, k) + Excluded(rest, k)
  {
    CountsAppend(kids, rest, k);
  }

  /** Of `copies` copies of a key, `full` were kept, `passed` passed through and
      `excluded` replaced; it was seen before, and is afterwards. */
  predicate Counted(copies: nat, full: nat, passed: nat, excluded: nat, before: bool, after: bool)
  {
    && full == One(!before && copies > passed)
    && full + passed + excluded == copies
    && (after <==> before || copies > passed)
  }

  /** A key not seen before keeps exactly one full region besides those that are
      passed through, a key seen before none, and every other copy becomes one
      N_EXCL. */
  lemma {:induction false} FullCopies(f: Forest, seen: set<Key>, drop: bool, pass: bool, k: Key)
    ensures var r := Dedup(f, seen, drop, pass);
      Counted(Copies(f, k), Full(r.o, k), Passed(r.o, k), Excluded(r.o, k), k in seen, k in r.seen)
    decreases f
  {
    match f
    case Nil =>
    case Plain(stab, rest) => FullCopies(rest, seen, drop, if drop then pass else !pass && stab.kind.MAIN?, k);
    case Header(begin, kids, end, rest) =>
      var key := Key(begin.name, Sum(kids));
      var dup := !pass && key in seen;
      var start := if pass then seen else seen + {key};
      var i := Dedup(kids, start, dup, false);
      var r := Dedup(rest, i.seen, drop, dup && i.pass);
      FullCopies(kids, start, dup, false, k);
      FullCopies(rest, i.seen, drop, dup && i.pass, k);
      if pass {
        PassedCounts(key, k, begin, i.o, end, r.o);
      } else {
        HeaderCounts(key, k, dup, i.o, end, r.o);
      }
  }

  lemma PassedCounts(key: Key, k: Key, begin: Stab, kids: OutForest, end: Stab, rest: OutForest)
    ensures var o := OPassed(key, begin, kids, end, rest);
      && Full(o, k) == Full(kids, k) + Full(rest, k)
      && Passed(o, k) == One(key == k) + Passed(kids, k) + Passed(rest, k)
      && Excluded(o, k) == Excluded(kids, k) + Excluded(rest, k)
  {
  }

  // ----- when nothing is passed through ------------------------------------------

  /** No header comes right behind an N_MAIN, `main` telling whether one came right
      before f. */
  predicate Apart(f: Forest, main: bool)
  {
    match f
    case Nil => true
    case Plain(stab, rest) => Apart(rest, stab.kind.MAIN?)
    case Header(_, kids, _, rest) => !main && Apart(kids, false) && Apart(rest, false)
  }

  /** Then none is passed through, and the flag is down behind every header. */
  lemma {:induction false} NonePassed(f: Forest, seen: set<Key>, drop: bool, pass: bool, main: bool, k: Key)
    requires Apart(f, main) && (pass ==> main && !drop)
    ensures var r := Dedup(f, seen, drop, pass); Passed(r.o, k) == 0 && (drop ==> !r.pass)
    decreases f
  {
    match f
    case Nil =>
    case Plain(stab, rest) =>
      NonePassed(rest, seen, drop, if drop then pass else !pass && stab.kind.MAIN?, stab.kind.MAIN?, k);
    case Header(begin, kids, end, rest) =>
      var key := Key(begin.name, Sum(kids));
      var dup := key in seen;
      var i := Dedup(kids, seen + {key}, dup, false);
      NonePassed(kids, seen + {key}, dup, false, false, k);
      NonePassed(rest, i.seen, drop, dup && i.pass, false, k);
      CountsAppend(i.o, Dedup(rest, i.seen, drop, dup && i.pass).o, k);
  }

  /** A key not seen before keeps exactly one full region, a key seen before none,
      and every other copy becomes one N_EXCL. */
  lemma OneFullCopy(f: Forest, seen: set<Key>, k: Key)
    requires Apart(f, false)
    ensures var r := Dedup(f, seen, false, false);
      && Full(r.o, k) == One(k !in seen && Copies(f, k) > 0) && Passed(r.o, k) == 0
      && Full(r.o, k) + Excluded(r.o, k) == Copies(f, k)
      && (k in r.seen <==> k in seen || Copies(f, k) > 0)
  {
    FullCopies(f, seen, false, false, k);
    NonePassed(f, seen, false, false, false, k);
  }

  // ----- a whole link --------------------------------------------------------------

  /** All inputs in turn, the table of headers kept from one to the next. */
  function DedupAll(fs: seq<Forest>, seen: set<Key>): (r: (seq<OutForest>, set<Key>))
    ensures |r.0| == |fs|
  {
    if fs == [] then ([], seen)
    else
      var (os, seen1) := DedupAll(fs[..|fs| - 1], seen);
      var r := Dedup(fs[|fs| - 1], seen1, false, false);
      (os + [r.o], r.seen)
  }

  function CopiesAll(fs: seq<Forest>, k: Key): nat
  {
    if fs == [] then 0 else CopiesAll(fs[..|fs| - 1], k) + Copies(fs[|fs| - 1], k)
  }

  lemma CopiesSnoc(fs: seq<Forest>, f: Forest, k: Key)
    ensures CopiesAll(fs + [f], k) == CopiesAll(fs, k) + Copies(f, k)
  {
    assert (fs + [f])[..|fs|] == fs;
  }

  function FullAll(os: seq<OutForest>, k: Key): nat
  {
    if os == [] then 0 else FullAll(os[..|os| - 1], k) + Full(os[|os| - 1], k)
  }

  function PassedAll(os: seq<OutForest>, k: Key): nat
  {
    if os == [] then 0 else PassedAll(os[..|os| - 1], k) + Passed(os[|os| - 1], k)
  }

  function ExcludedAll(os: seq<OutForest>, k: Key): nat
  {
    if os == [] then 0 else ExcludedAll(os[..|os| - 1], k) + Excluded(os[|os| - 1], k)
  }

  /** Over a whole link, every header with its contents survives in full exactly
      once besides the copies passed through, and each of its other copies is one
      N_EXCL. */
  lemma {:induction false} FullCopiesPerLink(fs: seq<Forest>, k: Key)
    ensures var (os, seen) := DedupAll(fs, {});
      Counted(CopiesAll(fs, k), FullAll(os, k), PassedAll(os, k), ExcludedAll(os, k), false, k in seen)
  {
    if fs != [] {
      var n := |fs| - 1;
      FullCopiesPerLink(fs[..n], k);
      var (os, seen1) := DedupAll(fs[..n], {});
      var r := Dedup(fs[n], seen1, false, false);
      FullCopies(fs[n], seen1, false, false, k);
      assert (os + [r.o])[..n] == os;
    }
  }

  /** A header included by two inputs, under different file numbers, is kept in the
      first and one N_EXCL in the second. */
  lemma RenumberedKeptOnce(f: Forest, g: Forest)
    requires f.Header? && g.Header? && f.begin.name == g.begin.name && SameContents(f.kids, g.kids)
    ensures var os := DedupAll([f, g], {}).0;
      && os[0].OHeader? && os[0].key.name == f.begin.name
      && os[1].OExcl? && os[1].key == os[0].key
  {
    SameSum(f.kids, g.kids);
    DedupTwo(f, g);
    var key := Key(f.begin.name, Sum(f.kids));
    assert key in Dedup(f, {}, false, false).seen by {
      SeenGrows(f.kids, {key}, false, false);
      SeenGrows(f.rest, Dedup(f.kids, {key}, false, false).seen, false, false);
      assert {} + {key} == {key};
    }
  }

  lemma {:induction false} SeenGrows(f: Forest, seen: set<Key>, drop: bool, pass: bool)
    ensures seen <= Dedup(f, seen, drop, pass).seen
    decreases f
  {
    match f
    case Nil =>
    case Plain(stab, rest) => SeenGrows(rest, seen, drop, if drop then pass else !pass && stab.kind.MAIN?);
    case Header(begin, kids, end, rest) =>
      var key := Key(begin.name, Sum(kids));
      var dup := !pass && key in seen;
      var start := if pass then seen else seen + {key};
      var k := Dedup(kids, start, dup, false);
      SeenGrows(kids, start, dup, false);
      SeenGrows(rest, k.seen, drop, dup && k.pass);
  }

  lemma {:induction false} NonePassedPerLink(fs: seq<Forest>, k: Key)
    requires forall i :: 0 <= i < |fs| ==> Apart(fs[i], false)
    ensures PassedAll(DedupAll(fs, {}).0, k) == 0
  {
    if fs != [] {
      var n := |fs| - 1;
      NonePassedPerLink(fs[..n], k);
      var (os, seen1) := DedupAll(fs[..n], {});
      var r := Dedup(fs[n], seen1, false, false);
      NonePassed(fs[n], seen1, false, false, false, k);
      assert (os + [r.o])[..n] == os;
    }
  }

  /** Over a whole link, if no header comes right behind an N_MAIN, every header with
      its contents survives in full exactly once, and each of its other copies is
      one N_EXCL. */
  lemma OneFullCopyPerLink(fs: seq<Forest>, k: Key)
    requires forall i :: 0 <= i < |fs| ==> Apart(fs[i], false)
    ensures var (os, seen) := DedupAll(fs, {});
      && FullAll(os, k) == One(CopiesAll(fs, k) > 0) && PassedAll(os, k) == 0
      && FullAll(os, k) + ExcludedAll(os, k) == CopiesAll(fs, k)
      && (k in seen <==> CopiesAll(fs, k) > 0)
  {
    FullCopiesPerLink(fs, k);
    NonePassedPerLink(fs, k);
  }

  /** A header survives in full exactly once if and only if none of its copies is
      passed through, or it has no other. */
  lemma OnceIff(fs: seq<Forest>, k: Key)
    requires CopiesAll(fs, k) > 0
    ensures var os := DedupAll(fs, {}).0;
      FullAll(os, k) + PassedAll(os, k) == 1 <==> PassedAll(os, k) == 0 || CopiesAll(fs, k) == 1
  {
    FullCopiesPerLink(fs, k);
  }

  /** A header behind an N_MAIN is passed through and not remembered. */
  lemma MainPasses(main: Stab, begin: Stab, x: Stab, end: Stab, k: Key)
    requires main.kind.MAIN? && k == Key(begin.name, Check(x.name))
    ensures var r := Dedup(Plain(main, Header(begin, Plain(x, Nil), end, Nil)), {}, false, false);
      r.seen == {} && Passed(r.o, k) == 1
  {
    var h := Header(begin, Plain(x, Nil), end, Nil);
    var empty: set<Key> := {};
    var inside := Dedup(h.kids, empty, false, false);
    assert Sum(h.kids) == Check(x.name) + Sum(Nil);
    assert Dedup(Nil, empty, false, x.kind.MAIN?) == Deduped(ONil, empty, x.kind.MAIN?);
    assert Dedup(Nil, empty, false, false) == Deduped(ONil, empty, false);
    var o := OPassed(k, begin, inside.o, end, ONil);
    assert Dedup(h, empty, false, true) == Deduped(o, empty, false);
    assert Passed(inside.o, k) == Passed(ONil, k) == 0 && Passed(o, k) == 1;
    assert Dedup(Plain(main, h), empty, false, false).o == OPlain(main, o);
  }

  /** Two inputs that leave two full copies of one header: behind the N_MAIN of the
      first it is passed through, so in the second it is new. */
  lemma MainHidesHeader(main: Stab, begin: Stab, x: Stab, end: Stab)
    requires main.kind.MAIN?
    ensures var h := Header(begin, Plain(x, Nil), end, Nil); var k := Key(begin.name, Check(x.name));
      var (os, _) := DedupAll([Plain(main, h), h], {});
      FullAll(os, k) + PassedAll(os, k) == 2 && ExcludedAll(os, k) == 0
  {
    var h := Header(begin, Plain(x, Nil), end, Nil);
    var f, k := Plain(main, h), Key(begin.name, Check(x.name));
    MainPasses(main, begin, x, end, k);
    assert Apart(h.kids, false) && Apart(Nil, x.kind.MAIN?);
    NonePassed(h, {}, false, false, false, k);
    DedupTwo(f, h);
    TwoCopies(f, h, x, k);
    FullCopiesPerLink([f, h], k);
  }

  lemma TwoCopies(f: Forest, h: Forest, x: Stab, k: Key)
    requires f.Plain? && f.rest == h && h.Header? && h.kids == Plain(x, Nil) && h.rest == Nil
    requires k == Key(h.begin.name, Check(x.name))
    ensures CopiesAll([f, h], k) == 2
  {
    assert Sum(h.kids) == Check(x.name) + Sum(Nil);
    assert Copies(h.kids, k) == Copies(Nil, k) == 0 && Copies(h, k) == 1 && Copies(f, k) == 1;
    CopiesSnoc([], f, k);
    CopiesSnoc([f], h, k);
    assert [] + [f] == [f] && [f] + [h] == [f, h];
    assert CopiesAll([], k) == 0;
  }

  lemma DedupTwo(f: Forest, g: Forest)
    ensures var a := Dedup(f, {}, false, false); var b := Dedup(g, a.seen, false, false);
      && DedupAll([f, g], {}).0 == [a.o, b.o]
      && forall k :: PassedAll([a.o, b.o], k) == Passed(a.o, k) + Passed(b.o, k)
  {
    var a := Dedup(f, {}, false, false);
    var b := Dedup(g, a.seen, false, false);
    assert [f, g][..1] == [f] && [f][..0] == [];
    var one := [f];
    assert one[..|one| - 1] == [] && one[|one| - 1] == f;
    assert DedupAll(one, {}) == ([] + [a.o], a.seen);
    assert [a.o, b.o][..1] == [a.o] && [a.o][..0] == [];
    forall k
      ensures PassedAll([a.o, b.o], k) == Passed(a.o, k) + Passed(b.o, k)
    {
      assert PassedAll([a.o], k) == PassedAll([], k) + Passed(a.o, k);
    }
  }

  // ----- what the code does with the stream ------------------------------------------

  /** The scan ahead that adds up a header's symbols, `nest` headers deep. */
  function ScanSum(s: seq<Stab>, i: nat, nest: nat): int
    requires i <= |s|
    decreases |s| - i
  {
    if i == |s| then 0
    else
      match s[i].kind
      case EINCL => if nest == 0 then 0 else ScanSum(s, i + 1, nest - 1)
      case BINCL => ScanSum(s, i + 1, nest + 1)
      case _ => (if nest == 0 then Check(s[i].name) else 0) + ScanSum(s, i + 1, nest)
  }

  /** The positions the second scan marks: the header's own symbols and its end. */
  function MarkSet(s: seq<Stab>, i: nat, nest: nat): set<nat>
    requires i <= |s|
    decreases |s| - i
  {
    if i == |s| then {}
    else
      match s[i].kind
      case EINCL => if nest == 0 then {i} else MarkSet(s, i + 1, nest - 1)
      case BINCL => MarkSet(s, i + 1, nest + 1)
      case _ => (if nest == 0 then {i} else {}) + MarkSet(s, i + 1, nest)
  }

  datatype State = State(marks: set<nat>, seen: set<Key>, out: seq<Stab>, pass: bool)

  /** Where the loop over an input starts. */
  function Fresh(seen: set<Key>): State { State({}, seen, [], false) }

  function Step(s: seq<Stab>, i: nat, st: State): State
    requires i < |s|
  {
    if i in st.marks then st
    else if st.pass || !s[i].kind.BINCL? then
      st.(out := st.out + [s[i]], pass := !st.pass && s[i].kind.MAIN?)
    else
      var key := Key(s[i].name, ScanSum(s, i + 1, 0));
      if key in st.seen
      then st.(marks := st.marks + MarkSet(s, i + 1, 0), out := st.out + [Stab(EXCL, key.name, key.sum)])
      else st.(seen := st.seen + {key}, out := st.out + [Stab(BINCL, key.name, key.sum)])
  }

  function Run(s: seq<Stab>, i: nat, j: nat, st: State): State
    requires i <= j <= |s|
  {
    if j == i then st else Step(s, j - 1, Run(s, i, j - 1, st))
  }

  lemma {:induction false} RunInTwo(s: seq<Stab>, i: nat, j: nat, k: nat, st: State)
    requires i <= j <= k <= |s|
    ensures Run(s, i, k, st) == Run(s, j, k, Run(s, i, j, st))
  {
    if k > j {
      RunInTwo(s, i, j, k - 1, st);
    }
  }

  // ----- the code does what it should --------------------------------------------------

  lemma {:induction false} ScanOver(s: seq<Stab>, i: nat, f: Forest, nest: nat)
    requires Shows(s, i, f)
    ensures ScanSum(s, i, nest) == (if nest == 0 then Sum(f) else 0) + ScanSum(s, i + Size(f), nest)
    decreases f
  {
    match f
    case Nil =>
    case Plain(stab, rest) => ScanOver(s, i + 1, rest, nest);
    case Header(begin, kids, end, rest) =>
      ScanOver(s, i + 1, kids, nest + 1);
      ScanOver(s, i + 2 + Size(kids), rest, nest);
  }

  /** The positions of the symbols of f itself, f starting at i. */
  function Direct(f: Forest, i: nat): set<nat>
  {
    match f
    case Nil => {}
    case Plain(_, rest) => {i} + Direct(rest, i + 1)
    case Header(_, kids, _, rest) => Direct(rest, i + 2 + Size(kids))
  }

  lemma {:induction false} DirectInside(f: Forest, i: nat)
    ensures forall p :: p in Direct(f, i) ==> i <= p < i + Size(f)
    decreases f
  {
    match f
    case Nil =>
    case Plain(_, rest) => DirectInside(rest, i + 1);
    case Header(_, kids, _, rest) => DirectInside(rest, i + 2 + Size(kids));
  }

  lemma {:induction false} MarkOver(s: seq<Stab>, i: nat, f: Forest, nest: nat)
    requires Shows(s, i, f)
    ensures MarkSet(s, i, nest) == (if nest == 0 then Direct(f, i) else {}) + MarkSet(s, i + Size(f), nest)
    decreases f
  {
    match f
    case Nil =>
    case Plain(stab, rest) => MarkOver(s, i + 1, rest, nest);
    case Header(begin, kids, end, rest) =>
      MarkOver(s, i + 1, kids, nest + 1);
      MarkOver(s, i + 2 + Size(kids), rest, nest);
  }

  /** Among the positions of f, exactly its own symbols are marked if `drop`,
      none otherwise. */
  ghost predicate Marked(marks: set<nat>, f: Forest, i: nat, drop: bool)
  {
    forall p :: i <= p < i + Size(f) ==> (p in marks <==> drop && p in Direct(f, i))
  }

  /** Marks added while f was handled lie inside f. */
  ghost predicate Grown(before: set<nat>, after: set<nat>, i: nat, j: nat)
  {
    before <= after && forall p :: p in after && p !in before ==> i <= p < j
  }

  /** From st to r the deduplication of f was written out. */
  ghost predicate Covers(f: Forest, i: nat, drop: bool, st: State, r: State)
  {
    var d := Dedup(f, st.seen, drop, st.pass);
    r.out == Emit(st.out, d.o) && r.seen == d.seen && r.pass == d.pass && Grown(st.marks, r.marks, i, i + Size(f))
  }

  /** Running over the part of the stream that shows f adds the flattened
      deduplication of f to the output. */
  lemma {:induction false} RunOver(s: seq<Stab>, i: nat, f: Forest, drop: bool, st: State)
    requires Shows(s, i, f) && Marked(st.marks, f, i, drop)
    ensures Covers(f, i, drop, st, Run(s, i, i + Size(f), st))
    decreases f
  {
    match f
    case Nil =>
    case Plain(stab, rest) =>
      var st1 := Step(s, i, st);
      assert Run(s, i, i + 1, st) == st1 by { assert Run(s, i, i, st) == st; }
      DirectInside(rest, i + 1);
      RunOver(s, i + 1, rest, drop, st1);
      RunInTwo(s, i, i + 1, i + Size(f), st);
    case Header(begin, kids, end, rest) =>
      RunOverHeader(s, i, f, drop, st);
  }

  lemma {:induction false} RunOverHeader(s: seq<Stab>, i: nat, f: Forest, drop: bool, st: State)
    requires f.Header? && Shows(s, i, f) && Marked(st.marks, f, i, drop)
    ensures Covers(f, i, drop, st, Run(s, i, i + Size(f), st))
    decreases f, 0
  {
    var kids, rest := f.kids, f.rest;
    var e, j := i + 1 + Size(kids), i + Size(f);
    var dup := Dropped(f, st);
    var st1 := Begun(f, i, st);
    KidsMarked(f, i, drop, st);
    BeginHeader(s, i, f, st);
    RunOver(s, i + 1, kids, dup, st1);
    var st2 := Run(s, i + 1, e, st1);
    RestMarked(f, i, drop, st, st2.marks);
    EndHeader(s, e, f, dup, st2);
    RunOver(s, e + 1, rest, drop, Ended(f, dup, st2));
    InFour(s, i, e, j, st);
    Assemble(f, i, drop, st, st2, Run(s, e + 1, j, Ended(f, dup, st2)));
  }

  /** The header f is a duplicate, and looked at. */
  predicate Dropped(f: Forest, st: State)
    requires f.Header?
  {
    !st.pass && Key(f.begin.name, Sum(f.kids)) in st.seen
  }

  /** The state after the N_BINCL of f. */
  function Begun(f: Forest, i: nat, st: State): State
    requires f.Header?
  {
    if st.pass then st.(out := st.out + [f.begin], pass := false)
    else
      var key := Key(f.begin.name, Sum(f.kids));
      var dup := key in st.seen;
      State(st.marks + (if dup then Direct(f.kids, i + 1) + {i + 1 + Size(f.kids)} else {}), st.seen + {key},
            st.out + [Stab(if dup then EXCL else BINCL, key.name, key.sum)], false)
  }

  /** And after its N_EINCL. */
  function Ended(f: Forest, dup: bool, st: State): State
    requires f.Header?
  {
    if dup then st else st.(out := st.out + [f.end], pass := false)
  }

  /** Begin, contents, end and rest make up the whole. */
  lemma {:induction false} Assemble(f: Forest, i: nat, drop: bool, st: State, st2: State, r: State)
    requires f.Header? && Covers(f.kids, i + 1, Dropped(f, st), Begun(f, i, st), st2)
    requires Covers(f.rest, i + 2 + Size(f.kids), drop, Ended(f, Dropped(f, st), st2), r)
    ensures Covers(f, i, drop, st, r)
  {
    var st1 := Begun(f, i, st);
    if !st.pass {
      var k := Dedup(f.kids, st1.seen, Dropped(f, st), false);
      EmitAppend(st1.out, k.o, Dedup(f.rest, k.seen, drop, Dropped(f, st) && k.pass).o);
    }
    AllGrown(f, i, st, st2.marks, r.marks);
  }

  lemma {:induction false} KidsMarked(f: Forest, i: nat, drop: bool, st: State)
    requires f.Header? && Marked(st.marks, f, i, drop)
    ensures i !in st.marks
    ensures Marked(Begun(f, i, st).marks, f.kids, i + 1, Dropped(f, st))
  {
    assert Direct(f, i) == Direct(f.rest, i + 2 + Size(f.kids)) && Size(f) == 2 + Size(f.kids) + Size(f.rest);
    DirectInside(f.rest, i + 2 + Size(f.kids));
  }

  lemma {:induction false} RestMarked(f: Forest, i: nat, drop: bool, st: State, marks2: set<nat>)
    requires f.Header? && Marked(st.marks, f, i, drop)
    requires Grown(Begun(f, i, st).marks, marks2, i + 1, i + 1 + Size(f.kids))
    ensures i + 1 + Size(f.kids) in marks2 <==> Dropped(f, st)
    ensures Marked(marks2, f.rest, i + 2 + Size(f.kids), drop)
  {
    assert Direct(f, i) == Direct(f.rest, i + 2 + Size(f.kids)) && Size(f) == 2 + Size(f.kids) + Size(f.rest);
    DirectInside(f.rest, i + 2 + Size(f.kids));
    DirectInside(f.kids, i + 1);
  }

  lemma {:induction false} AllGrown(f: Forest, i: nat, st: State, marks2: set<nat>, marks3: set<nat>)
    requires f.Header?
    requires Grown(Begun(f, i, st).marks, marks2, i + 1, i + 1 + Size(f.kids))
    requires Grown(marks2, marks3, i + 2 + Size(f.kids), i + Size(f))
    ensures Grown(st.marks, marks3, i, i + Size(f))
  {
    DirectInside(f.kids, i + 1);
  }

  lemma {:induction false} EndHeader(s: seq<Stab>, e: nat, f: Forest, dup: bool, st: State)
    requires f.Header? && e < |s| && s[e] == f.end && f.end.kind.EINCL? && (e in st.marks <==> dup)
    ensures Run(s, e, e + 1, st) == Ended(f, dup, st)
  {
    assert Run(s, e, e, st) == st;
  }

  lemma {:induction false} BeginHeader(s: seq<Stab>, i: nat, f: Forest, st: State)
    requires f.Header? && Shows(s, i, f) && i !in st.marks
    ensures Run(s, i, i + 1, st) == Begun(f, i, st)
  {
    assert Run(s, i, i, st) == st;
    ScanOver(s, i + 1, f.kids, 0);
    MarkOver(s, i + 1, f.kids, 0);
    var key := Key(f.begin.name, Sum(f.kids));
    assert key in st.seen ==> st.seen + {key} == st.seen;
  }

  lemma {:induction false} InFour(s: seq<Stab>, i: nat, e: nat, k: nat, st: State)
    requires i < e < k <= |s|
    ensures Run(s, i, k, st) == Run(s, e + 1, k, Run(s, e, e + 1, Run(s, i + 1, e, Run(s, i, i + 1, st))))
  {
    RunInTwo(s, i, i + 1, e, st);
    RunInTwo(s, i, e, e + 1, st);
    RunInTwo(s, i, e + 1, k, st);
  }

  /** One input file: the output is the flattened deduplication, so it is well
      bracketed again, and the table of headers grows as it should. */
  lemma {:induction false} OutputIsDedup(s: seq<Stab>, f: Forest, seen: set<Key>)
    requires Shows(s, 0, f) && |s| == Size(f)
    ensures var r := Run(s, 0, |s|, Fresh(seen));
      r.out == Flat(Dedup(f, seen, false, false).o) && r.seen == Dedup(f, seen, false, false).seen
  {
    RunOver(s, 0, f, false, Fresh(seen));
  }

  /** The inputs of a link in turn, the table of headers kept. */
  function RunAll(ss: seq<seq<Stab>>, seen: set<Key>): (r: (seq<seq<Stab>>, set<Key>))
    ensures |r.0| == |ss|
  {
    if ss == [] then ([], seen)
    else
      var (outs, seen1) := RunAll(ss[..|ss| - 1], seen);
      var s := ss[|ss| - 1];
      var r := Run(s, 0, |s|, Fresh(seen1));
      (outs + [r.out], r.seen)
  }

  /** A whole link writes out the deduplication of its inputs. */
  lemma {:induction false} LinkIsDedup(ss: seq<seq<Stab>>, fs: seq<Forest>)
    requires |ss| == |fs| && forall i :: 0 <= i < |ss| ==> Shows(ss[i], 0, fs[i]) && |ss[i]| == Size(fs[i])
    ensures RunAll(ss, {}).1 == DedupAll(fs, {}).1
    ensures forall i :: 0 <= i < |ss| ==> RunAll(ss, {}).0[i] == Flat(DedupAll(fs, {}).0[i])
  {
    if ss != [] {
      var n := |ss| - 1;
      LinkIsDedup(ss[..n], fs[..n]);
      OutputIsDedup(ss[n], fs[n], RunAll(ss[..n], {}).1);
    }
  }

  // ----- the output is well bracketed ----------------------------------------------------

  /** Brackets are brackets and plain symbols are not. */
  ghost predicate Proper(f: Forest)
  {
    match f
    case Nil => true
    case Plain(stab, rest) => !stab.kind.BINCL? && !stab.kind.EINCL? && Proper(rest)
    case Header(begin, kids, end, rest) => begin.kind.BINCL? && Proper(kids) && end.kind.EINCL? && Proper(rest)
  }

  /** The output read as input of another link: an N_EXCL is a plain symbol. */
  function Reread(o: OutForest): Forest
  {
    match o
    case ONil => Nil
    case OPlain(stab, rest) => Plain(stab, Reread(rest))
    case OExcl(key, rest) => Plain(Stab(EXCL, key.name, key.sum), Reread(rest))
    case OHeader(key, kids, end, rest) => Header(Stab(BINCL, key.name, key.sum), Reread(kids), end, Reread(rest))
    case OPassed(_, begin, kids, end, rest) => Header(begin, Reread(kids), end, Reread(rest))
  }

  lemma {:induction false} RereadAppend(a: OutForest, b: OutForest)
    requires Proper(Reread(a)) && Proper(Reread(b))
    ensures Proper(Reread(Append(a, b)))
  {
    match a
    case ONil =>
    case OPlain(_, rest) => RereadAppend(rest, b);
    case OExcl(_, rest) => RereadAppend(rest, b);
    case OHeader(_, _, _, rest) => RereadAppend(rest, b);
    case OPassed(_, _, _, _, rest) => RereadAppend(rest, b);
  }

  lemma {:induction false} DedupProper(f: Forest, seen: set<Key>, drop: bool, pass: bool)
    requires Proper(f)
    ensures Proper(Reread(Dedup(f, seen, drop, pass).o))
    decreases f
  {
    match f
    case Nil =>
    case Plain(stab, rest) => DedupProper(rest, seen, drop, if drop then pass else !pass && stab.kind.MAIN?);
    case Header(begin, kids, end, rest) =>
      var key := Key(begin.name, Sum(kids));
      if pass {
        DedupProper(kids, seen, false, false);
        DedupProper(rest, Dedup(kids, seen, false, false).seen, drop, false);
      } else {
        var dup := key in seen;
        var k := Dedup(kids, seen + {key}, dup, false);
        DedupProper(kids, seen + {key}, dup, false);
        DedupProper(rest, k.seen, drop, dup && k.pass);
        RereadAppend(k.o, Dedup(rest, k.seen, drop, dup && k.pass).o);
      }
  }

  lemma {:induction false} EmitExtends(out: seq<Stab>, o: OutForest)
    ensures out <= Emit(out, o) && |Emit(out, o)| == |out| + Size(Reread(o))
    decreases o
  {
    match o
    case ONil =>
    case OPlain(stab, rest) => EmitExtends(out + [stab], rest);
    case OExcl(key, rest) => EmitExtends(out + [Stab(EXCL, key.name, key.sum)], rest);
    case OHeader(key, kids, end, rest) =>
      var b := out + [Stab(BINCL, key.name, key.sum)];
      EmitExtends(b, kids);
      EmitExtends(Emit(b, kids) + [end], rest);
    case OPassed(_, begin, kids, end, rest) =>
      EmitExtends(out + [begin], kids);
      EmitExtends(Emit(out + [begin], kids) + [end], rest);
  }

  /** What was emitted shows, from where it starts, the forest it came from. */
  lemma {:induction false} EmitShows(out: seq<Stab>, o: OutForest, s: seq<Stab>)
    requires Proper(Reread(o)) && Emit(out, o) <= s
    ensures Shows(s, |out|, Reread(o))
    decreases o, 1
  {
    EmitExtends(out, o);
    match o
    case ONil =>
    case OPlain(stab, rest) =>
      EmitExtends(out + [stab], rest);
      EmitShows(out + [stab], rest, s);
    case OExcl(key, rest) =>
      var x := Stab(EXCL, key.name, key.sum);
      EmitExtends(out + [x], rest);
      EmitShows(out + [x], rest, s);
    case OHeader(key, _, _, _) => KidsShow(out, o, Stab(BINCL, key.name, key.sum), s);
    case OPassed(_, begin, _, _, _) => KidsShow(out, o, begin, s);
  }

  lemma {:induction false} KidsShow(out: seq<Stab>, o: OutForest, begin: Stab, s: seq<Stab>)
    requires (o.OHeader? && begin == Stab(BINCL, o.key.name, o.key.sum)) || (o.OPassed? && begin == o.begin)
    requires Proper(Reread(o)) && Emit(out, o) <= s
    ensures Shows(s, |out|, Reread(o))
    decreases o, 0
  {
    var b := out + [begin];
    var e := Emit(b, o.kids) + [o.end];
    EmitExtends(e, o.rest);
    EmitShows(b, o.kids, s);
    EmitShows(e, o.rest, s);
    RegionShows(out, begin, o.kids, o.end, o.rest, s);
  }

  lemma {:induction false} RegionShows(out: seq<Stab>, begin: Stab, kids: OutForest, end: Stab, rest: OutForest,
                                       s: seq<Stab>)
    requires begin.kind.BINCL? && end.kind.EINCL? && Emit(Emit(out + [begin], kids) + [end], rest) <= s
    requires Shows(s, |out| + 1, Reread(kids)) && Shows(s, |Emit(out + [begin], kids)| + 1, Reread(rest))
    ensures Shows(s, |out|, Header(begin, Reread(kids), end, Reread(rest)))
  {
    var b := out + [begin];
    var e := Emit(b, kids) + [end];
    EmitExtends(b, kids);
    EmitExtends(e, rest);
    assert s[|out|] == b[|out|] && s[|e| - 1] == e[|e| - 1];
  }

  lemma {:induction false} ShownIsProper(s: seq<Stab>, i: nat, f: Forest)
    requires Shows(s, i, f)
    ensures Proper(f)
    decreases f
  {
    match f
    case Nil =>
    case Plain(_, rest) => ShownIsProper(s, i + 1, rest);
    case Header(_, kids, _, rest) => ShownIsProper(s, i + 1, kids); ShownIsProper(s, i + 2 + Size(kids), rest);
  }

  /** A well-bracketed input gives well-bracketed output. */
  lemma {:induction false} OutputWellBracketed(s: seq<Stab>, f: Forest, seen: set<Key>)
    requires Shows(s, 0, f) && |s| == Size(f)
    ensures var out := Run(s, 0, |s|, Fresh(seen)).out; var g := Reread(Dedup(f, seen, false, false).o);
      Shows(out, 0, g) && |out| == Size(g)
  {
    OutputIsDedup(s, f, seen);
    ShownIsProper(s, 0, f);
    DedupProper(f, seen, false, false);
    var o := Dedup(f, seen, false, false).o;
    EmitExtends([], o);
    EmitShows([], o, Flat(o));
  }

  // ----- the loops ------------------------------------------------------------------------

  /** The scan for the end of the header that starts before `start`. */
  method HeaderSum(s: seq<Stab>, start: nat) returns (val: int)
    requires start <= |s|
    ensures val == ScanSum(s, start, 0)
  {
    val := 0;
    var nest := 0;
    var incl := start;
    while incl < |s|
      invariant start <= incl <= |s| && nest >= 0
      invariant val + ScanSum(s, incl, nest) == ScanSum(s, start, 0)
    {
      if s[incl].kind == EINCL {
        if nest == 0 {
          break;
        }
        nest := nest - 1;
      } else if s[incl].kind == BINCL {
        nest := nest + 1;
      } else if nest == 0 {
        val := Checksum(s[incl].name, val);
      }
      incl := incl + 1;
    }
  }

  /** The scan that marks the symbols of a duplicate header. */
  method MarkHeader(s: seq<Stab>, start: nat, symbolMap: array<int>)
    requires start <= |s| == symbolMap.Length
    modifies symbolMap
    ensures forall p :: 0 <= p < |s| ==> symbolMap[p] == if p in MarkSet(s, start, 0) then -1 else old(symbolMap[p])
  {
    var nest := 0;
    var incl := start;
    MarksAhead(s, start, 0);
    while incl < |s|
      invariant start <= incl <= |s| && nest >= 0
      invariant forall p :: 0 <= p < |s| ==>
        symbolMap[p] == if p in MarkSet(s, start, 0) - MarkSet(s, incl, nest) then -1 else old(symbolMap[p])
      invariant MarkSet(s, incl, nest) <= MarkSet(s, start, 0) && forall p :: p in MarkSet(s, incl, nest) ==> p >= incl
    {
      MarksAhead(s, incl, nest);
      MarksAhead(s, incl + 1, nest + 1);
      MarksAhead(s, incl + 1, nest);
      if nest > 0 { MarksAhead(s, incl + 1, nest - 1); }
      if s[incl].kind == EINCL {
        if nest == 0 {
          symbolMap[incl] := -1;
          break;
        }
        nest := nest - 1;
      } else if s[incl].kind == BINCL {
        nest := nest + 1;
      } else if nest == 0 {
        symbolMap[incl] := -1;
      }
      incl := incl + 1;
    }
  }

  lemma {:induction false} MarksAhead(s: seq<Stab>, i: nat, nest: nat)
    requires i <= |s|
    ensures forall p :: p in MarkSet(s, i, nest) ==> i <= p < |s|
    decreases |s| - i
  {
    if i < |s| {
      MarksAhead(s, i + 1, nest);
      MarksAhead(s, i + 1, nest + 1);
      if nest > 0 { MarksAhead(s, i + 1, nest - 1); }
    }
  }

  /** The entry symbol j must get: -1 if a duplicate header before it drops it,
      else the number of its copy. */
  function Place(s: seq<Stab>, seen: set<Key>, base: nat, j: nat): int
    requires j <= |s|
  {
    var st := Run(s, 0, j, Fresh(seen));
    if j in st.marks then -1 else base + |st.out|
  }

  lemma {:induction false} OutGrows(s: seq<Stab>, j: nat, k: nat, st: State)
    requires j <= k <= |s|
    ensures Run(s, 0, j, st).out <= Run(s, 0, k, st).out
    decreases k
  {
    if j < k {
      OutGrows(s, j, k - 1, st);
    }
  }

  /** A symbol that has a place has its copy there, under its own name. */
  lemma PlaceHolds(s: seq<Stab>, seen: set<Key>, base: nat, j: nat)
    requires j < |s| && Place(s, seen, base, j) != -1
    ensures var out := Run(s, 0, |s|, Fresh(seen)).out; var k := Place(s, seen, base, j) - base;
      0 <= k < |out| && out[k].name == s[j].name
  {
    OutGrows(s, j + 1, |s|, Fresh(seen));
    var st := Run(s, 0, j, Fresh(seen));
    assert Run(s, 0, j + 1, Fresh(seen)) == Step(s, j, st);
  }

  /** The loop has handled i symbols and is in state st. */
  ghost predicate Handled(s: seq<Stab>, symbolMap: array<int>, seen: set<Key>, base: nat, i: nat)
    reads symbolMap
  {
    && i <= |s| == symbolMap.Length
    && (forall j :: i <= j < |s| ==> symbolMap[j] == if j in Run(s, 0, i, Fresh(seen)).marks then -1 else 0)
    && (forall j :: 0 <= j < i ==> symbolMap[j] == Place(s, seen, base, j))
  }

  /** One turn of the loop. */
  method WriteSymbol(s: seq<Stab>, symbolMap: array<int>, i: nat, base: nat, seen0: set<Key>, out0: seq<Stab>,
                     pass0: bool, ghost start: set<Key>, ghost st: State)
    returns (seen: set<Key>, out: seq<Stab>, pass: bool)
    requires i < |s| && st == Run(s, 0, i, Fresh(start)) && seen0 == st.seen && out0 == st.out && pass0 == st.pass
    requires Handled(s, symbolMap, start, base, i)
    modifies symbolMap
    ensures Handled(s, symbolMap, start, base, i + 1)
    ensures seen == Step(s, i, st).seen && out == Step(s, i, st).out && pass == Step(s, i, st).pass
  {
    assert Run(s, 0, i + 1, Fresh(start)) == Step(s, i, st);
    seen, out, pass := seen0, out0, pass0;
    if symbolMap[i] == -1 {
      return;
    }
    symbolMap[i] := -1;
    var sym := s[i];
    if pass {
      pass := false;
    } else if sym.kind == MAIN {
      pass := true;
    } else if sym.kind == BINCL {
      var val := HeaderSum(s, i + 1);
      var key := Key(sym.name, val);
      if key !in seen {
        seen := seen + {key};
        sym := Stab(BINCL, sym.name, val);
      } else {
        sym := Stab(EXCL, sym.name, val);
        MarksAhead(s, i + 1, 0);
        MarkHeader(s, i + 1, symbolMap);
      }
    }
    symbolMap[i] := base + |out|;
    out := out + [sym];
  }

  /** The loop of aout_link_write_symbols over debugging symbols: seen is the
      table of headers, base the number of symbols written before. */
  method WriteSymbols(s: seq<Stab>, symbolMap: array<int>, seen0: set<Key>, base: nat)
    returns (out: seq<Stab>, seen: set<Key>)
    requires symbolMap.Length == |s|
    modifies symbolMap
    ensures var r := Run(s, 0, |s|, Fresh(seen0)); out == r.out && seen == r.seen
    ensures forall j :: 0 <= j < |s| ==> symbolMap[j] == Place(s, seen0, base, j)
  {
    forall j | 0 <= j < |s| {
      symbolMap[j] := 0;
    }
    out, seen := [], seen0;
    var i, pass := 0, false;
    while i < |s|
      invariant i <= |s|
      invariant Handled(s, symbolMap, seen0, base, i)
      invariant var st := Run(s, 0, i, Fresh(seen0)); out == st.out && seen == st.seen && pass == st.pass
    {
      seen, out, pass := WriteSymbol(s, symbolMap, i, base, seen, out, pass, seen0, Run(s, 0, i, Fresh(seen0)));
      i := i + 1;
    }
  }
}
