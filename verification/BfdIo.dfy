/** In-memory BFDs and the windows archive elements open on them
    (binutils/bfd/bfdio.c). */
module BfdIo {
  import opened Octets
  import opened IoProtocol

  /** A size rounded up to the next multiple of 128. */
  function Capacity(size: nat): (r: nat)
    ensures size <= r < size + 128
    ensures r % 128 == 0
  {
    (size + 127) / 128 * 128
  }

  // ----- the plain byte sequence an in-memory BFD stands for -----------------

  function Overwrite(content: Bytes, pos: nat, data: Bytes): (r: Bytes)
    requires pos <= |content|
    ensures |r| == if pos + |data| > |content| then pos + |data| else |content|
    ensures forall i :: 0 <= i < |r| ==>
      r[i] == if pos <= i < pos + |data| then data[i - pos] else content[i]
  {
    content[..pos] + data + (if pos + |data| < |content| then content[pos + |data|..] else [])
  }

  function ZeroExtend(content: Bytes, len: nat): Bytes
  {
    if len <= |content| then content else content + Repeat(0, len - |content|)
  }

  /** `struct bfd` with BFD_IN_MEMORY set: the outermost bfd, the only one whose
      `where` and `last_io` the I/O functions use. */
  class Stream {
    var buffer: array<Byte>
    var size: nat
    var where: nat
    var lastIo: LastIo
    const writable: bool
    ghost var calls: seq<Call>

    /** The buffer is the size rounded up to 128, zero beyond the size. */
    ghost predicate ValidBuffer()
      reads this, buffer
    {
      && buffer.Length == Capacity(size)
      && (forall i :: size <= i < buffer.Length ==> buffer[i] == 0)
      && where <= size
    }

    ghost predicate Valid()
      reads this, buffer
    {
      ValidBuffer() && Inv(Protocol())
    }

    ghost function Content(): (s: Bytes)
      reads this, buffer
      requires size <= buffer.Length
    {
      buffer[..size]
    }

    ghost function Protocol(): State
      reads this
    {
      State(lastIo, where, calls)
    }

    /** bfd_make_writable, or a reader over bytes already in memory. */
    constructor (data: Bytes, writable: bool)
      ensures Valid() && Content() == data && where == 0 && Protocol() == FRESH
      ensures this.writable == writable && fresh(buffer)
    {
      var b := new Byte[Capacity(|data|)];
      forall i | 0 <= i < b.Length {
        b[i] := if i < |data| then data[i] else 0;
      }
      buffer, size, where, lastIo, calls := b, |data|, 0, IoSeek, [];
      this.writable := writable;
      new;
      assert buffer[..size] == data;
    }

    /** bfd_realloc: the first octets survive, those beyond are unspecified. */
    method Reallocate(newsize: nat)
      requires newsize > buffer.Length
      modifies this`buffer
      ensures fresh(buffer) && buffer.Length == newsize
      ensures buffer[..old(buffer.Length)] == old(buffer[..])
    {
      var b := new Byte[newsize];
      forall i | 0 <= i < buffer.Length {
        b[i] := buffer[i];
      }
      buffer := b;
    }

    method Fill(lo: nat, data: Bytes)
      requires lo + |data| <= buffer.Length
      modifies buffer
      ensures forall i :: 0 <= i < buffer.Length ==>
        buffer[i] == if lo <= i < lo + |data| then data[i - lo] else old(buffer[i])
    {
      forall i | lo <= i < lo + |data| {
        buffer[i] := data[i - lo];
      }
    }

    /** memory_bread */
    method MemoryRead(n: nat) returns (data: Bytes)
      requires ValidBuffer()
      ensures data == Content()[where..Min(where + n, size)]
    {
      var get := n;
      if where + get > size {
        get := if size < where then 0 else size - where;
      }
      data := buffer[where..where + get];
    }

    /** memory_bwrite, when allocation succeeds */
    method MemoryWrite(data: Bytes)
      requires ValidBuffer()
      modifies this`buffer, this`size, buffer
      ensures buffer.Length == Capacity(size) && size == |Overwrite(old(Content()), where, data)|
      ensures forall i :: size <= i < buffer.Length ==> buffer[i] == 0
      ensures Content() == Overwrite(old(Content()), where, data)
      ensures buffer == old(buffer) || fresh(buffer)
    {
      ghost var was := Content();
      if where + |data| > size {
        Grow(where + |data|);
      }
      assert forall i :: 0 <= i < where ==> buffer[i] == was[i];
      Fill(where, data);
      assert Content() == Overwrite(was, where, data);
    }

    /** The buffer grows to hold `end` octets; what is behind them is zero. */
    method Grow(end: nat)
      requires ValidBuffer() && end > size
      modifies this`buffer, this`size, buffer
      ensures size == end && buffer.Length == Capacity(size)
      ensures forall i :: 0 <= i < old(size) ==> buffer[i] == old(buffer[i])
      ensures forall i :: size <= i < buffer.Length ==> buffer[i] == 0
      ensures buffer == old(buffer) || fresh(buffer)
    {
      var oldsize := Capacity(size);
      size := end;
      var newsize := Capacity(size);
      if newsize > oldsize {
        ghost var all := buffer[..];
        Reallocate(newsize);
        assert forall i :: 0 <= i < oldsize ==> buffer[i] == buffer[..oldsize][i] == all[i];
        Fill(size, Repeat(0, newsize - size));
      }
    }

    /** memory_bseek, when allocation succeeds.  It moves `where` only to report failure. */
    method MemorySeek(position: int, relative: bool) returns (ok: bool)
      requires ValidBuffer()
      modifies this`buffer, this`size, this`where
      ensures buffer.Length == Capacity(size)
      ensures var target := if relative then old(where) + position else position;
        && ok == (0 <= target && (target <= old(size) || writable))
        && Content() == (if ok then ZeroExtend(old(Content()), target) else old(Content()))
        && where == (if ok then old(where) else if target < 0 then 0 else old(size))
        && (ok ==> target <= size)
      ensures forall i :: size <= i < buffer.Length ==> buffer[i] == 0
      ensures size >= old(size)
      ensures buffer == old(buffer) || fresh(buffer)
    {
      ghost var was := Content();
      var nwhere := if relative then where + position else position;
      if nwhere < 0 {
        where := 0;
        return false;
      }
      if nwhere > size {
        if writable {
          var oldsize := Capacity(size);
          size := nwhere;
          var newsize := Capacity(size);
          if newsize > oldsize {
            ghost var all := buffer[..];
            Reallocate(newsize);
            assert forall i :: 0 <= i < oldsize ==> buffer[i] == buffer[..oldsize][i] == all[i];
            Fill(oldsize, Repeat(0, newsize - oldsize));
          }
          assert buffer[..size] == ZeroExtend(was, nwhere);
        } else {
          where := size;
          return false;
        }
      }
      return true;
    }
  }

  // ----- archive elements ----------------------------------------------------

  /** A bfd as the I/O loops see it, up to the outermost one (a Stream).
      `Element` is a bfd whose my_archive is a non-thin archive; eltSize is
      arelt_size when arelt_data is set. */
  datatype Bfd =
    | Outer(origin: nat)
    | Element(origin: nat, eltSize: Option<nat>, archive: Bfd)
  {
    /** The sum of the origins on the way out. */
    ghost function Offset(): nat { if Outer? then origin else origin + archive.Offset() }
  }

  /** The loop all of bfd_read, bfd_write, bfd_tell and bfd_seek begin with. */
  method Climb(abfd: Bfd) returns (offset: nat)
    ensures offset == abfd.Offset()
  {
    offset := 0;
    var b := abfd;
    while b.Element?
      invariant offset + b.Offset() == abfd.Offset()
      decreases b
    {
      offset := offset + b.origin;
      b := b.archive;
    }
    offset := offset + b.origin;
  }

  /** bfd_seek on the outermost bfd, the offset already added. */
  method SeekBase(s: Stream, position: int, relative: bool) returns (ok: bool)
    requires s.ValidBuffer()
    requires Inv(s.Protocol()) || (s.lastIo.IoForce? && relative && position == 0 && Orderly(s.calls))
    modifies s
    ensures s.Valid()
    ensures var target := if relative then old(s.where) + position else position;
      && ok == (0 <= target && (target <= old(s.size) || s.writable))
      && s.Content() == (if ok then ZeroExtend(old(s.Content()), target) else old(s.Content()))
      && s.where == (if ok then target else if target < 0 then 0 else old(s.size))
      && s.Protocol() == SeekStep(old(s.Protocol()), relative, position, if ok then SeekOk else SeekFailed(s.where))
    ensures s.buffer == old(s.buffer) || fresh(s.buffer)
  {
    if (if relative then position == 0 else position == s.where) && s.lastIo != IoForce {
      return true;
    }
    s.lastIo := IoSeek;
    s.calls := s.calls + [SeekCall];
    ok := s.MemorySeek(position, relative);
    if ok {
      s.where := if relative then s.where + position else position;
    }
  }

  /** bfd_seek */
  method BfdSeek(s: Stream, abfd: Bfd, position: int, relative: bool) returns (ok: bool)
    requires s.Valid()
    modifies s
    ensures s.Valid()
    ensures var target := if relative then old(s.where) + position else abfd.Offset() + position;
      && ok == (0 <= target && (target <= old(s.size) || s.writable))
      && s.Content() == (if ok then ZeroExtend(old(s.Content()), target) else old(s.Content()))
      && s.where == (if ok then target else if target < 0 then 0 else old(s.size))
      && s.Protocol() == Step(old(s.Protocol()), Seek(relative, if relative then position else target,
                                                      if ok then SeekOk else SeekFailed(s.where)))
    ensures s.buffer == old(s.buffer) || fresh(s.buffer)
  {
    var offset := Climb(abfd);
    ok := SeekBase(s, if relative then position else position + offset, relative);
  }

  /** bfd_tell */
  method BfdTell(s: Stream, abfd: Bfd) returns (p: int)
    requires s.Valid()
    ensures p == s.where - abfd.Offset()
  {
    var offset := Climb(abfd);
    p := s.where - offset;
  }

  /** The octets bfd_read lets through: not past the end of the element. */
  function Clip(abfd: Bfd, p: int, n: nat): int
  {
    if abfd.Element? && abfd.eltSize.Some? then Min(n, abfd.eltSize.value - p) else n
  }

  /** Outside its element a bfd cannot read at all. */
  predicate Outside(abfd: Bfd, p: int)
  {
    abfd.Element? && abfd.eltSize.Some? && !(0 <= p < abfd.eltSize.value)
  }

  /** What bfd_read and bfd_write do first: a seek to where the stream is, if the
      last operation went the other way. */
  method TurnRound(s: Stream, other: LastIo)
    requires s.Valid()
    modifies s
    ensures s.Valid() && s.Content() == old(s.Content()) && s.size == old(s.size) && s.where == old(s.where)
    ensures s.Protocol()
      == if old(s.lastIo) == other then SeekStep(old(s.Protocol()).(lastIo := IoForce), true, 0, SeekOk)
         else old(s.Protocol())
    ensures s.buffer == old(s.buffer) || fresh(s.buffer)
  {
    if s.lastIo == other {
      s.lastIo := IoForce;
      var ok := SeekBase(s, 0, true);
    }
  }

  /** bfd_read on the outermost bfd, the size already clipped. */
  method ReadBase(s: Stream, size: nat) returns (data: Bytes)
    requires s.Valid()
    modifies s
    ensures s.Valid() && s.Content() == old(s.Content())
    ensures data == old(s.Content())[old(s.where)..Min(old(s.where) + size, old(s.size))]
    ensures s.Protocol() == Step(old(s.Protocol()), Read(SeekOk, |data|))
    ensures s.buffer == old(s.buffer) || fresh(s.buffer)
  {
    TurnRound(s, IoWrite);
    data := s.MemoryRead(size);
    s.lastIo := IoRead;
    s.calls := s.calls + [ReadCall];
    s.where := s.where + |data|;
  }

  /** bfd_read; None is the -1 that reports an invalid operation. */
  method BfdRead(s: Stream, abfd: Bfd, n: nat) returns (r: Option<Bytes>)
    requires s.Valid()
    modifies s
    ensures s.Valid() && s.Content() == old(s.Content())
    ensures var p := old(s.where) - abfd.Offset();
      if Outside(abfd, p) then r.None? && s.Protocol() == old(s.Protocol())
      else
        && r == Some(old(s.Content())[old(s.where)..Min(old(s.where) + Clip(abfd, p, n), old(s.size))])
        && s.Protocol() == Step(old(s.Protocol()), Read(SeekOk, |r.value|))
    ensures abfd.Element? && abfd.eltSize.Some? ==>
      (r.None? <==> old(s.where) < abfd.Offset() || old(s.where) >= abfd.Offset() + abfd.eltSize.value)
    ensures !(abfd.Element? && abfd.eltSize.Some?) ==> r.Some?
    ensures s.buffer == old(s.buffer) || fresh(s.buffer)
  {
    var offset := Climb(abfd);
    var size := n;
    if abfd.Element? && abfd.eltSize.Some? {
      var maxbytes := abfd.eltSize.value;
      if s.where < offset || s.where - offset >= maxbytes {
        return None;
      }
      if s.where - offset + size > maxbytes {
        size := maxbytes - (s.where - offset);
      }
    }
    var data := ReadBase(s, size);
    r := Some(data);
  }

  /** bfd_write, when allocation succeeds */
  method BfdWrite(s: Stream, abfd: Bfd, data: Bytes)
    requires s.Valid()
    modifies s, s.buffer
    ensures s.Valid()
    ensures s.Content() == Overwrite(old(s.Content()), old(s.where), data)
    ensures s.where == old(s.where) + |data|
    ensures s.Protocol() == Step(old(s.Protocol()), Write(SeekOk, |data|))
    ensures s.buffer == old(s.buffer) || fresh(s.buffer)
  {
    TurnRound(s, IoRead);
    s.MemoryWrite(data);
    s.lastIo := IoWrite;
    s.calls := s.calls + [WriteCall];
    s.where := s.where + |data|;
  }

  // ----- whole runs ----------------------------------------------------------

  /** A plain byte sequence with a position in it. */
  datatype Plain = Plain(content: Bytes, pos: nat)

  datatype Request = Put(data: Bytes) | Fetch(n: nat) | MoveTo(target: int) | MoveBy(delta: int)

  datatype Reply = Done | Refused | Data(data: Bytes)

  function Move(p: Plain, writable: bool, target: int): (Plain, Reply)
  {
    if target < 0 then (p.(pos := 0), Refused)
    else if target <= |p.content| || writable then (Plain(ZeroExtend(p.content, target), target), Done)
    else (p.(pos := |p.content|), Refused)
  }

  function Answer(p: Plain, writable: bool, q: Request): (Plain, Reply)
    requires p.pos <= |p.content|
  {
    match q
    case Put(data) => (Plain(Overwrite(p.content, p.pos, data), p.pos + |data|), Done)
    case Fetch(n) =>
      var hi := Min(p.pos + n, |p.content|);
      (p.(pos := hi), Data(p.content[p.pos..hi]))
    case MoveTo(target) => Move(p, writable, target)
    case MoveBy(delta) => Move(p, writable, p.pos + delta)
  }

  lemma AnswerStaysInside(p: Plain, writable: bool, q: Request)
    requires p.pos <= |p.content|
    ensures Answer(p, writable, q).0.pos <= |Answer(p, writable, q).0.content|
  {
  }

  function Answers(p: Plain, writable: bool, qs: seq<Request>): (r: (Plain, seq<Reply>))
    requires p.pos <= |p.content|
    ensures r.0.pos <= |r.0.content| && |r.1| == |qs|
  {
    if qs == [] then (p, [])
    else
      var (p', rs) := Answers(p, writable, qs[..|qs| - 1]);
      AnswerStaysInside(p', writable, qs[|qs| - 1]);
      var (p'', r) := Answer(p', writable, qs[|qs| - 1]);
      (p'', rs + [r])
  }

  method Serve(s: Stream, q: Request) returns (r: Reply)
    requires s.Valid()
    modifies s, s.buffer
    ensures s.Valid() && (s.buffer == old(s.buffer) || fresh(s.buffer))
    ensures (Plain(s.Content(), s.where), r) == Answer(Plain(old(s.Content()), old(s.where)), s.writable, q)
  {
    r := Done;
    match q {
      case Put(data) => BfdWrite(s, Outer(0), data);
      case Fetch(n) =>
        var got := BfdRead(s, Outer(0), n);
        r := Data(got.value);
      case MoveTo(target) =>
        var ok := BfdSeek(s, Outer(0), target, false);
        r := if ok then Done else Refused;
      case MoveBy(delta) =>
        var ok := BfdSeek(s, Outer(0), delta, true);
        r := if ok then Done else Refused;
    }
  }

  /** Any sequence of requests to an in-memory bfd is answered as a plain byte
      sequence with zero-filled gaps answers it. */
  method Replay(s: Stream, qs: seq<Request>) returns (rs: seq<Reply>)
    requires s.Valid()
    modifies s, s.buffer
    ensures s.Valid()
    ensures (Plain(s.Content(), s.where), rs) == Answers(Plain(old(s.Content()), old(s.where)), s.writable, qs)
  {
    rs := [];
    ghost var start := Plain(s.Content(), s.where);
    for i := 0 to |qs|
      invariant s.Valid() && (s.buffer == old(s.buffer) || fresh(s.buffer))
      invariant (Plain(s.Content(), s.where), rs) == Answers(start, s.writable, qs[..i])
    {
      var r := Serve(s, qs[i]);
      rs := rs + [r];
      assert qs[..i + 1][..i] == qs[..i];
    }
    assert qs[..|qs|] == qs;
  }

  // ----- windows compose -----------------------------------------------------

  /** What a bfd shows: an element is a slice of what its archive shows. */
  ghost function View(b: Bfd, file: Bytes): Bytes
  {
    match b
    case Outer(origin) => file[Min(origin, |file|)..]
    case Element(origin, eltSize, archive) =>
      var v := View(archive, file);
      var lo := Min(origin, |v|);
      v[lo..if eltSize.Some? then Min(lo + eltSize.value, |v|) else |v|]
  }

  /** Every element on the way lies inside its archive. */
  ghost predicate Nested(b: Bfd, file: Bytes)
  {
    match b
    case Outer(origin) => origin <= |file|
    case Element(origin, eltSize, archive) =>
      && Nested(archive, file)
      && origin + (if eltSize.Some? then eltSize.value else 0) <= |View(archive, file)|
  }

  lemma SliceOfSlice(file: Bytes, a: nat, b: nat, c: nat, d: nat)
    requires a <= b <= |file| && c <= d <= b - a
    ensures file[a..b][c..d] == file[a + c..a + d]
  {
    forall i | 0 <= i < d - c
      ensures file[a..b][c..d][i] == file[a + c..a + d][i]
    {
      assert file[a..b][c..d][i] == file[a..b][c + i] == file[a + c + i];
    }
  }

  /** A slice of a slice of ... is the slice of the file at the sum of the origins. */
  lemma {:induction false} ViewIsSlice(b: Bfd, file: Bytes)
    requires Nested(b, file)
    ensures b.Offset() + |View(b, file)| <= |file|
    ensures View(b, file) == file[b.Offset()..b.Offset() + |View(b, file)|]
    ensures b.Element? && b.eltSize.Some? ==> |View(b, file)| == b.eltSize.value
  {
    match b
    case Outer(origin) =>
    case Element(origin, eltSize, archive) =>
      ViewIsSlice(archive, file);
      var v := View(archive, file);
      var o := archive.Offset();
      var hi := if eltSize.Some? then origin + eltSize.value else |v|;
      assert View(b, file) == v[origin..hi];
      SliceOfSlice(file, o, o + |v|, origin, hi);
  }

  /** Seek, tell and read on an element at any depth. */
  method ReadElementAt(s: Stream, abfd: Bfd, p: nat, n: nat) returns (told: int, r: Bytes)
    requires s.Valid()
    requires abfd.Element? && abfd.eltSize.Some? && p < abfd.eltSize.value
    requires Nested(abfd, s.Content())
    modifies s
    ensures s.Valid() && s.Content() == old(s.Content())
    ensures told == p
    ensures |r| == Min(n, abfd.eltSize.value - p)
    ensures p + |r| <= |View(abfd, old(s.Content()))|
    ensures r == View(abfd, old(s.Content()))[p..p + |r|]
  {
    ViewIsSlice(abfd, s.Content());
    var ok := BfdSeek(s, abfd, p, false);
    told := BfdTell(s, abfd);
    r := ReadHere(s, abfd, p, n);
    ViewPart(abfd, old(s.Content()), p, |r|);
  }

  /** A read inside an element. */
  method ReadHere(s: Stream, abfd: Bfd, p: nat, n: nat) returns (r: Bytes)
    requires s.Valid() && abfd.Element? && abfd.eltSize.Some? && p < abfd.eltSize.value
    requires 0 <= abfd.Offset() && s.where == abfd.Offset() + p && abfd.Offset() + abfd.eltSize.value <= s.size
    modifies s
    ensures s.Valid() && s.Content() == old(s.Content())
    ensures |r| == Min(n, abfd.eltSize.value - p) && r == s.Content()[abfd.Offset() + p..abfd.Offset() + p + |r|]
  {
    var got := BfdRead(s, abfd, n);
    r := got.value;
  }

  lemma ViewPart(abfd: Bfd, file: Bytes, p: nat, n: nat)
    requires abfd.Element? && abfd.eltSize.Some? && p + n <= abfd.eltSize.value && Nested(abfd, file)
    ensures p + n <= |View(abfd, file)|
    ensures abfd.Offset() >= 0 && abfd.Offset() + p + n <= |file|
    ensures View(abfd, file)[p..p + n] == file[abfd.Offset() + p..abfd.Offset() + p + n]
  {
    ViewIsSlice(abfd, file);
    var o := abfd.Offset();
    SliceOfSlice(file, o, o + abfd.eltSize.value, p, p + n);
  }
}
