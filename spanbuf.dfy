/**
 * span_buf: a stream buffer over an externally owned span of characters.
 * Only the pointer arithmetic is modelled. A pointer into the span is its
 * offset from the span's first character; a null pointer is `NoArea`.
 */
module SpanBuffer {
  import opened Wrappers
  import opened IosBase

  /** std::numeric_limits<off_type>::max() and min() for the 64-bit off_type. */
  const OffMax: int := 0x7FFF_FFFF_FFFF_FFFF
  const OffMin: int := -0x8000_0000_0000_0000

  /** INT_MAX and INT_MIN: gbump and pbump take an int. */
  const IntMax: int := 0x7FFF_FFFF
  const IntMin: int := -0x8000_0000

  /** std::streambuf::off_type. */
  type Off = x: int | OffMin <= x <= OffMax

  /** std::span<char>: its data pointer is null or not; size() elements follow it. */
  datatype Span = Span(isNull: bool, size: nat)

  const EmptySpan: Span := Span(true, 0)

  /** A span over memory that exists: a null data pointer has no elements. */
  predicate SpanOk(sp: Span)
  {
    sp.isNull ==> sp.size == 0
  }

  /**
   * A get area (eback, gptr, egptr) or a put area (pbase, pptr, epptr), as
   * offsets into the span; `NoArea` when the three pointers are null.
   */
  datatype Area = NoArea | Area(first: int, next: int, last: int)

  /** The state a span_buf keeps: m_mode, m_buf and the two areas of its base. */
  datatype State = State(mode: OpenMode, buf: Span, get: Area, put: Area)

  /** A subrange of the span, as span() returns it. */
  datatype Slice = Slice(isNull: bool, start: int, length: int)

  /** The default mode, in | out. */
  const InOut: OpenMode := Union(InMode, OutMode)

  /** gptr() - eback() or pptr() - pbase(); null minus null is 0. */
  function Position(a: Area): int
  {
    if a.NoArea? then 0 else a.next - a.first
  }

  /** An area that covers the whole of a span of `size` characters, with its position inside it. */
  predicate Covers(a: Area, size: nat)
  {
    a.NoArea? || (a.first == 0 && a.last == size && 0 <= a.next <= size)
  }

  /**
   * The invariant of a span_buf: an area is set only when the mode asks for
   * it and the span is not null, and then it covers the whole span.
   */
  predicate Consistent(s: State)
  {
    && SpanOk(s.buf)
    && (!s.mode.input || s.buf.isNull ==> s.get.NoArea?)
    && (!s.mode.output || s.buf.isNull ==> s.put.NoArea?)
    && Covers(s.get, s.buf.size)
    && Covers(s.put, s.buf.size)
  }

  /** The state of a buffer that was just constructed with mode `which` and no span. */
  function Fresh(which: OpenMode): (s: State)
    ensures Consistent(s)
    ensures s.get.NoArea? && s.put.NoArea?
  {
    State(which, EmptySpan, NoArea, NoArea)
  }

  /** setg(start, start, stop) / setp(start, stop) over a span; both null for a null span. */
  function WholeArea(sp: Span, next: nat): Area
  {
    if sp.isNull then NoArea else Area(0, next, sp.size)
  }

  /**
   * span(sp) as the C++23 std::spanbuf specifies it: the put area covers the
   * span and starts at its end under ate; the get area covers the span and
   * starts at its beginning. An area the mode does not ask for is left alone.
   */
  function SetSpanState(s: State, sp: Span): (t: State)
    requires SpanOk(sp)
    ensures t.mode == s.mode && t.buf == sp
    ensures Consistent(s) ==> Consistent(t)
    ensures t.mode.input ==> Position(t.get) == 0
    ensures t.mode.output ==> Position(t.put) == if t.mode.ate then sp.size else 0
    ensures !t.mode.input ==> t.get == s.get
    ensures !t.mode.output ==> t.put == s.put
  {
    var put := if s.mode.output then WholeArea(sp, if s.mode.ate then sp.size else 0) else s.put;
    var get := if s.mode.input then WholeArea(sp, 0) else s.get;
    State(s.mode, sp, get, put)
  }

  /**
   * span(sp) as written: under out | ate it calls setp(stop, stop), which
   * puts pbase as well as pptr at the end of the span.
   */
  function SetSpanAsWritten(s: State, sp: Span): (t: State)
    requires SpanOk(sp)
    ensures t.mode == s.mode && t.buf == sp
    ensures !(s.mode.output && s.mode.ate) ==> t == SetSpanState(s, sp)
  {
    var put :=
      if !s.mode.output then s.put
      else if sp.isNull then NoArea
      else if s.mode.ate then Area(sp.size, sp.size, sp.size)
      else Area(0, 0, sp.size);
    var get := if s.mode.input then WholeArea(sp, 0) else s.get;
    State(s.mode, sp, get, put)
  }

  /** span() const: what has been written under out, the whole span otherwise. */
  function View(s: State): (r: Slice)
    ensures !s.mode.output ==> r == Slice(s.buf.isNull, 0, s.buf.size)
    ensures Consistent(s) && s.mode.output ==> 0 <= r.length <= s.buf.size
  {
    if s.mode.output then
      if s.put.NoArea? then Slice(true, 0, 0) else Slice(false, s.put.first, s.put.next - s.put.first)
    else Slice(s.buf.isNull, 0, s.buf.size)
  }

  /** static_cast<int> of a 64-bit value: two's complement wrap-around. */
  function ToInt(x: int): (r: int)
    ensures IntMin <= r <= IntMax
    ensures IntMin <= x <= IntMax ==> r == x
  {
    (x - IntMin) % 0x1_0000_0000 + IntMin
  }

  /** The base of a seek from the end: the written length in a write-only buffer, else the size. */
  function EndBase(s: State): int
  {
    if s.mode.output && !s.mode.input then Position(s.put) else s.buf.size
  }

  /** The base of a seek from the current position: the position in the one area asked for. */
  function CurBase(s: State, which: OpenMode): int
  {
    if which.input then Position(s.get) else Position(s.put)
  }

  /**
   * The position seekoff aims at, before the null-pointer check: None where
   * the C++ code returns -1 from the switch on `way`.
   */
  function Target(s: State, off: Off, way: SeekDir, which: OpenMode): (r: Option<int>)
    ensures r.Some? ==> 0 <= r.value <= s.buf.size
    ensures way == Beg ==> (r.Some? <==> 0 <= off <= s.buf.size) && (r.Some? ==> r.value == off)
    ensures way == End ==>
      && (r.Some? <==> off <= OffMax - EndBase(s) && 0 <= off + EndBase(s) <= s.buf.size)
      && (r.Some? ==> r.value == off + EndBase(s))
    ensures way == Cur && which.input == which.output ==> r.None?
    ensures way == Cur && which.input != which.output ==>
      && (r.Some? <==> -CurBase(s, which) <= off <= s.buf.size - CurBase(s, which))
      && (r.Some? ==> r.value == off + CurBase(s, which))
  {
    match way
    case Beg =>
      // static_cast<size_t> makes a negative offset larger than any size
      if off < 0 || off > s.buf.size then None else Some(off)
    case End =>
      var baseOff := EndBase(s);
      if off > OffMax - baseOff then None
      else if off + baseOff < 0 || off + baseOff > s.buf.size then None
      else Some(off + baseOff)
    case Cur =>
      if which.input == which.output then None
      else
        var oldOff := CurBase(s, which);
        var oldLeft := s.buf.size - oldOff;
        if off < -oldOff || off > oldLeft then None else Some(off + oldOff)
  }

  /**
   * The value seekoff returns: the target when there is one and the areas
   * asked for exist (or the target is 0), else -1.
   */
  function SeekOffResult(s: State, off: Off, way: SeekDir, which: OpenMode): (r: int)
    ensures r == -1 || 0 <= r <= s.buf.size
    ensures r != -1 ==> Target(s, off, way, which) == Some(r)
    ensures r != -1 && r != 0 ==> (which.input ==> s.get.Area?) && (which.output ==> s.put.Area?)
    ensures Target(s, off, way, which).None? ==> r == -1
    ensures var t := Target(s, off, way, which);
      t.Some? && (t.value == 0 || ((which.input ==> s.get.Area?) && (which.output ==> s.put.Area?)))
      ==> r == t.value
  {
    match Target(s, off, way, which)
    case None => -1
    case Some(t) =>
      if t != 0 && ((which.input && s.get.NoArea?) || (which.output && s.put.NoArea?)) then -1
      else t
  }

  /**
   * gbump / pbump by static_cast<int>(target - position): a null area stays
   * null; otherwise only the position moves, and it lands on the target
   * whenever the distance fits an int.
   */
  function Bump(a: Area, target: int): (r: Area)
    ensures a.NoArea? ==> r == a
    ensures a.Area? ==> r.Area? && r.first == a.first && r.last == a.last
    ensures a.Area? && IntMin <= target - Position(a) <= IntMax ==> Position(r) == target
  {
    if a.NoArea? then a else a.(next := a.next + ToInt(target - Position(a)))
  }

  /** The state after seekoff(off, way, which). */
  function SeekOffState(s: State, off: Off, way: SeekDir, which: OpenMode): (t: State)
  {
    var r := SeekOffResult(s, off, way, which);
    if r == -1 then s
    else
      var get := if which.input then Bump(s.get, r) else s.get;
      var put := if which.output then Bump(s.put, r) else s.put;
      s.(get := get, put := put)
  }

  /** A failed seek changes nothing; a successful one touches only the requested areas. */
  lemma SeekOffFrame(s: State, off: Off, way: SeekDir, which: OpenMode)
    ensures var t := SeekOffState(s, off, way, which);
      && t.mode == s.mode && t.buf == s.buf
      && (SeekOffResult(s, off, way, which) == -1 ==> t == s)
      && (!which.input ==> t.get == s.get)
      && (!which.output ==> t.put == s.put)
  {
  }

  /**
   * On a span no longer than INT_MAX a successful seek moves every requested
   * position exactly to the returned value and keeps the invariant.
   */
  lemma {:induction false} SeekOffMoves(s: State, off: Off, way: SeekDir, which: OpenMode)
    requires Consistent(s) && s.buf.size <= IntMax
    ensures var r := SeekOffResult(s, off, way, which);
      var t := SeekOffState(s, off, way, which);
      && Consistent(t)
      && (r != -1 && which.input && t.get.Area? ==> Position(t.get) == r)
      && (r != -1 && which.output && t.put.Area? ==> Position(t.put) == r)
  {
    var r := SeekOffResult(s, off, way, which);
    if r != -1 {
      var t := SeekOffState(s, off, way, which);
      if which.input && s.get.Area? {
        assert IntMin <= r - Position(s.get) <= IntMax;
        assert t.get.next == r;
      }
      if which.output && s.put.Area? {
        assert IntMin <= r - Position(s.put) <= IntMax;
        assert t.put.next == r;
      }
    }
  }

  /** Seeking from the current position by d lands where seeking from the beginning to a + d would. */
  lemma {:induction false} SeekCurAfterBeg(s: State, a: Off, d: Off, which: OpenMode)
    requires Consistent(s) && s.buf.size <= IntMax
    requires which.input != which.output
    requires SeekOffResult(s, a, Beg, which) != -1
    requires OffMin <= a + d <= OffMax
    ensures SeekOffResult(SeekOffState(s, a, Beg, which), d, Cur, which) == SeekOffResult(s, a + d, Beg, which)
  {
    SeekOffMoves(s, a, Beg, which);
    var t := SeekOffState(s, a, Beg, which);
    var oldOff := if which.input then Position(t.get) else Position(t.put);
    assert oldOff == a;
    if which.input {
      assert t.get.NoArea? <==> s.get.NoArea?;
    } else {
      assert t.put.NoArea? <==> s.put.NoArea?;
    }
  }

  /** For a buffer that reads, seeking from the end is seeking from the beginning to size + off. */
  lemma SeekEndIsFromSize(s: State, off: Off, which: OpenMode)
    requires s.mode.input
    requires OffMin <= s.buf.size + off <= OffMax
    ensures SeekOffResult(s, off, End, which) == SeekOffResult(s, s.buf.size + off, Beg, which)
  {
  }

  /** Seeking to the current position from cur returns that position and moves nothing. */
  lemma {:induction false} SeekCurZero(s: State, which: OpenMode)
    requires Consistent(s)
    requires which.input != which.output
    ensures var r := SeekOffResult(s, 0, Cur, which);
      && r == (if which.input then Position(s.get) else Position(s.put))
      && SeekOffState(s, 0, Cur, which) == s
  {
    var r := SeekOffResult(s, 0, Cur, which);
    if which.input {
      assert r == Position(s.get);
      if s.get.Area? { assert ToInt(0) == 0; }
    } else {
      assert r == Position(s.put);
      if s.put.Area? { assert ToInt(0) == 0; }
    }
  }

  /** Under out without in, span() after a seek of the put position reports what lies before it. */
  lemma {:induction false} ViewAfterSeek(s: State, off: Off, way: SeekDir)
    requires Consistent(s) && s.buf.size <= IntMax
    requires s.mode.output && s.put.Area?
    requires SeekOffResult(s, off, way, OutMode) != -1
    ensures View(SeekOffState(s, off, way, OutMode)) == Slice(false, 0, SeekOffResult(s, off, way, OutMode))
  {
    SeekOffMoves(s, off, way, OutMode);
  }

  /** Under out | ate, span() of a span set the corrected way is the whole span. */
  lemma ViewWhenAppending(s: State, sp: Span)
    requires SpanOk(sp) && !sp.isNull
    requires s.mode.output && s.mode.ate
    ensures View(SetSpanState(s, sp)) == Slice(false, 0, sp.size)
  {
  }

  /** As written, span() under out | ate of a freshly set span is empty, at the span's end. */
  lemma ViewWhenAppendingAsWritten(s: State, sp: Span)
    requires SpanOk(sp) && !sp.isNull
    requires s.mode.output && s.mode.ate
    ensures View(SetSpanAsWritten(s, sp)) == Slice(false, sp.size, 0)
  {
  }

  /**
   * As written, out | ate leaves pbase at the end of the span: span() reports
   * nothing written, and seekoff(2, beg, out) on four characters succeeds
   * and moves pptr two characters past epptr.
   */
  lemma AteOverrunAsWritten()
    ensures var sp := Span(false, 4);
      var s := SetSpanAsWritten(Fresh(OutMode.(ate := true)), sp);
      var t := SeekOffState(s, 2, Beg, OutMode);
      && !Consistent(s)
      && View(s).length == 0
      && SeekOffResult(s, 2, Beg, OutMode) == 2
      && t.put.next == 6 && t.put.last == 4
  {
    var sp := Span(false, 4);
    var s := SetSpanAsWritten(Fresh(OutMode.(ate := true)), sp);
    assert s.put == Area(4, 4, 4);
    assert ToInt(2) == 2;
  }

  /** span(sp) as specified keeps the invariant, so every later seek stays inside the span. */
  lemma {:induction false} SpanThenSeekStaysInside(s: State, sp: Span, off: Off, way: SeekDir, which: OpenMode)
    requires Consistent(s) && SpanOk(sp) && sp.size <= IntMax
    ensures var t := SeekOffState(SetSpanState(s, sp), off, way, which);
      && Consistent(t)
      && (t.put.Area? ==> 0 <= t.put.next <= t.put.last == sp.size)
      && (t.get.Area? ==> 0 <= t.get.next <= t.get.last == sp.size)
  {
    SeekOffMoves(SetSpanState(s, sp), off, way, which);
  }

  /** lochfolk::span_buf. */
  class SpanBuf {
    var mode: OpenMode
    var buf: Span
    var get: Area
    var put: Area

    function Snapshot(): State
      reads this
    {
      State(mode, buf, get, put)
    }

    /** span_buf(): mode in | out, no span. */
    constructor ()
      ensures Snapshot() == Fresh(InOut)
    {
      mode, buf, get, put := InOut, EmptySpan, NoArea, NoArea;
    }

    /** span_buf(which). */
    constructor WithMode(which: OpenMode)
      ensures Snapshot() == Fresh(which)
    {
      mode, buf, get, put := which, EmptySpan, NoArea, NoArea;
    }

    /** span_buf(sp, which): set the mode, then span(sp) as written. */
    constructor FromSpan(sp: Span, which: OpenMode)
      requires SpanOk(sp)
      ensures Snapshot() == SetSpanAsWritten(Fresh(which), sp)
    {
      mode, buf, get, put := which, EmptySpan, NoArea, NoArea;
      new;
      SetSpan(sp);
    }

    /**
     * span_buf(span_buf&&): takes the other's mode, span and areas; the other
     * keeps its mode but is left with an empty span and null areas.
     */
    constructor Move(other: SpanBuf)
      modifies other
      ensures Snapshot() == old(other.Snapshot())
      ensures other.Snapshot() == Fresh(old(other.mode))
    {
      mode, buf, get, put := other.mode, other.buf, other.get, other.put;
      new;
      other.buf := EmptySpan;
      other.put := NoArea;
      other.get := NoArea;
    }

    /** swap: exchanges mode, span and areas. */
    method Swap(other: SpanBuf)
      modifies this, other
      ensures Snapshot() == old(other.Snapshot())
      ensures other.Snapshot() == old(Snapshot())
    {
      var m, b, g, p := mode, buf, get, put;
      mode, buf, get, put := other.mode, other.buf, other.get, other.put;
      other.mode, other.buf, other.get, other.put := m, b, g, p;
    }

    /**
     * operator=(span_buf&&): unless it is self-assignment, drop the own span
     * and areas, then swap, so rhs ends with this buffer's old mode and nothing else.
     */
    method MoveAssign(rhs: SpanBuf)
      modifies this, rhs
      ensures rhs == this ==> Snapshot() == old(Snapshot())
      ensures rhs != this ==> Snapshot() == old(rhs.Snapshot())
      ensures rhs != this ==> rhs.Snapshot() == Fresh(old(mode))
    {
      if rhs == this {
        return;
      }
      buf := EmptySpan;
      put := NoArea;
      get := NoArea;
      Swap(rhs);
    }

    /** span(sp), with setp(stop, stop) under out | ate as the C++ code has it. */
    method SetSpan(sp: Span)
      requires SpanOk(sp)
      modifies this
      ensures Snapshot() == SetSpanAsWritten(old(Snapshot()), sp)
    {
      buf := sp;
      if mode.output {
        if sp.isNull {
          put := NoArea;
        } else if mode.ate {
          put := Area(sp.size, sp.size, sp.size);
        } else {
          put := Area(0, 0, sp.size);
        }
      }
      if mode.input {
        get := WholeArea(sp, 0);
      }
    }

    /** span() const. */
    function CurrentSpan(): (r: Slice)
      reads this
      ensures r == View(Snapshot())
    {
      if mode.output then
        if put.NoArea? then Slice(true, 0, 0) else Slice(false, put.first, put.next - put.first)
      else Slice(buf.isNull, 0, buf.size)
    }

    /** seekoff(off, way, which). */
    method SeekOff(off: Off, way: SeekDir, which: OpenMode) returns (r: int)
      modifies this
      ensures r == SeekOffResult(old(Snapshot()), off, way, which)
      ensures Snapshot() == SeekOffState(old(Snapshot()), off, way, which)
    {
      var isIn := which.input;
      var isOut := which.output;
      var target: int := off;
      match way {
        case Beg =>
          if off < 0 || off > buf.size {
            return -1;
          }
        case End =>
          var baseOff := if mode.output && !mode.input then Position(put) else buf.size;
          if off > OffMax - baseOff {
            return -1;
          }
          target := off + baseOff;
          if target < 0 || target > buf.size {
            return -1;
          }
        case Cur =>
          if isIn && isOut {
            return -1;
          } else if isIn || isOut {
            var oldOff := if isIn then Position(get) else Position(put);
            var oldLeft := buf.size - oldOff;
            if off < -oldOff || off > oldLeft {
              return -1;
            }
            target := off + oldOff;
          } else {
            return -1;
          }
      }
      if target != 0 && ((isIn && get.NoArea?) || (isOut && put.NoArea?)) {
        return -1;
      }
      if isIn {
        get := Bump(get, target);
      }
      if isOut {
        put := Bump(put, target);
      }
      return target;
    }

    /** seekpos(pos, which): seekoff from the beginning. */
    method SeekPos(pos: Off, which: OpenMode) returns (r: int)
      modifies this
      ensures r == SeekOffResult(old(Snapshot()), pos, Beg, which)
      ensures Snapshot() == SeekOffState(old(Snapshot()), pos, Beg, which)
    {
      r := SeekOff(pos, Beg, which);
    }
  }
}
