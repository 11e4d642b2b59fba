/** RangeAccessor.h and `get::rangeModify` in Modifiers.h: the earlier get. A
    cursor counts every step it takes; `rangeModify` walks at most `n` steps to
    find where the range ends, and two cursors are equal when their counts or
    their upstream cursors are. */
module RangeAccessors {
  import opened Cursors
  import GetStage

  class RangeAccessor<T> {
    var up: Cursor<T>
    var pos: nat
    /** The upstream position where the count was 0, and the upstream end and
        count `rangeModify` was given: together they fix the positions the walk
        visits. */
    ghost const start: int
    ghost const last: Cursor<T>
    ghost const limit: nat

    constructor (up: Cursor<T>, pos: nat, ghost last: Cursor<T>, ghost limit: nat)
      ensures this.up == up && this.pos == pos && start == up.index - pos
      ensures this.last == last && this.limit == limit
    {
      this.up := up;
      this.pos := pos;
      start := up.index - pos;
      this.last := last;
      this.limit := limit;
    }

    /** The positions the walk from `start` visits: min(limit, L) of a finite
        upstream, `limit` of a generator. Only constant fields are involved. */
    ghost function Out(): (r: seq<Cell<T>>)
      requires last.Valid() && 0 <= start && (last.src.Finite? ==> start <= last.index)
      ensures |r| == Span(Cursor(last.src, start), last, limit)
    {
      match last.src
      case Finite(cells) => cells[start..start + Span(Cursor(last.src, start), last, limit)]
      case Endless(gen) => AllValued(seq(limit, i requires 0 <= i < limit => gen(start + i)))
    }

    /** The count is the number of steps taken from `start`, and the walk has not
        gone past its window. */
    ghost predicate Valid()
      reads this
    {
      up.src == last.src && up.Valid() && last.Valid() && 0 <= start && up.index == start + pos
      && (last.src.Finite? ==> start <= last.index) && pos <= |Out()|
    }

    /** The end cursor `rangeModify` builds for `b`: count `limit`, standing
        where the window of `b` ends. */
    ghost predicate IsEndOf(b: RangeAccessor<T>)
      reads this, b
      requires b.Valid()
    {
      pos == b.limit && up.src == b.last.src && up.index == b.start + |b.Out()|
    }

    /** The copy constructor. */
    method Copy() returns (c: RangeAccessor<T>)
      ensures fresh(c) && c.up == up && c.pos == pos
      ensures c.last == last && c.limit == limit && c.start == up.index - pos
    {
      c := new RangeAccessor(up, pos, last, limit);
    }

    /** `==`: equal counts or equal upstream cursors. Against the end cursor of
        its range it says whether the walk is over. */
    function Equals(other: RangeAccessor<T>): (r: bool)
      reads this, other
      ensures r <==> pos == other.pos || up.Equals(other.up)
      ensures Valid() && other.IsEndOf(this) ==> (r <==> pos == |Out()|)
    {
      pos == other.pos || up.Equals(other.up)
    }

    /** `!=`: the exact negation of `==`; against the end cursor of its range,
        whether positions remain. */
    function NotEquals(other: RangeAccessor<T>): (r: bool)
      reads this, other
      ensures r <==> !Equals(other)
      ensures Valid() && other.IsEndOf(this) ==> (r <==> pos < |Out()|)
    {
      pos != other.pos && up.Differs(other.up)
    }

    /** `*` forwards to the upstream without moving: inside the window, the
        element at the current position of the window. */
    function Deref(): (r: T)
      reads this
      requires up.InRange()
      ensures Valid() && pos < |Out()| ==> r == Contents(Out())[pos]
    {
      up.Deref()
    }

    /** `++` counts the step and advances the upstream once. */
    method Advance()
      requires up.InRange()
      modifies this
      ensures pos == old(pos) + 1 && up == old(up).Next()
      ensures old(Valid()) && old(pos) < |Out()| ==> Valid()
    {
      pos := pos + 1;
      up := up.Next();
    }
  }

  /** How many positions get(n) keeps: min(n, L) over a finite range, n over a
      generator. */
  ghost function Span<T>(begin: Cursor<T>, end: Cursor<T>, n: nat): (r: nat)
    requires begin.src.Finite? ==> begin.index <= end.index
    ensures r <= n && (begin.src.Finite? ==> r <= end.index - begin.index)
  {
    if begin.src.Finite? && end.index - begin.index < n then end.index - begin.index else n
  }

  /** get::rangeModify: the begin cursor (begin, 0); the end cursor is (end, n) when
      the upstream runs out within `n` steps, and otherwise the begin cursor
      advanced `n` times. Either way it stands `Span` positions on with count `n`,
      which is where the window of the begin cursor ends. */
  method RangeModify<T>(n: nat, begin: Cursor<T>, end: Cursor<T>) returns (b: RangeAccessor<T>, e: RangeAccessor<T>)
    requires begin.src == end.src && begin.Valid() && end.Valid()
    requires begin.src.Finite? ==> begin.index <= end.index
    ensures fresh(b) && fresh(e) && b != e
    ensures b.up == begin && b.pos == 0 && b.Valid() && b.start == begin.index && b.last == end && b.limit == n
    ensures e.pos == n && e.up.src == begin.src && e.up.index == begin.index + Span(begin, end, n)
    ensures begin.src.Finite? && end.index - begin.index <= n ==> e.up == end
    ensures e.IsEndOf(b)
  {
    b := new RangeAccessor(begin, 0, end, n);
    var newEnd := b.Copy();
    var it := begin;
    var i := 0;
    while i < n && it.Differs(end)
      invariant it.src == begin.src && it.index == begin.index + i && i <= n
      invariant begin.src.Finite? ==> it.index <= end.index
      invariant newEnd.up == it && newEnd.pos == i && b.up == begin && b.pos == 0
      decreases n - i
    {
      newEnd.Advance();
      i := i + 1;
      it := it.Next();
    }
    if it.Equals(end) {
      e := new RangeAccessor(end, n, end, n);
    } else {
      e := newEnd;
    }
  }

  /** `Stream >> get(n) >> ...` in the earlier design: build the range and walk
      it. Over a finite range it visits the first min(n, L) elements; over a
      generator, its next n outputs. */
  method Take<T>(n: nat, begin: Cursor<T>, end: Cursor<T>) returns (res: seq<T>)
    requires begin.src == end.src && begin.Valid() && end.Valid()
    requires begin.src.Finite? ==> begin.index <= end.index
    ensures begin.src.Finite? ==>
              res == Contents(begin.src.cells[begin.index..begin.index + Span(begin, end, n)])
    ensures begin.src.Endless? ==> res == seq(n, i requires 0 <= i < n => begin.src.gen(begin.index + i))
  {
    var b, e := RangeModify(n, begin, end);
    ghost var out := b.Out();
    res := [];
    while b.NotEquals(e)
      invariant b.Valid() && e.IsEndOf(b) && out == b.Out()
      invariant res == Contents(out)[..b.pos]
      decreases |out| - b.pos
    {
      res := res + [b.Deref()];
      b.Advance();
    }
  }

  /** Over a container the earlier get and the get stage keep the same elements. */
  lemma AgreesWithStage<T>(xs: seq<T>, n: nat)
    ensures var m := if n < |xs| then n else |xs|;
      Contents(AllValued(xs)[..m]) == Values(AllValued(xs)[..GetStage.Cut(AllValued(xs), n)])
  {
    GetStage.TakeElements(xs, n);
  }
}
