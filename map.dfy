/** map.h: the stage that applies a transform on dereference. The same forwarding
    cursor appears three more times in the older headers, differing only in the
    name of the call it makes on each value: Accessor.h (`modifier.modify(v)`),
    MapAccessor.h (`modifier.mapModify(v)`) and ModifierAccessor.h
    (`modifier.modify(v, StreamTag())`, which for Modifiers.h's map is `f(v)`).
    All four are the class below, with that call as `transform`. */
module MapStage {
  import opened Cursors

  /** Every position transformed, keeping whether it holds a value. */
  function MapCells<S, T>(f: S -> T, cells: seq<Cell<S>>): (r: seq<Cell<T>>)
    ensures |r| == |cells|
    ensures forall i :: 0 <= i < |cells| ==> r[i] == Cell(f(cells[i].value), cells[i].valued)
  {
    seq(|cells|, i requires 0 <= i < |cells| => Cell(f(cells[i].value), cells[i].valued))
  }

  /** What the mapped cursors walk: the upstream positions, each transformed. */
  function MapSource<S, T>(f: S -> T, src: Source<S>): Source<T> {
    match src
    case Finite(cells) => Finite(MapCells(f, cells))
    case Endless(gen) => Endless(i => f(gen(i)))
  }

  /** The mapped cursor standing where `c` stands. */
  function MapCursor<S, T>(f: S -> T, c: Cursor<S>): Cursor<T> {
    Cursor(MapSource(f, c.src), c.index)
  }

  /** The mapped cursor agrees with its upstream on range, presence of a value,
      equality and advancing, and dereferences to the transformed value. */
  lemma MapCursorStep<S, T>(f: S -> T, c: Cursor<S>, other: Cursor<S>)
    ensures MapCursor(f, c).InRange() == c.InRange()
    ensures MapCursor(f, c).Equals(MapCursor(f, other)) == c.Equals(other)
    ensures c.InRange() ==> MapCursor(f, c).HasValue() == c.HasValue()
    ensures c.InRange() ==> MapCursor(f, c).Deref() == f(c.Deref())
    ensures c.InRange() ==> MapCursor(f, c).Next() == MapCursor(f, c.Next())
  {
  }

  /** A bounded run stays bounded under the transform and keeps its positions. */
  lemma MapBetween<S, T>(f: S -> T, begin: Cursor<S>, end: Cursor<S>)
    requires Bounded(begin, end)
    ensures Bounded(MapCursor(f, begin), MapCursor(f, end))
    ensures Between(MapCursor(f, begin), MapCursor(f, end)) == MapCells(f, Between(begin, end))
  {
  }

  /** The values of the mapped run are the transformed values, in order. */
  lemma {:induction false} MapValues<S, T>(f: S -> T, cells: seq<Cell<S>>)
    ensures Values(MapCells(f, cells)) == SeqMap(f, Values(cells))
    decreases |cells|
  {
    if |cells| > 0 {
      var cells' := cells[..|cells| - 1];
      assert MapCells(f, cells)[..|cells| - 1] == MapCells(f, cells');
      MapValues(f, cells');
    }
  }

  /** map::Accessor: forwards everything to the upstream cursor and applies the
      transform to what it reads. */
  class Accessor<S, T> {
    var up: Cursor<S>
    const transform: S -> T

    /** The abstract cursor this one is. */
    ghost function View(): Cursor<T>
      reads this
    {
      MapCursor(transform, up)
    }

    constructor (up: Cursor<S>, transform: S -> T)
      ensures this.up == up && this.transform == transform
    {
      this.up := up;
      this.transform := transform;
    }

    /** `==` compares only the upstream cursors. */
    function Equals(other: Accessor<S, T>): (r: bool)
      reads this, other
      ensures transform == other.transform ==> (r <==> View().Equals(other.View()))
    {
      up.Equals(other.up)
    }

    /** `!=` compares only the upstream cursors, and negates `==`. */
    function NotEquals(other: Accessor<S, T>): (r: bool)
      reads this, other
      ensures r <==> !Equals(other)
    {
      up.Differs(other.up)
    }

    /** hasValue() is the upstream's, unchanged. */
    function HasValue(): (r: bool)
      reads this
      requires up.InRange()
      ensures r == View().HasValue()
    {
      up.HasValue()
    }

    /** `*` applies the transform to the upstream value, afresh on every call. */
    function Deref(): (r: T)
      reads this
      requires up.InRange()
      ensures r == View().Deref()
    {
      transform(up.Deref())
    }

    /** `++` advances the upstream exactly once. */
    method Advance()
      requires up.InRange()
      modifies this
      ensures up == old(up).Next()
      ensures View() == old(View()).Next()
    {
      up := up.Next();
    }
  }

  /** map::modify: the begin and end cursors, sharing the stage's one transform. */
  method Modify<S, T>(transform: S -> T, begin: Cursor<S>, end: Cursor<S>) returns (b: Accessor<S, T>, e: Accessor<S, T>)
    ensures fresh(b) && fresh(e)
    ensures b.up == begin && e.up == end && b.transform == transform && e.transform == transform
  {
    b := new Accessor(begin, transform);
    e := new Accessor(end, transform);
  }
}
