/** SkipAccessor.h: the earlier skip cursor. Unlike the skip stage it moves: before
    every operation it performs what is left of the skip, stepping past at most
    `n` positions and stopping at `end`. Its upstream has no notion of positions
    without a value, so every position is read. */
module SkipAccessors {
  import opened Cursors
  import SkipStage

  /** What is left of a run after its first `n` elements, clamped at the end. */
  function DropClamped<T>(xs: seq<T>, n: nat): (r: seq<T>)
    ensures |r| == if n < |xs| then |xs| - n else 0
    ensures forall i :: 0 <= i < |r| ==> r[i] == xs[n + i]
  {
    if n < |xs| then xs[n..] else []
  }

  /** Over a container the eager, clamped skip and the lazy skip stage show the
      same values. */
  lemma AgreesWithStage<T>(xs: seq<T>, n: nat)
    ensures Values(SkipStage.SkipCells(AllValued(xs), n)) == DropClamped(xs, n)
  {
    SkipStage.SkipElements(xs, n);
  }

  class SkipAccessor<T> {
    var up: Cursor<T>
    const end: Cursor<T>
    var n: nat
    /** Where the cursor started and the count it was made with. */
    ghost const start: nat
    ghost const count: nat

    /** The elements from `start` up to `end` with the first `count` dropped. */
    ghost function Out(): seq<T>
      requires end.src.Finite? && start <= end.index <= |end.src.cells|
    {
      DropClamped(Contents(end.src.cells[start..end.index]), count)
    }

    /** `count - n` skip steps have been taken, and no step of the walk proper
        comes before the skip is complete. */
    ghost predicate Valid()
      reads this
    {
      Bounded(up, end) && n <= count && start + (count - n) <= up.index
      && (n > 0 ==> up.index == start + (count - n))
    }

    /** The skip is complete: the counter ran out or the upstream ran out. */
    ghost predicate Skipped()
      reads this
    {
      n == 0 || up.index == end.index
    }

    /** How many output elements lie before the cursor. */
    ghost function Pos(): (r: nat)
      reads this
      requires Valid()
      ensures start <= end.index <= |end.src.cells| && r <= |Out()|
    {
      up.index - start - (count - n)
    }

    constructor (up: Cursor<T>, end: Cursor<T>, n: nat)
      requires Bounded(up, end)
      ensures this.up == up && this.end == end && this.n == n
      ensures start == up.index && count == n && Valid() && Pos() == 0
    {
      this.up := up;
      this.end := end;
      this.n := n;
      start := up.index;
      count := n;
    }

    /** skip(): step past positions while the counter is positive and `end` is not
        reached, counting down; the counter never goes below 0. */
    method Skip()
      requires Valid()
      modifies this
      ensures Valid() && Skipped() && Pos() == old(Pos())
      ensures old(Skipped()) ==> up == old(up) && n == old(n)
      ensures Skipped() && Pos() < |Out()| ==> up.Deref() == Out()[Pos()]
    {
      while n > 0 && up.Differs(end)
        invariant Valid() && Pos() == old(Pos())
        decreases n
      {
        up := up.Next();
        n := n - 1;
      }
      if Pos() < |Out()| {
        assert Contents(end.src.cells[start..end.index])[count + Pos()] == up.Deref();
      }
    }

    /** `==`: complete the skip, then compare the upstream cursors. Against the
        end cursor it says whether the output is exhausted. */
    method Equals(other: SkipAccessor<T>) returns (r: bool)
      requires Valid()
      modifies this
      ensures Valid() && Skipped() && Pos() == old(Pos())
      ensures r <==> up.Equals(other.up)
      ensures other.up.index == end.index ==> (r <==> Pos() == |Out()|)
    {
      Skip();
      r := up.Equals(other.up);
    }

    /** `!=`: complete the skip, then compare the upstream cursors. */
    method NotEquals(other: SkipAccessor<T>) returns (r: bool)
      requires Valid()
      modifies this
      ensures Valid() && Skipped() && Pos() == old(Pos())
      ensures r <==> up.Differs(other.up)
      ensures other.up.index == end.index ==> (r <==> Pos() < |Out()|)
    {
      Skip();
      r := up.Differs(other.up);
    }

    /** `*`: complete the skip, then read the upstream element without moving. */
    method Deref() returns (r: T)
      requires Valid() && Pos() < |Out()|
      modifies this
      ensures Valid() && Skipped() && Pos() == old(Pos())
      ensures r == Out()[Pos()]
    {
      Skip();
      r := up.Deref();
    }

    /** `++`: complete the skip, then advance the upstream exactly once. */
    method Advance()
      requires Valid() && Pos() < |Out()|
      modifies this
      ensures Valid() && Skipped() && Pos() == old(Pos()) + 1
    {
      Skip();
      up := up.Next();
    }
  }

  /** One step of a traversal: the element under the cursor, the cursor moved
      past it, and whether output is left. */
  method Step<T>(b: SkipAccessor<T>, e: SkipAccessor<T>) returns (v: T, more: bool)
    requires b != e && b.Valid() && b.Pos() < |b.Out()| && e.up.index == b.end.index
    modifies b
    ensures b.Valid() && b.Pos() == old(b.Pos()) + 1
    ensures v == b.Out()[old(b.Pos())]
    ensures more <==> b.Pos() < |b.Out()|
  {
    v := b.Deref();
    b.Advance();
    more := b.NotEquals(e);
  }

  /** A traversal `for (; b != e; ++b) ... *b ...`: the elements after the first
      `count`, from the cursor's position on. */
  method Traverse<T>(b: SkipAccessor<T>, e: SkipAccessor<T>) returns (res: seq<T>)
    requires b != e && b.Valid() && e.up.index == b.end.index
    modifies b
    ensures res == old(b.Out()[b.Pos()..])
  {
    ghost var out := b.Out();
    ghost var from := b.Pos();
    res := [];
    var more := b.NotEquals(e);
    while more
      invariant b.Valid() && from <= b.Pos() <= |out|
      invariant more <==> b.Pos() < |out|
      invariant res == out[from..b.Pos()]
      decreases |out| - b.Pos()
    {
      var v;
      v, more := Step(b, e);
      assert out[from..b.Pos()] == res + [v];
      res := res + [v];
    }
    assert out[from..|out|] == out[from..];
  }
}
