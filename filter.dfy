/** filter.h: the stage that passes on only the values its predicate accepts. The
    cursor keeps a one-slot lookahead (`hasValue`, `value`) and resolves it lazily
    in `skip()` before every operation. FilterAccessor.h is the same cursor with
    the predicate held by value instead of by reference; the class below models
    both. The predicate is applied to what every upstream position dereferences
    to: the cursor never asks the upstream for `hasValue()`. */
module FilterStage {
  import opened Cursors

  /** The values at the positions whose value passes `p`, in order. */
  function Passing<T>(p: T -> bool, cells: seq<Cell<T>>): seq<T> {
    if |cells| == 0 then []
    else Passing(p, cells[..|cells| - 1]) + Accept(p, cells[|cells| - 1].value)
  }

  function Accept<T>(p: T -> bool, v: T): seq<T> {
    if p(v) then [v] else []
  }

  /** One more position at the back of a range adds its value when it passes. */
  lemma PassingStep<T>(p: T -> bool, cells: seq<Cell<T>>, i: nat, j: nat)
    requires i <= j < |cells|
    ensures p(cells[j].value) ==> Passing(p, cells[i..j + 1]) == Passing(p, cells[i..j]) + [cells[j].value]
    ensures !p(cells[j].value) ==> Passing(p, cells[i..j + 1]) == Passing(p, cells[i..j])
  {
    assert cells[i..j + 1][..j - i] == cells[i..j];
    assert Passing(p, cells[i..j]) + [] == Passing(p, cells[i..j]);
  }

  /** Filtering two runs in turn is filtering their concatenation. */
  lemma {:induction false} PassingAppend<T>(p: T -> bool, a: seq<Cell<T>>, b: seq<Cell<T>>)
    ensures Passing(p, a + b) == Passing(p, a) + Passing(p, b)
    decreases |b|
  {
    if |b| == 0 {
      assert a + b == a;
    } else {
      var b' := b[..|b| - 1];
      assert (a + b)[..|a + b| - 1] == a + b';
      PassingAppend(p, a, b');
    }
  }

  lemma PassingSplit<T>(p: T -> bool, cells: seq<Cell<T>>, i: nat, j: nat, k: nat)
    requires i <= j <= k <= |cells|
    ensures Passing(p, cells[i..k]) == Passing(p, cells[i..j]) + Passing(p, cells[j..k])
  {
    assert cells[i..k] == cells[i..j] + cells[j..k];
    PassingAppend(p, cells[i..j], cells[j..k]);
  }

  /** Every value let through passes the predicate and comes from the run; a
      predicate that accepts everything keeps every value, one that accepts
      nothing keeps none. */
  lemma {:induction false} PassingSound<T>(p: T -> bool, cells: seq<Cell<T>>)
    ensures forall v :: v in Passing(p, cells) ==> p(v) && v in Contents(cells)
    ensures |Passing(p, cells)| <= |cells|
    ensures (forall i :: 0 <= i < |cells| ==> p(cells[i].value)) ==> Passing(p, cells) == Contents(cells)
    ensures (forall i :: 0 <= i < |cells| ==> !p(cells[i].value)) ==> Passing(p, cells) == []
    decreases |cells|
  {
    if |cells| > 0 {
      var cells' := cells[..|cells| - 1];
      PassingSound(p, cells');
      assert Contents(cells) == Contents(cells') + [cells[|cells| - 1].value];
    }
  }

  /** The first value at or after position `i` that passes, when position `i` passes. */
  lemma PassingHead<T>(p: T -> bool, cells: seq<Cell<T>>, i: nat, k: nat)
    requires i < k <= |cells| && p(cells[i].value)
    ensures Passing(p, cells[i..k]) == [cells[i].value] + Passing(p, cells[i + 1..k])
  {
    var c := [cells[i]];
    assert cells[i..k] == c + cells[i + 1..k];
    PassingAppend(p, c, cells[i + 1..k]);
    assert c[..0] == [];
    assert Passing(p, c) == Passing(p, []) + Accept(p, cells[i].value);
  }

  class Accessor<T(0)> {
    var up: Cursor<T>
    const end: Cursor<T>
    const pred: T -> bool
    var hasValue: bool
    var value: T
    /** Where the cursor started; the stage's output is decided from there on. */
    ghost const start: nat

    /** The output of the stage this cursor walks: the values from `start` up to
        `end` that pass the predicate. Only constant fields are involved. */
    ghost function Out(): seq<T>
      requires end.src.Finite? && start <= end.index <= |end.src.cells|
    {
      Passing(pred, end.src.cells[start..end.index])
    }

    ghost predicate Valid()
      reads this
    {
      Bounded(up, end) && start <= up.index
      && (hasValue ==> up.index < end.index && value == up.Deref() && pred(value))
    }

    /** How many output values lie before the upstream position. */
    ghost function Pos(): (r: nat)
      reads this
      requires Valid()
      ensures start <= end.index && r <= |Out()|
    {
      PassingSplit(pred, end.src.cells, start, up.index, end.index);
      |Passing(pred, end.src.cells[start..up.index])|
    }

    /** The lookahead is resolved: a value is cached exactly when the stage has
        output left, and it is the next output value; otherwise the upstream
        cursor stands on `end`. */
    ghost predicate Resolved()
      reads this
    {
      Valid()
      && (hasValue <==> Pos() < |Out()|)
      && (hasValue ==> value == Out()[Pos()])
      && (!hasValue ==> up.index == end.index)
    }

    constructor (up: Cursor<T>, end: Cursor<T>, pred: T -> bool)
      requires Bounded(up, end)
      ensures this.up == up && this.end == end && this.pred == pred
      ensures start == up.index && !hasValue && Valid() && Pos() == 0
    {
      this.up := up;
      this.end := end;
      this.pred := pred;
      hasValue := false;
      start := up.index;
    }

    /** skip(): nothing to do when a value is cached or the cursor is on `end`;
        otherwise move upstream to the first position whose value passes, or to
        `end`. No output value is passed over. */
    method Skip()
      requires Valid()
      modifies this
      ensures Resolved() && Pos() == old(Pos())
      ensures old(hasValue) || old(up.index) == end.index ==>
                up == old(up) && hasValue == old(hasValue) && value == old(value)
    {
      if hasValue || up.Equals(end) {
        if !hasValue {
          assert Pos() == |Out()|;
        } else {
          PassingSplit(pred, end.src.cells, start, up.index, end.index);
          PassingHead(pred, end.src.cells, up.index, end.index);
        }
        return;
      }
      ghost var cells := end.src.cells;
      ghost var from := up.index;
      up, value := SeekPassing(pred, up, end, value);
      hasValue := up.Differs(end);
      PassingSplit(pred, cells, start, from, up.index);
      PassingSplit(pred, cells, start, up.index, end.index);
      if hasValue {
        PassingHead(pred, cells, up.index, end.index);
      }
    }

    /** `==`: resolve the lookahead, then compare the upstream cursors. Against the
        stage's end cursor this says whether the output is exhausted. */
    method Equals(other: Accessor<T>) returns (r: bool)
      requires Valid()
      modifies this
      ensures Resolved() && Pos() == old(Pos())
      ensures r <==> up.Equals(other.up)
      ensures other.up.index == end.index ==> (r <==> Pos() == |Out()|)
    {
      Skip();
      r := up.Equals(other.up);
    }

    /** `!=`: resolve the lookahead, then compare the upstream cursors. */
    method NotEquals(other: Accessor<T>) returns (r: bool)
      requires Valid()
      modifies this
      ensures Resolved() && Pos() == old(Pos())
      ensures r <==> up.Differs(other.up)
      ensures other.up.index == end.index ==> (r <==> Pos() < |Out()|)
    {
      Skip();
      r := up.Differs(other.up);
    }

    /** `*`: resolve the lookahead and return the cached value, without moving.
        With no output left the source reads the upstream `end` position itself,
        which is only defined when that position exists. */
    method Deref() returns (r: Result<T>)
      requires Valid()
      modifies this
      ensures Resolved() && Pos() == old(Pos())
      ensures Pos() < |Out()| ==> r == Ok(Out()[Pos()])
      ensures Pos() == |Out()| && end.InRange() ==> r == Ok(end.Deref())
      ensures Pos() == |Out()| && !end.InRange() ==> r == Err(OutOfRange("dereferencing the end of a filtered stream"))
    {
      Skip();
      if hasValue {
        return Ok(value);
      }
      if up.InRange() {
        return Ok(up.Deref());
      }
      return Err(OutOfRange("dereferencing the end of a filtered stream"));
    }

    /** `++`: resolve the lookahead, step upstream past the accepted position and
        drop the cached value. The upstream ends up one past the position that
        holds output value number `old(Pos())`; with a value already cached, that
        is one step from where it stood. */
    method Advance()
      requires Valid() && Pos() < |Out()|
      modifies this
      ensures Valid() && !hasValue && Pos() == old(Pos()) + 1
      ensures start < up.index && pred(end.src.cells[up.index - 1].value)
      ensures |Passing(pred, end.src.cells[start..up.index - 1])| == old(Pos())
      ensures old(hasValue) ==> up == old(up).Next()
    {
      Skip();
      PassingStep(pred, end.src.cells, start, up.index);
      up := up.Next();
      hasValue := false;
    }
  }

  /** The loop of skip(): from `from`, read each position's value and stop at the
      first that passes, or at `end`; no value passing lies before the stop. The
      value returned is the last one read (`last` when none is). */
  method SeekPassing<T(0)>(pred: T -> bool, from: Cursor<T>, end: Cursor<T>, last: T) returns (c: Cursor<T>, v: T)
    requires Bounded(from, end)
    ensures Bounded(c, end) && from.index <= c.index
    ensures Passing(pred, end.src.cells[from.index..c.index]) == []
    ensures c.Differs(end) ==> v == c.Deref() && pred(v)
  {
    ghost var cells := end.src.cells;
    c, v := from, last;
    assert cells[from.index..c.index] == [];
    while c.Differs(end)
      invariant Bounded(c, end) && from.index <= c.index
      invariant Passing(pred, cells[from.index..c.index]) == []
      decreases end.index - c.index
    {
      v := c.Deref();
      if pred(v) {
        break;
      }
      PassingStep(pred, cells, from.index, c.index);
      c := c.Next();
    }
  }

  /** filter::modify: the begin cursor over [begin, end) and the end cursor built
      as (end, end), whose lookahead never moves. */
  method Modify<T(0)>(pred: T -> bool, begin: Cursor<T>, end: Cursor<T>) returns (b: Accessor<T>, e: Accessor<T>)
    requires Bounded(begin, end)
    ensures fresh(b) && fresh(e)
    ensures b.up == begin && b.end == end && e.up == end && e.end == end
    ensures b.pred == pred && e.pred == pred
    ensures b.Valid() && b.Pos() == 0 && b.Out() == Passing(pred, Between(begin, end))
    ensures e.Resolved() && e.Out() == []
  {
    b := new Accessor(begin, end, pred);
    e := new Accessor(end, end, pred);
  }

  /** One step of a traversal: read the output value under the cursor, move past
      it and say whether output is left. */
  method Step<T(0)>(b: Accessor<T>, e: Accessor<T>, ghost out: seq<T>, ghost from: nat) returns (v: T, more: bool)
    requires b != e && b.Valid() && e.up.index == b.end.index && out == b.Out()
    requires from <= b.Pos() < |out|
    modifies b
    ensures b.Valid() && b.Pos() == old(b.Pos()) + 1 && out == b.Out()
    ensures out[from..b.Pos()] == out[from..old(b.Pos())] + [v]
    ensures more <==> b.Pos() < |out|
  {
    SliceStep(out, from, b.Pos());
    var r := b.Deref();
    v := r.value;
    b.Advance();
    more := b.NotEquals(e);
  }

  /** One more element at the back of a slice. */
  lemma SliceStep<X>(xs: seq<X>, i: nat, j: nat)
    requires i <= j < |xs|
    ensures xs[i..j + 1] == xs[i..j] + [xs[j]]
  {
  }

  /** A traversal `for (; b != e; ++b) ... *b ...` of a filtered stream: the output
      values from the cursor's position on. */
  method Traverse<T(0)>(b: Accessor<T>, e: Accessor<T>) returns (res: seq<T>)
    requires b != e && b.Valid() && e.up.index == b.end.index
    modifies b
    ensures res == old(b.Out()[b.Pos()..])
  {
    ghost var out := b.Out();
    ghost var from := b.Pos();
    res := [];
    var more := b.NotEquals(e);
    while more
      invariant b.Valid() && from <= b.Pos() && out == b.Out()
      invariant more <==> b.Pos() < |out|
      invariant res == out[from..b.Pos()]
      decreases |out| - b.Pos()
    {
      var v;
      v, more := Step(b, e, out, from);
      res := res + [v];
    }
    assert out[from..|out|] == out[from..];
  }
}
