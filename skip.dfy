/** skip.h: the stage that hides the first `n` positions. It moves no faster than
    its upstream: every position is still visited, and a counter decides whether
    `hasValue()` may report the upstream's answer. */
module SkipStage {
  import opened Cursors

  /** The largest value of std::size_t, plus one. */
  const SizeMod: nat := 0x1_0000_0000_0000_0000

  /** The positions of a run as the stage shows them: the same values, with the
      first `n` positions holding none. */
  function SkipCells<T>(cells: seq<Cell<T>>, n: nat): (r: seq<Cell<T>>)
    ensures |r| == |cells|
    ensures forall i :: 0 <= i < |cells| ==> r[i].value == cells[i].value
    ensures forall i :: 0 <= i < |cells| ==> (r[i].valued <==> n <= i && cells[i].valued)
  {
    seq(|cells|, i requires 0 <= i < |cells| => Cell(cells[i].value, n <= i && cells[i].valued))
  }

  /** The counter after `k` advances from `n`: it stops at 0. */
  function Remaining(n: nat, k: nat): (r: nat)
    ensures r == 0 <==> n <= k
    ensures r <= n && (k < n ==> r + k == n)
  {
    if k < n then n - k else 0
  }

  /** The same run as skip.h:53 shows it, with `--n` on a std::size_t that wraps
      below 0: after `i` advances the counter is `(n - i) mod 2^64`, which is 0 at
      position `n` and then only again at `n + 2^64`. */
  function SkipCellsAsWritten<T>(cells: seq<Cell<T>>, n: nat): (r: seq<Cell<T>>)
    requires n < SizeMod
    ensures |r| == |cells|
    ensures forall i :: 0 <= i < |cells| && i < SizeMod ==> (r[i].valued <==> i == n && cells[i].valued)
  {
    seq(|cells|, i requires 0 <= i < |cells| => Cell(cells[i].value, (n - i) % SizeMod == 0 && cells[i].valued))
  }

  /** A run in which no position holds a value has no values. */
  lemma {:induction false} ValuesOfNone<T>(cells: seq<Cell<T>>)
    requires forall i :: 0 <= i < |cells| ==> !cells[i].valued
    ensures Values(cells) == []
    decreases |cells|
  {
    if |cells| > 0 {
      ValuesOfNone(cells[..|cells| - 1]);
    }
  }

  /** The values the stage lets through are the run's values from position
      min(n, length) on: the first n positions are dropped, clamped at the end. */
  lemma SkipValues<T>(cells: seq<Cell<T>>, n: nat)
    ensures var m := if n < |cells| then n else |cells|;
      Values(SkipCells(cells, n)) == Values(cells[m..])
  {
    var m := if n < |cells| then n else |cells|;
    var r := SkipCells(cells, n);
    var front, back := r[..m], r[m..];
    assert back == cells[m..] by {
      assert forall i :: m <= i < |cells| ==> r[i] == cells[i];
    }
    ValuesOfNone(front);
    calc {
      Values(r);
      { assert r == front + back; }
      Values(front + back);
      { ValuesAppend(front, back); }
      Values(front) + Values(back);
      Values(cells[m..]);
    }
  }

  /** Over a container: skip(n) gives the elements after the first n, and nothing
      when there are at most n. */
  lemma SkipElements<T>(xs: seq<T>, n: nat)
    ensures n < |xs| ==> Values(SkipCells(AllValued(xs), n)) == xs[n..]
    ensures n >= |xs| ==> Values(SkipCells(AllValued(xs), n)) == []
  {
    var m := if n < |xs| then n else |xs|;
    SkipValues(AllValued(xs), n);
    assert AllValued(xs)[m..] == AllValued(xs[m..]);
    ValuesOfAllValued(xs[m..]);
  }

  /** skip(0) over (10, 217): as written the stage drops 217, because the counter
      has wrapped to 2^64 - 1 after the first advance. */
  lemma SkipZeroAsWritten()
    ensures Values(SkipCellsAsWritten(AllValued([10, 217]), 0)) == [10]
    ensures Values(SkipCells(AllValued([10, 217]), 0)) == [10, 217]
  {
    var r := SkipCellsAsWritten(AllValued([10, 217]), 0);
    assert r[..1][..0] == [];
    assert r[..1] == [Cell(10, true)];
    assert r[..2] == r;
    assert Values(r[..1]) == [10];
    SkipElements([10, 217], 0);
  }

  /** skip(2) over (1, 10, 22, 5, 278): as written only 22 is let through. */
  lemma SkipTwoAsWritten()
    ensures Values(SkipCellsAsWritten(AllValued([1, 10, 22, 5, 278]), 2)) == [22]
    ensures Values(SkipCells(AllValued([1, 10, 22, 5, 278]), 2)) == [22, 5, 278]
  {
    var r := SkipCellsAsWritten(AllValued([1, 10, 22, 5, 278]), 2);
    assert r[..2] == r[..3][..2] && r[..3] == r[..4][..3] && r[..4] == r[..5][..4] && r[..5] == r;
    ValuesOfNone(r[..2]);
    assert Values(r[..3]) == [22];
    SkipElements([1, 10, 22, 5, 278], 2);
  }

  class Accessor<T> {
    var up: Cursor<T>
    const end: Cursor<T>
    var n: nat
    /** Where the cursor started and the count it was made with. */
    ghost const start: nat
    ghost const count: nat

    /** The stage's output over a finite upstream: the positions from `start` up
        to `end`, the first `count` of them hiding their value. */
    ghost function Out(): seq<Cell<T>>
      requires end.src.Finite? && start <= end.index <= |end.src.cells|
    {
      SkipCells(end.src.cells[start..end.index], count)
    }

    /** The counter is what is left of `count` after the advances so far. */
    ghost predicate Valid()
      reads this
    {
      up.src == end.src && up.Valid() && end.Valid() && start <= up.index
      && (up.src.Finite? ==> up.index <= end.index)
      && n == Remaining(count, up.index - start)
    }

    ghost function Pos(): (r: nat)
      reads this
      requires Valid()
      ensures up.src.Finite? ==> start <= end.index <= |end.src.cells| && r <= |Out()|
    {
      up.index - start
    }

    constructor (up: Cursor<T>, end: Cursor<T>, n: nat)
      requires up.src == end.src && up.Valid() && end.Valid()
      requires up.src.Finite? ==> up.index <= end.index
      ensures this.up == up && this.end == end && this.n == n
      ensures start == up.index && count == n && Valid() && Pos() == 0
    {
      this.up := up;
      this.end := end;
      this.n := n;
      start := up.index;
      count := n;
    }

    /** `==` compares only the upstream cursors; the counter is ignored. Against
        the stage's end cursor it says whether the positions are exhausted. */
    function Equals(other: Accessor<T>): (r: bool)
      reads this, other
      requires Valid()
      ensures r <==> up.Equals(other.up)
      ensures up.src.Finite? && other.up.index == end.index ==> (r <==> Pos() == |Out()|)
    {
      up.Equals(other.up)
    }

    /** `!=` compares only the upstream cursors and negates `==`; over a generator
        it is always true. */
    function NotEquals(other: Accessor<T>): (r: bool)
      reads this, other
      requires Valid()
      ensures r <==> !Equals(other)
      ensures up.src.Endless? ==> r
      ensures up.src.Finite? && other.up.index == end.index ==> (r <==> Pos() < |Out()|)
    {
      up.Differs(other.up)
    }

    /** hasValue(): the counter has reached 0 and the upstream position holds a
        value; that is, the first `count` positions never hold one. */
    function HasValue(): (r: bool)
      reads this
      requires Valid() && up.Differs(end)
      ensures r <==> count <= Pos() && up.HasValue()
      ensures up.src.Finite? ==> r == Out()[Pos()].valued
    {
      n == 0 && up.HasValue()
    }

    /** `*` forwards the upstream value whatever the counter says. */
    function Deref(): (r: T)
      reads this
      requires Valid() && up.Differs(end)
      ensures r == up.Deref()
      ensures up.src.Finite? ==> r == Out()[Pos()].value
    {
      up.Deref()
    }

    /** `++` advances the upstream once and counts down, stopping at 0. */
    method Advance()
      requires Valid() && up.Differs(end)
      modifies this
      ensures up == old(up).Next() && Valid() && Pos() == old(Pos()) + 1
      ensures n == if old(n) > 0 then old(n) - 1 else 0
    {
      up := up.Next();
      if n > 0 {
        n := n - 1;
      }
    }
  }

  /** skip::modify: the begin cursor over [begin, end) and the end cursor (end, end),
      both counting from `n`. */
  method Modify<T>(n: nat, begin: Cursor<T>, end: Cursor<T>) returns (b: Accessor<T>, e: Accessor<T>)
    requires begin.src == end.src && begin.Valid() && end.Valid()
    requires begin.src.Finite? ==> begin.index <= end.index
    ensures fresh(b) && fresh(e)
    ensures b.up == begin && b.end == end && e.up == end && e.end == end
    ensures b.Valid() && b.Pos() == 0 && e.Valid()
    ensures begin.src.Finite? ==> b.Out() == SkipCells(Between(begin, end), n)
  {
    b := new Accessor(begin, end, n);
    e := new Accessor(end, end, n);
  }

  /** A traversal of a skipped finite stream collecting the values at the
      positions that hold one (what to_vector does): the values of the stage's
      output from the cursor's position on. */
  method Traverse<T>(b: Accessor<T>, e: Accessor<T>) returns (res: seq<T>)
    requires b != e && b.Valid() && b.up.src.Finite? && e.up.index == b.end.index
    modifies b
    ensures res == Values(old(b.Out()[b.Pos()..]))
  {
    ghost var out := b.Out();
    ghost var from := b.Pos();
    res := [];
    while b.NotEquals(e)
      invariant b.Valid() && b.up.src.Finite? && out == b.Out() && from <= b.Pos() <= |out|
      invariant res == Values(out[from..b.Pos()])
      decreases |out| - b.Pos()
    {
      var piece := Step(b, out, from);
      res := res + piece;
    }
    assert out[from..|out|] == out[from..];
  }

  /** One step of a traversal: the value under the cursor when its position
      holds one, and the cursor moved past it. */
  method Step<T>(b: Accessor<T>, ghost out: seq<Cell<T>>, ghost from: nat) returns (piece: seq<T>)
    requires b.Valid() && b.up.src.Finite? && out == b.Out() && from <= b.Pos() < |out|
    modifies b
    ensures b.Valid() && b.up.src.Finite? && out == b.Out() && b.Pos() == old(b.Pos()) + 1
    ensures piece == ValueOf(out[old(b.Pos())])
    ensures Values(out[from..b.Pos()]) == Values(out[from..old(b.Pos())]) + piece
  {
    ghost var at := b.Pos();
    ValuesStep(out, from, at);
    assert b.up.Differs(b.end);
    piece := if b.HasValue() then [b.Deref()] else [];
    assert piece == ValueOf(out[at]);
    b.Advance();
  }
}
