/** group.h: the stage that cuts its upstream into chunks of `n` positions, the
    last one shorter. A cursor stands on the first position of a chunk; `*` builds
    the chunk from a copy of the cursor, `++` moves past it. GroupAccessor.h is
    the same cursor without the check that `n` is positive. */
module GroupStage {
  import opened Cursors
  import SkipStage

  /** A run cut into consecutive chunks of `n`, the last one holding the rest. */
  function Chunks<X>(xs: seq<X>, n: nat): seq<seq<X>>
    requires n > 0
    decreases |xs|
  {
    if |xs| == 0 then []
    else
      var m := if n < |xs| then n else |xs|;
      [xs[..m]] + Chunks(xs[m..], n)
  }

  /** The chunks one after another. */
  function Flatten<X>(xss: seq<seq<X>>): seq<X> {
    if |xss| == 0 then [] else xss[0] + Flatten(xss[1..])
  }

  /** The chunks put back together give the run: nothing lost, nothing reordered. */
  lemma {:induction false} ChunksFlatten<X>(xs: seq<X>, n: nat)
    requires n > 0
    ensures Flatten(Chunks(xs, n)) == xs
    decreases |xs|
  {
    if |xs| > 0 {
      var m := if n < |xs| then n else |xs|;
      var c := Chunks(xs, n);
      ChunksHead(xs, n);
      ChunksFlatten(xs[m..], n);
      assert Flatten(c) == c[0] + Flatten(c[1..]);
      assert xs[..m] + xs[m..] == xs;
    }
  }

  /** Every chunk is non-empty and holds `n` positions, except the last, which holds
      at most `n`; there are ceil(L / n) chunks, so none for an empty run. */
  lemma {:induction false} ChunksSizes<X>(xs: seq<X>, n: nat)
    requires n > 0
    ensures var c := Chunks(xs, n);
      (forall k :: 0 <= k < |c| ==> 0 < |c[k]| <= n)
      && (forall k :: 0 <= k < |c| - 1 ==> |c[k]| == n)
      && (|c| == 0 <==> |xs| == 0)
      && (|xs| > 0 ==> (|c| - 1) * n < |xs| <= |c| * n)
    decreases |xs|
  {
    if |xs| > 0 {
      var m := if n < |xs| then n else |xs|;
      var c' := Chunks(xs[m..], n);
      ChunksSizes(xs[m..], n);
      var c := Chunks(xs, n);
      assert c == [xs[..m]] + c';
      assert m < n ==> c' == [];
      ChunksCount(xs, n);
      forall k | 0 <= k < |c|
        ensures 0 < |c[k]| <= n && (k < |c| - 1 ==> |c[k]| == n)
      {
        if k > 0 {
          assert c[k] == c'[k - 1];
        }
      }
    }
  }

  /** There are ceil(L / n) chunks: the last chunk starts fewer than L positions
      in, and the chunks cover at least L positions. */
  lemma {:induction false} ChunksCount<X>(xs: seq<X>, n: nat)
    requires n > 0 && |xs| > 0
    ensures (|Chunks(xs, n)| - 1) * n < |xs| <= |Chunks(xs, n)| * n
    decreases |xs|
  {
    var m := if n < |xs| then n else |xs|;
    var k' := |Chunks(xs[m..], n)|;
    assert |Chunks(xs, n)| == 1 + k';
    if m == n && |xs| > n {
      ChunksCount(xs[m..], n);
      assert (k' - 1) * n < |xs| - n <= k' * n;
      assert (1 + k' - 1) * n == (k' - 1) * n + n;
      assert (1 + k') * n == k' * n + n;
    } else {
      assert xs[m..] == [];
    }
  }

  /** A run of k·n positions is exactly k chunks of n. */
  lemma {:induction false} ChunksFull<X>(xs: seq<X>, n: nat, k: nat)
    requires n > 0 && |xs| == k * n
    ensures |Chunks(xs, n)| == k
    ensures forall i :: 0 <= i < k ==> |Chunks(xs, n)[i]| == n
    decreases k
  {
    if k > 0 {
      OneMore(k - 1, n);
      assert |xs[n..]| == (k - 1) * n;
      ChunksFull(xs[n..], n, k - 1);
      ChunksHead(xs, n);
      var c, c' := Chunks(xs, n), Chunks(xs[n..], n);
      assert c == [xs[..n]] + c';
      forall i | 0 <= i < k
        ensures |c[i]| == n
      {
        if i > 0 {
          assert c[i] == c'[i - 1];
        }
      }
    }
  }

  lemma OneMore(k: nat, n: nat)
    ensures (k + 1) * n == k * n + n
  {
  }

  /** A run no longer than `n` is a single chunk. */
  lemma OneChunk<X>(xs: seq<X>, n: nat)
    requires 0 < |xs| <= n
    ensures Chunks(xs, n) == [xs]
  {
    assert xs[..|xs|] == xs;
    assert Chunks(xs[|xs|..], n) == [];
  }

  /** The first chunk of a non-empty run is its first min(n, L) positions, and the
      rest are the chunks of what follows. */
  lemma ChunksHead<X>(xs: seq<X>, n: nat)
    requires n > 0 && |xs| > 0
    ensures var m := if n < |xs| then n else |xs|;
      Chunks(xs, n)[0] == xs[..m] && Chunks(xs, n)[1..] == Chunks(xs[m..], n)
  {
  }

  /** The values of a chunk: only the positions that hold one. */
  function ChunkValues<T>(chunk: seq<Cell<T>>): seq<T> {
    Values(chunk)
  }

  /** Over a container, the chunks of values are the chunks of the elements. */
  lemma {:induction false} ChunksOfElements<T>(xs: seq<T>, n: nat)
    requires n > 0
    ensures SeqMap(ChunkValues, Chunks(AllValued(xs), n)) == Chunks(xs, n)
    decreases |xs|
  {
    if |xs| > 0 {
      var m := if n < |xs| then n else |xs|;
      var cs := AllValued(xs);
      var c := Chunks(cs, n);
      ChunksOfElements(xs[m..], n);
      calc {
        SeqMap(ChunkValues, c);
        { assert c == [cs[..m]] + Chunks(cs[m..], n); }
        [ChunkValues(cs[..m])] + SeqMap(ChunkValues, Chunks(cs[m..], n));
        { assert cs[..m] == AllValued(xs[..m]); ValuesOfAllValued(xs[..m]);
          assert cs[m..] == AllValued(xs[m..]); }
        [xs[..m]] + Chunks(xs[m..], n);
      }
    }
  }

  /** group(2) over (1, 2, 5, 9, 100, 19, 17). */
  lemma GroupTwo()
    ensures Chunks([1, 2, 5, 9, 100, 19, 17], 2) == [[1, 2], [5, 9], [100, 19], [17]]
  {
    var xs := [1, 2, 5, 9, 100, 19, 17];
    var a := xs[2..];
    var b := a[2..];
    var c := b[2..];
    assert a == [5, 9, 100, 19, 17] && b == [100, 19, 17] && c == [17];
    OneChunk(c, 2);
    ChunksHead(b, 2);
    ChunksHead(a, 2);
    ChunksHead(xs, 2);
    assert b[..2] == [100, 19] && a[..2] == [5, 9] && xs[..2] == [1, 2];
  }

  /** group(100) over five elements is one chunk of all five. */
  lemma GroupAll()
    ensures Chunks([1, 2, 3, 100, 34], 100) == [[1, 2, 3, 100, 34]]
  {
    OneChunk([1, 2, 3, 100, 34], 100);
  }

  /** skip(1) then group(10) over (1): the one chunk covers a position without a
      value. As written (every position pushed) the chunk is (1); keeping only the
      positions that hold a value it is empty. */
  lemma GroupAfterSkipAsWritten()
    ensures var out := Chunks(SkipStage.SkipCells(AllValued([1]), 1), 10);
      out == [[Cell(1, false)]] && Contents(out[0]) == [1] && ChunkValues(out[0]) == []
  {
    var cs := SkipStage.SkipCells(AllValued([1]), 1);
    assert cs == [Cell(1, false)];
    OneChunk(cs, 10);
    assert cs[..0] == [];
  }

  class Accessor<T> {
    var up: Cursor<T>
    const end: Cursor<T>
    const n: nat
    /** Where the cursor started, and the chunks it has moved past. */
    ghost const start: nat
    ghost var done: seq<seq<Cell<T>>>

    /** The chunks of positions from `start` up to `end`; only constant fields. */
    ghost function Out(): seq<seq<Cell<T>>>
      requires end.src.Finite? && start <= end.index <= |end.src.cells| && n > 0
    {
      Chunks(end.src.cells[start..end.index], n)
    }

    /** The cursor stands where a chunk begins, or on `end`: the chunks behind it
        and the chunks ahead of it make up the output. */
    ghost predicate Valid()
      reads this
    {
      Bounded(up, end) && n > 0 && start <= up.index
      && Out() == done + Chunks(end.src.cells[up.index..end.index], n)
    }

    ghost function Pos(): (r: nat)
      reads this
      requires Valid()
      ensures r <= |Out()|
      ensures r < |Out()| <==> up.index < end.index
    {
      |done|
    }

    constructor (up: Cursor<T>, end: Cursor<T>, n: nat)
      requires Bounded(up, end) && n > 0
      ensures this.up == up && this.end == end && this.n == n
      ensures start == up.index && Valid() && Pos() == 0
    {
      this.up := up;
      this.end := end;
      this.n := n;
      start := up.index;
      done := [];
    }

    /** `==` compares only the upstream cursors; against the stage's end cursor it
        says whether the chunks are exhausted. */
    function Equals(other: Accessor<T>): (r: bool)
      reads this, other
      requires Valid()
      ensures r <==> up.Equals(other.up)
      ensures other.up.index == end.index ==> (r <==> Pos() == |Out()|)
    {
      up.Equals(other.up)
    }

    /** `!=` compares only the upstream cursors and negates `==`. */
    function NotEquals(other: Accessor<T>): (r: bool)
      reads this, other
      requires Valid()
      ensures r <==> !Equals(other)
      ensures other.up.index == end.index ==> (r <==> Pos() < |Out()|)
    {
      up.Differs(other.up)
    }

    /** The chunk the cursor stands on is the next min(n, remaining) positions. */
    lemma Current()
      requires Valid() && Pos() < |Out()|
      ensures Out()[Pos()] == end.src.cells[up.index..Reach(up, end, n)]
    {
      ChunksHead(end.src.cells[up.index..end.index], n);
    }

    /** `*` with the values of the positions that hold one: walk a copy of the
        cursor over at most `n` positions, stopping at `end`. The cursor does not
        move; on `end` the chunk is empty. */
    method Deref() returns (r: seq<T>)
      requires Valid()
      ensures Pos() < |Out()| ==> r == ChunkValues(Out()[Pos()])
      ensures Pos() == |Out()| ==> r == []
    {
      r := CollectValues(up, end, n);
      if Pos() < |Out()| {
        Current();
      }
    }

    /** `*` as group.h:53-55 and GroupAccessor.h:45-47 write it: every position's
        value is pushed, whether or not the position holds one. */
    method DerefAsWritten() returns (r: seq<T>)
      requires Valid()
      ensures Pos() < |Out()| ==> r == Contents(Out()[Pos()])
      ensures Pos() == |Out()| ==> r == []
    {
      r := CollectContents(up, end, n);
      if Pos() < |Out()| {
        Current();
      }
    }

    /** `++` moves past the current chunk: at most `n` positions, stopping at
        `end`; on `end` it does nothing. */
    method Advance()
      requires Valid()
      modifies this
      ensures Valid()
      ensures old(Pos()) < |Out()| ==>
                Pos() == old(Pos()) + 1 && up.index == old(up.index) + |Out()[old(Pos())]|
      ensures old(Pos()) == |Out()| ==> up == old(up) && Pos() == old(Pos())
    {
      if up.index < end.index {
        NextChunk();
        done := done + [Out()[Pos()]];
      }
      up := Walk(up, end, n);
    }

    /** The chunk under the cursor spans the positions up to `Reach`, and after it
        come the chunks of what follows. */
    lemma NextChunk()
      requires Valid() && Pos() < |Out()|
      ensures |Out()[Pos()]| == Reach(up, end, n) - up.index
      ensures Out() == (done + [Out()[Pos()]]) + Chunks(end.src.cells[Reach(up, end, n)..end.index], n)
    {
      var rest := end.src.cells[up.index..end.index];
      var r := Reach(up, end, n);
      Current();
      ChunksStep(done, rest, n);
      assert rest[r - up.index..] == end.src.cells[r..end.index];
    }
  }

  /** Where a walk of at most `n` steps from `c` stops: `n` steps on, or `end`. */
  function Reach<T>(c: Cursor<T>, end: Cursor<T>, n: nat): (r: nat)
    requires Bounded(c, end)
    ensures c.index <= r <= end.index
    ensures r - c.index == if n < end.index - c.index then n else end.index - c.index
  {
    if n < end.index - c.index then c.index + n else end.index
  }

  /** Cutting the first chunk off the chunks ahead moves it to the chunks behind. */
  lemma ChunksStep<X>(done: seq<seq<X>>, xs: seq<X>, n: nat)
    requires n > 0 && |xs| > 0
    ensures var m := if n < |xs| then n else |xs|;
      done + Chunks(xs, n) == (done + [xs[..m]]) + Chunks(xs[m..], n)
  {
  }

  /** The loop of `*`: the values of the positions that hold one, over at most
      `n` positions from `from`, stopping at `end`. */
  method CollectValues<T>(from: Cursor<T>, end: Cursor<T>, n: nat) returns (r: seq<T>)
    requires Bounded(from, end)
    ensures r == Values(end.src.cells[from.index..Reach(from, end, n)])
  {
    r := [];
    var it := from;
    var i := 0;
    while i < n && it.Differs(end)
      invariant Bounded(from, it) && Bounded(it, end) && it.index == from.index + i && i <= n
      invariant r == Values(Between(from, it))
      decreases n - i
    {
      ValuesNext(from, it);
      if it.HasValue() {
        r := r + [it.Deref()];
      }
      it := it.Next();
      i := i + 1;
    }
    assert it.index == Reach(from, end, n);
  }

  /** The same loop pushing every position's value. */
  method CollectContents<T>(from: Cursor<T>, end: Cursor<T>, n: nat) returns (r: seq<T>)
    requires Bounded(from, end)
    ensures r == Contents(end.src.cells[from.index..Reach(from, end, n)])
  {
    r := [];
    var it := from;
    var i := 0;
    while i < n && it.Differs(end)
      invariant Bounded(from, it) && Bounded(it, end) && it.index == from.index + i && i <= n
      invariant r == Contents(Between(from, it))
      decreases n - i
    {
      assert Contents(Between(from, it.Next())) == r + [it.Deref()];
      r := r + [it.Deref()];
      it := it.Next();
      i := i + 1;
    }
  }

  /** The loop of `++`: at most `n` steps from `from`, stopping at `end`. */
  method Walk<T>(from: Cursor<T>, end: Cursor<T>, n: nat) returns (c: Cursor<T>)
    requires Bounded(from, end)
    ensures c.src == from.src && c.index == Reach(from, end, n)
  {
    c := from;
    var i := 0;
    while i < n && c.Differs(end)
      invariant c.src == end.src && c.index == from.index + i <= end.index && i <= n
      decreases n - i
    {
      c := c.Next();
      i := i + 1;
    }
  }

  /** Building a cursor: n == 0 raises invalid_argument. */
  method Make<T>(up: Cursor<T>, end: Cursor<T>, n: nat) returns (r: Result<Accessor<T>>)
    requires Bounded(up, end)
    ensures n == 0 <==> r.Err?
    ensures n == 0 ==> r == Err(InvalidArgument("n must be > 0"))
    ensures r.Ok? ==> fresh(r.value) && r.value.up == up && r.value.end == end && r.value.n == n
    ensures r.Ok? ==> r.value.Valid() && r.value.Pos() == 0
  {
    if n == 0 {
      return Err(InvalidArgument("n must be > 0"));
    }
    var a := new Accessor(up, end, n);
    return Ok(a);
  }

  /** group::modify: the begin cursor over [begin, end) and the end cursor (end, end);
      with n == 0 the first construction raises. */
  method Modify<T>(n: nat, begin: Cursor<T>, end: Cursor<T>) returns (r: Result<(Accessor<T>, Accessor<T>)>)
    requires Bounded(begin, end)
    ensures n == 0 <==> r.Err?
    ensures n == 0 ==> r == Err(InvalidArgument("n must be > 0"))
    ensures r.Ok? ==> fresh(r.value.0) && fresh(r.value.1)
    ensures r.Ok? ==> r.value.0.up == begin && r.value.1.up == end && r.value.0.end == end
    ensures r.Ok? ==> r.value.0.Valid() && r.value.0.Pos() == 0 && r.value.0.Out() == Chunks(Between(begin, end), n)
  {
    var b := Make(begin, end, n);
    if b.Err? {
      return Err(b.error);
    }
    var e := Make(end, end, n);
    return Ok((b.value, e.value));
  }

  /** One step of a traversal: the chunk under the cursor, the cursor moved past
      it, and whether chunks are left. */
  method Step<T>(b: Accessor<T>, e: Accessor<T>, ghost out: seq<seq<Cell<T>>>, ghost from: nat) returns (chunk: seq<T>, more: bool)
    requires b != e && b.Valid() && out == b.Out() && from <= b.Pos() < |out| && e.up.index == b.end.index
    modifies b
    ensures b.Valid() && out == b.Out() && b.Pos() == old(b.Pos()) + 1
    ensures chunk == ChunkValues(out[old(b.Pos())])
    ensures SeqMap(ChunkValues, out[from..b.Pos()]) == SeqMap(ChunkValues, out[from..old(b.Pos())]) + [chunk]
    ensures more <==> b.Pos() < |out|
  {
    ghost var at := b.Pos();
    SeqMapStep(ChunkValues, out, from, at);
    chunk := b.Deref();
    b.Advance();
    more := b.NotEquals(e);
  }

  /** Mapping one more element at the back of a slice. */
  lemma SeqMapStep<X, Y>(f: X -> Y, xs: seq<X>, i: nat, j: nat)
    requires i <= j < |xs|
    ensures SeqMap(f, xs[i..j + 1]) == SeqMap(f, xs[i..j]) + [f(xs[j])]
  {
    assert xs[i..j + 1] == xs[i..j] + [xs[j]];
  }

  /** A traversal collecting every chunk: the chunks of values from the cursor on. */
  method Traverse<T>(b: Accessor<T>, e: Accessor<T>) returns (res: seq<seq<T>>)
    requires b != e && b.Valid() && e.up.index == b.end.index
    modifies b
    ensures res == SeqMap(ChunkValues, old(b.Out()[b.Pos()..]))
  {
    ghost var out := b.Out();
    ghost var from := b.Pos();
    res := [];
    var more := b.NotEquals(e);
    while more
      invariant b.Valid() && out == b.Out() && from <= b.Pos() <= |out|
      invariant more <==> b.Pos() < |out|
      invariant res == SeqMap(ChunkValues, out[from..b.Pos()])
      decreases |out| - b.Pos()
    {
      var chunk;
      chunk, more := Step(b, e, out, from);
      res := res + [chunk];
    }
    assert out[from..|out|] == out[from..];
  }
}
