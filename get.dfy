/** get.h: the stage that ends the stream after `n` values. Its cursors carry a
    count of the positions with a value they have passed; the end cursor is built
    with count `n`, and two cursors are equal when their counts or their upstream
    cursors are, so the walk stops at whichever comes first. Over a generator the
    upstream never reaches its end and the count alone stops the walk. */
module GetStage {
  import opened Cursors

  /** Walking from position `k` of a run, the position at which get(n) stops: the
      first one where the run has ended or `n` values lie before it. */
  function CutFrom<T>(cells: seq<Cell<T>>, n: nat, k: nat): (r: nat)
    requires k <= |cells|
    ensures k <= r <= |cells|
    decreases |cells| - k
  {
    if k == |cells| || |Values(cells[..k])| >= n then k else CutFrom(cells, n, k + 1)
  }

  /** How many positions from the front of a run get(n) lets through. */
  function Cut<T>(cells: seq<Cell<T>>, n: nat): (r: nat)
    ensures r <= |cells|
  {
    CutFrom(cells, n, 0)
  }

  /** The positions get(n) shows over [begin, end): a finite upstream is cut
      where the walk stops; a generator gives exactly `n` positions. */
  ghost function Window<T>(begin: Cursor<T>, end: Cursor<T>, n: nat): seq<Cell<T>>
    requires begin.src == end.src && begin.Valid() && end.Valid()
    requires begin.src.Finite? ==> begin.index <= end.index
  {
    match begin.src
    case Finite(cells) => cells[begin.index..end.index][..Cut(cells[begin.index..end.index], n)]
    case Endless(gen) => AllValued(seq(n, i requires 0 <= i < n => gen(begin.index + i)))
  }

  /** Starting the walk anywhere it passes through stops where it would have. */
  lemma {:induction false} CutFromSame<T>(cells: seq<Cell<T>>, n: nat, j: nat, k: nat)
    requires j <= k <= |cells| && k <= CutFrom(cells, n, j)
    ensures CutFrom(cells, n, j) == CutFrom(cells, n, k)
    decreases k - j
  {
    if j < k {
      CutFromSame(cells, n, j + 1, k);
    }
  }

  /** Before the stop fewer than `n` values have passed and the run goes on; at
      the stop exactly `n` have passed or the run has ended. */
  lemma {:induction false} CutBound<T>(cells: seq<Cell<T>>, n: nat, k: nat)
    requires k <= Cut(cells, n)
    ensures |Values(cells[..k])| <= n
    ensures k < Cut(cells, n) <==> k < |cells| && |Values(cells[..k])| < n
    decreases k
  {
    CutFromSame(cells, n, 0, k);
    if k > 0 {
      CutBound(cells, n, k - 1);
      ValuesStep(cells, 0, k - 1);
      assert cells[0..k] == cells[..k] && cells[0..k - 1] == cells[..k - 1];
    }
  }

  /** A run of at most `n` positions passes get(n) whole: fewer than `n`
      values lie before any of its positions. */
  lemma CutShort<T>(cells: seq<Cell<T>>, n: nat)
    requires |cells| <= n
    ensures Cut(cells, n) == |cells|
  {
    var c := Cut(cells, n);
    CutBound(cells, n, c);
    ValuesLength(cells[..c]);
  }

  /** The values get(n) lets through are the first min(n, L) values of the run. */
  lemma TakeValues<T>(cells: seq<Cell<T>>, n: nat)
    ensures var vs := Values(cells);
      Values(cells[..Cut(cells, n)]) == vs[..if n < |vs| then n else |vs|]
  {
    var c := Cut(cells, n);
    CutBound(cells, n, c);
    assert cells == cells[..c] + cells[c..];
    ValuesAppend(cells[..c], cells[c..]);
    if c == |cells| {
      assert cells[c..] == [];
    }
  }

  /** Over a container get(n) gives its first min(n, L) elements. */
  lemma TakeElements<T>(xs: seq<T>, n: nat)
    ensures Values(AllValued(xs)[..Cut(AllValued(xs), n)]) == xs[..if n < |xs| then n else |xs|]
  {
    TakeValues(AllValued(xs), n);
    ValuesOfAllValued(xs);
  }

  /** Over a generator get(n) gives its next n outputs. */
  lemma TakeGenerated<T>(gen: nat -> T, index: nat, n: nat)
    ensures Values(Window(Cursor(Endless(gen), index), Cursor(Endless(gen), index), n))
         == seq(n, i requires 0 <= i < n => gen(index + i))
  {
    ValuesOfAllValued(seq(n, i requires 0 <= i < n => gen(index + i)));
  }

  class Accessor<T> {
    var up: Cursor<T>
    var pos: nat
    /** Where the walk started, the upstream end and the `n` of the stage. */
    ghost const start: nat
    ghost const last: Cursor<T>
    ghost const limit: nat

    /** The positions this cursor walks; only constant fields are involved. */
    ghost function Out(): seq<Cell<T>>
      requires last.Valid() && (last.src.Finite? ==> start <= last.index)
    {
      Window(Cursor(last.src, start), last, limit)
    }

    /** `pos` counts the positions with a value walked so far, and the walk has
        not gone past where get(limit) stops. */
    ghost predicate Valid()
      reads this
    {
      up.src == last.src && up.Valid() && last.Valid() && start <= up.index
      && (up.src.Finite? ==> start <= last.index)
      && match up.src
         case Finite(cells) =>
           up.index - start <= Cut(cells[start..last.index], limit)
           && pos == |Values(cells[start..up.index])|
         case Endless(_) =>
           up.index - start <= limit && pos == up.index - start
    }

    ghost function Pos(): (r: nat)
      reads this
      requires Valid()
      ensures r <= |Out()|
    {
      up.index - start
    }

    /** The end cursor is built from the upstream end and `n`, with no walk
        behind it; the begin cursor from the upstream begin, count 0. */
    constructor (up: Cursor<T>, pos: nat, ghost last: Cursor<T>, ghost limit: nat)
      ensures this.up == up && this.pos == pos && start == up.index
      ensures this.last == last && this.limit == limit
      ensures (pos == 0 && up.src == last.src && up.Valid() && last.Valid()
               && (up.src.Finite? ==> up.index <= last.index)) ==>
                Valid() && Pos() == 0
    {
      this.up := up;
      this.pos := pos;
      start := up.index;
      this.last := last;
      this.limit := limit;
      new;
      if pos == 0 && up.src == last.src && up.src.Finite? && up.Valid() && last.Valid() && up.index <= last.index {
        assert up.src.cells[up.index..up.index] == [];
      }
    }

    /** The end cursor of the same stage: the upstream end and count `limit`. */
    ghost predicate IsEndOf(b: Accessor<T>)
      reads this, b
    {
      pos == b.limit && (b.last.src.Finite? ==> up.index == b.last.index)
    }

    /** `==`: equal counts or equal upstream cursors. Against the stage's end
        cursor it says whether the walk is over. */
    function Equals(other: Accessor<T>): (r: bool)
      reads this, other
      requires Valid()
      ensures r <==> pos == other.pos || up.Equals(other.up)
      ensures other.IsEndOf(this) ==> (r <==> Pos() == |Out()|)
    {
      EndTest();
      pos == other.pos || up.Equals(other.up)
    }

    /** `!=`: different counts and different upstream cursors, the exact negation
        of `==`. */
    function NotEquals(other: Accessor<T>): (r: bool)
      reads this, other
      requires Valid()
      ensures r <==> !Equals(other)
      ensures other.IsEndOf(this) ==> (r <==> Pos() < |Out()|)
    {
      EndTest();
      pos != other.pos && up.Differs(other.up)
    }

    /** Whether the walk is over, in terms of the count and the upstream position. */
    lemma EndTest()
      requires Valid()
      ensures Pos() < |Out()| <==> pos != limit && (up.src.Finite? ==> up.index != last.index)
    {
      if up.src.Finite? {
        var cells := up.src.cells;
        assert last.src.cells == cells && last.index <= |cells|;
        var cs := cells[start..last.index];
        var k := up.index - start;
        assert k <= Cut(cs, limit) <= |cs| == last.index - start;
        assert cs[..k] == cells[start..up.index];
        CutBound(cs, limit, k);
      }
    }

    /** The position the cursor stands on is the current position of the window. */
    lemma OutAt()
      requires Valid() && Pos() < |Out()|
      ensures up.InRange() && Out()[Pos()] == up.Here()
    {
      match up.src
      case Finite(cells) =>
        var cs := cells[start..last.index];
        assert Out() == cs[..Cut(cs, limit)];
        assert Out()[Pos()] == cs[up.index - start];
      case Endless(gen) =>
        assert Out()[Pos()] == Cell(gen(start + Pos()), true);
    }

    /** hasValue() forwards to the upstream. */
    function HasValue(): (r: bool)
      reads this
      requires Valid() && Pos() < |Out()|
      ensures up.InRange() && r == up.HasValue()
      ensures r == Out()[Pos()].valued
    {
      OutAt();
      up.HasValue()
    }

    /** `*` forwards to the upstream. */
    function Deref(): (r: T)
      reads this
      requires Valid() && Pos() < |Out()|
      ensures up.InRange() && r == up.Deref()
      ensures r == Out()[Pos()].value
    {
      OutAt();
      up.Deref()
    }

    /** `++` always advances the upstream, and counts the position it leaves only
        when that position holds a value. */
    method Advance()
      requires Valid() && Pos() < |Out()|
      modifies this
      ensures old(up).InRange() && up == old(up).Next()
      ensures pos == old(pos) + (if old(up.HasValue()) then 1 else 0)
      ensures Valid() && Pos() == old(Pos()) + 1
    {
      EndTest();
      if up.src.Finite? {
        ValuesStep(up.src.cells, start, up.index);
      }
      if up.HasValue() {
        pos := pos + 1;
      }
      up := up.Next();
    }
  }

  /** get::modify: the begin cursor (begin, 0) and the end cursor (end, n). */
  method Modify<T>(n: nat, begin: Cursor<T>, end: Cursor<T>) returns (b: Accessor<T>, e: Accessor<T>)
    requires begin.src == end.src && begin.Valid() && end.Valid()
    requires begin.src.Finite? ==> begin.index <= end.index
    ensures fresh(b) && fresh(e) && b != e
    ensures b.up == begin && b.pos == 0 && e.up == end && e.pos == n
    ensures b.Valid() && b.Pos() == 0 && e.IsEndOf(b)
    ensures b.Out() == Window(begin, end, n)
  {
    b := new Accessor(begin, 0, end, n);
    e := new Accessor(end, n, end, n);
  }

  /** One step of a traversal: the value under the cursor when its position
      holds one, the cursor moved past it, and whether the walk goes on. */
  method Step<T>(b: Accessor<T>, ghost out: seq<Cell<T>>, ghost from: nat) returns (piece: seq<T>)
    requires b.Valid() && out == b.Out() && from <= b.Pos() < |out|
    modifies b
    ensures b.Valid() && out == b.Out() && b.Pos() == old(b.Pos()) + 1
    ensures piece == ValueOf(out[old(b.Pos())])
    ensures Values(out[from..b.Pos()]) == Values(out[from..old(b.Pos())]) + piece
  {
    ghost var at := b.Pos();
    ValuesStep(out, from, at);
    piece := if b.HasValue() then [b.Deref()] else [];
    assert piece == ValueOf(out[at]);
    b.Advance();
  }

  /** A traversal collecting the values at the positions that hold one (what
      to_vector does): the values of the stage's output from the cursor on. */
  method Traverse<T>(b: Accessor<T>, e: Accessor<T>) returns (res: seq<T>)
    requires b != e && b.Valid() && e.IsEndOf(b)
    modifies b
    ensures res == Values(old(b.Out()[b.Pos()..]))
  {
    ghost var out := b.Out();
    ghost var from := b.Pos();
    res := [];
    while b.NotEquals(e)
      invariant b.Valid() && out == b.Out() && e.IsEndOf(b) && from <= b.Pos() <= |out|
      invariant res == Values(out[from..b.Pos()])
      decreases |out| - b.Pos()
    {
      var piece := Step(b, out, from);
      res := res + piece;
    }
    assert out[from..|out|] == out[from..];
  }
}
