/** The abstract upstream cursor that every stage and terminator of the stream
    pipeline is modelled against, and the specification functions over the
    positions such a cursor walks. */
module Cursors {

  /** One position of a stream: what dereferencing the position yields and whether
      the position holds a value (`hasValue()`). A position without a value still
      has something underneath it: skip.h forwards `*` whatever its counter says. */
  datatype Cell<T> = Cell(value: T, valued: bool)

  /** What a pair of cursors walks over: a finite run of positions (a container,
      a borrowed range, the output of a stage) or the endless run of a generator,
      whose position i yields `gen(i)` and always holds a value. */
  datatype Source<T> = Finite(cells: seq<Cell<T>>) | Endless(gen: nat -> T)

  /** The boundedness tag (FiniteStreamTag / InfiniteStreamTag). */
  datatype Tag = FiniteTag | InfiniteTag

  /** The exceptions the pipeline raises: std::out_of_range, std::invalid_argument
      and std::runtime_error, each with its message. */
  datatype Error = OutOfRange(message: string) | InvalidArgument(message: string) | RuntimeError(message: string)

  datatype Result<T> = Ok(value: T) | Err(error: Error)

  /** A cursor: the source it walks and the position it is at. Two cursors over
      the same finite source are equal when their positions are; a generator
      cursor is never equal to anything (GenAccessor's `!=` is constantly true). */
  datatype Cursor<T> = Cursor(src: Source<T>, index: nat) {

    predicate Valid() {
      src.Finite? ==> index <= |src.cells|
    }

    /** The cursor stands on a position (not on the end of a finite source). */
    predicate InRange() {
      src.Endless? || index < |src.cells|
    }

    function Here(): Cell<T>
      requires InRange()
    {
      match src
      case Finite(cells) => cells[index]
      case Endless(gen) => Cell(gen(index), true)
    }

    function HasValue(): bool
      requires InRange()
    {
      Here().valued
    }

    function Deref(): T
      requires InRange()
    {
      Here().value
    }

    function Next(): Cursor<T>
      requires InRange()
    {
      Cursor(src, index + 1)
    }

    predicate Equals(other: Cursor<T>) {
      src.Finite? && index == other.index
    }

    predicate Differs(other: Cursor<T>) {
      !Equals(other)
    }
  }

  /** The begin/end pair of a finite run: same finite source, begin not past end. */
  ghost predicate Bounded<T>(begin: Cursor<T>, end: Cursor<T>) {
    begin.src == end.src && begin.src.Finite? && begin.index <= end.index <= |begin.src.cells|
  }

  /** The positions from `begin` up to (not including) `end`. */
  function Between<T>(begin: Cursor<T>, end: Cursor<T>): seq<Cell<T>>
    requires Bounded(begin, end)
  {
    begin.src.cells[begin.index..end.index]
  }

  /** The values at the positions that hold one, in order. */
  function Values<T>(cells: seq<Cell<T>>): seq<T> {
    if |cells| == 0 then []
    else Values(cells[..|cells| - 1]) + ValueOf(cells[|cells| - 1])
  }

  /** The value of one position, if it holds one. */
  function ValueOf<T>(c: Cell<T>): seq<T> {
    if c.valued then [c.value] else []
  }

  /** What dereferencing every position yields, with or without a value. */
  function Contents<T>(cells: seq<Cell<T>>): (r: seq<T>)
    ensures |r| == |cells|
    ensures forall i :: 0 <= i < |cells| ==> r[i] == cells[i].value
  {
    seq(|cells|, i requires 0 <= i < |cells| => cells[i].value)
  }

  /** The positions of a container or a range: every one of them holds its element. */
  function AllValued<T>(xs: seq<T>): (cells: seq<Cell<T>>)
    ensures |cells| == |xs|
    ensures forall i :: 0 <= i < |xs| ==> cells[i] == Cell(xs[i], true)
  {
    seq(|xs|, i requires 0 <= i < |xs| => Cell(xs[i], true))
  }

  function SeqMap<T, U>(f: T -> U, xs: seq<T>): (r: seq<U>)
    ensures |r| == |xs|
    ensures forall i :: 0 <= i < |xs| ==> r[i] == f(xs[i])
  {
    seq(|xs|, i requires 0 <= i < |xs| => f(xs[i]))
  }

  /** Splitting a run of positions splits its values the same way. */
  lemma {:induction false} ValuesAppend<T>(a: seq<Cell<T>>, b: seq<Cell<T>>)
    ensures Values(a + b) == Values(a) + Values(b)
    decreases |b|
  {
    if |b| == 0 {
      assert a + b == a;
    } else {
      var b' := b[..|b| - 1];
      assert (a + b)[..|a + b| - 1] == a + b';
      ValuesAppend(a, b');
    }
  }

  lemma ValuesCons<T>(c: Cell<T>, rest: seq<Cell<T>>)
    ensures Values([c] + rest) == ValueOf(c) + Values(rest)
  {
    ValuesAppend([c], rest);
    assert [c][..0] == [];
  }

  /** One more position at the back of a range adds its value, if any. */
  lemma ValuesStep<T>(cells: seq<Cell<T>>, i: nat, j: nat)
    requires i <= j < |cells|
    ensures Values(cells[i..j + 1]) == Values(cells[i..j]) + ValueOf(cells[j])
    ensures cells[j].valued ==> Values(cells[i..j + 1]) == Values(cells[i..j]) + [cells[j].value]
    ensures !cells[j].valued ==> Values(cells[i..j + 1]) == Values(cells[i..j])
  {
    assert cells[i..j + 1][..j - i] == cells[i..j];
    assert Values(cells[i..j]) + [] == Values(cells[i..j]);
  }

  /** Walking one position further adds that position's value, if it holds one. */
  lemma ValuesNext<T>(b: Cursor<T>, c: Cursor<T>)
    requires Bounded(b, c) && c.InRange()
    ensures Bounded(b, c.Next())
    ensures c.HasValue() ==> Values(Between(b, c.Next())) == Values(Between(b, c)) + [c.Deref()]
    ensures !c.HasValue() ==> Values(Between(b, c.Next())) == Values(Between(b, c))
  {
    ValuesStep(b.src.cells, b.index, c.index);
  }

  /** Every position of a container holds its element, so its values are the container. */
  lemma {:induction false} ValuesOfAllValued<T>(xs: seq<T>)
    ensures Values(AllValued(xs)) == xs
    decreases |xs|
  {
    if |xs| > 0 {
      var xs' := xs[..|xs| - 1];
      assert AllValued(xs)[..|xs| - 1] == AllValued(xs');
      ValuesOfAllValued(xs');
      assert xs == xs' + [xs[|xs| - 1]];
    }
  }

  /** The values of a run are at most its positions, and all of them when every
      position holds a value. */
  lemma {:induction false} ValuesLength<T>(cells: seq<Cell<T>>)
    ensures |Values(cells)| <= |cells|
    ensures (forall i :: 0 <= i < |cells| ==> cells[i].valued) ==> Values(cells) == Contents(cells)
    decreases |cells|
  {
    if |cells| > 0 {
      var cells' := cells[..|cells| - 1];
      ValuesLength(cells');
      assert Contents(cells) == Contents(cells') + [cells[|cells| - 1].value];
    }
  }
}
