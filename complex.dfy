/** The pipelines of ComplexTests.cpp, which chain several stages, replayed on
    the stages' specification functions: each stage's output run is the next
    stage's upstream. group.h and filter.h give their cursors no `hasValue()`;
    the stages after them here take every position of their output to hold a
    value. */
module ComplexScenarios {
  import opened Cursors
  import SkipStage
  import GetStage
  import GroupStage
  import FilterStage
  import MapStage
  import Terminators

  function Size<X>(v: seq<X>): nat {
    |v|
  }

  predicate Small<X>(v: seq<X>) {
    |v| < 5
  }

  predicate AboveFive(x: int) {
    x > 5
  }

  predicate IsPair<X>(v: seq<X>) {
    |v| == 2
  }

  /** What get(n) passes on: the run up to where its walk stops. */
  function Taken<T>(cells: seq<Cell<T>>, n: nat): seq<Cell<T>> {
    cells[..GetStage.Cut(cells, n)]
  }

  /** What group(n) passes on: one position per chunk, holding the chunk's values. */
  function Grouped<T>(cells: seq<Cell<T>>, n: nat): seq<Cell<seq<T>>>
    requires n > 0
  {
    AllValued(SeqMap(GroupStage.ChunkValues, GroupStage.Chunks(cells, n)))
  }

  /** group(n) as group.h:53-55 is written: every position's value enters a chunk. */
  function GroupedAsWritten<T>(cells: seq<Cell<T>>, n: nat): seq<Cell<seq<T>>>
    requires n > 0
  {
    AllValued(SeqMap(Contents, GroupStage.Chunks(cells, n)))
  }

  /** What filter(p) passes on: one position per accepted value. */
  function Filtered<T>(p: T -> bool, cells: seq<Cell<T>>): seq<Cell<T>> {
    AllValued(FilterStage.Passing(p, cells))
  }

  /** `skip(3) >> get(10) >> group(5) >> filter(size < 5) >> map(size) >> nth(0)`. */
  function TraceablePipeline<T>(cells: seq<Cell<T>>): Result<nat> {
    var kept := Filtered(Small, Grouped(Taken(SkipStage.SkipCells(cells, 3), 10), 5));
    Terminators.NthSpec(Values(MapStage.MapCells(Size, kept)), 0)
  }

  /** The same pipeline with skip and group as skip.h:50-55 and group.h:53-55 are written. */
  function TraceablePipelineAsWritten<T>(cells: seq<Cell<T>>): Result<nat> {
    var kept := Filtered(Small, GroupedAsWritten(Taken(SkipStage.SkipCellsAsWritten(cells, 3), 10), 5));
    Terminators.NthSpec(Values(MapStage.MapCells(Size, kept)), 0)
  }

  /** `map(number) >> filter(> 5) >> group(2) >> filter(size == 2) >> group(10)
      >> map(size) >> nth(0)`, from the run the numbering map has produced. */
  function UniquePtrPipeline(cells: seq<Cell<int>>): Result<nat> {
    var pairs := Filtered(IsPair, Grouped(Filtered(AboveFive, cells), 2));
    Terminators.NthSpec(Values(MapStage.MapCells(Size, Grouped(pairs, 10))), 0)
  }

  /** Two values with one filter verdict each: filtering keeps those accepted. */
  lemma PassingTwo<T>(p: T -> bool, a: T, b: T)
    ensures FilterStage.Passing(p, AllValued([a, b])) == FilterStage.Accept(p, a) + FilterStage.Accept(p, b)
  {
    var c := AllValued([a, b]);
    assert c[..1][..0] == [] && c[..1] == [Cell(a, true)] && c[1] == Cell(b, true);
    assert FilterStage.Passing(p, c[..1]) == FilterStage.Accept(p, a);
    assert FilterStage.Passing(p, c) == FilterStage.Passing(p, c[..1]) + FilterStage.Accept(p, b);
  }

  /** The Traceable2 pipeline over any ten elements: the first group holds the two
      values left after skip(3), the second holds five, so the first small group
      has size 2. */
  lemma {:induction false} Traceable<T>(xs: seq<T>)
    requires |xs| == 10
    ensures TraceablePipeline(AllValued(xs)) == Ok(2)
  {
    var s := SkipStage.SkipCells(AllValued(xs), 3);
    GetStage.CutShort(s, 10);
    assert Taken(s, 10) == s;
    GroupStage.ChunksHead(s, 5);
    GroupStage.OneChunk(s[5..], 5);
    var chunks := GroupStage.Chunks(s, 5);
    assert chunks == [s[..5], s[5..]];
    assert s[..5] == SkipStage.SkipCells(AllValued(xs[..5]), 3);
    SkipStage.SkipElements(xs[..5], 3);
    assert s[5..] == AllValued(xs[5..]);
    ValuesOfAllValued(xs[5..]);
    var a, b := Values(s[..5]), Values(s[5..]);
    assert |a| == 2 && |b| == 5;
    assert Grouped(s, 5) == AllValued([a, b]);
    PassingTwo(Small, a, b);
    assert FilterStage.Passing(Small, Grouped(s, 5)) == [a];
    assert Filtered(Small, Grouped(Taken(s, 10), 5)) == AllValued([a]);
    var sizes := MapStage.MapCells(Size, AllValued([a]));
    assert sizes == [Cell(2, true)] && sizes[..0] == [];
    assert Values(sizes) == [2];
  }

  /** ComplexTests.cpp:49-64: `Stream(v) >> ...` over ten elements gives 2. */
  lemma TraceableOverVector<T>(v: seq<T>)
    requires |v| == 10
    ensures TraceablePipeline(AllValued(v)) == Ok(2)
  {
    Traceable(v);
  }

  /** ComplexTests.cpp:25-38: a map in front of the same pipeline leaves ten
      valued positions and gives 2 as well. */
  lemma TraceableAfterMap<S, T>(traces: seq<S>, f: S -> T)
    requires |traces| == 10
    ensures TraceablePipeline(MapStage.MapCells(f, AllValued(traces))) == Ok(2)
  {
    assert MapStage.MapCells(f, AllValued(traces)) == AllValued(SeqMap(f, traces));
    Traceable(SeqMap(f, traces));
  }

  /** As written, both groups hold five elements whatever skip did, so the filter
      keeps none and nth(0) raises out_of_range instead of giving 2. */
  lemma {:induction false} TraceableAsWritten<T>(xs: seq<T>)
    requires |xs| == 10
    ensures TraceablePipelineAsWritten(AllValued(xs)) == Err(OutOfRange("n is out of range"))
  {
    var s := SkipStage.SkipCellsAsWritten(AllValued(xs), 3);
    GetStage.CutShort(s, 10);
    assert Taken(s, 10) == s;
    GroupStage.ChunksHead(s, 5);
    GroupStage.OneChunk(s[5..], 5);
    assert GroupStage.Chunks(s, 5) == [s[..5], s[5..]];
    var a, b := Contents(s[..5]), Contents(s[5..]);
    assert GroupedAsWritten(s, 5) == AllValued([a, b]);
    PassingTwo(Small, a, b);
    assert Filtered(Small, GroupedAsWritten(Taken(s, 10), 5)) == AllValued<seq<T>>([]);
    assert MapStage.MapCells(Size, AllValued<seq<T>>([])) == [];
  }

  /** What the numbering map's rising outputs guarantee about the first filter's
      verdicts: the first six reads are at most 5, the fourteen after them above 5. */
  predicate SixThenAbove(vs: seq<int>) {
    |vs| == 20 &&
    (forall i :: 0 <= i < 6 ==> vs[i] <= 5) &&
    (forall i :: 6 <= i < 20 ==> vs[i] > 5)
  }

  /** filter(> 5) rejects the first six. */
  lemma BelowSixRejected(vs: seq<int>)
    requires SixThenAbove(vs)
    ensures FilterStage.Passing(AboveFive, AllValued(vs)[..6]) == []
  {
    var c := AllValued(vs)[..6];
    assert forall i :: 0 <= i < |c| ==> c[i].value == vs[i];
    FilterStage.PassingSound(AboveFive, c);
  }

  /** filter(> 5) accepts the fourteen after them. */
  lemma FromSixAccepted(vs: seq<int>)
    requires SixThenAbove(vs)
    ensures FilterStage.Passing(AboveFive, AllValued(vs)[6..]) == vs[6..]
  {
    var c := AllValued(vs)[6..];
    assert forall i :: 0 <= i < |c| ==> c[i].value == vs[i + 6];
    FilterStage.PassingSound(AboveFive, c);
    assert Contents(c) == vs[6..];
  }

  /** filter(> 5) keeps exactly the last fourteen. */
  lemma AboveFiveKept(vs: seq<int>)
    requires SixThenAbove(vs)
    ensures FilterStage.Passing(AboveFive, AllValued(vs)) == vs[6..]
  {
    var c := AllValued(vs);
    assert c == c[..6] + c[6..];
    BelowSixRejected(vs);
    FromSixAccepted(vs);
    FilterStage.PassingAppend(AboveFive, c[..6], c[6..]);
  }

  /** The pairs group(2) makes of the values kept. */
  function Pairs(vs: seq<int>): seq<seq<int>>
    requires |vs| >= 6
  {
    GroupStage.Chunks(vs[6..], 2)
  }

  /** group(2) over the fourteen values kept, then filter(size == 2): seven pairs, all kept. */
  lemma {:induction false} PairsKept(vs: seq<int>)
    requires SixThenAbove(vs)
    ensures |Pairs(vs)| == 7
    ensures Filtered(IsPair, Grouped(Filtered(AboveFive, AllValued(vs)), 2)) == AllValued(Pairs(vs))
  {
    var kept := vs[6..];
    AboveFiveKept(vs);
    GroupStage.ChunksOfElements(kept, 2);
    GroupStage.ChunksFull(kept, 2, 7);
    var ch := Pairs(vs);
    assert Grouped(AllValued(kept), 2) == AllValued(ch);
    FilterStage.PassingSound(IsPair, AllValued(ch));
    assert Contents(AllValued(ch)) == ch;
  }

  /** group(10) over seven positions, then map(size): one group, of size 7. */
  lemma {:induction false} GroupOfSeven<X>(ch: seq<X>)
    requires |ch| == 7
    ensures Values(MapStage.MapCells(Size, Grouped(AllValued(ch), 10))) == [7]
  {
    GroupStage.ChunksOfElements(ch, 10);
    GroupStage.OneChunk(ch, 10);
    assert Grouped(AllValued(ch), 10) == AllValued([ch]);
    var sizes := MapStage.MapCells(Size, AllValued([ch]));
    assert sizes == [Cell(7, true)] && sizes[..0] == [];
  }

  /** Whatever the twenty reads return, if the first six are at most 5 and the
      rest above 5, the verdicts of both filters and the sizes of both groupings
      are those of the run 0 to 19, so nth(0) is 7. */
  lemma SixThenAboveGivesSeven(vs: seq<int>)
    requires SixThenAbove(vs)
    ensures UniquePtrPipeline(AllValued(vs)) == Ok(7)
  {
    PairsKept(vs);
    GroupOfSeven(Pairs(vs));
  }

  /** The numbers 0 to 19, which the numbering map writes into the twenty
      pointers in order. */
  function Numbered(): seq<int> {
    seq(20, i requires 0 <= i < 20 => i)
  }

  /** ComplexTests.cpp:77-131: the fourteen numbers above 5 make seven pairs; all
      of them pass size == 2 and fall into one group of seven, so nth(0) is 7. */
  lemma UniquePtr()
    ensures UniquePtrPipeline(AllValued(Numbered())) == Ok(7)
  {
    SixThenAboveGivesSeven(Numbered());
  }
}
