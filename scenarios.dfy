/** The pipelines the repository's tests exercise, built from the model's streams,
    stages and terminators, with the results those tests expect. */
module Scenarios {
  import opened Cursors
  import opened Streams
  import Terminators
  import GenAccessors
  import FilterStage
  import SkipStage
  import GetStage
  import GroupStage

  /** `Stream(start, start + 6) >> to_vector()` over an array. */
  method PointerRange() returns (res: seq<int>)
    ensures res == [0, 1, 3, 10, 19, 28]
  {
    var (b, e) := Over([0, 1, 3, 10, 19, 28]);
    var s := FromRange(b, e);
    res := s.ToVector();
  }

  /** `Stream(v) >> to_vector()` over a borrowed vector, and the same with the
      vector moved in. */
  method ContainerCopyAndMove() returns (borrowed: seq<int>, moved: seq<int>)
    ensures borrowed == moved == [1, 2, 10, -1, 228]
  {
    var s := FromContainer([1, 2, 10, -1, 228]);
    borrowed := s.ToVector();
    var t := FromOwned([1, 2, 10, -1, 228]);
    moved := t.ToVector();
  }

  /** `Stream(1, 4) >> map(x + x) >> to_vector()`. */
  method MapDoubles() returns (res: seq<int>)
    ensures res == [2, 8]
  {
    var s := FromValues(1, [4]);
    var m := s.Then((x: int) => x + x);
    res := m.ToVector();
  }

  /** `Stream(1, 2) >> reduce(a + b)` and `Stream{} >> reduce(...)`. */
  method ReduceSums() returns (sum: Result<int>, empty: Result<int>)
    ensures sum == Ok(3)
    ensures empty == Err(OutOfRange("empty stream"))
  {
    var s := FromValues(1, [2]);
    sum := s.Reduce((a: int, b: int) => a + b);
    var t := FromList([]);
    empty := t.Reduce((a: int, b: int) => a);
  }

  /** `Stream(5, 15, 24) >> reduce(to_string, a + " " + to_string(b))`. */
  method ReduceToText() returns (r: Result<string>)
    ensures r == Ok("5 15 24")
  {
    var s := FromValues(5, [15, 24]);
    var accum := (a: string, b: int) => a + " " + Terminators.IntToString(b);
    r := s.ReduceWith(Terminators.IntToString, accum);
    var vs := [5] + [15, 24];
    assert vs[0] == 5 && vs[1..] == [15, 24];
    assert [15, 24][..1] == [15] && [15][..0] == [];
    assert Terminators.IntToString(5) == "5";
    assert Terminators.IntToString(15) == "15" && Terminators.IntToString(24) == "24";
    assert Terminators.FoldLeft(accum, "5", [15]) == "5 15";
    assert Terminators.FoldLeft(accum, "5", [15, 24]) == "5 15 24";
  }

  /** `Stream(10, -15) >> sum()` and the sum of four strings. */
  method Sums() returns (ints: Result<int>, strings: Result<string>)
    ensures ints == Ok(-5)
    ensures strings == Ok("abcdefg")
  {
    var s := FromValues(10, [-15]);
    ints := s.Sum((a: int, b: int) => a + b);
    var t := FromValues("a", ["bc", "d", "efg"]);
    var concat := (a: string, b: string) => a + b;
    strings := t.Sum(concat);
    var rest := ["bc", "d", "efg"];
    assert (["a"] + rest)[1..] == rest;
    assert rest[..2] == ["bc", "d"] && rest[..2][..1] == ["bc"] && rest[..2][..1][..0] == [];
    assert Terminators.FoldLeft(concat, "a", ["bc"]) == "abc";
    assert Terminators.FoldLeft(concat, "a", ["bc", "d"]) == "abcd";
    assert Terminators.FoldLeft(concat, "a", rest) == "abcdefg";
    assert Values(Between(t.begin, t.end)) == ["a"] + rest;
  }

  /** `Stream(2, 10) >> print_to(cout)` and `>> print_to(cout, "+")`. */
  method PrintInts() returns (plain: string, plus: string)
    ensures plain == "2 10" && plus == "2+10"
  {
    var s := FromValues(2, [10]);
    var os := new Terminators.Ostream("");
    var r := s.PrintTo(os, " ", Terminators.IntToString);
    plain := r.text;
    var os2 := new Terminators.Ostream("");
    r := s.PrintTo(os2, "+", Terminators.IntToString);
    plus := r.text;
    assert [2] + [10] == [2, 10];
    JoinedTwoTen(" ");
    JoinedTwoTen("+");
  }

  lemma JoinedTwoTen(delimiter: string)
    ensures Terminators.Joined(SeqMap(Terminators.IntToString, [2, 10]), delimiter) == "2" + delimiter + "10"
  {
    var ps := SeqMap(Terminators.IntToString, [2, 10]);
    assert Terminators.IntToString(2) == "2" && Terminators.IntToString(10) == "10";
    assert ps == ["2", "10"];
    assert ps[1..] == ["10"] && ["10"][..0] == [];
    assert Terminators.Delimited(["10"], delimiter) == delimiter + "10";
    assert Terminators.Joined(ps, delimiter) == "2" + (delimiter + "10");
  }

  /** `Stream{"one", "two", ":D"} >> print_to(cout, "...")`. */
  method PrintStrings() returns (dots: string)
    ensures dots == "one...two...:D"
  {
    var s := FromList(["one", "two", ":D"]);
    var os := new Terminators.Ostream("");
    var r := s.PrintTo(os, "...", (x: string) => x);
    dots := r.text;
    var parts := SeqMap((x: string) => x, ["one", "two", ":D"]);
    assert parts == ["one", "two", ":D"];
    assert parts[1..] == ["two", ":D"] && parts[1..][..1] == ["two"] && parts[1..][..1][..0] == [];
    assert Terminators.Delimited(["two"], "...") == "...two";
    assert Terminators.Delimited(["two", ":D"], "...") == "...two...:D";
  }

  /** `Stream(1) >> skip(1) >> print_to(cout, "oooooo")`: skip leaves no value,
      so nothing is printed, not even the delimiter. */
  method PrintNothing() returns (empty: string)
    ensures empty == ""
  {
    var (b0, e0) := Over([1]);
    var cells := SkipStage.SkipCells(Between(b0, e0), 1);
    var b := Cursor(Finite(cells), 0);
    var e := Cursor(Finite(cells), 1);
    assert cells == [Cell(1, false)];
    assert Between(b, e) == cells && cells[..0] == [];
    var os := new Terminators.Ostream("");
    var r := Terminators.PrintTo(b, e, FiniteTag, os, "oooooo", Terminators.IntToString);
    empty := r.text;
  }

  /** `Stream(2, 10) >> nth(0)` and `>> nth(10)`. */
  method NthOfTwo() returns (first: Result<int>, missing: Result<int>)
    ensures first == Ok(2)
    ensures missing == Err(OutOfRange("n is out of range"))
  {
    var s := FromValues(2, [10]);
    first := s.Nth(0);
    missing := s.Nth(10);
  }

  /** `Stream(1, 2, 3, 4, 5, 6) >> filter(x % 2 == 0) >> to_vector()`. */
  method FilterEven() returns (res: seq<int>)
    ensures res == [2, 4, 6]
  {
    var (b0, e0) := Over([1, 2, 3, 4, 5, 6]);
    var b, e := FilterStage.Modify((x: int) => x % 2 == 0, b0, e0);
    res := FilterStage.Traverse(b, e);
    assert b0.src.cells[0..6] == AllValued([1, 2, 3, 4, 5, 6]);
    EvenOfSix();
  }

  lemma EvenOfSix()
    ensures FilterStage.Passing((x: int) => x % 2 == 0, AllValued([1, 2, 3, 4, 5, 6])) == [2, 4, 6]
  {
    var p := (x: int) => x % 2 == 0;
    var c := AllValued([1, 2, 3, 4, 5, 6]);
    assert c[..6] == c;
    assert c[..6][..5] == c[..5] && c[..5][..4] == c[..4] && c[..4][..3] == c[..3];
    assert c[..3][..2] == c[..2] && c[..2][..1] == c[..1] && c[..1][..0] == [];
    assert FilterStage.Passing(p, c[..1]) == [];
    assert FilterStage.Passing(p, c[..2]) == [2];
    assert FilterStage.Passing(p, c[..3]) == [2];
    assert FilterStage.Passing(p, c[..4]) == [2, 4];
    assert FilterStage.Passing(p, c[..5]) == [2, 4];
  }

  /** `Stream(1, 10, 22, 5, 278) >> skip(2) >> to_vector()`. */
  method SkipTwo() returns (res: seq<int>)
    ensures res == [22, 5, 278]
  {
    var (b0, e0) := Over([1, 10, 22, 5, 278]);
    var b, e := SkipStage.Modify(2, b0, e0);
    res := SkipStage.Traverse(b, e);
    assert b0.src.cells[0..5] == b0.src.cells;
    SkipStage.SkipTwoAsWritten();
  }

  /** `Stream(1, 2, 5, 6, 1900, 234) >> get(4) >> to_vector()`. */
  method GetFour() returns (res: seq<int>)
    ensures res == [1, 2, 5, 6]
  {
    var xs := [1, 2, 5, 6, 1900, 234];
    var (b0, e0) := Over(xs);
    var b, e := GetStage.Modify(4, b0, e0);
    res := GetStage.Traverse(b, e);
    assert b0.src.cells[0..6] == AllValued(xs);
    GetStage.TakeElements(xs, 4);
  }

  /** `Stream(generator) >> get(4) >> to_vector()` with a generator counting up
      from 0. */
  method GetFromGenerator() returns (res: seq<int>)
    ensures res == [0, 1, 2, 3]
  {
    var g := new GenAccessors.Generator((i: nat) => i as int);
    var s := FromGenerator(g);
    var b, e := GetStage.Modify(4, s.begin, s.end);
    res := GetStage.Traverse(b, e);
    GetStage.TakeGenerated(g.f, 0, 4);
  }

  /** `Stream(1, 2, 5, 9, 100, 19, 17) >> group(2) >> to_vector()`, and
      `group(0)`, which throws invalid_argument. */
  method GroupPairs() returns (res: Result<seq<seq<int>>>, zero: Result<seq<seq<int>>>)
    ensures res == Ok([[1, 2], [5, 9], [100, 19], [17]])
    ensures zero == Err(InvalidArgument("n must be > 0"))
  {
    var xs := [1, 2, 5, 9, 100, 19, 17];
    var (b0, e0) := Over(xs);
    var m := GroupStage.Modify(2, b0, e0);
    var (b, e) := m.value;
    var chunks := GroupStage.Traverse(b, e);
    assert b0.src.cells[0..7] == AllValued(xs);
    GroupStage.ChunksOfElements(xs, 2);
    GroupStage.GroupTwo();
    res := Ok(chunks);
    var z := GroupStage.Modify(0, b0, e0);
    zero := Err(z.error);
  }

  /** `Stream(3, 10, 228, 115) >> map(to_string)`. */
  method MapToText() returns (texts: seq<string>)
    ensures texts == ["3", "10", "228", "115"]
  {
    var s := FromValues(3, [10, 228, 115]);
    var m := s.Then(Terminators.IntToString);
    texts := m.ToVector();
    ShownNumbers();
  }

  /** `Stream{"a", "ab", "abccc"} >> map(size)`. */
  method MapToSize() returns (sizes: seq<int>)
    ensures sizes == [1, 2, 5]
  {
    var t := FromList(["a", "ab", "abccc"]);
    var n := t.Then((x: string) => |x|);
    sizes := n.ToVector();
  }

  /** `filter(true)` keeps everything. */
  method FilterAll() returns (all: seq<int>)
    ensures all == [1, 2]
  {
    var (b0, e0) := Over([1, 2]);
    var b, e := FilterStage.Modify((x: int) => true, b0, e0);
    all := FilterStage.Traverse(b, e);
    assert b0.src.cells[0..2] == AllValued([1, 2]);
    FilterStage.PassingSound((x: int) => true, AllValued([1, 2]));
  }

  /** `filter(false)` keeps nothing. */
  method FilterNone() returns (none: seq<int>)
    ensures none == []
  {
    var (b0, e0) := Over([1, 2, 5, 10]);
    var b, e := FilterStage.Modify((x: int) => false, b0, e0);
    none := FilterStage.Traverse(b, e);
    assert b0.src.cells[0..4] == AllValued([1, 2, 5, 10]);
    FilterStage.PassingSound((x: int) => false, AllValued([1, 2, 5, 10]));
  }

  /** `filter(x == 3)` over one to six keeps the one 3. */
  method FilterThree() returns (three: seq<int>)
    ensures three == [3]
  {
    var (b0, e0) := Over([1, 2, 3, 4, 5, 6]);
    var b, e := FilterStage.Modify(IsThree, b0, e0);
    three := FilterStage.Traverse(b, e);
    assert b0.src.cells[0..6] == AllValued([1, 2, 3, 4, 5, 6]);
    OnlyThree();
  }

  predicate IsThree(x: int) {
    x == 3
  }

  lemma OnlyThree()
    ensures FilterStage.Passing(IsThree, AllValued([1, 2, 3, 4, 5, 6])) == [3]
  {
    var front, mid, back := AllValued([1, 2]), AllValued([3]), AllValued([4, 5, 6]);
    SixInThree();
    NoThrees([1, 2]);
    NoThrees([4, 5, 6]);
    assert FilterStage.Passing(IsThree, mid) == [3] by {
      assert mid[..0] == [];
    }
    FilterStage.PassingAppend(IsThree, front, mid);
    FilterStage.PassingAppend(IsThree, front + mid, back);
  }

  /** A run without a 3 keeps nothing. */
  lemma NoThrees(xs: seq<int>)
    requires forall i :: 0 <= i < |xs| ==> xs[i] != 3
    ensures FilterStage.Passing(IsThree, AllValued(xs)) == []
  {
    FilterStage.PassingSound(IsThree, AllValued(xs));
  }

  lemma SixInThree()
    ensures AllValued([1, 2, 3, 4, 5, 6]) == AllValued([1, 2]) + AllValued([3]) + AllValued([4, 5, 6])
  {
    assert [1, 2, 3, 4, 5, 6] == [1, 2] + [3] + [4, 5, 6];
    AllValuedAppend([1, 2], [3]);
    AllValuedAppend([1, 2] + [3], [4, 5, 6]);
  }

  lemma AllValuedAppend<T>(xs: seq<T>, ys: seq<T>)
    ensures AllValued(xs + ys) == AllValued(xs) + AllValued(ys)
  {
  }

  lemma ShownNumbers()
    ensures SeqMap(Terminators.IntToString, [3, 10, 228, 115]) == ["3", "10", "228", "115"]
  {
    assert Terminators.NatToString(1) == "1" && Terminators.NatToString(2) == "2";
    assert Terminators.NatToString(11) == "11" && Terminators.NatToString(22) == "22";
    assert Terminators.IntToString(3) == "3" && Terminators.IntToString(10) == "10";
    assert Terminators.IntToString(228) == "228" && Terminators.IntToString(115) == "115";
  }

  /** `skip(0)` over (10, 217). */
  method SkipNothing() returns (nothing: seq<int>)
    ensures nothing == [10, 217]
  {
    var (b0, e0) := Over([10, 217]);
    var b, e := SkipStage.Modify(0, b0, e0);
    nothing := SkipStage.Traverse(b, e);
    assert b0.src.cells[0..2] == AllValued([10, 217]);
    SkipStage.SkipElements([10, 217], 0);
  }

  /** `skip(100)` over four values. */
  method SkipAll() returns (all: seq<int>)
    ensures all == []
  {
    var (b0, e0) := Over([10, 217, 555, 278]);
    var b, e := SkipStage.Modify(100, b0, e0);
    all := SkipStage.Traverse(b, e);
    assert b0.src.cells[0..4] == AllValued([10, 217, 555, 278]);
    SkipStage.SkipElements([10, 217, 555, 278], 100);
  }

  /** `Stream(1) >> skip(1) >> sum()` throws out_of_range and
      `>> print_to(cout)` writes nothing: the terminators walk the one position,
      which holds no value. */
  method SkipOneThenTerminate() returns (sum: Result<int>, printed: string)
    ensures sum == Err(OutOfRange("empty stream"))
    ensures printed == ""
  {
    var (b0, e0) := Over([1]);
    var cells := SkipStage.SkipCells(Between(b0, e0), 1);
    var b := Cursor(Finite(cells), 0);
    var e := Cursor(Finite(cells), 1);
    assert cells == [Cell(1, false)];
    assert Between(b, e) == cells && cells[..0] == [];
    sum := Terminators.Sum(b, e, FiniteTag, (x: int, y: int) => x + y);
    var os := new Terminators.Ostream("");
    var r := Terminators.PrintTo(b, e, FiniteTag, os, " ", Terminators.IntToString);
    printed := r.text;
  }

  /** `get(0)` over (1, 2). */
  method GetNone() returns (none: seq<int>)
    ensures none == []
  {
    var (b0, e0) := Over([1, 2]);
    var b, e := GetStage.Modify(0, b0, e0);
    none := GetStage.Traverse(b, e);
    assert b0.src.cells[0..2] == AllValued([1, 2]);
    GetStage.TakeElements([1, 2], 0);
  }

  /** `get(0)` over a generator. */
  method GetNoneGenerated() returns (generated: seq<int>)
    ensures generated == []
  {
    var g := new GenAccessors.Generator((i: nat) => i as int);
    var s := FromGenerator(g);
    var b, e := GetStage.Modify(0, s.begin, s.end);
    generated := GetStage.Traverse(b, e);
    GetStage.TakeGenerated(g.f, 0, 0);
  }

  /** `get(100)` over six values keeps them all. */
  method GetAll() returns (all: seq<int>)
    ensures all == [1, 2, 5, 6, 1900, 234]
  {
    var xs := [1, 2, 5, 6, 1900, 234];
    var (b0, e0) := Over(xs);
    var b, e := GetStage.Modify(100, b0, e0);
    all := GetStage.Traverse(b, e);
    assert b0.src.cells[0..6] == AllValued(xs);
    GetStage.TakeElements(xs, 100);
  }

  /** `Stream(1, 2, 3, 100, 34) >> group(100)`: one chunk holding everything. */
  method GroupEverything() returns (res: seq<seq<int>>)
    ensures res == [[1, 2, 3, 100, 34]]
  {
    var xs := [1, 2, 3, 100, 34];
    var (b0, e0) := Over(xs);
    var m := GroupStage.Modify(100, b0, e0);
    var (b, e) := m.value;
    res := GroupStage.Traverse(b, e);
    assert b0.src.cells[0..5] == AllValued(xs);
    GroupStage.ChunksOfElements(xs, 100);
    GroupStage.GroupAll();
  }
}
