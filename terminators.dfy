/** The terminators of Terminators.h: each drives a begin/end cursor pair (passed
    by value, so the caller's cursors are untouched) and folds over the positions
    that hold a value. Each is proved equal to a pure specification over
    `Values(Between(begin, end))`. */
module Terminators {
  import opened Cursors

  /** Left fold: `f(...f(f(init, xs[0]), xs[1])..., xs[|xs| - 1])`. */
  function FoldLeft<A, T>(f: (A, T) -> A, init: A, xs: seq<T>): A {
    if |xs| == 0 then init
    else f(FoldLeft(f, init, xs[..|xs| - 1]), xs[|xs| - 1])
  }

  /** What `reduce(identity, accum)` returns for the values `vs` of a stream. */
  function ReduceSpec<T, A>(vs: seq<T>, identity: T -> A, accum: (A, T) -> A): Result<A> {
    if |vs| == 0 then Err(OutOfRange("empty stream"))
    else Ok(FoldLeft(accum, identity(vs[0]), vs[1..]))
  }

  /** What `reduce(accum)` returns: the first value is the seed. */
  function ReduceSeedSpec<T>(vs: seq<T>, accum: (T, T) -> T): Result<T> {
    if |vs| == 0 then Err(OutOfRange("empty stream"))
    else Ok(FoldLeft(accum, vs[0], vs[1..]))
  }

  /** What `nth(n)` returns for the values `vs` of a finite stream. */
  function NthSpec<T>(vs: seq<T>, n: nat): Result<T> {
    if n < |vs| then Ok(vs[n]) else Err(OutOfRange("n is out of range"))
  }

  /** `delimiter + part` for every part, in order. */
  function Delimited(parts: seq<string>, delimiter: string): string {
    if |parts| == 0 then ""
    else Delimited(parts[..|parts| - 1], delimiter) + delimiter + parts[|parts| - 1]
  }

  /** The parts joined by the delimiter; nothing at all for no parts. */
  function Joined(parts: seq<string>, delimiter: string): string {
    if |parts| == 0 then "" else parts[0] + Delimited(parts[1..], delimiter)
  }

  /** Decimal text of an integer, as `operator<<` and `std::to_string` write it. */
  function IntToString(i: int): string {
    if i < 0 then "-" + NatToString(-i) else NatToString(i)
  }

  function NatToString(n: nat): string
    decreases n
  {
    if n < 10 then [Digit(n)] else NatToString(n / 10) + [Digit(n % 10)]
  }

  function Digit(d: nat): char
    requires d < 10
  {
    "0123456789"[d]
  }

  /** The output stream `print_to` writes to; the model keeps what was written. */
  class Ostream {
    var text: string

    constructor (text: string)
      ensures this.text == text
    {
      this.text := text;
    }
  }

  /** A position holding a value, preceded only by positions without one, splits
      the values of the run there. */
  lemma FirstValuedSplit<T>(cells: seq<Cell<T>>, b: nat, f: nat, e: nat)
    requires b <= f < e <= |cells|
    requires Values(cells[b..f]) == [] && cells[f].valued
    ensures Values(cells[b..e]) == [cells[f].value] + Values(cells[f + 1..e])
  {
    assert cells[b..e] == cells[b..f] + ([cells[f]] + cells[f + 1..e]);
    ValuesAppend(cells[b..f], [cells[f]] + cells[f + 1..e]);
    ValuesCons(cells[f], cells[f + 1..e]);
  }

  /** One more position adds one more step of the fold when it holds a value. */
  lemma FoldStep<A, T>(f: (A, T) -> A, seed: A, cells: seq<Cell<T>>, lo: nat, i: nat)
    requires lo <= i < |cells|
    ensures cells[i].valued ==>
              FoldLeft(f, seed, Values(cells[lo..i + 1])) == f(FoldLeft(f, seed, Values(cells[lo..i])), cells[i].value)
    ensures !cells[i].valued ==> Values(cells[lo..i + 1]) == Values(cells[lo..i])
  {
    ValuesStep(cells, lo, i);
    var vs := Values(cells[lo..i + 1]);
    if cells[i].valued {
      assert vs == Values(cells[lo..i]) + [cells[i].value];
      assert vs[..|vs| - 1] == Values(cells[lo..i]) && vs[|vs| - 1] == cells[i].value;
    } else {
      assert vs == Values(cells[lo..i]) + [];
      assert vs == Values(cells[lo..i]);
    }
  }

  /** One more position prints one more delimiter and value when it holds a value. */
  lemma DelimitedStep<T>(show: T -> string, delimiter: string, cells: seq<Cell<T>>, lo: nat, i: nat)
    requires lo <= i < |cells|
    ensures cells[i].valued ==>
              Delimited(SeqMap(show, Values(cells[lo..i + 1])), delimiter) == Delimited(SeqMap(show, Values(cells[lo..i])), delimiter) + (delimiter + show(cells[i].value))
    ensures !cells[i].valued ==> Values(cells[lo..i + 1]) == Values(cells[lo..i])
  {
    ValuesStep(cells, lo, i);
    var vs := Values(cells[lo..i + 1]);
    var ps := SeqMap(show, vs);
    if cells[i].valued {
      assert vs == Values(cells[lo..i]) + [cells[i].value];
      assert ps[..|ps| - 1] == SeqMap(show, Values(cells[lo..i])) && ps[|ps| - 1] == show(cells[i].value);
    } else {
      assert vs == Values(cells[lo..i]) + [];
      assert vs == Values(cells[lo..i]);
    }
  }

  /** The first valued position a walk reaches splits the values of the walk:
      its value comes first and the values after it follow. */
  lemma SplitAtFirst<T>(begin: Cursor<T>, end: Cursor<T>, b: Cursor<T>)
    requires Bounded(begin, end) && b.src == begin.src && begin.index <= b.index < end.index
    requires b.HasValue() && Values(begin.src.cells[begin.index..b.index]) == []
    ensures Bounded(b.Next(), end)
    ensures var vs := Values(Between(begin, end));
      |vs| > 0 && vs[0] == b.Deref() && vs[1..] == Values(Between(b.Next(), end))
  {
    var cells := begin.src.cells;
    var f := b.index;
    FirstValuedSplit(cells, begin.index, f, end.index);
    var rest := Values(cells[f + 1..end.index]);
    var vs := Values(Between(begin, end));
    assert vs == [cells[f].value] + rest;
    assert vs[1..] == rest;
    assert b.Next().index == f + 1 && Between(b.Next(), end) == cells[f + 1..end.index];
  }

  /** firstOrThrow: advance past positions without a value and stop at the first
      one that holds a value; reaching `end` first raises out_of_range(message). */
  method FirstOrThrow<T>(begin: Cursor<T>, end: Cursor<T>, message: string) returns (r: Result<Cursor<T>>)
    requires Bounded(begin, end)
    ensures r.Ok? ==> r.value.src == begin.src && begin.index <= r.value.index < end.index
    ensures r.Ok? ==> r.value.HasValue() && Values(begin.src.cells[begin.index..r.value.index]) == []
    ensures r.Ok? ==> Values(Between(begin, end)) != [] && r.value.Deref() == Values(Between(begin, end))[0]
    ensures r.Err? <==> Values(Between(begin, end)) == []
    ensures r.Err? ==> r.error == OutOfRange(message)
  {
    var b := begin;
    while b.Differs(end)
      invariant Bounded(begin, b) && Bounded(b, end)
      invariant Values(Between(begin, b)) == []
      decreases end.index - b.index
    {
      if b.HasValue() {
        SplitAtFirst(begin, end, b);
        return Ok(b);
      }
      ValuesNext(begin, b);
      b := b.Next();
    }
    return Err(OutOfRange(message));
  }

  /** The loop both reduce overloads run after the first value: from `b` up to
      `end`, `accum` is applied to every value in order. */
  method Accumulate<A, T>(b: Cursor<T>, end: Cursor<T>, seed: A, accum: (A, T) -> A) returns (res: A)
    requires Bounded(b, end)
    ensures res == FoldLeft(accum, seed, Values(Between(b, end)))
  {
    var c := b;
    res := seed;
    while c.Differs(end)
      invariant Bounded(b, c) && Bounded(c, end)
      invariant res == FoldLeft(accum, seed, Values(Between(b, c)))
      decreases end.index - c.index
    {
      FoldNext(accum, seed, b, c);
      if c.HasValue() {
        res := accum(res, c.Deref());
      }
      c := c.Next();
    }
  }

  /** Walking one position further adds one step to the fold exactly when the
      position holds a value. */
  lemma FoldNext<A, T>(f: (A, T) -> A, seed: A, b: Cursor<T>, c: Cursor<T>)
    requires Bounded(b, c) && c.InRange()
    ensures Bounded(b, c.Next())
    ensures c.HasValue() ==>
      FoldLeft(f, seed, Values(Between(b, c.Next()))) == f(FoldLeft(f, seed, Values(Between(b, c))), c.Deref())
    ensures !c.HasValue() ==> Values(Between(b, c.Next())) == Values(Between(b, c))
  {
    FoldStep(f, seed, b.src.cells, b.index, c.index);
  }

  /** reduce(identity, accum): `identity` of the first value, then `accum` folded
      over the later values in order; out_of_range("empty stream") without values. */
  method ReduceWith<T, A>(begin: Cursor<T>, end: Cursor<T>, tag: Tag, identity: T -> A, accum: (A, T) -> A)
    returns (r: Result<A>)
    requires tag == FiniteTag && Bounded(begin, end)
    ensures r == ReduceSpec(Values(Between(begin, end)), identity, accum)
  {
    var first := FirstOrThrow(begin, end, "empty stream");
    if first.Err? {
      return Err(first.error);
    }
    var b := first.value;
    SplitAtFirst(begin, end, b);
    var res := Accumulate(b.Next(), end, identity(b.Deref()), accum);
    return Ok(res);
  }

  /** reduce(accum): as ReduceWith, with the first value itself as the seed. */
  method Reduce<T>(begin: Cursor<T>, end: Cursor<T>, tag: Tag, accum: (T, T) -> T) returns (r: Result<T>)
    requires tag == FiniteTag && Bounded(begin, end)
    ensures r == ReduceSeedSpec(Values(Between(begin, end)), accum)
  {
    var first := FirstOrThrow(begin, end, "empty stream");
    if first.Err? {
      return Err(first.error);
    }
    var b := first.value;
    SplitAtFirst(begin, end, b);
    var res := Accumulate(b.Next(), end, b.Deref(), accum);
    return Ok(res);
  }

  /** sum(): reduce with `a + b`, where `plus` is the value type's `operator+`. */
  method Sum<T>(begin: Cursor<T>, end: Cursor<T>, tag: Tag, plus: (T, T) -> T) returns (r: Result<T>)
    requires tag == FiniteTag && Bounded(begin, end)
    ensures r.Err? <==> Values(Between(begin, end)) == []
    ensures r == ReduceSeedSpec(Values(Between(begin, end)), plus)
  {
    r := Reduce(begin, end, tag, plus);
  }

  /** The loop of print_to after the first value: `delimiter` and the value for
      every position from `b` up to `end` that holds one. */
  method PrintEach<T>(b: Cursor<T>, end: Cursor<T>, os: Ostream, delimiter: string, show: T -> string)
    requires Bounded(b, end)
    modifies os
    ensures os.text == old(os.text) + Delimited(SeqMap(show, Values(Between(b, end))), delimiter)
  {
    ghost var text0 := os.text;
    ghost var printed := "";
    var c := b;
    while c.Differs(end)
      invariant Bounded(b, c) && Bounded(c, end)
      invariant printed == Delimited(SeqMap(show, Values(Between(b, c))), delimiter)
      invariant os.text == text0 + printed
      decreases end.index - c.index
    {
      DelimitedNext(show, delimiter, b, c);
      if c.HasValue() {
        var piece := delimiter + show(c.Deref());
        ConcatAssoc(text0, printed, piece);
        os.text := os.text + piece;
        printed := printed + piece;
      }
      c := c.Next();
    }
  }

  /** Walking one position further prints one more delimiter and value exactly
      when the position holds a value. */
  lemma DelimitedNext<T>(show: T -> string, delimiter: string, b: Cursor<T>, c: Cursor<T>)
    requires Bounded(b, c) && c.InRange()
    ensures Bounded(b, c.Next())
    ensures c.HasValue() ==>
      Delimited(SeqMap(show, Values(Between(b, c.Next()))), delimiter)
        == Delimited(SeqMap(show, Values(Between(b, c))), delimiter) + (delimiter + show(c.Deref()))
    ensures !c.HasValue() ==> Values(Between(b, c.Next())) == Values(Between(b, c))
  {
    DelimitedStep(show, delimiter, b.src.cells, b.index, c.index);
  }

  /** Appending to text written so far is appending to what was printed. */
  lemma ConcatAssoc(a: string, b: string, c: string)
    ensures (a + b) + c == a + (b + c)
  {
  }

  /** print_to(os, delimiter): nothing for a stream without values; otherwise the
      first value, then `delimiter` and the value for every later one. Returns
      the same stream object it was given. */
  method PrintTo<T>(begin: Cursor<T>, end: Cursor<T>, tag: Tag, os: Ostream, delimiter: string, show: T -> string)
    returns (r: Ostream)
    requires tag == FiniteTag && Bounded(begin, end)
    modifies os
    ensures r == os
    ensures os.text == old(os.text) + Joined(SeqMap(show, Values(Between(begin, end))), delimiter)
  {
    var first := FirstOrThrow(begin, end, "");
    if first.Err? {
      return os;
    }
    var b := first.value;
    SplitAtFirst(begin, end, b);
    JoinedHead(show, Values(Between(begin, end)), delimiter);
    ghost var text0 := os.text;
    ghost var rest := Delimited(SeqMap(show, Values(Between(b.Next(), end))), delimiter);
    var head := show(b.Deref());
    os.text := os.text + head;
    PrintEach(b.Next(), end, os, delimiter, show);
    ConcatAssoc(text0, head, rest);
    return os;
  }

  /** The first value printed alone, followed by the rest delimited, is the
      whole run joined. */
  lemma JoinedHead<T>(show: T -> string, vs: seq<T>, delimiter: string)
    requires |vs| > 0
    ensures Joined(SeqMap(show, vs), delimiter) == show(vs[0]) + Delimited(SeqMap(show, vs[1..]), delimiter)
  {
    var ps := SeqMap(show, vs);
    assert ps[1..] == SeqMap(show, vs[1..]);
  }

  /** to_vector(): exactly the values at the positions that hold one, in order. */
  method ToVector<T>(begin: Cursor<T>, end: Cursor<T>, tag: Tag) returns (res: seq<T>)
    requires tag == FiniteTag && Bounded(begin, end)
    ensures res == Values(Between(begin, end))
  {
    res := [];
    var b := begin;
    while b.Differs(end)
      invariant Bounded(begin, b) && Bounded(b, end)
      invariant res == Values(Between(begin, b))
      decreases end.index - b.index
    {
      ValuesNext(begin, b);
      if b.HasValue() {
        res := res + [b.Deref()];
      }
      b := b.Next();
    }
  }

  /** nth(n): skip n positions that hold a value (positions without one are not
      counted), then return the next value; out_of_range when there are fewer
      than n + 1 values. nth carries no Finite requirement: over a generator it
      returns generator output number `begin.index + n`. */
  method Nth<T>(begin: Cursor<T>, end: Cursor<T>, n: nat) returns (r: Result<T>)
    requires begin.src == end.src && begin.Valid() && end.Valid()
    requires begin.src.Finite? ==> begin.index <= end.index
    ensures begin.src.Finite? ==> r == NthSpec(Values(begin.src.cells[begin.index..end.index]), n)
    ensures begin.src.Endless? ==> r == Ok(begin.src.gen(begin.index + n))
  {
    var b := SkipValued(begin, end, n);
    var f := NextValued(b, end);
    if f.Differs(end) {
      if f.src.Finite? {
        NthFound(f.src.cells, begin.index, b.index, f.index, end.index, n);
      }
      return Ok(f.Deref());
    }
    NthMissing(f.src.cells, begin.index, b.index, end.index, n);
    return Err(OutOfRange("n is out of range"));
  }

  /** The second loop of nth: step past positions without a value, stopping at
      the first one that holds a value or at `end`. A generator position always
      holds one. */
  method NextValued<T>(b: Cursor<T>, end: Cursor<T>) returns (f: Cursor<T>)
    requires b.src == end.src && b.Valid() && end.Valid()
    requires b.src.Finite? ==> b.index <= end.index
    ensures f.src == b.src && b.index <= f.index
    ensures f.Differs(end) ==> f.InRange() && f.HasValue()
    ensures f.src.Finite? ==> f.index <= end.index && Values(f.src.cells[b.index..f.index]) == []
    ensures f.src.Endless? ==> f.index == b.index
  {
    f := b;
    assert b.src.Finite? ==> b.src.cells[b.index..b.index] == [];
    while f.Differs(end) && !f.HasValue()
      invariant f.src == b.src && b.index <= f.index
      invariant f.src.Finite? ==> f.index <= end.index && Values(f.src.cells[b.index..f.index]) == []
      invariant f.src.Endless? ==> f.index == b.index
      decreases if f.src.Finite? then end.index - f.index else 0
    {
      ValuesStep(f.src.cells, b.index, f.index);
      f := f.Next();
    }
  }

  /** The first loop of nth: step past positions until n of them have held a
      value or `end` is reached. */
  method SkipValued<T>(begin: Cursor<T>, end: Cursor<T>, n: nat) returns (b: Cursor<T>)
    requires begin.src == end.src && begin.Valid() && end.Valid()
    requires begin.src.Finite? ==> begin.index <= end.index
    ensures b.src == begin.src && begin.index <= b.index
    ensures b.src.Finite? ==> b.index <= end.index && |Values(b.src.cells[begin.index..b.index])| <= n
    ensures b.src.Finite? ==> |Values(b.src.cells[begin.index..b.index])| == n || b.index == end.index
    ensures b.src.Endless? ==> b.index == begin.index + n
  {
    b := begin;
    var i := 0;
    while i < n && b.Differs(end)
      invariant b.src == begin.src && begin.index <= b.index && i <= n
      invariant b.src.Finite? ==> b.index <= end.index && i == |Values(b.src.cells[begin.index..b.index])|
      invariant b.src.Endless? ==> b.index == begin.index + i
      decreases if b.src.Finite? then end.index - b.index else n - i
    {
      if b.src.Finite? {
        ValuesStep(b.src.cells, begin.index, b.index);
      }
      if b.HasValue() {
        i := i + 1;
      }
      b := b.Next();
    }
  }

  lemma NthFound<T>(cells: seq<Cell<T>>, b: nat, s: nat, f: nat, e: nat, n: nat)
    requires b <= s <= f < e <= |cells|
    requires |Values(cells[b..s])| == n && Values(cells[s..f]) == [] && cells[f].valued
    ensures NthSpec(Values(cells[b..e]), n) == Ok(cells[f].value)
  {
    var skipped := Values(cells[b..s]);
    var rest := Values(cells[f + 1..e]);
    assert Values(cells[b..e]) == skipped + ([cells[f].value] + rest) by {
      FirstValuedSplit(cells, s, f, e);
      assert cells[b..e] == cells[b..s] + cells[s..e];
      ValuesAppend(cells[b..s], cells[s..e]);
    }
    assert (skipped + ([cells[f].value] + rest))[n] == cells[f].value;
  }

  lemma NthMissing<T>(cells: seq<Cell<T>>, b: nat, s: nat, e: nat, n: nat)
    requires b <= s <= e <= |cells|
    requires |Values(cells[b..s])| <= n
    requires Values(cells[s..e]) == []
    ensures NthSpec(Values(cells[b..e]), n).Err?
  {
    assert cells[b..e] == cells[b..s] + cells[s..e];
    ValuesAppend(cells[b..s], cells[s..e]);
  }

  /** Folding over two runs in turn is folding over their concatenation. */
  lemma {:induction false} FoldLeftAppend<A, T>(f: (A, T) -> A, init: A, xs: seq<T>, ys: seq<T>)
    ensures FoldLeft(f, init, xs + ys) == FoldLeft(f, FoldLeft(f, init, xs), ys)
    decreases |ys|
  {
    if |ys| == 0 {
      assert xs + ys == xs;
    } else {
      var ys' := ys[..|ys| - 1];
      assert (xs + ys)[..|xs + ys| - 1] == xs + ys';
      FoldLeftAppend(f, init, xs, ys');
    }
  }

  /** The arithmetic sum of a sequence of integers. */
  function SumOf(xs: seq<int>): int {
    if |xs| == 0 then 0 else xs[0] + SumOf(xs[1..])
  }

  /** sum() of integers is their arithmetic sum, for any non-empty stream. */
  lemma SumIsArithmeticSum(vs: seq<int>)
    requires |vs| > 0
    ensures ReduceSeedSpec(vs, (a: int, b: int) => a + b) == Ok(SumOf(vs))
  {
    FoldIsSum(vs[0], vs[1..]);
    assert [vs[0]] + vs[1..] == vs;
  }

  lemma {:induction false} FoldIsSum(init: int, xs: seq<int>)
    ensures FoldLeft((a: int, b: int) => a + b, init, xs) == SumOf([init] + xs)
    decreases |xs|
  {
    if |xs| > 0 {
      var xs' := xs[..|xs| - 1];
      FoldIsSum(init, xs');
      SumOfSnoc([init] + xs', xs[|xs| - 1]);
      assert [init] + xs' + [xs[|xs| - 1]] == [init] + xs;
    }
  }

  lemma {:induction false} SumOfSnoc(xs: seq<int>, x: int)
    ensures SumOf(xs + [x]) == SumOf(xs) + x
    decreases |xs|
  {
    if |xs| > 0 {
      assert (xs + [x])[1..] == xs[1..] + [x];
      SumOfSnoc(xs[1..], x);
    } else {
      assert xs + [x] == [x];
    }
  }

  /** The concatenation of a sequence of strings. */
  function Concat(parts: seq<string>): string {
    if |parts| == 0 then "" else parts[0] + Concat(parts[1..])
  }

  /** sum() of strings concatenates them, for any non-empty stream. */
  lemma SumIsConcatenation(vs: seq<string>)
    requires |vs| > 0
    ensures ReduceSeedSpec(vs, (a: string, b: string) => a + b) == Ok(Concat(vs))
  {
    FoldIsConcat(vs[0], vs[1..]);
    assert [vs[0]] + vs[1..] == vs;
  }

  lemma {:induction false} FoldIsConcat(init: string, xs: seq<string>)
    ensures FoldLeft((a: string, b: string) => a + b, init, xs) == Concat([init] + xs)
    decreases |xs|
  {
    if |xs| > 0 {
      var xs' := xs[..|xs| - 1];
      FoldIsConcat(init, xs');
      ConcatSnoc([init] + xs', xs[|xs| - 1]);
      assert [init] + xs' + [xs[|xs| - 1]] == [init] + xs;
    }
  }

  lemma {:induction false} ConcatSnoc(xs: seq<string>, x: string)
    ensures Concat(xs + [x]) == Concat(xs) + x
    decreases |xs|
  {
    if |xs| > 0 {
      assert (xs + [x])[1..] == xs[1..] + [x];
      ConcatSnoc(xs[1..], x);
    } else {
      assert xs + [x] == [x];
    }
  }

  /** Delimiting two runs in turn is delimiting their concatenation. */
  lemma {:induction false} DelimitedAppend(a: seq<string>, b: seq<string>, delimiter: string)
    ensures Delimited(a + b, delimiter) == Delimited(a, delimiter) + Delimited(b, delimiter)
    decreases |b|
  {
    if |b| == 0 {
      assert a + b == a;
    } else {
      var b' := b[..|b| - 1];
      assert (a + b)[..|a + b| - 1] == a + b';
      DelimitedAppend(a, b', delimiter);
    }
  }

  /** Printing two non-empty runs one after the other puts exactly one delimiter
      between them. */
  lemma JoinedAppend(a: seq<string>, b: seq<string>, delimiter: string)
    requires |a| > 0 && |b| > 0
    ensures Joined(a + b, delimiter) == Joined(a, delimiter) + delimiter + Joined(b, delimiter)
  {
    var da := Delimited(a[1..], delimiter);
    var db := Delimited(b[1..], delimiter);
    calc {
      Joined(a + b, delimiter);
      { assert (a + b)[1..] == a[1..] + b; }
      a[0] + Delimited(a[1..] + b, delimiter);
      { DelimitedAppend(a[1..], b, delimiter); }
      a[0] + (da + Delimited(b, delimiter));
      { DelimitedCons(b, delimiter); }
      a[0] + (da + (delimiter + b[0] + db));
      (a[0] + da) + delimiter + (b[0] + db);
    }
  }

  lemma DelimitedCons(b: seq<string>, delimiter: string)
    requires |b| > 0
    ensures Delimited(b, delimiter) == delimiter + b[0] + Delimited(b[1..], delimiter)
  {
    assert b == [b[0]] + b[1..];
    DelimitedAppend([b[0]], b[1..], delimiter);
    assert [b[0]][..0] == [];
  }
}
