/** Stream.h: the stream object the pipeline is written against. It owns a
    container when it was given one to keep (moved in, or built from an
    initializer list or from values), holds a begin and an end cursor, and has a
    boundedness tag fixed by its type: finite unless it was built over a
    generator. `>>` with a modifier makes a new stream over wrapped cursors and
    moves the container into it; `>>` with a terminator runs the terminator
    over the cursors. */
module Streams {
  import opened Cursors
  import Terminators
  import MapStage
  import GenAccessors

  /** What a stream's cursors and tag must agree on: one source, begin not past
      end on a finite source, and the tag is FiniteTag exactly when the source is
      finite, so that a terminator admitted by the tag has an end to reach. */
  ghost predicate Coherent<T>(begin: Cursor<T>, end: Cursor<T>, tag: Tag) {
    begin.src == end.src && begin.Valid() && end.Valid()
    && (begin.src.Finite? ==> begin.index <= end.index)
    && (tag == FiniteTag <==> begin.src.Finite?)
  }

  /** A stream whose container holds elements of type `E` and whose cursors
      yield elements of type `T` (they differ once a modifier has been applied). */
  class Stream<E, T> {
    var container: seq<E>
    var begin: Cursor<T>
    var end: Cursor<T>
    const tag: Tag

    ghost predicate Valid()
      reads this
    {
      Coherent(begin, end, tag)
    }

    /** The private constructor: a container moved in and a cursor pair. */
    constructor (container: seq<E>, begin: Cursor<T>, end: Cursor<T>, tag: Tag)
      requires Coherent(begin, end, tag)
      ensures this.container == container && this.begin == begin && this.end == end
      ensures this.tag == tag && Valid()
    {
      this.container := container;
      this.begin := begin;
      this.end := end;
      this.tag := tag;
    }

    /** The move constructor: the container, the cursors and the tag are taken
        over, and the moved-from stream is left with an empty container. */
    constructor Move(other: Stream<E, T>)
      requires other.Valid()
      modifies other
      ensures container == old(other.container) && other.container == []
      ensures begin == other.begin && end == other.end && tag == other.tag
      ensures other.begin == old(other.begin) && other.end == old(other.end)
      ensures Valid()
    {
      container := other.container;
      begin := other.begin;
      end := other.end;
      tag := other.tag;
      new;
      other.container := [];
    }

    /** `>>` with a modifier: a new stream over the same positions, each value
        transformed, with the container moved into it. The new stream keeps this
        stream's tag. */
    method Then<U>(f: T -> U) returns (s: Stream<E, U>)
      requires Valid()
      modifies this
      ensures fresh(s) && s.Valid()
      ensures s.container == old(container) && container == []
      ensures begin == old(begin) && end == old(end)
      ensures s.begin == MapStage.MapCursor(f, begin) && s.end == MapStage.MapCursor(f, end)
      ensures s.tag == tag
      ensures tag == FiniteTag ==> Values(Between(s.begin, s.end)) == SeqMap(f, Values(Between(begin, end)))
    {
      ThenCoherent(f, begin, end, tag);
      s := new Stream(container, MapStage.MapCursor(f, begin), MapStage.MapCursor(f, end), tag);
      container := [];
    }

    /** `>> to_vector()`: the stream's values, in order. */
    method ToVector() returns (res: seq<T>)
      requires Valid() && tag == FiniteTag
      ensures res == Values(Between(begin, end))
    {
      res := Terminators.ToVector(begin, end, tag);
    }

    /** `>> reduce(accum)`: the values folded from the first; out_of_range when
        there are none. */
    method Reduce(accum: (T, T) -> T) returns (r: Result<T>)
      requires Valid() && tag == FiniteTag
      ensures r == Terminators.ReduceSeedSpec(Values(Between(begin, end)), accum)
      ensures r.Err? <==> Values(Between(begin, end)) == []
    {
      r := Terminators.Reduce(begin, end, tag, accum);
    }

    /** `>> reduce(identity, accum)`: the values folded from `identity` of the
        first; out_of_range when there are none. */
    method ReduceWith<A>(identity: T -> A, accum: (A, T) -> A) returns (r: Result<A>)
      requires Valid() && tag == FiniteTag
      ensures r == Terminators.ReduceSpec(Values(Between(begin, end)), identity, accum)
      ensures r.Err? <==> Values(Between(begin, end)) == []
    {
      r := Terminators.ReduceWith(begin, end, tag, identity, accum);
    }

    /** `>> sum()`: the values added up with `plus`; out_of_range when there are none. */
    method Sum(plus: (T, T) -> T) returns (r: Result<T>)
      requires Valid() && tag == FiniteTag
      ensures r == Terminators.ReduceSeedSpec(Values(Between(begin, end)), plus)
      ensures r.Err? <==> Values(Between(begin, end)) == []
    {
      r := Terminators.Sum(begin, end, tag, plus);
    }

    /** `>> print_to(os, delimiter)`: the values written to `os` separated by the
        delimiter; the same stream object is returned. */
    method PrintTo(os: Terminators.Ostream, delimiter: string, show: T -> string) returns (r: Terminators.Ostream)
      requires Valid() && tag == FiniteTag
      modifies os
      ensures r == os
      ensures os.text == old(os.text) + Terminators.Joined(SeqMap(show, Values(Between(begin, end))), delimiter)
    {
      r := Terminators.PrintTo(begin, end, tag, os, delimiter, show);
    }

    /** `>> nth(n)`: value number `n`, or out_of_range when a finite stream has
        fewer; admitted on a generator stream as well. */
    method Nth(n: nat) returns (r: Result<T>)
      requires Valid()
      ensures begin.src.Finite? ==> r == Terminators.NthSpec(Values(Between(begin, end)), n)
      ensures begin.src.Endless? ==> r == Ok(begin.src.gen(begin.index + n))
    {
      r := Terminators.Nth(begin, end, n);
    }
  }

  /** The cursor pair over a whole container. */
  function Over<T>(items: seq<T>): (r: (Cursor<T>, Cursor<T>))
    ensures Bounded(r.0, r.1) && Values(Between(r.0, r.1)) == items
  {
    var src := Finite(AllValued(items));
    assert src.cells[0..|items|] == AllValued(items);
    ValuesOfAllValued(items);
    (Cursor(src, 0), Cursor(src, |items|))
  }

  /** `Stream(begin, end)` over an iterator pair: the range is borrowed, the
      stream owns no container, and it is finite. */
  method FromRange<T>(begin: Cursor<T>, end: Cursor<T>) returns (s: Stream<T, T>)
    requires Bounded(begin, end)
    ensures fresh(s) && s.Valid() && s.container == []
    ensures s.begin == begin && s.end == end && s.tag == FiniteTag
  {
    s := new Stream([], begin, end, FiniteTag);
  }

  /** `Stream(container)` with a container it may not keep: the stream walks the
      caller's container and owns none. */
  method FromContainer<T>(items: seq<T>) returns (s: Stream<T, T>)
    ensures fresh(s) && s.Valid() && s.container == [] && s.tag == FiniteTag
    ensures Values(Between(s.begin, s.end)) == items
  {
    var (b, e) := Over(items);
    s := new Stream([], b, e, FiniteTag);
  }

  /** `Stream(std::move(container))`: the container is moved in and the stream
      walks its own copy. */
  method FromOwned<T>(items: seq<T>) returns (s: Stream<T, T>)
    ensures fresh(s) && s.Valid() && s.container == items && s.tag == FiniteTag
    ensures Values(Between(s.begin, s.end)) == items
  {
    var (b, e) := Over(items);
    s := new Stream(items, b, e, FiniteTag);
  }

  /** `Stream{ x, y, ... }`: a container built from the list and owned. */
  method FromList<T>(items: seq<T>) returns (s: Stream<T, T>)
    ensures fresh(s) && s.Valid() && s.container == items && s.tag == FiniteTag
    ensures Values(Between(s.begin, s.end)) == items
  {
    s := FromOwned(items);
  }

  /** `Stream(x, y, ...)`: the same as the initializer list of its arguments,
      so never empty. */
  method FromValues<T>(value: T, values: seq<T>) returns (s: Stream<T, T>)
    ensures fresh(s) && s.Valid() && s.container == [value] + values && s.tag == FiniteTag
    ensures Values(Between(s.begin, s.end)) == [value] + values
  {
    s := FromList([value] + values);
  }

  /** `Stream(generator)`: begin and end are both fresh generator cursors, so
      they stand on the same position and never compare equal; the stream is
      infinite and owns no container. */
  method FromGenerator<T>(generator: GenAccessors.Generator<T>) returns (s: Stream<T, T>)
    ensures fresh(s) && s.Valid() && s.container == [] && s.tag == InfiniteTag
    ensures s.begin == s.end == Cursor(Endless(generator.f), generator.calls)
    ensures s.begin.Differs(s.end)
  {
    var c := Cursor(Endless(generator.f), generator.calls);
    s := new Stream([], c, c, InfiniteTag);
  }

  /** Mapping the cursors keeps them coherent with the same tag, and a finite
      stream's values come out transformed, in order. */
  lemma ThenCoherent<S, T>(f: S -> T, begin: Cursor<S>, end: Cursor<S>, tag: Tag)
    requires Coherent(begin, end, tag)
    ensures Coherent(MapStage.MapCursor(f, begin), MapStage.MapCursor(f, end), tag)
    ensures tag == FiniteTag ==>
      Values(Between(MapStage.MapCursor(f, begin), MapStage.MapCursor(f, end))) == SeqMap(f, Values(Between(begin, end)))
  {
    if tag == FiniteTag {
      MapStage.MapBetween(f, begin, end);
      MapStage.MapValues(f, Between(begin, end));
    }
  }

  /** The tag of the stream `>>` with a modifier makes, as Stream.h:92-108 is
      written: the new stream's type passes BadType for the generator, so its tag
      is FiniteTag whatever the stream it came from was. */
  function ThenTagAsWritten(tag: Tag): Tag {
    FiniteTag
  }

  /** Over a generator, `>>` with a map as written yields a stream tagged finite
      whose cursors never meet: the tag no longer says whether there is an end,
      and the terminators it admits would walk for ever. Keeping the tag keeps
      the stream coherent. */
  lemma ThenTagAsWrittenOverGenerator()
    ensures var g := Cursor(Endless((i: nat) => i), 0);
            var m := MapStage.MapCursor((x: nat) => x + x, g);
            Coherent(g, g, InfiniteTag)
            && ThenTagAsWritten(InfiniteTag) == FiniteTag
            && !Coherent(m, m, ThenTagAsWritten(InfiniteTag))
            && !Bounded(m, m)
            && Coherent(m, m, InfiniteTag)
  {
  }
}
