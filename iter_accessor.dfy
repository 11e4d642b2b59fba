/** IterAccessor.h: the source cursor over a container, walking it with the
    container's own iterator. Every position of a container holds its element. */
module IterAccessors {
  import opened Cursors

  class IterAccessor<T> {
    /** The container the iterator walks, and the iterator's position in it. */
    const items: seq<T>
    var index: nat

    ghost predicate Valid()
      reads this
    {
      index <= |items|
    }

    /** The abstract cursor this iterator is. */
    ghost function View(): Cursor<T>
      reads this
    {
      Cursor(Finite(AllValued(items)), index)
    }

    constructor (items: seq<T>, index: nat)
      requires index <= |items|
      ensures this.items == items && this.index == index && Valid()
    {
      this.items := items;
      this.index := index;
    }

    /** `==` compares the iterators: positions in the same container. */
    function Equals(other: IterAccessor<T>): (r: bool)
      reads this, other
      ensures r <==> View().Equals(other.View())
    {
      index == other.index
    }

    /** `!=` is the negation of `==`. */
    function NotEquals(other: IterAccessor<T>): (r: bool)
      reads this, other
      ensures r <==> !Equals(other)
      ensures r <==> View().Differs(other.View())
    {
      index != other.index
    }

    /** Every position of a container holds a value. */
    function HasValue(): (r: bool)
      reads this
      ensures r
      ensures index < |items| ==> r == View().HasValue()
    {
      true
    }

    /** `*` reads the current element and does not move. */
    function Deref(): (r: T)
      reads this
      requires index < |items|
      ensures r == items[index] && r == View().Deref()
    {
      items[index]
    }

    /** `++` moves the iterator one position on. */
    method Advance()
      requires Valid() && index < |items|
      modifies this
      ensures index == old(index) + 1 && Valid()
      ensures View() == old(View()).Next()
    {
      index := index + 1;
    }
  }
}
