/** GenAccessor.h: the source cursor over a generator. The cursor does not call
    the generator when it advances; it counts the calls it owes (`toInvoke`) and
    pays them all on the next dereference. */
module GenAccessors {
  import opened Cursors

  /** A generator with state of its own (the tests use a counter captured by
      reference): its k-th call, counting from 0, returns `f(k)`. Cursors hold it
      by reference, so every cursor over it sees every call. */
  class Generator<T> {
    const f: nat -> T
    var calls: nat

    constructor (f: nat -> T)
      ensures this.f == f && calls == 0
    {
      this.f := f;
      calls := 0;
    }

    method Call() returns (v: T)
      modifies this
      ensures calls == old(calls) + 1
      ensures v == f(old(calls))
    {
      v := f(calls);
      calls := calls + 1;
    }
  }

  class GenAccessor<T> {
    const generator: Generator<T>
    var toInvoke: nat
    /** The generator's call count when the cursor was made, and how many times
        the cursor has advanced since. */
    ghost const base: nat
    ghost var pos: nat

    /** Every call the cursor owes or has made adds up to one per position up to
        and including the current one (no other cursor calls the generator). */
    ghost predicate Valid()
      reads this, generator
    {
      generator.calls + toInvoke == base + pos + 1 && toInvoke <= pos + 1
    }

    /** The abstract cursor this one is: position `base + pos` of the generator's
        endless output. */
    ghost function View(): Cursor<T>
      reads this
    {
      Cursor(Endless(generator.f), base + pos)
    }

    constructor (generator: Generator<T>)
      ensures this.generator == generator && toInvoke == 1
      ensures base == generator.calls && pos == 0 && Valid()
    {
      this.generator := generator;
      toInvoke := 1;
      base := generator.calls;
      pos := 0;
    }

    /** `!=` is constantly true: a generator cursor never reaches an end. */
    function NotEquals(other: GenAccessor<T>): (r: bool)
      ensures r && View().Differs(other.View())
    {
      true
    }

    /** Every position of a generator holds a value. */
    function HasValue(): (r: bool)
      ensures r && View().HasValue()
    {
      true
    }

    /** `*`: a second dereference without `++` in between raises runtime_error;
        otherwise the generator is called exactly `toInvoke` times, the last result
        is returned and nothing is owed any more. */
    method Deref() returns (r: Result<T>)
      requires Valid()
      modifies this, generator
      ensures old(toInvoke) == 0 ==> r == Err(RuntimeError("double dereferencing GenAccessor"))
      ensures old(toInvoke) == 0 ==> toInvoke == 0 && generator.calls == old(generator.calls)
      ensures old(toInvoke) > 0 ==> r == Ok(generator.f(old(generator.calls) + old(toInvoke) - 1))
      ensures old(toInvoke) > 0 ==> toInvoke == 0 && generator.calls == old(generator.calls) + old(toInvoke)
      ensures r.Ok? ==> r.value == View().Deref()
      ensures pos == old(pos) && Valid()
    {
      if toInvoke == 0 {
        return Err(RuntimeError("double dereferencing GenAccessor"));
      }
      while toInvoke > 1
        invariant 1 <= toInvoke <= old(toInvoke)
        invariant generator.calls + toInvoke == old(generator.calls) + old(toInvoke)
        invariant pos == old(pos)
        decreases toInvoke
      {
        var _ := generator.Call();
        toInvoke := toInvoke - 1;
      }
      toInvoke := 0;
      var v := generator.Call();
      return Ok(v);
    }

    /** `++` only owes one more call; the generator is not called. */
    method Advance()
      requires Valid()
      modifies this
      ensures toInvoke == old(toInvoke) + 1 && pos == old(pos) + 1
      ensures generator.calls == old(generator.calls) && Valid()
      ensures View() == old(View()).Next()
    {
      toInvoke := toInvoke + 1;
      pos := pos + 1;
    }
  }

  /** After k advances since construction, dereferencing yields the generator's
      output number `base + k` whether or not earlier positions were dereferenced:
      dereferencing every position, or only the last, gives the same value. */
  method SkipAhead<T>(generator: Generator<T>, k: nat, touchEach: bool) returns (r: Result<T>)
    modifies generator
    ensures r == Ok(generator.f(old(generator.calls) + k))
  {
    var a := new GenAccessor(generator);
    var i := 0;
    while i < k
      invariant i <= k && a.generator == generator && a.base == old(generator.calls)
      invariant a.pos == i && a.Valid() && a.toInvoke >= 1
      decreases k - i
    {
      if touchEach {
        var _ := a.Deref();
      }
      a.Advance();
      i := i + 1;
    }
    r := a.Deref();
  }
}
