# Lazy stream pipeline — a Dafny model

The repository implements a small lazy stream library in C++
(`task-2a/include`). A `Stream` is a pair of cursors ("accessors") over a source.
That source can be an iterator range, a container the stream borrows or owns, an
initializer list or argument list, or a generator function. `stream >> modifier`
wraps the cursors in another cursor type (`map`, `filter`, `skip`, `get`, `group`)
without touching any element. `stream >> terminator` walks the cursors and
produces a result (`to_vector`, `reduce`, `sum`, `print_to`, `nth`).

Every cursor answers `==`/`!=`, `*` (dereference), `++` and `hasValue()`. A
position without a value is one a `skip` or `get` stage has passed over: the
walk still visits it, and the terminators skip it.

This project models:

* **Cursors** (`cursors.dfy`). The upstream every stage wraps is an abstract
  cursor value: a source that is either a finite run of cells (each cell a value
  and a `valued` flag) or an endless generator, plus an index. `Values` is what
  a terminator sees of a run (the valued cells, in order). `Contents` is every
  cell's value.
* **Leaf cursors.** `IterAccessor.h` becomes `IterAccessors.IterAccessor`, a
  class over a sequence and an index. `GenAccessor.h` becomes
  `GenAccessors.GenAccessor`, a class over a `Generator` object whose call count
  is its state, with the lazy `toInvoke` counter and the double-dereference
  error.
* **Stages.** `map.h`, `filter.h`, `skip.h`, `get.h` and `group.h` become the
  modules `MapStage`, `FilterStage`, `SkipStage`, `GetStage` and `GroupStage`.
  Each stage cursor is a class whose fields are the C++ members, with `modifies`
  on `++` and on every operation that advances lazily. Each class has a ghost
  `Out()`, the sequence the stage yields, defined by a pure function of the
  upstream run: `MapCells`, `Passing`, `SkipCells`, `Cut`/`Window` and `Chunks`.
  It also has a ghost `Pos()`, how far along `Out()` the cursor stands.
  `==`/`!=` against the end cursor are proved to say "`Pos()` reached
  `|Out()|`", `*` is proved to read `Out()[Pos()]`, and `++` moves `Pos()` on by
  one. A `Traverse` loop (`for (; b != e; ++b) ... *b`) is proved to visit
  exactly `Out()`.
* **Earlier cursors.** `FilterAccessor.h`, `SkipAccessor.h`, `GroupAccessor.h`,
  `RangeAccessor.h` with `get::rangeModify` in `Modifiers.h`, and the generic
  `Accessor.h`/`MapAccessor.h`/`ModifierAccessor.h`. `SkipAccessors` and
  `RangeAccessors` model the two that behave differently from the current
  stages, and are proved to agree with those stages over a container.
  `FilterAccessor.h` is the same algorithm as `filter.h`. `GroupAccessor.h` is
  `group.h` without its `n == 0` check, over an upstream whose every position
  holds a value. The three generic accessors are `map.h`'s cursor.
* **Terminators** (`Terminators.h`). These are methods with the source's loops,
  each proved equal to a pure specification: `FoldLeft`, `ReduceSpec`,
  `ReduceSeedSpec`, `Joined` and `NthSpec`. The specifications carry their own
  lemmas. `sum` of integers is their arithmetic sum and `sum` of strings their
  concatenation. Joining distributes over concatenation. `nth` finds value
  number `n` or reports `out_of_range`.
* **The stream** (`Stream.h`). `Streams.Stream` is a class with the owned
  container, the two cursors and the boundedness tag. It has every constructor
  and both forms of `>>`.
* **Scenarios** (`scenarios.dfy`, `complex.dfy`). The tests in `task-2a/test/src`
  are replayed on the model, with the expected result as the postcondition. The
  single-stage tests run the stage cursors. The pipelines of `ComplexTests.cpp`
  chain several stages, so `ComplexScenarios` composes the stages'
  specification functions: each stage's output run is the next stage's upstream.

## Model

| member | source | states |
|---|---|---|
| Cursors.ValuesAppend | task-2a/include/Terminators.h:118-136 | the values a walk collects over two adjacent runs are those of the first run followed by those of the second |
| Cursors.ValuesStep | task-2a/include/Terminators.h:122-127 | one more step of a walk adds the position's value exactly when it holds one |
| Cursors.ValuesOfAllValued | task-2a/include/IterAccessor.h:33-35 | over a container (every position valued) a walk yields the container's elements |
| Cursors.ValuesLength | task-2a/include/Terminators.h:118-136 | a walk yields at most one value per position, and every position's value when all are valued |
| IterAccessors.IterAccessor.constructor | task-2a/include/IterAccessor.h:15-17 | the cursor stands at the given index of the sequence |
| IterAccessors.IterAccessor.Equals | task-2a/include/IterAccessor.h:25-27 | equal exactly when both stand at the same position |
| IterAccessors.IterAccessor.NotEquals | task-2a/include/IterAccessor.h:29-31 | the exact negation of `==` |
| IterAccessors.IterAccessor.HasValue | task-2a/include/IterAccessor.h:33-35 | every position of an iterator range holds a value |
| IterAccessors.IterAccessor.Deref | task-2a/include/IterAccessor.h:37-42 | the element under the cursor |
| IterAccessors.IterAccessor.Advance | task-2a/include/IterAccessor.h:44-48 | moves exactly one position on |
| GenAccessors.Generator.Call | task-2a/include/GenAccessor.h:36-41 | each call returns the generator's next output and counts the call |
| GenAccessors.GenAccessor.constructor | task-2a/include/GenAccessor.h:12-14 | a fresh cursor owes one call of the generator |
| GenAccessors.GenAccessor.NotEquals | task-2a/include/GenAccessor.h:24-26 | two generator cursors always differ, so an unbounded walk never stops |
| GenAccessors.GenAccessor.HasValue | task-2a/include/GenAccessor.h:28-30 | every generator position holds a value |
| GenAccessors.GenAccessor.Deref | task-2a/include/GenAccessor.h:32-42 | dereferencing twice without `++` is a runtime_error and calls nothing; otherwise it makes the owed calls and yields the last output, the value at the cursor's position |
| GenAccessors.GenAccessor.Advance | task-2a/include/GenAccessor.h:44-48 | `++` only owes one more call; the generator is not called |
| GenAccessors.SkipAhead | task-2a/include/GenAccessor.h:53 | however the owed calls are split between steps, the value read after `k` steps is output number `calls + k` |
| MapStage.MapCells | task-2a/include/map.h:43-45 | the mapped run has the same positions; each value is transformed and each position's valued flag kept |
| MapStage.MapCursorStep | task-2a/include/map.h:31-51 | the mapped cursor agrees with its upstream on `==`, range and `hasValue`; `*` is `f` of the upstream value; `++` commutes with mapping |
| MapStage.MapBetween | task-2a/include/map.h:72-76 | mapping both ends of a range maps the run between them |
| MapStage.MapValues | task-2a/include/map.h:43-45 | the values a walk over the mapped run yields are the upstream values, transformed, in order |
| MapStage.Accessor.constructor | task-2a/include/map.h:20-23 | the cursor holds the upstream cursor and the transform |
| MapStage.Accessor.Equals | task-2a/include/map.h:31-33 | equal exactly when the upstream cursors are |
| MapStage.Accessor.NotEquals | task-2a/include/map.h:35-37 | the exact negation of `==` |
| MapStage.Accessor.HasValue | task-2a/include/map.h:39-41 | forwarded from the upstream |
| MapStage.Accessor.Deref | task-2a/include/map.h:43-45 | the transform applied to the upstream value |
| MapStage.Accessor.Advance | task-2a/include/map.h:47-51 | advances the upstream once |
| MapStage.Modify | task-2a/include/map.h:72-76 | wraps both cursors with the same transform |
| FilterStage.PassingStep | task-2a/include/filter.h:76-87 | one more upstream position adds its value exactly when the predicate accepts it |
| FilterStage.PassingAppend | task-2a/include/filter.h:76-87 | filtering two adjacent runs is filtering each and concatenating |
| FilterStage.PassingSplit | task-2a/include/filter.h:76-87 | filtering a run is filtering its two halves, split at any position |
| FilterStage.PassingSound | task-2a/include/filter.h:100-104 | every value kept passes the predicate and comes from the run; a predicate accepting all keeps all, one rejecting all keeps none |
| FilterStage.PassingHead | task-2a/include/filter.h:76-87 | when the first position passes, its value leads the output |
| FilterStage.Accessor.constructor | task-2a/include/filter.h:23-28 | a new cursor has read nothing and stands at output position 0 |
| FilterStage.Accessor.Skip | task-2a/include/filter.h:76-87 | moves the upstream to the next position whose value passes, or to end; caches that value; a second call changes nothing |
| FilterStage.Accessor.Equals | task-2a/include/filter.h:38-42 | settles the skip, then compares upstream cursors; against end, true exactly when the output is exhausted |
| FilterStage.Accessor.NotEquals | task-2a/include/filter.h:44-48 | the negation of `==`; against end, true exactly when output remains |
| FilterStage.Accessor.Deref | task-2a/include/filter.h:50-56 | the next value that passes; at the end, the upstream value at end, or out_of_range when that position does not exist |
| FilterStage.Accessor.Advance | task-2a/include/filter.h:58-65 | moves one output value on and forgets the cached value; the upstream stands one past the position holding the output value it left, which is one step on when a value was cached |
| FilterStage.SeekPassing | task-2a/include/filter.h:80-86 | the loop of `skip()`: every position passed over is rejected, and where it stops before end the value passes |
| FilterStage.Modify | task-2a/include/filter.h:100-104 | the begin cursor's output is the upstream run filtered by the predicate; the end cursor yields nothing |
| FilterStage.Traverse | task-2a/include/filter.h:44-65 | a walk from begin to end yields exactly the values that pass, in order |
| SkipStage.SkipCells | task-2a/include/skip.h:42-55 | same positions and values; a position holds a value exactly when at least `n` positions come before it and the upstream position holds one |
| SkipStage.Remaining | task-2a/include/skip.h:50-55 | the skip counter after `k` steps is `n - k`, stopping at 0 |
| SkipStage.SkipCellsAsWritten | task-2a/include/skip.h:42-55 | as written: a position holds a value only when exactly `n` positions come before it |
| SkipStage.ValuesOfNone | task-2a/include/skip.h:42-44 | a run with no valued position yields nothing |
| SkipStage.SkipValues | task-2a/include/skip.h:42-55 | the values after skipping are the upstream values from position `n` on |
| SkipStage.SkipElements | task-2a/include/skip.h:69-73 | over a container, skip(n) yields the elements after the first `n`, or nothing when there are not that many |
| SkipStage.SkipZeroAsWritten | task-2a/include/skip.h:53 | skip(0) over (10, 217) yields only 10 as written, and (10, 217) corrected |
| SkipStage.SkipTwoAsWritten | task-2a/include/skip.h:53 | skip(2) over (1, 10, 22, 5, 278) yields only 22 as written, and (22, 5, 278) corrected |
| SkipStage.Accessor.constructor | task-2a/include/skip.h:19-24 | a new cursor stands at output position 0 |
| SkipStage.Accessor.Equals | task-2a/include/skip.h:34-36 | compares upstream cursors; against end, true exactly when the output is exhausted |
| SkipStage.Accessor.NotEquals | task-2a/include/skip.h:38-40 | the negation of `==`; always true over a generator |
| SkipStage.Accessor.HasValue | task-2a/include/skip.h:42-44 | true exactly when `n` positions lie behind and the upstream position holds a value |
| SkipStage.Accessor.Deref | task-2a/include/skip.h:46-48 | the upstream value, whether or not the position counts |
| SkipStage.Accessor.Advance | task-2a/include/skip.h:50-55 | advances once and counts the skip down, never below 0 |
| SkipStage.Modify | task-2a/include/skip.h:69-73 | the begin cursor's output is the upstream run with its first `n` positions emptied |
| SkipStage.Traverse | task-2a/include/skip.h:38-55 | a walk yields the upstream values from the `n`-th position on |
| SkipStage.Step | task-2a/include/skip.h:38-55 | one step of a walk: the value read is the output at the current position, and the position moves on by one |
| GetStage.CutFrom | task-2a/include/get.h:46-53 | where the walk stops: at the end of the run or once `n` values have been passed |
| GetStage.Cut | task-2a/include/get.h:30-36 | the stopping position lies within the run |
| GetStage.CutFromSame | task-2a/include/get.h:46-53 | the stopping position does not depend on where along the way the walk is resumed |
| GetStage.CutBound | task-2a/include/get.h:30-53 | before the stop, fewer than `n` values have been passed; the walk goes on exactly while that holds and the run lasts |
| GetStage.TakeValues | task-2a/include/get.h:30-53 | get(n) yields the first min(n, L) values of the upstream |
| GetStage.TakeElements | task-2a/include/get.h:70-74 | over a container, get(n) yields its first min(n, L) elements |
| GetStage.CutShort | task-2a/include/get.h:34-36 | a run of at most `n` positions passes get(n) whole |
| GetStage.TakeGenerated | task-2a/include/get.h:10 | over a generator, get(n) yields the next `n` outputs, so the stream it makes is finite |
| GetStage.Accessor.constructor | task-2a/include/get.h:19-22 | the cursor holds the upstream cursor and the count of values passed |
| GetStage.Accessor.Equals | task-2a/include/get.h:30-32 | equal when the counts or the upstream cursors are; against end, true exactly when the output is exhausted |
| GetStage.Accessor.NotEquals | task-2a/include/get.h:34-36 | the negation of `==`; against end, true exactly when output remains |
| GetStage.Accessor.EndTest | task-2a/include/get.h:34-36 | output remains exactly when fewer than `n` values are passed and the upstream has not reached end |
| GetStage.Accessor.HasValue | task-2a/include/get.h:38-40 | forwarded from the upstream |
| GetStage.Accessor.Deref | task-2a/include/get.h:42-44 | the upstream value at the output position |
| GetStage.Accessor.OutAt | task-2a/include/get.h:38-44 | inside the window the upstream is in range and its position is the output at the current position |
| GetStage.Accessor.Advance | task-2a/include/get.h:46-53 | the count grows only when the position left held a value; moves one position on |
| GetStage.Modify | task-2a/include/get.h:70-74 | the begin cursor's output is the upstream run cut after `n` values |
| GetStage.Step | task-2a/include/get.h:42-53 | one step of a walk collects the position's value when it holds one |
| GetStage.Traverse | task-2a/include/get.h:30-53 | a walk yields the values of the cut run |
| GroupStage.ChunksFlatten | task-2a/include/group.h:49-66 | the groups, concatenated, are the upstream run |
| GroupStage.ChunksSizes | task-2a/include/group.h:49-66 | every group has `n` elements except the last, which has between 1 and `n`; there are ceil(L / n) groups (the count k has (k - 1)·n < L <= k·n), none for an empty run |
| GroupStage.ChunksCount | task-2a/include/group.h:49-66 | a non-empty run of L positions gives k groups with (k - 1)·n < L <= k·n, i.e. ceil(L / n) |
| GroupStage.ChunksFull | task-2a/include/group.h:49-66 | a run of k·n positions is exactly k groups of `n` |
| GroupStage.OneChunk | task-2a/include/group.h:49-66 | a run of at most `n` elements is one group |
| GroupStage.ChunksHead | task-2a/include/group.h:49-66 | the first group is the first min(n, L) elements |
| GroupStage.ChunksOfElements | task-2a/include/group.h:80-84 | over a container, grouping the cells and taking each group's values is grouping the elements |
| GroupStage.GroupTwo | task-2a/test/src/GroupTests.cpp:24-33 | group(2) over seven values: three pairs and a single |
| GroupStage.GroupAll | task-2a/test/src/GroupTests.cpp:35-41 | group(100) over five values is one group |
| GroupStage.GroupAfterSkipAsWritten | task-2a/include/group.h:53-55 | skip(1) then group(10) over (1): as written one group [1]; corrected one empty group |
| GroupStage.Accessor.constructor | task-2a/include/group.h:24-31 | a new cursor stands at group 0 |
| GroupStage.Accessor.Equals | task-2a/include/group.h:41-43 | compares upstream cursors; against end, true exactly when no group remains |
| GroupStage.Accessor.NotEquals | task-2a/include/group.h:45-47 | the negation of `==` |
| GroupStage.Accessor.Current | task-2a/include/group.h:49-58 | the current group is the next min(n, remaining) upstream positions |
| GroupStage.Accessor.Deref | task-2a/include/group.h:49-58 | the values of the current group's valued positions |
| GroupStage.Accessor.DerefAsWritten | task-2a/include/GroupAccessor.h:41-50 | as written: every position's value in the current group |
| GroupStage.Accessor.Advance | task-2a/include/group.h:60-66 | moves to the next group, `n` positions on or to end; at end it stays |
| GroupStage.Accessor.NextChunk | task-2a/include/group.h:60-66 | the group at the current position holds the next `n` upstream values (fewer at the end), and the groups still ahead are those of the values after them |
| GroupStage.Reach | task-2a/include/group.h:52-56 | a group spans min(n, remaining) positions |
| GroupStage.ChunksStep | task-2a/include/group.h:49-66 | grouping a run is its first group followed by grouping the rest |
| GroupStage.CollectValues | task-2a/include/group.h:52-56 | the loop of `*`: the values of the valued positions of the group |
| GroupStage.CollectContents | task-2a/include/GroupAccessor.h:41-50 | the loop of `*` as written: every position's value |
| GroupStage.Walk | task-2a/include/group.h:60-66 | the loop of `++`: stops `n` positions on or at end |
| GroupStage.Make | task-2a/include/group.h:24-31 | invalid_argument for `n == 0`; otherwise a cursor at group 0 |
| GroupStage.Modify | task-2a/include/group.h:80-84 | invalid_argument for `n == 0`; otherwise the begin cursor's output is the run split into groups of `n` |
| GroupStage.Step | task-2a/include/group.h:49-66 | one step of a walk yields the current group's values |
| GroupStage.Traverse | task-2a/include/group.h:45-66 | a walk yields every group's values, in order |
| SkipAccessors.DropClamped | task-2a/include/SkipAccessor.h:63-67 | what is left of a run after its first `n` elements, none when fewer |
| SkipAccessors.AgreesWithStage | task-2a/include/SkipAccessor.h:63-67 | over a container the earlier skip and the skip stage yield the same values |
| SkipAccessors.SkipAccessor.constructor | task-2a/include/SkipAccessor.h:16-21 | a new cursor has taken no step |
| SkipAccessors.SkipAccessor.Skip | task-2a/include/SkipAccessor.h:63-67 | steps past at most `n` positions, stopping at end; a second call changes nothing |
| SkipAccessors.SkipAccessor.Equals | task-2a/include/SkipAccessor.h:31-35 | settles the skip, then compares; against end, true exactly when the output is exhausted |
| SkipAccessors.SkipAccessor.NotEquals | task-2a/include/SkipAccessor.h:37-41 | settles the skip; against end, true exactly when output remains |
| SkipAccessors.SkipAccessor.Deref | task-2a/include/SkipAccessor.h:43-47 | settles the skip, then reads the next remaining element |
| SkipAccessors.SkipAccessor.Advance | task-2a/include/SkipAccessor.h:49-55 | settles the skip, then moves one element on |
| SkipAccessors.Step | task-2a/include/SkipAccessor.h:37-55 | one step of a walk reads the next remaining element |
| SkipAccessors.Traverse | task-2a/include/SkipAccessor.h:37-55 | a walk yields the elements after the first `n` |
| RangeAccessors.RangeAccessor.constructor | task-2a/include/RangeAccessor.h:16-19 | the cursor holds the upstream cursor and its step count |
| RangeAccessors.RangeAccessor.Copy | task-2a/include/RangeAccessor.h:21 | the copy holds the same cursor, count and window |
| RangeAccessors.RangeAccessor.Equals | task-2a/include/RangeAccessor.h:29-31 | equal when the counts or the upstream cursors are; against the end cursor `rangeModify` built, equal exactly when the walk has visited its whole window |
| RangeAccessors.RangeAccessor.NotEquals | task-2a/include/RangeAccessor.h:33-35 | the negation of `==`; against the end cursor, true exactly when positions of the window remain |
| RangeAccessors.RangeAccessor.Deref | task-2a/include/RangeAccessor.h:37-39 | inside the window, the element at the current position of the window |
| RangeAccessors.RangeAccessor.Advance | task-2a/include/RangeAccessor.h:41-46 | counts the step and advances the upstream once; a walk inside its window stays valid |
| RangeAccessors.RangeModify | task-2a/include/Modifiers.h:14-26 | the end cursor stands min(n, L) positions on with count `n`, is the upstream end when the range runs out first, and is the end of the begin cursor's window |
| RangeAccessors.Take | task-2a/include/Modifiers.h:14-26 | a walk visits the first min(n, L) elements, or the next `n` outputs of a generator |
| RangeAccessors.AgreesWithStage | task-2a/include/Modifiers.h:14-26 | over a container the earlier get and the get stage yield the same elements |
| Terminators.FirstOrThrow | task-2a/include/Terminators.h:8-18 | out_of_range with the given message exactly when there is no value; otherwise the first valued position, whose value is the first value |
| Terminators.Accumulate | task-2a/include/Terminators.h:33-38 | the loop of both `reduce`s folds the remaining values onto the seed |
| Terminators.FoldNext | task-2a/include/Terminators.h:33-38 | one turn of the `reduce` loop folds in the value at the cursor when there is one and leaves the result unchanged otherwise |
| Terminators.ReduceWith | task-2a/include/Terminators.h:28-39 | `identity` of the first value, then the rest folded on; out_of_range for no values |
| Terminators.SplitAtFirst | task-2a/include/Terminators.h:28-39 | when the first valued position is found, the values of the range are its value followed by the values after it |
| Terminators.Reduce | task-2a/include/Terminators.h:53-64 | the first value, then the rest folded on; out_of_range for no values |
| Terminators.Sum | task-2a/include/Terminators.h:77-81 | the values added up; out_of_range exactly when there are none |
| Terminators.PrintEach | task-2a/include/Terminators.h:100-104 | the loop of `print_to` writes delimiter and value for each remaining value |
| Terminators.DelimitedNext | task-2a/include/Terminators.h:100-104 | one turn of the `print_to` loop appends delimiter and value when the cursor has a value and nothing otherwise |
| Terminators.PrintTo | task-2a/include/Terminators.h:91-107 | the stream's values written with the delimiter between them, nothing for no values; the same stream is returned |
| Terminators.JoinedHead | task-2a/include/Terminators.h:91-107 | the joined text of a non-empty run is its first part followed by the delimited rest, as `print_to` writes it |
| Terminators.ToVector | task-2a/include/Terminators.h:118-136 | the stream's values, in order |
| Terminators.Nth | task-2a/include/Terminators.h:145-159 | value number `n` of a finite stream, or out_of_range when it has fewer; over a generator output number `n` |
| Terminators.NextValued | task-2a/include/Terminators.h:152-156 | the second loop of `nth`: moves to the next valued position or to end, passing no value |
| Terminators.SkipValued | task-2a/include/Terminators.h:147-150 | the first loop of `nth`: passes exactly `n` values, or stops at end having passed fewer |
| Terminators.NthFound | task-2a/include/Terminators.h:152-156 | a valued position after `n` values holds value number `n` |
| Terminators.NthMissing | task-2a/include/Terminators.h:158 | reaching end having passed at most `n` values means value number `n` does not exist |
| Terminators.FoldLeftAppend | task-2a/include/Terminators.h:33-38 | folding two runs is folding the second onto the fold of the first |
| Terminators.SumIsArithmeticSum | task-2a/include/Terminators.h:77-81 | `sum` of integers is their arithmetic sum |
| Terminators.SumIsConcatenation | task-2a/include/Terminators.h:77-81 | `sum` of strings is their concatenation |
| Terminators.JoinedAppend | task-2a/include/Terminators.h:91-107 | printing two runs is printing each, with one delimiter between |
| Terminators.DelimitedCons | task-2a/include/Terminators.h:100-104 | the loop's output is delimiter and first value, then the rest |
| Streams.Stream.constructor | task-2a/include/Stream.h:119-125 | the private constructor takes the container, the cursors and the tag as given |
| Streams.Stream.Move | task-2a/include/Stream.h:84-88 | the new stream takes over the container, cursors and tag, and leaves the old one an empty container |
| Streams.Stream.Then | task-2a/include/Stream.h:92-108 | `>>` with a modifier: a new stream over the transformed cursors, owning the moved container and keeping the tag; a finite stream's values come out transformed, in order |
| Streams.Stream.ToVector | task-2a/include/Stream.h:110-116 | `>> to_vector()` on a finite stream yields its values |
| Streams.Stream.Reduce | task-2a/include/Stream.h:110-116 | `>> reduce(accum)` on a finite stream; out_of_range exactly when it is empty |
| Streams.Stream.ReduceWith | task-2a/include/Stream.h:110-116 | `>> reduce(identity, accum)` on a finite stream; out_of_range exactly when it is empty |
| Streams.Stream.PrintTo | task-2a/include/Stream.h:110-116 | `>> print_to(os, delimiter)` writes the joined values and returns `os` |
| Streams.Stream.Nth | task-2a/include/Stream.h:110-116 | `>> nth(n)`, admitted on any stream; over a generator output number `n` |
| Streams.Over | task-2a/include/Stream.h:52-56 | the cursor pair over a whole container walks its elements |
| Streams.FromRange | task-2a/include/Stream.h:46-50 | the stream over an iterator pair owns nothing and is finite |
| Streams.FromContainer | task-2a/include/Stream.h:52-56 | the stream over a borrowed container owns nothing and walks its elements |
| Streams.FromOwned | task-2a/include/Stream.h:58-63 | the stream owns the moved container and walks its elements |
| Streams.FromList | task-2a/include/Stream.h:65-69 | the stream owns a container built from the list |
| Streams.FromValues | task-2a/include/Stream.h:77-80 | the stream owns a container of its arguments, never empty |
| Streams.FromGenerator | task-2a/include/Stream.h:71-75 | the stream over a generator is infinite, owns nothing, and its begin and end never compare equal |
| Streams.ThenCoherent | task-2a/include/Stream.h:92-108 | mapping the cursors keeps them coherent with the same tag and maps the values |
| Streams.ThenTagAsWrittenOverGenerator | task-2a/include/Stream.h:92-108 | as written, mapping a generator stream tags it finite though its cursors never meet; keeping the tag keeps it coherent |
| Scenarios.PointerRange | task-2a/test/src/StreamTests.cpp:12-18 | an array range yields its six elements |
| Scenarios.ContainerCopyAndMove | task-2a/test/src/StreamTests.cpp:36-57 | a borrowed and a moved-in vector yield their elements |
| Scenarios.MapDoubles | task-2a/test/src/MapTests.cpp:17-23 | map(x + x) over (1, 4) yields (2, 8) |
| Scenarios.MapToText | task-2a/test/src/MapTests.cpp:25-31 | map(to_string) yields "3", "10", "228", "115" |
| Scenarios.MapToSize | task-2a/test/src/MapTests.cpp:33-39 | map(size) yields 1, 2, 5 |
| Scenarios.ReduceSums | task-2a/test/src/ReduceTests.cpp:11-19 | reduce(a + b) over (1, 2) is 3; over nothing out_of_range |
| Scenarios.ReduceToText | task-2a/test/src/ReduceTests.cpp:23-28 | reduce with identity to_string over (5, 15, 24) is "5 15 24" |
| Scenarios.Sums | task-2a/test/src/SumTests.cpp:10-20 | sum of (10, -15) is -5; of four strings "abcdefg" |
| Scenarios.PrintInts | task-2a/test/src/PrintToTests.cpp:16-54 | print_to over (2, 10) writes "2 10", and "2+10" with "+" |
| Scenarios.PrintStrings | task-2a/test/src/PrintToTests.cpp:56-63 | print_to with "..." writes "one...two...:D" |
| Scenarios.PrintNothing | task-2a/test/src/PrintToTests.cpp:65-74 | `Stream(1) >> skip(1) >> print_to(cout, "oooooo")` prints nothing, not even the delimiter |
| Scenarios.NthOfTwo | task-2a/test/src/NthTests.cpp:7-15 | nth(0) over (2, 10) is 2; nth(10) out_of_range |
| Scenarios.FilterEven | task-2a/test/src/FilterTests.cpp:28-34 | filter(even) over one to six yields (2, 4, 6) |
| Scenarios.FilterAll | task-2a/test/src/FilterTests.cpp:12-18 | filter(true) keeps (1, 2) |
| Scenarios.FilterNone | task-2a/test/src/FilterTests.cpp:20-26 | filter(false) keeps nothing |
| Scenarios.FilterThree | task-2a/test/src/FilterTests.cpp:36-42 | filter(x == 3) over one to six yields (3) |
| Scenarios.OnlyThree | task-2a/test/src/FilterTests.cpp:36-42 | filter(x == 3) over the cells one to six lets through exactly (3) |
| Scenarios.SkipTwo | task-2a/test/src/SkipTests.cpp:26-32 | skip(2) yields (22, 5, 278) |
| Scenarios.SkipNothing | task-2a/test/src/SkipTests.cpp:10-16 | skip(0) over (10, 217) yields both |
| Scenarios.SkipAll | task-2a/test/src/SkipTests.cpp:18-24 | skip(100) over four values yields nothing |
| Scenarios.SkipOneThenTerminate | task-2a/test/src/SumTests.cpp:22-24 | skip(1) over (1) then sum is out_of_range, and print_to writes nothing |
| Scenarios.GetFour | task-2a/test/src/GetTests.cpp:22-28 | get(4) yields the first four values |
| Scenarios.GetNone | task-2a/test/src/GetTests.cpp:14-20 | get(0) yields nothing |
| Scenarios.GetAll | task-2a/test/src/GetTests.cpp:30-36 | get(100) over six values yields all six |
| Scenarios.GetFromGenerator | task-2a/test/src/GetTests.cpp:49-56 | get(4) over a counting generator yields (0, 1, 2, 3) |
| Scenarios.GetNoneGenerated | task-2a/test/src/GetTests.cpp:40-47 | get(0) over a generator yields nothing |
| Scenarios.GroupPairs | task-2a/test/src/GroupTests.cpp:11-33 | group(2) yields three pairs and a single; group(0) is invalid_argument |
| Scenarios.GroupEverything | task-2a/test/src/GroupTests.cpp:35-41 | group(100) yields one group of all five values |
| ComplexScenarios.Traceable | task-2a/test/src/ComplexTests.cpp:49-64 | skip(3), get(10), group(5), filter(size < 5), map(size), nth(0) over any ten elements gives 2 |
| ComplexScenarios.TraceableOverVector | task-2a/test/src/ComplexTests.cpp:49-64 | the pipeline over a vector of ten elements gives 2 |
| ComplexScenarios.TraceableAfterMap | task-2a/test/src/ComplexTests.cpp:25-38 | with a map in front over ten elements, the pipeline still gives 2 |
| ComplexScenarios.TraceableAsWritten | task-2a/include/group.h:53-55 | with skip and group as written, the same pipeline raises out_of_range "n is out of range" instead |
| ComplexScenarios.PassingTwo | task-2a/include/filter.h:76-87 | filtering two values keeps those the predicate accepts, in order |
| ComplexScenarios.AboveFiveKept | task-2a/test/src/ComplexTests.cpp:89-91 | filter(> 5) over twenty values, the first six at most 5 and the rest above 5, keeps exactly the last fourteen |
| ComplexScenarios.PairsKept | task-2a/test/src/ComplexTests.cpp:89-95 | group(2) of the fourteen values kept is seven pairs, and filter(size == 2) keeps all of them |
| ComplexScenarios.GroupOfSeven | task-2a/test/src/ComplexTests.cpp:96-99 | group(10) over seven positions, then map(size), yields (7) |
| ComplexScenarios.SixThenAboveGivesSeven | task-2a/test/src/ComplexTests.cpp:85-99 | filter(> 5), group(2), filter(size == 2), group(10), map(size), nth(0) gives 7 over any twenty values whose first six are at most 5 and the rest above 5 |
| ComplexScenarios.UniquePtr | task-2a/test/src/ComplexTests.cpp:77-131 | map, filter(> 5), group(2), filter(size == 2), group(10), map(size), nth(0) over the numbered twenty gives 7 |

## Left out

- Output streams: `print_to` writes into a modelled `Ostream` whose state is the text written so far. Formatting with `operator<<` is a `show` function, which is decimal text for integers.
- The debugging output to `std::cout` inside `to_vector` (Terminators.h:129-133) is not modelled.
- The compile-time checks (`static_assert` on the stream tag, Terminators.h:30, 55, 93, 120) become the `requires tag == FiniteTag` of the terminators that demand a finite stream.
- `TypeTraits.h` and `Utils.h` (type-level dispatch) are replaced by Dafny generics, the `Source` datatype and the `Tag` datatype.
- The cache map of task-1c, the `Traceable`/`Noizy` test helpers and the test `main` files are outside this model.
- References, lifetimes, copying and `std::forward`/`std::move` are not modelled. A borrowed container and a copied one both become a sequence value.
- The `size_t` width of counters (`toInvoke`, `pos`, `n`) is unbounded in the model, except for skip's counter, which is the subject of a finding.
- Streams.Stream.Then: only per-value modifiers (`map`) are composed through the stream class. `filter`, `skip`, `get` and `group` are composed on cursor values in the scenarios, because their cursors are stateful objects and not cursor values.
- Streams.Stream: holds abstract cursor values rather than accessor objects. Calling a two-argument `terminate` and the generic `Accessor` with `modify(v)` are therefore not modelled literally.
- FilterStage, GroupStage, SkipAccessors and GroupAccessor.h are modelled over a finite upstream only: a generator upstream is not covered for these cursors. Their cursors would still yield values lazily over a generator; only a walk to the end would not end.
- GroupStage.Accessor.DerefAsWritten: GroupAccessor.h has no `n == 0` check, so its model takes `n > 0` as given.
- `filter.h` and `FilterAccessor.h` test every upstream position with the predicate, without asking `hasValue()`. The model does the same (`FilterStage.Passing` reads every cell's value).
- FilterStage.Accessor.Deref: with no output left, filter.h:55 reads `*sAccessor` on the upstream end. For a container iterator that read is undefined behaviour and raises nothing. The `Err(OutOfRange("dereferencing the end of a filtered stream"))` for an end without a position is the model's own stand-in for that undefined read.
- The stage classes cannot be fed into one another: each holds its upstream as a `Cursor` value, and `Endless` positions always hold a value. So the pipelines of ComplexTests.cpp are replayed on the stages' specification functions, not on chained cursor objects, and a chain such as `generator >> skip >> get` cannot be expressed.
- filter.h and group.h declare no `hasValue()` for their cursors, although `nth` (Terminators.h:148, 153) and `map` (map.h:39-41) call it on their upstream. `ComplexScenarios` takes every position of a filter or group output to hold a value.
- Transforms and predicates are pure functions. The counting map of ComplexTests.cpp:85-88 (`*ptr = a++`) gives a different value each time `*` recomputes it (map.h:43-45), and some positions are read more than once: group(2)'s `*` copies the filter cursor (group.h:52), and group(10)'s `*` copies the whole chain, whose copied group(2) runs `++` and `!=` again (group.h:61-62, filter.h:44-46, 80-81). The counter only rises, so its outputs strictly increase: positions 0 to 5 are read once each, get 0 to 5 and are rejected, and every later read returns at least 6 and passes. Every filter verdict and every group size is therefore that of the run 0 to 19; `ComplexScenarios.SixThenAboveGivesSeven` proves 7 for any such run, and `ComplexScenarios.UniquePtr` is its instance on 0 to 19. A map evaluated more than once per position is not expressible.
- The counting map returns `move(ptr)` (ComplexTests.cpp:85-88), so a second evaluation on the same position moves from a pointer already moved from and dereferences null; that undefined behaviour is not modelled.
- The copy and destructor counts ComplexTests.cpp checks (lines 40-46 and 66-74) concern object lifetimes and are not modelled.
- `filter`, `skip` and `group` in Modifiers.h are unfinished placeholders in the source and are not modelled.
- The `ResultTag` declarations in Modifiers.h (lines 8 and 35) are never read by `Stream.h` and are not modelled.
- The empty-range and list-container constructor tests (StreamTests.cpp:27-34, 43-50, 59-64) behave like the vector tests and are not replayed separately.
- `reduce` with an identity over an empty stream (ReduceTests.cpp:30-33) is covered by `Terminators.ReduceWith` and not replayed separately.

## Findings

| source | as written | input that shows it | evidently intended | confidence | as-written member | corrected member |
|---|---|---|---|---|---|---|
| task-2a/include/skip.h:53 | `++` decrements the unsigned skip counter without checking for 0, so it wraps to the largest `size_t` and `hasValue()` (`n == 0`) becomes false again | skip(0) over (10, 217) yields (10); skip(2) over (1, 10, 22, 5, 278) yields (22) | the counter stops at 0: skip(0) yields (10, 217), skip(2) yields (22, 5, 278), as SkipTests.cpp:10-32 expects | high, not executed | SkipStage.SkipZeroAsWritten | SkipStage.SkipCells |
| task-2a/include/group.h:53-55 | `*` appends every upstream position's value to the group, including positions that hold no value | skip(1) then group(10) over (1) yields [[1]]; the ComplexTests.cpp:49-64 pipeline raises out_of_range instead of giving 2 (ComplexScenarios.TraceableAsWritten) | only valued positions enter a group: [[]], as GroupTests.cpp:15-22 expects | high, not executed | GroupStage.GroupAfterSkipAsWritten | GroupStage.Accessor.Deref |
| task-2a/include/Stream.h:92-108 | `>>` with a modifier builds the new stream type with `BadType` as its generator parameter, so its tag is always the finite one | a generator stream `>> map(f)` is tagged finite although its cursors never meet, so `to_vector` compiles and never ends | a per-value modifier (`map`) keeps the tag of the stream it came from; `get` declares its own finite tag (get.h:10), which GetTests.cpp:40-56 rely on | medium, not executed | Streams.ThenTagAsWrittenOverGenerator | Streams.Stream.Then |
