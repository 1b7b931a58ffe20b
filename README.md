# flic core in Dafny

A model of the core of *flic*, a small C++ library of lazy
functional-style sequences. Sequences are built from cursors ("indexes"):
- `Index`, over a pair of container iterators;
- `IntegralIndex`, an arithmetic progression;
- `OptionIndex`, over an `Option`.

The adapters wrap a cursor lazily:
- `MappedIndex` applies a function to each element;
- `FilteredIndex` keeps the accepted elements;
- `ZippedIndex` pairs two cursors.

The `Applier` facade builds such chains (`map`, `filter`). It also drives them to exhaustion with the terminal operations `toVector`, `toList`, `fold`, `foldLeft`, `foldRight`, `foreach`, `exists`, `forAll` and `makeString`. `Option` and `Either` are the library's value types.

How the model is laid out:
- **Cursors** (`cursor.dfy`). The C++ templates accept any type with `isValid()`/`isDefined()`, `get()` and `next()`. Here such a type is a dictionary `CursorOps<C, T>` of those operations.
  - `Lawful(ops)` states the protocol: `get()` is defined exactly when the cursor is valid, `next()` of a valid cursor lowers a rank, and `next()` of an invalid cursor stays invalid.
  - The ghost `Elems(ops, c)` is the sequence still ahead of cursor `c`. This is the denotation that every proof uses.
- **Concrete cursors** are pure datatypes and functions (`index.dfy`, `integral.dfy`, `optionindex.dfy`). Each instance of `CursorOps` is proved lawful.
- **Adapters** (`mapped.dfy`, `filtered.dfy`, `zipped.dfy`) are generic over the base's `CursorOps`. Over a lawful base each one is proved lawful, and its `Elems` is proved equal to `MapSeq`, `FilterSeq` or `Zip` of the base's. These reference definitions live in `sequences.dfy`.
  - `findFirst` appears twice: as the loop it is in the source (a method) and as a recursive function, and the two are proved equal.
- **Applier** (`applier.dfy`) is a datatype holding a cursor and its operations.
  - `map` and `filter` are functions.
  - The terminal operations are methods, and each postcondition ties the result to a reference function of `Elements()`.
  - `filler`, `foldLeft`, `foreach`, `exists`, `forAll` and `makeString` keep the source's `for (scan = m_source; scan.isValid(); scan = scan.next())` loop.
  - `toVector` and `toList` call `filler`, as in the source.
  - `fold` calls `foldLeft` instead of repeating that loop as the source does (sources/include/flic/Applier.hh:274-283). The two loops compute the same left fold.
  - `foldRight` copies the elements out with `toVector` and walks that copy backwards, as the source does.
- **Either** (`either.dfy`) is a datatype with its combinators. `swap`, the one member that changes objects in place, is a method on a class `EitherObject` holding the variant.

## Model

| member | source | states |
|---|---|---|
| Options.Option.IsDefined | sources/include/flic/Option.hh:46-50 | `isDefined()` holds exactly when the option is not `None` |
| Options.Option.IsEmpty | sources/include/flic/Option.hh:52-56 | `isEmpty()` is always the negation of `isDefined()` |
| Options.Option.Get | sources/include/flic/Option.hh:115-120 | `get()` returns the held value (`Some(get()) == this`); on an empty option it throws, here a precondition |
| Options.Option.Map | sources/include/flic/Option.hh:106-113 | `map(f)` is defined exactly when the receiver is, and then holds `f` of its value |
| Options.Option.FlatMap | sources/tests/Option.cc:56-70 | `flatMap(f)` is `f(value)` for a defined option, no double wrapping, and empty for an empty one |
| Options.Equal | sources/include/flic/Option.hh:58-63 | `==` holds iff both sides are empty or both are defined with equal values, i.e. iff the options are equal |
| Options.NotEqual | sources/include/flic/Option.hh:65-69 | `!=` holds iff the options differ |
| Options.SomeIsDefined | sources/tests/Option.cc:15-18 | `Some(a)` is defined, not empty, and `get()` gives `a` |
| Options.NoneIsEmpty | sources/include/flic/Option.hh:83-87 | `None` is empty and not defined |
| Options.MapIdentity | sources/include/flic/Option.hh:106-113 | mapping the identity changes nothing |
| Options.MapComposition | sources/include/flic/Option.hh:106-113 | mapping `f` then `g` equals mapping `g ∘ f` |
| Options.MapIsFlatMapOfSome | sources/tests/Option.cc:43-70 | `map(f)` equals `flatMap` of `Some ∘ f` |
| Options.FlatMapSome | sources/tests/Option.cc:56-70 | `flatMap(Some)` is the identity |
| Options.FlatMapAssociative | sources/tests/Option.cc:56-70 | `flatMap` is associative |
| Cursors.ElemsStep | sources/include/flic/Applier.hh:247-256 | for a lawful cursor: valid iff elements remain, `get()` is the first of them or `None`, and `next()` drops exactly that one |
| Sequences.FilterSeqKeepsAccepted | sources/include/flic/Applier.hh:59-68 | filtering keeps exactly the elements of the sequence that satisfy the predicate, in both directions |
| Sequences.FilterSkipRejected | sources/include/flic/FilteredIndex.hh:52-68 | skipping the leading rejected elements does not change what the filter keeps |
| Sequences.FoldLeftSnoc | sources/include/flic/Applier.hh:82-103 | a left fold applies `f` to the last element last |
| Sequences.FoldLeftReverse | sources/include/flic/Applier.hh:124-139 | the left fold over the reversed sequence, as `foldRight` computes it, is the right fold with the arguments of `f` swapped |
| Sequences.JoinWithoutSeparator | sources/include/flic/Applier.hh:190-191 | joining with the `'\0'` separator is plain concatenation |
| Sequences.JoinSnoc | sources/include/flic/Applier.hh:370-377 | appending one more rendered part puts the separator's glyph in front of it |
| Indexes.Begin | sources/include/flic/Index.hh:90-95 | the index built over a host sequence is at its first position |
| Indexes.IsValid | sources/include/flic/Index.hh:84-88 | `isValid()` holds iff the current position is before the end |
| Indexes.HasNext | sources/include/flic/Index.hh:112-116 | `hasNext()` is, as coded, the same test as `isValid()` |
| Indexes.Next | sources/include/flic/Index.hh:97-110 | `next()` moves one position on over the same host while valid, and leaves an invalid index unchanged |
| Indexes.Get | sources/include/flic/Index.hh:118-129 | `get()` is defined iff the index is valid, and then gives the host element at the current position |
| Indexes.Invalid | sources/include/flic/Index.hh:131-136 | `invalid()` is over the same host and never valid |
| Indexes.Ops | sources/include/flic/Index.hh:84-136 | `Index` satisfies the cursor protocol and the law of `invalid()` |
| Indexes.ElemsOfIndex | sources/include/flic/Index.hh:97-129 | the elements ahead of an index are the host from the current position on |
| Indexes.InvalidIsFixedPoint | sources/include/flic/Index.hh:131-136 | `invalid().next() == invalid()`, and nothing is ahead of it |
| Indexes.ElemsOfBegin | sources/include/flic/Index.hh:90-129 | walking an index from the beginning yields exactly the host, in order |
| Indexes.WalkFourElements | sources/tests/Index.cc:12-33 | walking `{0,1,2,3}` gives 0, 1, 2, 3 |
| Indexes.HasNextOnLastElement | sources/include/flic/Index.hh:45-51 | on the last element `hasNext()` is true although `next()` is not valid, contrary to its comment |
| IntegralIndexes.Make | sources/include/flic/IntegralIndex.hh:49-56 | the constructor stores begin, end and step, default step 1; a zero step is refused |
| IntegralIndexes.IsDefined | sources/include/flic/IntegralIndex.hh:72-83 | `isDefined()` is `current < end` for a positive step and `current > end` otherwise |
| IntegralIndexes.Next | sources/include/flic/IntegralIndex.hh:58-70 | `next()` adds `step` to `current` while defined and returns itself otherwise; end and step never change |
| IntegralIndexes.Get | sources/include/flic/IntegralIndex.hh:85-96 | `get()` is `Some(current)` while defined, `None` after |
| IntegralIndexes.Invalid | sources/include/flic/IntegralIndex.hh:98-102 | `invalid()` is `(end, end, step)` and never defined |
| IntegralIndexes.Ops | sources/include/flic/IntegralIndex.hh:58-102 | `IntegralIndex` satisfies the cursor protocol and the law of `invalid()` |
| IntegralIndexes.ElemsAreTerms | sources/include/flic/IntegralIndex.hh:58-70 | element `k` of the traversal is `current` plus `k` steps |
| IntegralIndexes.ElemsAreAhead | sources/include/flic/IntegralIndex.hh:72-83 | every element of the traversal is still before `end` in the direction of `step` |
| IntegralIndexes.ElemsStopAtEnd | sources/include/flic/IntegralIndex.hh:58-83 | the term right after the last element is no longer before `end` |
| IntegralIndexes.ElementOfIntegral | sources/include/flic/IntegralIndex.hh:58-83 | element `k` is `current + k*step` and is before `end`, and `current + n*step` is not, where `n` is the length |
| IntegralIndexes.CountOfIntegral | sources/include/flic/IntegralIndex.hh:58-83 | a defined index yields ceiling(distance / \|step\|) elements and an undefined one none, in both directions |
| IntegralIndexes.ThreeToSeven | sources/tests/IntegralIndex.cc:17-29 | `IntegralIndex{3, 7}` yields 3, 4, 5, 6 and is then invalid |
| IntegralIndexes.ThreeDownToZero | sources/tests/IntegralIndex.cc:56-68 | `IntegralIndex{3, 0, -1}` yields 3, 2, 1 |
| IntegralIndexes.StepThree | sources/tests/IntegralIndex.cc:44-54 | with step 3 from `b` to `e`, element `k` is `b + 3k` and lies below `e` |
| IntegralIndexes.StepThreeStops | sources/tests/IntegralIndex.cc:47-53 | with step 3 from `b` to `e`, the walk stops once the next term `b + 3n` is no longer below `e`, `n` being the number of elements: so, with `StepThree`, it yields every `b + 3k` below `e` and then is invalid |
| IntegralIndexes.EmptyRange | sources/tests/IntegralIndex.cc:32-37 | `IntegralIndex{3, 3}` is invalid, its `next()` is itself, and it yields nothing |
| IntegralIndexes.InvalidIsFixedPoint | sources/include/flic/IntegralIndex.hh:98-102 | `invalid().next() == invalid()`, and nothing is ahead of it |
| IntegralIndexes.EqualAsWritten | sources/include/flic/IntegralIndex.hh:105-111 | `==` as written: when it holds, the currents are equal; when both ends are equal and non-zero and both steps are equal, it agrees with field-wise equality |
| IntegralIndexes.EqualAsWrittenNotReflexive | sources/include/flic/IntegralIndex.hh:105-111 | with `==` as written, every index whose end is 0 is not equal to itself |
| IntegralIndexes.EqualAsWrittenIgnoresEnd | sources/include/flic/IntegralIndex.hh:105-111 | with `==` as written, indexes with different ends compare equal |
| IntegralIndexes.Equal | sources/include/flic/IntegralIndex.hh:105-111 | the corrected `==` holds iff all three fields are equal |
| IntegralIndexes.EmptyRangeNextEqual | sources/tests/IntegralIndex.cc:34-37 | `IntegralIndex{3, 3}.next() == index` under the corrected `==` |
| OptionIndexes.IsDefined | sources/include/flic/OptionIndex.hh:100-105 | `isDefined()` holds iff the wrapped option is defined |
| OptionIndexes.Get | sources/include/flic/OptionIndex.hh:93-98 | `get()` is the wrapped option |
| OptionIndexes.Next | sources/include/flic/OptionIndex.hh:87-91 | `next()` is never defined and its `get()` is `None` |
| OptionIndexes.Ops | sources/include/flic/OptionIndex.hh:87-105 | `OptionIndex` satisfies the cursor protocol |
| OptionIndexes.ElemsOfOptionIndex | sources/include/flic/OptionIndex.hh:87-105 | an `OptionIndex` yields the option's value alone, or nothing when it is empty |
| OptionIndexes.WalkSomeThree | sources/tests/OptionIndex.cc:17-26 | over `Some(3)`: valid, `get() == Some(3)`, then after `next()` invalid with `get() == None` |
| OptionIndexes.WalkNone | sources/tests/OptionIndex.cc:28-34 | over `None`: invalid from the start, `get() == None`, yields nothing |
| MappedIndexes.IsValid | sources/include/flic/MappedIndex.hh:59-63 | `isValid()` is the base's validity: over a lawful base it holds exactly when `get()` yields a value |
| MappedIndexes.HasNext | sources/include/flic/MappedIndex.hh:45-50 | `hasNext()` is the base's `hasNext()`; the mapping function plays no part in it |
| MappedIndexes.Get | sources/include/flic/MappedIndex.hh:65-71 | `get()` is defined iff the base's is, and then is `f` of the base's element |
| MappedIndexes.Next | sources/include/flic/MappedIndex.hh:52-57 | `next()` is the mapped cursor over the base's `next()`, with the same function |
| MappedIndexes.Ops | sources/include/flic/MappedIndex.hh:45-71 | a `MappedIndex` over a lawful base is a lawful cursor |
| MappedIndexes.ElemsOfMapped | sources/include/flic/MappedIndex.hh:52-71 | a mapped cursor yields `f` applied to each base element, in order |
| MappedIndexes.HasNextOverIndex | sources/include/flic/MappedIndex.hh:45-50 | `hasNext()` delegates to the base: over an `Index` it is the validity |
| MappedIndexes.MapToString | sources/tests/MappedIndex.cc:12-35 | `to_string` mapped over `{0,1,2,3}` yields "0", "1", "2", "3" |
| FilteredIndexes.FindFirst | sources/include/flic/FilteredIndex.hh:52-68 | `findFirst` returns a cursor that is invalid or on an accepted element; what is ahead of it is what was ahead less the leading rejected elements; it never moves backwards |
| FilteredIndexes.FindFirstScan | sources/include/flic/FilteredIndex.hh:52-68 | the `while` loop of `findFirst` computes exactly `FindFirst` |
| FilteredIndexes.Create | sources/include/flic/FilteredIndex.hh:70-75 | the constructor moves the base onto its first accepted element (`findFirst`) and keeps the predicate |
| FilteredIndexes.IsDefined | sources/include/flic/FilteredIndex.hh:40-44 | `isDefined()` is the base's validity, with no recheck of the predicate: over a lawful base it holds exactly when `get()` yields a value |
| FilteredIndexes.Get | sources/include/flic/FilteredIndex.hh:46-50 | `get()` is the base's `get()`, with no recheck of the predicate |
| FilteredIndexes.Next | sources/include/flic/FilteredIndex.hh:77-85 | `next()` of an undefined cursor is itself; otherwise it advances the base once and re-runs `findFirst` with the same predicate |
| FilteredIndexes.Invalid | sources/include/flic/FilteredIndex.hh:101-105 | `invalid()` constructs a filtered cursor over the base's `invalid()` with the same predicate. The constructor's `findFirst` finds that base invalid and stores its `invalid()` in turn (`inv(inv(base))`). The result is undefined |
| FilteredIndexes.Ops | sources/include/flic/FilteredIndex.hh:40-105 | a `FilteredIndex` over a lawful base is a lawful cursor with a lawful `invalid()` |
| FilteredIndexes.CreateAccepting | sources/include/flic/FilteredIndex.hh:70-75 | after construction the cursor is undefined or on an accepted element |
| FilteredIndexes.NextAccepting | sources/include/flic/FilteredIndex.hh:77-85 | `next()` keeps that invariant |
| FilteredIndexes.InvalidAccepting | sources/include/flic/FilteredIndex.hh:101-105 | `invalid()` satisfies the invariant |
| FilteredIndexes.ElemsOfFiltered | sources/include/flic/FilteredIndex.hh:40-85 | a filtered cursor that keeps the invariant yields exactly the accepted base elements, in order |
| FilteredIndexes.ElemsOfCreate | sources/include/flic/FilteredIndex.hh:70-75 | a freshly built filtered cursor yields exactly the accepted base elements, in order |
| FilteredIndexes.InvalidIsFixedPoint | sources/include/flic/FilteredIndex.hh:77-83 | `invalid().next() == invalid()` |
| FilteredIndexes.AtLeastThree | sources/tests/FilteredIndex.cc:13-27 | `x >= 3` over `{0,...,5}` yields 3, 4, 5 |
| FilteredIndexes.EvenUpToSix | sources/tests/FilteredIndex.cc:29-43 | "even" over `{0,...,6}` yields 0, 2, 4, 6 |
| ZippedIndexes.IsDefined | sources/include/flic/ZippedIndex.hh:80-84 | `isDefined()` holds when both sides are defined; over lawful sides that is exactly when `get()` yields a pair |
| ZippedIndexes.Get | sources/include/flic/ZippedIndex.hh:62-78 | `get()` is defined iff both sides' are, and then is the pair of their elements |
| ZippedIndexes.Next | sources/include/flic/ZippedIndex.hh:54-60 | `next()` advances both sides |
| ZippedIndexes.Ops | sources/include/flic/ZippedIndex.hh:54-84 | a `ZippedIndex` over two lawful cursors is a lawful cursor |
| ZippedIndexes.StaysUndefined | sources/include/flic/ZippedIndex.hh:54-60 | once undefined, a zipped cursor stays undefined under `next()` |
| ZippedIndexes.ElemsOfZipped | sources/include/flic/ZippedIndex.hh:17-23 | the zipped cursor yields the pairs at equal positions, as long as the shorter side |
| ZippedIndexes.ZipEqualLengths | sources/tests/ZippedIndex.cc:19-33 | `IntegralIndex{0,3,1}` zipped with `IntegralIndex{3,0,-1}` yields (0,3), (1,2), (2,1) and then is undefined |
| ZippedIndexes.ZipShorterLeft | sources/tests/ZippedIndex.cc:35-49 | `IntegralIndex{0,3,1}` zipped with `IntegralIndex{3,-1,-1}` (four elements) stops after (2,1) |
| ZippedIndexes.ZipShorterRight | sources/tests/ZippedIndex.cc:51-65 | `IntegralIndex{0,4,1}` (four elements) zipped with `IntegralIndex{3,0,-1}` stops after (2,1) |
| Appliers.Applier.Map | sources/include/flic/Applier.hh:219-228 | `map(fn)` wraps the cursor in a `MappedIndex`; the new applier's sequence is `fn` of each element, in order |
| Appliers.Applier.Filter | sources/include/flic/Applier.hh:230-239 | `filter(fn)` returns an applier whose cursor already sits on the first accepted element or is invalid; its sequence is the accepted elements, in order |
| Appliers.Filler | sources/include/flic/Applier.hh:247-256 | `filler` appends every element from `scan` on to the container, in order |
| Appliers.Applier.ToVector | sources/include/flic/Applier.hh:258-264 | `toVector()` is the sequence of elements |
| Appliers.Applier.ToList | sources/include/flic/Applier.hh:266-272 | `toList()` is the sequence of elements |
| Appliers.Applier.Fold | sources/include/flic/Applier.hh:274-283 | `fold(zero, fn)` is the left fold `fn(fn(fn(zero,e0),e1),e2)` |
| Appliers.Applier.FoldLeft | sources/include/flic/Applier.hh:285-295 | `foldLeft(zero, fn)` is the left fold, with any accumulator type |
| Appliers.Applier.FoldRight | sources/include/flic/Applier.hh:297-312 | `foldRight(zero, fn)` is `fn(fn(fn(zero,e2),e1),e0)`: the left fold over the reversed elements, and equally the right fold of `fn` with its arguments swapped |
| Appliers.Applier.Foreach | sources/include/flic/Applier.hh:314-322 | `foreach(fn)` calls `fn` once per element, from left to right |
| Appliers.Applier.Exists | sources/include/flic/Applier.hh:324-336 | `exists(p)` holds iff some element satisfies `p`; false on an empty sequence |
| Appliers.Applier.ForAll | sources/include/flic/Applier.hh:338-352 | `forAll(p)` holds iff every element satisfies `p`; true on an empty sequence |
| Appliers.Applier.MakeString | sources/include/flic/Applier.hh:354-382 | `makeString` is the left delimiter, the rendered elements with the separator between neighbours only, then the right delimiter; each of the three is left out when it is `'\0'`. The defaults are `','`, `'\0'` and `'\0'` |
| Appliers.ElementsOfIndex | sources/tests/Applier.cc:15-22 | an applier over an index of a whole container stands for that container, so `toVector()` gives it back |
| Appliers.FoldLeftOrder | sources/include/flic/Applier.hh:285-295 | over [1, 2, 3], `foldLeft("x", (r,s) -> r + toString(s))` is "x123" |
| Appliers.FoldRightOrder | sources/include/flic/Applier.hh:297-312 | over [1, 2, 3], `foldRight("x", (r,s) -> toString(s) + r)` is "123x" |
| Appliers.MakeStringSeparators | sources/include/flic/Applier.hh:354-382 | over [0, 2, 4], `makeString(',')` is "0,2,4" and `makeString('\0')` is "024" |
| Appliers.MakeStringWithDefaults | sources/include/flic/Applier.hh:181-195 | `makeString()` with the default arguments renders [0, 2, 4] as "0,2,4" |
| Appliers.FilterThenMap | sources/include/flic/Applier.hh:219-239 | filtering "even" over [0..4] and then mapping `to_string` yields "0", "2", "4" |
| Eithers.Either.IsLeft | sources/include/flic/Either.hh:126-130 | `isLeft()` holds iff the first alternative is held |
| Eithers.Either.IsRight | sources/include/flic/Either.hh:120-124 | `isRight()` is always the negation of `isLeft()` |
| Eithers.Either.GetLeft | sources/include/flic/Either.hh:114-118 | `left()` gives the Left value; on a Right it throws, here a precondition |
| Eithers.Either.GetRight | sources/include/flic/Either.hh:108-112 | `right()` gives the Right value; on a Left it throws, here a precondition |
| Eithers.Either.Fold | sources/include/flic/Either.hh:132-138 | `fold(fl, fr)` is `fl(left())` for a Left and `fr(right())` for a Right |
| Eithers.Either.Map | sources/include/flic/Either.hh:140-145 | `map(f)` keeps the side; a Right's value becomes `f` of it, a Left's value is kept |
| Eithers.Either.FlatMap | sources/include/flic/Either.hh:147-152 | `flatMap(f)` is `f(right())` for a Right and propagates a Left unchanged |
| Eithers.Either.GetOrElse | sources/include/flic/Either.hh:154-158 | `getOrElse(d)` is the Right value, or `d` for a Left |
| Eithers.Either.Foreach | sources/include/flic/Either.hh:160-165 | `foreach(f)` calls `f` on the Right value once, and not at all on a Left |
| Eithers.Either.Reverse | sources/include/flic/Either.hh:167-171 | `reverse()` puts the same value on the other side |
| Eithers.EitherObject.constructor | sources/include/flic/Either.hh:76-78 | an object built from a variant holds exactly that variant |
| Eithers.EitherObject.Swap | sources/include/flic/Either.hh:173-177 | `swap(other)` gives each object what the other held and changes nothing else |
| Eithers.LeftHolds | sources/include/flic/Either.hh:94-99 | `Left(x)` is a Left, not a Right, and `left() == x` |
| Eithers.RightHolds | sources/include/flic/Either.hh:101-106 | `Right(y)` is a Right, not a Left, and `right() == y` |
| Eithers.ReverseInvolution | sources/include/flic/Either.hh:167-171 | reversing twice gives the original back |
| Eithers.FoldReverse | sources/include/flic/Either.hh:132-171 | folding the reverse with the two functions exchanged is folding the original |
| Eithers.MapIsFold | sources/include/flic/Either.hh:132-145 | `map(f)` is the fold that rebuilds a Left and maps into a Right |
| Eithers.GetOrElseIsFold | sources/include/flic/Either.hh:132-158 | `getOrElse(d)` is the fold giving `d` on a Left and the value on a Right |
| Eithers.MapIdentity | sources/include/flic/Either.hh:140-145 | mapping the identity changes nothing |
| Eithers.MapComposition | sources/include/flic/Either.hh:140-145 | mapping `f` then `g` equals mapping `g ∘ f` |
| Eithers.MapIsFlatMap | sources/include/flic/Either.hh:140-152 | `map(f)` equals `flatMap` of `Right ∘ f` |
| Eithers.FlatMapRight | sources/include/flic/Either.hh:147-152 | `Right(y).flatMap(f) == f(y)` |
| Eithers.FlatMapRightUnit | sources/include/flic/Either.hh:147-152 | `flatMap(Right)` changes nothing |
| Eithers.FlatMapAssociative | sources/include/flic/Either.hh:147-152 | `flatMap` is associative |
| Eithers.GetOrElseMap | sources/include/flic/Either.hh:140-158 | `map(f).getOrElse(f(d)) == f(getOrElse(d))` |
| Eithers.ForeachAtMostOnce | sources/include/flic/Either.hh:160-165 | `foreach` calls `f` at most once, and exactly when the value is a Right |
| Eithers.SwapTwice | sources/include/flic/Either.hh:173-177 | swapping two objects twice restores both |
| Eithers.SwapLeftThreeWithRight | sources/include/flic/Either.hh:173-177 | swapping an object holding `Left(3)` with one holding a Right exchanges their contents |

Where the code and its documentation or tests disagree, the model follows the code, except where the code cannot compile. Each case:
- **`isValid` and `isDefined`.** `Index` and `MappedIndex` call their validity `isValid()`. `IntegralIndex`, `OptionIndex`, `FilteredIndex` and `ZippedIndex` call it `isDefined()`. `Applier` calls `isValid()` on whatever cursor it holds, and so do the tests of `IntegralIndex`, `OptionIndex` and `FilteredIndex` (for example sources/tests/IntegralIndex.cc:23). Here they are one predicate, `valid`.
- **`Index::hasNext()`.** Its comment promises "true when `next()` yields a valid index". The code tests the current position, like `isValid()`. The model follows the code, and `Indexes.HasNextOnLastElement` shows where the two differ.
- **`MappedIndex::next()`.** It returns an `Option<MappedIndex>` by treating the base's `next()` as an `Option` (sources/include/flic/MappedIndex.hh:52-57). Every base's `next()` returns a plain cursor, and `Applier` assigns `scan = scan.next()`. The model's `next()` is the mapped cursor over the base's `next()`.
- **`Applier::foldRight`.** The comment gives `f(e0, f(e1, f(e2, z)))`. That form is ill-typed for the signature `R(R const&, T const&)` when `R` and `T` differ, and when they coincide it disagrees with the code. The code computes `fn(fn(fn(z, e2), e1), e0)`, accumulator first. The model states the code's result, and `Sequences.FoldLeftReverse` connects it to the right fold with `fn`'s arguments swapped.
- **`Either::Right(R const&)`.** It builds the variant from `left`, the member function, not from its parameter (sources/include/flic/Either.hh:91). That does not compile. The model follows the move overload at lines 101-106: `Right(r).right() == r`.
- **`Either::map`, `flatMap` and `reverse`.**
  - `map` and `flatMap` return `*this` for a Left, and `reverse` calls `Left(right())` and `Right(left())` of `Either<L, R>` itself. These only type-check when the types coincide.
  - The model gives the evident meaning: a Left keeps its value under `map` and `flatMap`, and `reverse` swaps the sides.
- **`sources/tests/Either.cc:31-34`** checks `l` where `r` is meant. The model uses the intended `Right` behaviour.

## Left out

- `toString.hh` is not part of this model. Its three overloads have identical signatures, and it relies on `std::to_string` and stream formatting. `makeString` therefore takes the element-to-string conversion as a parameter. The examples use `Sequences.DecimalString`, the decimal numeral of an integer, for `std::to_string` on `int`.
- `ContainerIndex.hh` and `MakeIndex.hh` are not part of this model. They are thin wrappers over `std::cbegin`/`std::cend`. An `Index` is built directly with `Indexes.Begin` over a sequence.
- `lambda.hh` is not part of this model. It is a preprocessor macro.
- `Applier::flatMap` has an empty body (sources/include/flic/Applier.hh:241-245), so there is nothing to model.
- `Applier::zipWithIndex` and `Applier::zip` are declared but never defined (sources/include/flic/Applier.hh:197-201). Zipping itself is modelled by `ZippedIndex`.
- `Option::flatMap` is not declared in sources/include/flic/Option.hh, but `ZippedIndex::get` (sources/include/flic/ZippedIndex.hh:67) and sources/tests/Option.cc:56-70 use it. `Options.Option.FlatMap` gives it the meaning those uses expect.
- Fixed-width integers: `IntegralIndex` uses mathematical integers, so the overflow of `m_current + m_step` is not modelled.
- Exceptions are preconditions: `Option::get` on `None`, `Either::left`/`right` on the wrong side, and the constructor assertion `step != 0` of `IntegralIndex`. No control flow through exceptions is modelled.
- Placement-new storage in `Option`, `std::function` and `std::variant` internals, and copy and move constructors are value semantics here. The model has no aliasing between cursor copies, which the library relies on.
- `Appliers.Applier.Foreach`, `Eithers.Either.Foreach`: side effects are modelled as the sequence of `fn`'s results, one per call and in call order. What the effects do is not modelled.
- `Appliers.Applier.Exists`, `Appliers.Applier.ForAll`: predicates are pure functions, so the early return is proved only as the returned truth value. The number of predicate calls is not stated.
- `Options.Equal`: the source compares options of two element types `A` and `B`. The model compares options of one type.
- Cursor termination uses a rank, an upper bound on the remaining elements, that the C++ code does not have: the `Index` distance to the end, the `IntegralIndex` distance in the direction of the step, 1 or 0 for `OptionIndex`, and the smaller side's rank for `ZippedIndex`.
- The library's requirement that `fn` for `filter` and `map` has no side effects is taken as given: functions are pure Dafny functions.
- The test programs are used as evidence only. `sources/tests/Index.cc:22-31` expects `next()` to return an `Option`, and `sources/tests/Applier.cc:18-19` uses a constructor that does not exist. Both were read with the evident meaning.

## Findings

| source | as written | input that shows it | evidently intended | confidence | as-written member | corrected member |
|---|---|---|---|---|---|---|
| sources/include/flic/IntegralIndex.hh:105-111 | `operator==` compares `m_current` and only tests `m_end` and `m_step` of both sides for being non-zero | `IntegralIndex{0, 0}` is not equal to itself; `IntegralIndex{0, 5}` equals `IntegralIndex{0, 7}` | field-wise equality of current, end and step | not executed | IntegralIndexes.EqualAsWrittenIgnoresEnd | IntegralIndexes.Equal |
