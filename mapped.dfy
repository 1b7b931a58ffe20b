/**
 * `MappedIndex<B, Idx>`: a cursor that applies a function to each element of
 * a base cursor, lazily, at `get()` (sources/include/flic/MappedIndex.hh).
 * The base is any cursor type `C` with elements of type `A`, given by its
 * operations `b`.
 */
module MappedIndexes {
  import opened Options
  import opened Cursors
  import opened Sequences
  import Indexes

  datatype MappedIndex<C, !A, B> = MappedIndex(base: C, f: A -> B)

  /**
   * `isValid()`: the base's validity; over a lawful base it holds exactly
   * when `get()` yields a value.
   */
  predicate IsValid<C(!new), A, B>(b: CursorOps<C, A>, m: MappedIndex<C, A, B>)
    ensures Lawful(b) ==> (IsValid(b, m) <==> Get(b, m).IsDefined())
  {
    b.valid(m.base)
  }

  /**
   * `hasNext()`: the base's `hasNext()`, given here as `baseHasNext`; the
   * mapping function plays no part in it.
   */
  predicate HasNext<C, A, B>(baseHasNext: C -> bool, m: MappedIndex<C, A, B>)
    ensures HasNext(baseHasNext, m) <==> baseHasNext(m.base)
  {
    baseHasNext(m.base)
  }

  /** `get()`: the base's element mapped by `f`, absent when the base's is. */
  function Get<C, A, B>(b: CursorOps<C, A>, m: MappedIndex<C, A, B>): (r: Option<B>)
    ensures r.IsDefined() <==> b.get(m.base).IsDefined()
    ensures b.get(m.base).IsDefined() ==> r.Get() == m.f(b.get(m.base).Get())
  {
    b.get(m.base).Map(m.f)
  }

  /** `next()`: the mapped cursor over the base's `next()`, with the same function. */
  function Next<C, A, B>(b: CursorOps<C, A>, m: MappedIndex<C, A, B>): (r: MappedIndex<C, A, B>)
    ensures r.base == b.next(m.base) && r.f == m.f
  {
    MappedIndex(b.next(m.base), m.f)
  }

  /** `MappedIndex` over a lawful base is itself a lawful cursor. */
  function Ops<C(!new), A(!new), B(!new)>(b: CursorOps<C, A>): (ops: CursorOps<MappedIndex<C, A, B>, B>)
    ensures Lawful(b) ==> Lawful(ops)
  {
    CursorOps(
      (m: MappedIndex<C, A, B>) => IsValid(b, m),
      (m: MappedIndex<C, A, B>) => Get(b, m),
      (m: MappedIndex<C, A, B>) => Next(b, m),
      (m: MappedIndex<C, A, B>) => b.rank(m.base))
  }

  /** The mapped traversal is `f` applied to each base element, in order. */
  lemma {:induction false} ElemsOfMapped<C(!new), A(!new), B(!new)>(b: CursorOps<C, A>, m: MappedIndex<C, A, B>)
    requires Lawful(b)
    ensures Elems(Ops(b), m) == MapSeq(m.f, Elems(b, m.base))
    decreases b.rank(m.base)
  {
    ElemsStep(b, m.base);
    ElemsStep(Ops(b), m);
    if b.valid(m.base) {
      ElemsOfMapped(b, Next(b, m));
    }
  }

  /** Over an `Index`, `hasNext()` of the mapped cursor is its validity. */
  lemma HasNextOverIndex<A(!new), B(!new)>(m: MappedIndex<Indexes.Index<A>, A, B>)
    ensures HasNext(Indexes.HasNext, m) == IsValid(Indexes.Ops(), m)
  {
  }

  /** `to_string` mapped over the index of [0, 1, 2, 3] yields "0", "1", "2", "3". */
  lemma MapToString()
    ensures Elems(Ops(Indexes.Ops()), MappedIndex(Indexes.Begin([0, 1, 2, 3]), DecimalString))
         == ["0", "1", "2", "3"]
  {
    var m := MappedIndex(Indexes.Begin([0, 1, 2, 3]), DecimalString);
    ElemsOfMapped(Indexes.Ops(), m);
    Indexes.ElemsOfBegin([0, 1, 2, 3]);
    SingleDigitNumerals();
    var e := MapSeq(DecimalString, [0, 1, 2, 3]);
    assert e[0] == "0" && e[1] == "1" && e[2] == "2" && e[3] == "3";
  }
}
