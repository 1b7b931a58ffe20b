/**
 * `OptionIndex<T>`: a cursor over an `Option`, with one element when the
 * option is defined and none otherwise (sources/include/flic/OptionIndex.hh).
 */
module OptionIndexes {
  import opened Options
  import opened Cursors

  datatype OptionIndex<T> = OptionIndex(option: Option<T>)

  /** `isDefined()`: the wrapped option is defined. */
  predicate IsDefined<T>(i: OptionIndex<T>)
    ensures IsDefined(i) <==> i.option.Some?
  {
    i.option.IsDefined()
  }

  /** `get()`: the wrapped option itself. */
  function Get<T>(i: OptionIndex<T>): (r: Option<T>)
    ensures r.IsDefined() <==> IsDefined(i)
    ensures IsDefined(i) ==> r.Get() == i.option.value
  {
    i.option
  }

  /** `next()`: the index over `None`, whatever the receiver holds. */
  function Next<T>(i: OptionIndex<T>): (r: OptionIndex<T>)
    ensures !IsDefined(r) && Get(r) == None
  {
    OptionIndex(None)
  }

  /** One element ahead while defined, none after. */
  function Rank<T>(i: OptionIndex<T>): nat
  {
    if i.option.Some? then 1 else 0
  }

  /** `OptionIndex` as a cursor; it satisfies the protocol. */
  function Ops<T(!new)>(): (ops: CursorOps<OptionIndex<T>, T>)
    ensures Lawful(ops)
  {
    CursorOps(IsDefined, Get, Next, Rank)
  }

  /** The traversal is the option's value alone, or nothing. */
  lemma ElemsOfOptionIndex<T(!new)>(i: OptionIndex<T>)
    ensures i.option.Some? ==> Elems(Ops(), i) == [i.option.value]
    ensures i.option.None? ==> Elems(Ops(), i) == []
  {
    ElemsStep(Ops(), i);
    ElemsStep(Ops(), Next(i));
  }

  /**
   * Over `Some(3)` the index is valid, `get()` gives `Some(3)` back, and after
   * `next()` it is invalid with `get()` empty.
   */
  lemma WalkSomeThree()
    ensures IsDefined(OptionIndex(Some(3))) && Get(OptionIndex(Some(3))) == Some(3)
    ensures !IsDefined(Next(OptionIndex(Some(3)))) && Get(Next(OptionIndex(Some(3)))) == None
    ensures Elems(Ops(), OptionIndex(Some(3))) == [3]
  {
    ElemsOfOptionIndex(OptionIndex(Some(3)));
  }

  /** Over `None` the index is invalid from the start and `get()` is empty. */
  lemma WalkNone<T(!new)>(i: OptionIndex<T>)
    requires i.option == None
    ensures !IsDefined(i) && Get(i) == None
    ensures Elems(Ops(), i) == []
  {
    ElemsOfOptionIndex(i);
  }
}
