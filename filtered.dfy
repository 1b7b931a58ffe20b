/**
 * `FilteredIndex<Idx>`: a cursor over the elements of a base cursor that
 * satisfy a predicate (sources/include/flic/FilteredIndex.hh). The base is
 * any cursor type `C` with elements of type `T`, given by its operations `b`
 * and its `invalid()` member `inv`. The filtered cursor never rests on a
 * rejected element: construction and `next()` both run `findFirst`.
 */
module FilteredIndexes {
  import opened Options
  import opened Cursors
  import opened Sequences
  import Indexes

  datatype FilteredIndex<C, !T> = FilteredIndex(base: C, pred: T -> bool)

  /**
   * `findFirst(index, filter)`: the first cursor at or after `c` whose element
   * is accepted by `p`, or `c`'s `invalid()` once the base is exhausted. What
   * is ahead of the result is what is ahead of `c` less its leading rejected
   * elements.
   */
  function FindFirst<C(!new), T(!new)>(b: CursorOps<C, T>, inv: C -> C, c: C, p: T -> bool): (r: C)
    requires Lawful(b) && InvalidLaw(b, inv)
    ensures b.valid(r) ==> p(b.get(r).value)
    ensures Elems(b, r) == SkipRejected(p, Elems(b, c))
    ensures b.rank(r) <= b.rank(c)
    decreases b.rank(c)
  {
    ElemsStep(b, c);
    if !b.valid(c) then
      ElemsStep(b, inv(c));
      inv(c)
    else if p(b.get(c).value) then c
    else FindFirst(b, inv, b.next(c), p)
  }

  /**
   * The loop of `findFirst` as written: advance while the base is defined and
   * its element is ignored, then return the cursor reached, or its
   * `invalid()` when the last element looked at was ignored.
   */
  method FindFirstScan<C(!new), T(!new)>(b: CursorOps<C, T>, inv: C -> C, start: C, p: T -> bool) returns (r: C)
    requires Lawful(b) && InvalidLaw(b, inv)
    ensures r == FindFirst(b, inv, start, p)
  {
    var index := start;
    var isIgnored := true;
    while true
      invariant isIgnored
      invariant FindFirst(b, inv, index, p) == FindFirst(b, inv, start, p)
      decreases b.rank(index)
    {
      if !b.valid(index) {
        break;
      }
      isIgnored := !p(b.get(index).Get());
      if !isIgnored {
        break;
      }
      index := b.next(index);
    }
    if isIgnored {
      r := inv(index);
    } else {
      r := index;
    }
  }

  /** The constructor: the base is moved onto its first accepted element. */
  function Create<C(!new), T(!new)>(b: CursorOps<C, T>, inv: C -> C, base: C, p: T -> bool): (f: FilteredIndex<C, T>)
    requires Lawful(b) && InvalidLaw(b, inv)
    ensures f.base == FindFirst(b, inv, base, p) && f.pred == p
  {
    FilteredIndex(FindFirst(b, inv, base, p), p)
  }

  /**
   * `isDefined()`: the base's validity, with no recheck of the predicate;
   * over a lawful base it holds exactly when `get()` yields a value.
   */
  predicate IsDefined<C(!new), T>(b: CursorOps<C, T>, f: FilteredIndex<C, T>)
    ensures Lawful(b) ==> (IsDefined(b, f) <==> Get(b, f).IsDefined())
  {
    b.valid(f.base)
  }

  /** `get()`: the base's element, with no recheck of the predicate. */
  function Get<C, T>(b: CursorOps<C, T>, f: FilteredIndex<C, T>): (r: Option<T>)
    ensures r == b.get(f.base)
  {
    b.get(f.base)
  }

  /**
   * `next()`: itself when undefined; otherwise the base advanced once and
   * moved on to its next accepted element, with the same predicate.
   */
  function Next<C(!new), T(!new)>(b: CursorOps<C, T>, inv: C -> C, f: FilteredIndex<C, T>): (r: FilteredIndex<C, T>)
    requires Lawful(b) && InvalidLaw(b, inv)
    ensures !IsDefined(b, f) ==> r == f
    ensures IsDefined(b, f) ==> r == Create(b, inv, b.next(f.base), f.pred)
  {
    if !IsDefined(b, f) then f else Create(b, inv, b.next(f.base), f.pred)
  }

  /**
   * `invalid()`: a filtered cursor constructed over the base's `invalid()`
   * with the same predicate. The constructor's `findFirst` finds that base
   * invalid and stores its `invalid()` in turn; the result is never defined.
   */
  function Invalid<C(!new), T(!new)>(b: CursorOps<C, T>, inv: C -> C, f: FilteredIndex<C, T>): (r: FilteredIndex<C, T>)
    requires Lawful(b) && InvalidLaw(b, inv)
    ensures !IsDefined(b, r) && r.pred == f.pred && r.base == inv(inv(f.base))
  {
    Create(b, inv, inv(f.base), f.pred)
  }

  /** `FilteredIndex` over a lawful base is a lawful cursor with a lawful `invalid()`. */
  function Ops<C(!new), T(!new)>(b: CursorOps<C, T>, inv: C -> C): (ops: CursorOps<FilteredIndex<C, T>, T>)
    requires Lawful(b) && InvalidLaw(b, inv)
    ensures Lawful(ops)
    ensures InvalidLaw(ops, (f: FilteredIndex<C, T>) => Invalid(b, inv, f))
  {
    CursorOps(
      (f: FilteredIndex<C, T>) => IsDefined(b, f),
      (f: FilteredIndex<C, T>) => Get(b, f),
      (f: FilteredIndex<C, T>) => Next(b, inv, f),
      (f: FilteredIndex<C, T>) => b.rank(f.base))
  }

  /** The filtered cursor's invariant: it is undefined or on an accepted element. */
  ghost predicate Accepting<C(!new), T(!new)>(b: CursorOps<C, T>, f: FilteredIndex<C, T>)
    requires Lawful(b)
  {
    b.valid(f.base) ==> f.pred(b.get(f.base).value)
  }

  /** Construction establishes the invariant. */
  lemma CreateAccepting<C(!new), T(!new)>(b: CursorOps<C, T>, inv: C -> C, base: C, p: T -> bool)
    requires Lawful(b) && InvalidLaw(b, inv)
    ensures Accepting(b, Create(b, inv, base, p))
  {
    var r := FindFirst(b, inv, base, p);
    assert b.valid(r) ==> p(b.get(r).value);
  }

  /** `next()` keeps the invariant. */
  lemma NextAccepting<C(!new), T(!new)>(b: CursorOps<C, T>, inv: C -> C, f: FilteredIndex<C, T>)
    requires Lawful(b) && InvalidLaw(b, inv) && Accepting(b, f)
    ensures Accepting(b, Next(b, inv, f))
  {
    if IsDefined(b, f) {
      CreateAccepting(b, inv, b.next(f.base), f.pred);
    }
  }

  /** `invalid()` satisfies the invariant, being undefined. */
  lemma InvalidAccepting<C(!new), T(!new)>(b: CursorOps<C, T>, inv: C -> C, f: FilteredIndex<C, T>)
    requires Lawful(b) && InvalidLaw(b, inv)
    ensures Accepting(b, Invalid(b, inv, f))
  {
  }

  /**
   * The traversal of a filtered cursor that keeps its invariant is exactly
   * the base elements that satisfy the predicate, in order.
   */
  lemma {:induction false} ElemsOfFiltered<C(!new), T(!new)>(b: CursorOps<C, T>, inv: C -> C, f: FilteredIndex<C, T>)
    requires Lawful(b) && InvalidLaw(b, inv) && Accepting(b, f)
    ensures Elems(Ops(b, inv), f) == FilterSeq(f.pred, Elems(b, f.base))
    decreases b.rank(f.base)
  {
    var ops := Ops(b, inv);
    ElemsStep(b, f.base);
    ElemsStep(ops, f);
    if b.valid(f.base) {
      var n := Next(b, inv, f);
      ElemsOfFiltered(b, inv, n);
      FilterSkipRejected(f.pred, Elems(b, b.next(f.base)));
    }
  }

  /** A freshly constructed filtered cursor yields the accepted base elements, in order. */
  lemma ElemsOfCreate<C(!new), T(!new)>(b: CursorOps<C, T>, inv: C -> C, base: C, p: T -> bool)
    requires Lawful(b) && InvalidLaw(b, inv)
    ensures Elems(Ops(b, inv), Create(b, inv, base, p)) == FilterSeq(p, Elems(b, base))
  {
    ElemsOfFiltered(b, inv, Create(b, inv, base, p));
    FilterSkipRejected(p, Elems(b, base));
  }

  /** Exhaustion is idempotent: `invalid().next() == invalid()`. */
  lemma InvalidIsFixedPoint<C(!new), T(!new)>(b: CursorOps<C, T>, inv: C -> C, f: FilteredIndex<C, T>)
    requires Lawful(b) && InvalidLaw(b, inv)
    ensures Next(b, inv, Invalid(b, inv, f)) == Invalid(b, inv, f)
  {
  }

  /** The predicate `x >= 3`. */
  predicate AtLeastThreePred(x: int)
  {
    x >= 3
  }

  /** The predicate "even". */
  predicate IsEven(x: int)
  {
    x % 2 == 0
  }

  /** Filtering the index of a whole host sequence yields the accepted host elements. */
  lemma ElemsOverHost<T(!new)>(s: seq<T>, p: T -> bool)
    ensures Elems(Ops(Indexes.Ops(), Indexes.Invalid), Create(Indexes.Ops(), Indexes.Invalid, Indexes.Begin(s), p))
         == FilterSeq(p, s)
  {
    ElemsOfCreate(Indexes.Ops(), Indexes.Invalid, Indexes.Begin(s), p);
    Indexes.ElemsOfBegin(s);
  }

  /** `x >= 3` over [0, 1, 2, 3, 4, 5] yields 3, 4, 5. */
  lemma AtLeastThree()
    ensures Elems(Ops(Indexes.Ops(), Indexes.Invalid),
                  Create(Indexes.Ops(), Indexes.Invalid, Indexes.Begin([0, 1, 2, 3, 4, 5]), AtLeastThreePred))
         == [3, 4, 5]
  {
    ElemsOverHost([0, 1, 2, 3, 4, 5], AtLeastThreePred);
    FilteredAtLeastThree();
  }

  lemma FilteredAtLeastThree()
    ensures FilterSeq(AtLeastThreePred, [0, 1, 2, 3, 4, 5]) == [3, 4, 5]
  {
    var p := AtLeastThreePred;
    FilterAppend(p, [0, 1, 2], [3, 4, 5]);
    assert [0, 1, 2, 3, 4, 5] == [0, 1, 2] + [3, 4, 5];
    FilterAll(p, [3, 4, 5]);
    FilterNone(p, [0, 1, 2]);
  }

  /** "even" over [0, 1, 2, 3, 4, 5, 6] yields 0, 2, 4, 6. */
  lemma EvenUpToSix()
    ensures Elems(Ops(Indexes.Ops(), Indexes.Invalid),
                  Create(Indexes.Ops(), Indexes.Invalid, Indexes.Begin([0, 1, 2, 3, 4, 5, 6]), IsEven))
         == [0, 2, 4, 6]
  {
    ElemsOverHost([0, 1, 2, 3, 4, 5, 6], IsEven);
    FilteredEven();
  }

  lemma FilteredEven()
    ensures FilterSeq(IsEven, [0, 1, 2, 3, 4, 5, 6]) == [0, 2, 4, 6]
  {
    var p := IsEven;
    var s := [0, 1, 2, 3, 4, 5, 6];
    assert FilterSeq(p, s[5..]) == [6] by { assert s[5..][1..] == s[6..]; }
    assert FilterSeq(p, s[3..]) == [4, 6] by { assert s[3..][1..] == s[4..]; assert s[4..][1..] == s[5..]; }
    assert FilterSeq(p, s[1..]) == [2, 4, 6] by { assert s[1..][1..] == s[2..]; assert s[2..][1..] == s[3..]; }
  }

  /** Filtering keeps a sequence whose every element is accepted. */
  lemma {:induction false} FilterAll<T>(p: T -> bool, s: seq<T>)
    requires forall i :: 0 <= i < |s| ==> p(s[i])
    ensures FilterSeq(p, s) == s
  {
    if s != [] {
      FilterAll(p, s[1..]);
    }
  }

  /** Filtering empties a sequence whose every element is rejected. */
  lemma {:induction false} FilterNone<T>(p: T -> bool, s: seq<T>)
    requires forall i :: 0 <= i < |s| ==> !p(s[i])
    ensures FilterSeq(p, s) == []
  {
    if s != [] {
      FilterNone(p, s[1..]);
    }
  }
}
