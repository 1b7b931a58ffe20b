/**
 * The protocol every index type of the library follows: `isValid()` (spelled
 * `isDefined()` by most of them), `get()` and `next()`. In the source this is
 * a structural contract checked by C++ templates; here it is a dictionary of
 * the operations of one cursor type `C` with elements of type `T`, plus the
 * laws that make the cursor a finite sequence.
 */
module Cursors {
  import opened Options

  /**
   * The members of a cursor type. `rank` is not in the source: it is an upper
   * bound on the number of elements still ahead, the measure by which every
   * traversal loop of the library terminates.
   */
  datatype CursorOps<!C, T> = CursorOps(
    valid: C -> bool,
    get: C -> Option<T>,
    next: C -> C,
    rank: C -> nat)

  /**
   * The protocol's laws: `get()` is defined exactly when the cursor is valid,
   * advancing a valid cursor strictly lowers its rank, and advancing an
   * invalid cursor leaves it invalid.
   */
  ghost predicate Lawful<C(!new), T>(ops: CursorOps<C, T>)
  {
    && (forall c :: ops.valid(c) <==> ops.get(c).Some?)
    && (forall c :: ops.valid(c) ==> ops.rank(ops.next(c)) < ops.rank(c))
    && (forall c :: !ops.valid(c) ==> !ops.valid(ops.next(c)))
  }

  /**
   * The law of an `invalid()` member that a cursor type may have: it gives a
   * cursor that is not valid and whose rank is no larger.
   */
  ghost predicate InvalidLaw<C(!new), T>(ops: CursorOps<C, T>, invalid: C -> C)
  {
    forall c :: !ops.valid(invalid(c)) && ops.rank(invalid(c)) <= ops.rank(c)
  }

  /** The elements still ahead of cursor `c`, in traversal order. */
  ghost function Elems<C(!new), T>(ops: CursorOps<C, T>, c: C): seq<T>
    requires Lawful(ops)
    decreases ops.rank(c)
  {
    if ops.valid(c) then [ops.get(c).value] + Elems(ops, ops.next(c)) else []
  }

  /**
   * The denotation agrees with the protocol: a cursor is valid iff elements
   * remain, `get()` is the first of them (or absent), and `next()` drops it.
   */
  lemma ElemsStep<C(!new), T>(ops: CursorOps<C, T>, c: C)
    requires Lawful(ops)
    ensures ops.valid(c) <==> |Elems(ops, c)| > 0
    ensures ops.valid(c) ==> ops.get(c) == Some(Elems(ops, c)[0])
    ensures !ops.valid(c) ==> ops.get(c) == None
    ensures ops.valid(c) ==> Elems(ops, ops.next(c)) == Elems(ops, c)[1..]
    ensures !ops.valid(c) ==> Elems(ops, ops.next(c)) == []
  {
  }
}
