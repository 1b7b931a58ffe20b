/**
 * `Index<It>`: a pair of iterators (current, end) into a host container
 * (sources/include/flic/Index.hh). The host is a sequence, the end iterator
 * is its length and the current iterator a position no later than the end.
 */
module Indexes {
  import opened Options
  import opened Cursors

  /** A current position in a host sequence; the end is `|host|`. */
  datatype IteratorPair<T> = IteratorPair(host: seq<T>, current: nat)

  /** Iterators of one container: the current one never passes the end. */
  type Index<T> = i: IteratorPair<T> | i.current <= |i.host| witness IteratorPair([], 0)

  /** The index at the beginning of a host sequence (`Index{ cbegin(s), cend(s) }`). */
  function Begin<T(!new)>(host: seq<T>): (i: Index<T>)
    ensures i.host == host && i.current == 0
  {
    IteratorPair(host, 0)
  }

  /** `isValid()`: the current iterator is not the end one. */
  predicate IsValid<T(!new)>(i: Index<T>)
    ensures IsValid(i) <==> i.current < |i.host|
  {
    i.current != |i.host|
  }

  /**
   * `hasNext()`: as coded it is the same test as `isValid()`, although its
   * documentation promises "next() yields a valid index".
   */
  predicate HasNext<T(!new)>(i: Index<T>)
    ensures HasNext(i) == IsValid(i)
  {
    i.current != |i.host|
  }

  /**
   * `next()`: one position further over the same host while valid; an
   * invalid index is returned unchanged.
   */
  function Next<T(!new)>(i: Index<T>): (r: Index<T>)
    ensures r.host == i.host
    ensures IsValid(i) ==> r.current == i.current + 1
    ensures !IsValid(i) ==> r == i
  {
    if i.current == |i.host| then i else IteratorPair(i.host, i.current + 1)
  }

  /** `get()`: the element under the current iterator, absent at the end. */
  function Get<T(!new)>(i: Index<T>): (r: Option<T>)
    ensures r.IsDefined() <==> IsValid(i)
    ensures IsValid(i) ==> r.Get() == i.host[i.current]
  {
    if i.current != |i.host| then Some(i.host[i.current]) else None
  }

  /** `invalid()`: current moved to end, over the same host. */
  function Invalid<T(!new)>(i: Index<T>): (r: Index<T>)
    ensures r.host == i.host && !IsValid(r)
  {
    IteratorPair(i.host, |i.host|)
  }

  /** The number of elements from current to end. */
  function Rank<T(!new)>(i: Index<T>): nat
  {
    |i.host| - i.current
  }

  /** `Index` as a cursor; it satisfies the protocol and its `invalid()` law. */
  function Ops<T(!new)>(): (ops: CursorOps<Index<T>, T>)
    ensures Lawful(ops)
    ensures InvalidLaw(ops, Invalid)
  {
    CursorOps(IsValid, Get, Next, Rank)
  }

  /** The elements ahead of an index are the host from the current position on. */
  lemma {:induction false} ElemsOfIndex<T(!new)>(i: Index<T>)
    ensures Elems(Ops(), i) == i.host[i.current..]
    decreases Rank(i)
  {
    if IsValid(i) {
      ElemsOfIndex(Next(i));
      assert i.host[i.current..] == [i.host[i.current]] + i.host[i.current + 1..];
    }
  }

  /** Exhaustion is idempotent: `invalid().next() == invalid()`. */
  lemma InvalidIsFixedPoint<T(!new)>(i: Index<T>)
    ensures Next(Invalid(i)) == Invalid(i)
    ensures Elems(Ops(), Invalid(i)) == []
  {
  }

  /** Walking from the beginning yields the whole host, in order. */
  lemma ElemsOfBegin<T(!new)>(host: seq<T>)
    ensures Elems(Ops(), Begin(host)) == host
  {
    ElemsOfIndex(Begin(host));
  }

  /** Walking `[0, 1, 2, 3]` from its beginning gives 0, 1, 2, 3. */
  lemma WalkFourElements()
    ensures Elems(Ops(), Begin([0, 1, 2, 3])) == [0, 1, 2, 3]
  {
    ElemsOfBegin([0, 1, 2, 3]);
  }

  /**
   * What `hasNext()` computes is not what its comment says: on the last
   * element it is true, yet `next()` is no longer valid.
   */
  lemma HasNextOnLastElement<T(!new)>(x: T)
    ensures HasNext(Begin([x])) && !IsValid(Next(Begin([x])))
  {
  }
}
