/**
 * The present/absent value returned by every cursor's `get()`
 * (sources/include/flic/Option.hh).
 */
module Options {

  /** `Some(value)` is a defined option, `None` an empty one. */
  datatype Option<A> = None | Some(value: A) {

    /** `isDefined()`: the option holds a value, i.e. it is not `None`. */
    predicate IsDefined()
      ensures IsDefined() <==> this != None
    {
      Some?
    }

    /** `isEmpty()`: the option holds no value; always the negation of `IsDefined`. */
    predicate IsEmpty()
      ensures IsEmpty() <==> !IsDefined()
    {
      !Some?
    }

    /**
     * `get()`: the held value. The source throws `invalid_argument` on an
     * empty option; here that is the precondition.
     */
    function Get(): (a: A)
      requires IsDefined()
      ensures Some(a) == this
    {
      value
    }

    /** `map(f)`: applies `f` to the held value, keeps an empty option empty. */
    function Map<B>(f: A -> B): (r: Option<B>)
      ensures r.IsDefined() <==> IsDefined()
      ensures IsDefined() ==> r.Get() == f(Get())
    {
      if Some? then Some(f(value)) else None
    }

    /**
     * `flatMap(f)`: `f` itself returns an option, which is returned as it is
     * (no double wrapping); an empty option stays empty.
     */
    function FlatMap<B>(f: A -> Option<B>): (r: Option<B>)
      ensures IsEmpty() ==> r == None
      ensures IsDefined() ==> r == f(Get())
    {
      match this
      case None => None
      case Some(a) => f(a)
    }
  }

  /**
   * `operator==`: both defined with equal values, or both empty. It agrees
   * with structural equality of the two options.
   */
  predicate Equal<A(==)>(lhs: Option<A>, rhs: Option<A>)
    ensures Equal(lhs, rhs) <==> lhs == rhs
  {
    (lhs.IsDefined() && rhs.IsDefined() && lhs.Get() == rhs.Get()) ||
    (lhs.IsEmpty() && rhs.IsEmpty())
  }

  /** `operator!=`: the negation of `Equal`. */
  predicate NotEqual<A(==)>(lhs: Option<A>, rhs: Option<A>)
    ensures NotEqual(lhs, rhs) <==> lhs != rhs
  {
    !Equal(lhs, rhs)
  }

  /** `Some(a)` is defined, not empty, and gives back `a`. */
  lemma SomeIsDefined<A>(a: A)
    ensures Some(a).IsDefined() && !Some(a).IsEmpty() && Some(a).Get() == a
  {
  }

  /** `None` is empty and not defined. */
  lemma NoneIsEmpty<A>(o: Option<A>)
    requires o == None
    ensures o.IsEmpty() && !o.IsDefined()
  {
  }

  /** Mapping the identity function changes nothing. */
  lemma MapIdentity<A>(o: Option<A>)
    ensures o.Map(x => x) == o
  {
  }

  /** Mapping `f` then `g` is mapping their composition. */
  lemma MapComposition<A, B, C>(o: Option<A>, f: A -> B, g: B -> C)
    ensures o.Map(f).Map(g) == o.Map(x => g(f(x)))
  {
  }

  /** `map` is `flatMap` with a function that wraps its result in `Some`. */
  lemma MapIsFlatMapOfSome<A, B>(o: Option<A>, f: A -> B)
    ensures o.Map(f) == o.FlatMap(x => Some(f(x)))
  {
  }

  /** `flatMap` with `Some` itself is the identity. */
  lemma FlatMapSome<A>(o: Option<A>)
    ensures o.FlatMap(x => Some(x)) == o
  {
  }

  /** `flatMap` is associative. */
  lemma FlatMapAssociative<A, B, C>(o: Option<A>, f: A -> Option<B>, g: B -> Option<C>)
    ensures o.FlatMap(f).FlatMap(g) == o.FlatMap(x => f(x).FlatMap(g))
  {
  }
}
