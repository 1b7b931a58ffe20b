/**
 * `Either<L, R>`: a value that is either a Left holding an `L` (by
 * convention an error) or a Right holding an `R` (a result), with the
 * combinators of sources/include/flic/Either.hh. The `std::variant` index 0
 * is `Left`, index 1 is `Right`.
 */
module Eithers {

  datatype Either<L, R> = Left(leftValue: L) | Right(rightValue: R)
  {
    /** `isLeft()`: the variant holds its first alternative. */
    predicate IsLeft()
      ensures IsLeft() <==> this.Left?
    {
      this.Left?
    }

    /** `isRight()`: the variant holds its second alternative; exactly one of the two holds. */
    predicate IsRight()
      ensures IsRight() <==> !IsLeft()
    {
      this.Right?
    }

    /** `left()`: the Left value; on a Right it throws, here a precondition. */
    function GetLeft(): (l: L)
      requires IsLeft()
      ensures Left(l) == this
    {
      leftValue
    }

    /** `right()`: the Right value; on a Left it throws, here a precondition. */
    function GetRight(): (r: R)
      requires IsRight()
      ensures Right(r) == this
    {
      rightValue
    }

    /** `fold(fl, fr)`: `fl` of the Left value, or `fr` of the Right value. */
    function Fold<X>(fl: L -> X, fr: R -> X): (x: X)
      ensures IsLeft() ==> x == fl(GetLeft())
      ensures IsRight() ==> x == fr(GetRight())
    {
      if IsLeft() then fl(GetLeft()) else fr(GetRight())
    }

    /** `map(f)`: a Right's value transformed by `f`; a Left kept with its value. */
    function Map<B>(f: R -> B): (e: Either<L, B>)
      ensures e.IsRight() <==> IsRight()
      ensures IsRight() ==> e.GetRight() == f(GetRight())
      ensures IsLeft() ==> e.GetLeft() == GetLeft()
    {
      if IsRight() then Right(f(GetRight())) else Left(GetLeft())
    }

    /** `flatMap(f)`: `f` of a Right's value; a Left propagated unchanged. */
    function FlatMap<B>(f: R -> Either<L, B>): (e: Either<L, B>)
      ensures IsRight() ==> e == f(GetRight())
      ensures IsLeft() ==> e.IsLeft() && e.GetLeft() == GetLeft()
    {
      if IsRight() then f(GetRight()) else Left(GetLeft())
    }

    /** `getOrElse(d)`: the Right value, or the default `d` for a Left. */
    function GetOrElse(d: R): (r: R)
      ensures IsRight() ==> r == GetRight()
      ensures IsLeft() ==> r == d
    {
      if IsRight() then GetRight() else d
    }

    /**
     * `foreach(f)`: `f` called on the Right value, and not at all on a Left.
     * The effects of the calls are returned, in order.
     */
    function Foreach<E>(f: R -> E): (effects: seq<E>)
      ensures IsRight() ==> effects == [f(GetRight())]
      ensures IsLeft() ==> effects == []
    {
      if IsRight() then [f(GetRight())] else []
    }

    /** `reverse()`: the same value on the other side. */
    function Reverse(): (e: Either<R, L>)
      ensures e.IsLeft() <==> IsRight()
      ensures IsRight() ==> e.GetLeft() == GetRight()
      ensures IsLeft() ==> e.GetRight() == GetLeft()
    {
      if IsRight() then Left(GetRight()) else Right(GetLeft())
    }
  }

  /**
   * An `Either` object, for the one member that changes it in place:
   * `swap(other)` exchanges the variants of two objects.
   */
  class EitherObject<L, R> {
    var variant: Either<L, R>

    constructor(e: Either<L, R>)
      ensures variant == e
    {
      variant := e;
    }

    /** `swap(other)`: each object ends with what the other held; nothing else changes. */
    method Swap(other: EitherObject<L, R>)
      modifies this, other
      ensures variant == old(other.variant)
      ensures other.variant == old(variant)
    {
      var mine := variant;
      variant := other.variant;
      other.variant := mine;
    }
  }

  /** `Left(x)` is a Left, not a Right, and holds `x`. */
  lemma LeftHolds<L, R>(x: L)
    ensures var e: Either<L, R> := Left(x); e.IsLeft() && !e.IsRight() && e.GetLeft() == x
  {
  }

  /** `Right(y)` is a Right, not a Left, and holds `y`. */
  lemma RightHolds<L, R>(y: R)
    ensures var e: Either<L, R> := Right(y); e.IsRight() && !e.IsLeft() && e.GetRight() == y
  {
  }

  /** Reversing twice gives the original back. */
  lemma ReverseInvolution<L, R>(e: Either<L, R>)
    ensures e.Reverse().Reverse() == e
  {
  }

  /** Folding the reverse with the functions exchanged is folding the original. */
  lemma FoldReverse<L, R, X>(e: Either<L, R>, fl: L -> X, fr: R -> X)
    ensures e.Reverse().Fold(fr, fl) == e.Fold(fl, fr)
  {
  }

  /** `map` is the fold that rebuilds a Left and maps into a Right. */
  lemma MapIsFold<L, R, B>(e: Either<L, R>, f: R -> B)
    ensures e.Map(f) == e.Fold((l: L) => Left(l), (r: R) => Right(f(r)))
  {
  }

  /** `getOrElse(d)` is the fold that gives `d` on a Left and the value on a Right. */
  lemma GetOrElseIsFold<L, R>(e: Either<L, R>, d: R)
    ensures e.GetOrElse(d) == e.Fold((l: L) => d, (r: R) => r)
  {
  }

  /** Mapping the identity changes nothing. */
  lemma MapIdentity<L, R>(e: Either<L, R>)
    ensures e.Map((r: R) => r) == e
  {
  }

  /** Mapping `f` then `g` is mapping their composition. */
  lemma MapComposition<L, R, B, C>(e: Either<L, R>, f: R -> B, g: B -> C)
    ensures e.Map(f).Map(g) == e.Map((r: R) => g(f(r)))
  {
  }

  /** `map(f)` is `flatMap` of `f` followed by `Right`. */
  lemma MapIsFlatMap<L, R, B>(e: Either<L, R>, f: R -> B)
    ensures e.Map(f) == e.FlatMap((r: R) => Right(f(r)))
  {
  }

  /** `flatMap` on `Right(y)` is `f(y)`. */
  lemma FlatMapRight<L, R, B>(y: R, f: R -> Either<L, B>)
    ensures Right(y).FlatMap(f) == f(y)
  {
  }

  /** `flatMap(Right)` changes nothing. */
  lemma FlatMapRightUnit<L, R>(e: Either<L, R>)
    ensures e.FlatMap((r: R) => Right(r)) == e
  {
  }

  /** `flatMap` is associative. */
  lemma FlatMapAssociative<L, R, B, C>(e: Either<L, R>, f: R -> Either<L, B>, g: B -> Either<L, C>)
    ensures e.FlatMap(f).FlatMap(g) == e.FlatMap((r: R) => f(r).FlatMap(g))
  {
  }

  /** A default passed through `f` is what `f` gives after `getOrElse` on the mapped value. */
  lemma GetOrElseMap<L, R, B>(e: Either<L, R>, f: R -> B, d: R)
    ensures e.Map(f).GetOrElse(f(d)) == f(e.GetOrElse(d))
  {
  }

  /** `foreach` calls `f` at most once, and exactly when the value is a Right. */
  lemma ForeachAtMostOnce<L, R, E>(e: Either<L, R>, f: R -> E)
    ensures |e.Foreach(f)| <= 1
    ensures e.Foreach(f) != [] <==> e.IsRight()
  {
  }

  /** Swapping two objects twice restores both. */
  method SwapTwice<L, R>(a: EitherObject<L, R>, b: EitherObject<L, R>)
    modifies a, b
    ensures a.variant == old(a.variant) && b.variant == old(b.variant)
  {
    a.Swap(b);
    a.Swap(b);
  }

  /** Swapping an object holding `Left(3)` with one holding `Right("three")` exchanges the two. */
  method SwapLeftThreeWithRight() returns (a: EitherObject<int, string>, b: EitherObject<int, string>)
    ensures a.variant == Right("three") && b.variant == Left(3)
    ensures a.variant.IsRight() && b.variant.IsLeft() && b.variant.GetLeft() == 3
  {
    a := new EitherObject(Left(3));
    b := new EitherObject(Right("three"));
    a.Swap(b);
  }
}
