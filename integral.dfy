/**
 * `IntegralIndex<T>`: the arithmetic progression current, current + step, ...
 * bounded by `end` (sources/include/flic/IntegralIndex.hh). Integers are
 * mathematical; the source's fixed-width overflow is not modelled.
 */
module IntegralIndexes {
  import opened Options
  import opened Cursors

  datatype Progression = Progression(current: int, end: int, step: int)

  /** The constructor asserts a non-zero step; every index satisfies it. */
  type IntegralIndex = p: Progression | p.step != 0 witness Progression(0, 0, 1)

  /** `IntegralIndex(begin, end, step)`; the source's default step is 1. */
  function Make(begin: int, end: int, step: int := 1): (i: IntegralIndex)
    requires step != 0
    ensures i.current == begin && i.end == end && i.step == step
  {
    Progression(begin, end, step)
  }

  /** `current` has not yet reached `end` in the direction of `step`. */
  predicate Ahead(i: IntegralIndex, value: int)
  {
    if i.step > 0 then value < i.end else value > i.end
  }

  /** `isDefined()`: `current < end` for a positive step, `current > end` otherwise. */
  predicate IsDefined(i: IntegralIndex)
    ensures IsDefined(i) <==> Ahead(i, i.current)
  {
    if i.step > 0 then i.current < i.end else i.current > i.end
  }

  /** `next()`: the progression one step further, or itself once undefined. */
  function Next(i: IntegralIndex): (r: IntegralIndex)
    ensures r.end == i.end && r.step == i.step
    ensures IsDefined(i) ==> r.current == i.current + i.step
    ensures !IsDefined(i) ==> r == i
  {
    if IsDefined(i) then Progression(i.current + i.step, i.end, i.step) else i
  }

  /** `get()`: `Some(current)` while defined, `None` after. */
  function Get(i: IntegralIndex): (r: Option<int>)
    ensures r.IsDefined() <==> IsDefined(i)
    ensures IsDefined(i) ==> r.Get() == i.current
  {
    if IsDefined(i) then Some(i.current) else None
  }

  /** `invalid()`: `(end, end, step)`, which is never defined. */
  function Invalid(i: IntegralIndex): (r: IntegralIndex)
    ensures !IsDefined(r)
    ensures r.current == i.end && r.end == i.end && r.step == i.step
  {
    Progression(i.end, i.end, i.step)
  }

  /** The distance still to cover towards `end`, zero once undefined. */
  function Rank(i: IntegralIndex): nat
  {
    if !IsDefined(i) then 0
    else if i.step > 0 then i.end - i.current
    else i.current - i.end
  }

  /** `IntegralIndex` as a cursor; it satisfies the protocol and its `invalid()` law. */
  function Ops(): (ops: CursorOps<IntegralIndex, int>)
    ensures Lawful(ops)
    ensures InvalidLaw(ops, Invalid)
  {
    CursorOps(IsDefined, Get, Next, Rank)
  }

  /** `b + k * s`, written as `k` additions of `s` to `b`. */
  function Term(b: int, s: int, k: nat): int
  {
    if k == 0 then b else Term(b, s, k - 1) + s
  }

  /** `Term` is the affine expression it stands for. */
  lemma {:induction false} TermIsAffine(b: int, s: int, k: nat)
    ensures Term(b, s, k) == b + k * s
  {
    if k > 0 {
      TermIsAffine(b, s, k - 1);
      Shift(b, s, k);
    }
  }

  /** Starting one step later is one term fewer. */
  lemma {:induction false} TermShift(b: int, s: int, k: nat)
    ensures Term(b + s, s, k) == Term(b, s, k + 1)
  {
    if k > 0 {
      TermShift(b, s, k - 1);
    }
  }

  /** Element `k` of the traversal is the `k`-th term of the progression. */
  lemma {:induction false} ElemsAreTerms(i: IntegralIndex)
    ensures forall k :: 0 <= k < |Elems(Ops(), i)| ==> Elems(Ops(), i)[k] == Term(i.current, i.step, k)
    decreases Rank(i)
  {
    var ops := Ops();
    if IsDefined(i) {
      ElemsStep(ops, i);
      var n := Next(i);
      ElemsAreTerms(n);
      var e := Elems(ops, i);
      forall k | 0 <= k < |e|
        ensures e[k] == Term(i.current, i.step, k)
      {
        if k > 0 {
          assert e[k] == Elems(ops, n)[k - 1];
          TermShift(i.current, i.step, k - 1);
        }
      }
    }
  }

  /** Every element of the traversal is still ahead of `end`. */
  lemma {:induction false} ElemsAreAhead(i: IntegralIndex)
    ensures forall k :: 0 <= k < |Elems(Ops(), i)| ==> Ahead(i, Elems(Ops(), i)[k])
    decreases Rank(i)
  {
    var ops := Ops();
    if IsDefined(i) {
      ElemsStep(ops, i);
      ElemsAreAhead(Next(i));
    }
  }

  /** The term right after the last element is no longer ahead of `end`. */
  lemma {:induction false} ElemsStopAtEnd(i: IntegralIndex)
    ensures !Ahead(i, Term(i.current, i.step, |Elems(Ops(), i)|))
    decreases Rank(i)
  {
    var ops := Ops();
    ElemsStep(ops, i);
    if IsDefined(i) {
      var n := Next(i);
      var m := |Elems(ops, n)|;
      ElemsStopAtEnd(n);
      TermShift(i.current, i.step, m);
    }
  }

  /**
   * The traversal is exactly the terms `current + k * step` for k = 0, 1, ...
   * as long as they are still ahead of `end`: element `k` is that term, it is
   * ahead, and the term after the last element is not.
   */
  lemma ElementOfIntegral(i: IntegralIndex, k: nat)
    requires k < |Elems(Ops(), i)|
    ensures Elems(Ops(), i)[k] == i.current + k * i.step
    ensures Ahead(i, i.current + k * i.step)
    ensures !Ahead(i, i.current + |Elems(Ops(), i)| * i.step)
  {
    var e := Elems(Ops(), i);
    assert e[k] == Term(i.current, i.step, k) by { ElemsAreTerms(i); }
    assert Ahead(i, e[k]) by { ElemsAreAhead(i); }
    assert !Ahead(i, Term(i.current, i.step, |e|)) by { ElemsStopAtEnd(i); }
    TermIsAffine(i.current, i.step, k);
    TermIsAffine(i.current, i.step, |e|);
  }

  /** How far `end` lies from `current`, measured in the direction of `step`. */
  function Distance(i: IntegralIndex): (d: int)
    ensures d > 0 <==> IsDefined(i)
  {
    if i.step > 0 then i.end - i.current else i.current - i.end
  }

  /** The size of one step, whatever its direction. */
  function StepSize(i: IntegralIndex): (n: int)
    ensures n > 0 && (n == i.step || n == -i.step)
  {
    if i.step > 0 then i.step else -i.step
  }

  /**
   * The traversal has ceiling(distance / |step|) elements while defined, and
   * none once undefined, in both directions.
   */
  lemma {:induction false} CountOfIntegral(i: IntegralIndex)
    ensures |Elems(Ops(), i)| == if IsDefined(i) then CeilDiv(Distance(i), StepSize(i)) else 0
    decreases Rank(i)
  {
    ElemsStep(Ops(), i);
    if IsDefined(i) {
      var n := Next(i);
      var d, s := Distance(i), StepSize(i);
      NextDistance(i);
      CountOfIntegral(n);
      CeilDivStep(d, s);
      assert |Elems(Ops(), i)| == 1 + |Elems(Ops(), n)|;
    }
  }

  /** One step covers `StepSize(i)` of the distance; the step size stays. */
  lemma NextDistance(i: IntegralIndex)
    requires IsDefined(i)
    ensures Distance(Next(i)) == Distance(i) - StepSize(i)
    ensures StepSize(Next(i)) == StepSize(i)
    ensures IsDefined(Next(i)) <==> Distance(i) - StepSize(i) > 0
  {
  }

  /** ceiling(d / s) for a positive `s`. */
  function CeilDiv(d: int, s: int): int
    requires s > 0
  {
    (d + s - 1) / s
  }

  /** Covering a positive distance takes one step more than covering what is left after it. */
  lemma CeilDivStep(d: int, s: int)
    requires d > 0 && s > 0
    ensures CeilDiv(d, s) == 1 + if d - s > 0 then CeilDiv(d - s, s) else 0
  {
    var q := (d - 1) / s;
    assert d - 1 == q * s + (d - 1) % s;
    if d - s > 0 {
      assert d - s - 1 == (q - 1) * s + (d - 1) % s;
      DivisionBetween(d - s + s - 1, s, q);
      DivisionBetween(d + s - 1, s, q + 1);
    } else {
      DivisionBetween(d + s - 1, s, 1);
    }
  }

  /** `x / d == q` when `x` lies in `[q * d, q * d + d)`. */
  lemma DivisionBetween(x: int, d: int, q: int)
    requires d > 0 && q * d <= x < q * d + d
    ensures x / d == q
  {
    var t := x / d;
    assert x == t * d + x % d;
    if t > q {
      MulMonotone(q + 1, t, d);
      Shift(0, d, q + 1);
    } else if t < q {
      MulMonotone(t + 1, q, d);
      Shift(0, d, t + 1);
    }
  }

  /** One more step: `b + s + (k - 1) * s == b + k * s`. */
  lemma Shift(b: int, s: int, k: int)
    ensures b + (k - 1) * s + s == b + k * s
  {
    assert (k - 1) * s == k * s - s;
  }

  /** Multiplying by a positive number keeps order. */
  lemma MulMonotone(a: int, b: int, d: int)
    requires a <= b && d > 0
    ensures a * d <= b * d
  {
    assert b * d - a * d == (b - a) * d;
  }

  /** `IntegralIndex(3, 7)` yields 3, 4, 5, 6 and is then undefined. */
  lemma ThreeToSeven()
    ensures Elems(Ops(), Make(3, 7)) == [3, 4, 5, 6]
  {
    var i := Make(3, 7);
    CountOfIntegral(i);
    ElementOfIntegral(i, 0);
    ElementOfIntegral(i, 1);
    ElementOfIntegral(i, 2);
    ElementOfIntegral(i, 3);
  }

  /** `IntegralIndex(3, 0, -1)` yields 3, 2, 1. */
  lemma ThreeDownToZero()
    ensures Elems(Ops(), Make(3, 0, -1)) == [3, 2, 1]
  {
    var i := Make(3, 0, -1);
    CountOfIntegral(i);
    ElementOfIntegral(i, 0);
    ElementOfIntegral(i, 1);
    ElementOfIntegral(i, 2);
  }

  /**
   * Step 3 from `b` to `e`: the elements are b, b + 3, ... while below `e`,
   * as the loop `for (i = b; i < e; i += 3)` enumerates them.
   */
  lemma StepThree(b: int, e: int, k: nat)
    requires k < |Elems(Ops(), Make(b, e, 3))|
    ensures Elems(Ops(), Make(b, e, 3))[k] == b + 3 * k < e
  {
    ElementOfIntegral(Make(b, e, 3), k);
  }

  /**
   * Step 3 from `b` to `e` stops once the next term would reach `e`: with
   * `StepThree` the walk yields every `b + 3 * k` below `e`, and then the
   * index is invalid.
   */
  lemma StepThreeStops(b: int, e: int)
    ensures !(b + 3 * |Elems(Ops(), Make(b, e, 3))| < e)
  {
    var i := Make(b, e, 3);
    var n := |Elems(Ops(), i)|;
    ElemsStopAtEnd(i);
    TermIsAffine(b, 3, n);
    assert !Ahead(i, b + n * 3);
  }

  /** `IntegralIndex(3, 3)` is undefined and its `next()` is itself. */
  lemma EmptyRange()
    ensures !IsDefined(Make(3, 3)) && Next(Make(3, 3)) == Make(3, 3)
    ensures Elems(Ops(), Make(3, 3)) == []
  {
  }

  /** Exhaustion is idempotent: `invalid().next() == invalid()`. */
  lemma InvalidIsFixedPoint(i: IntegralIndex)
    ensures Next(Invalid(i)) == Invalid(i)
    ensures Elems(Ops(), Invalid(i)) == []
  {
  }

  /**
   * `operator==` as written: it compares `current` and only tests `end` and
   * `step` for being non-zero on both sides. When both ends are equal and
   * non-zero and both steps are equal, it agrees with field-wise equality.
   */
  predicate EqualAsWritten(lhs: IntegralIndex, rhs: IntegralIndex)
    ensures EqualAsWritten(lhs, rhs) ==> lhs.current == rhs.current
    ensures lhs.end != 0 && lhs.end == rhs.end && lhs.step == rhs.step ==> (EqualAsWritten(lhs, rhs) <==> Equal(lhs, rhs))
  {
    lhs.current == rhs.current &&
    lhs.end != 0 && rhs.end != 0 &&
    lhs.step != 0 && rhs.step != 0
  }

  /** As written, equality is not reflexive: every index ending at 0 differs from itself. */
  lemma EqualAsWrittenNotReflexive(i: IntegralIndex)
    requires i.end == 0
    ensures !EqualAsWritten(i, i)
  {
  }

  /** As written, two ranges with different ends compare equal. */
  lemma EqualAsWrittenIgnoresEnd()
    ensures EqualAsWritten(Make(0, 5), Make(0, 7)) && Make(0, 5) != Make(0, 7)
  {
  }

  /** The evidently intended `operator==`: field-wise equality. */
  predicate Equal(lhs: IntegralIndex, rhs: IntegralIndex)
    ensures Equal(lhs, rhs) <==> lhs == rhs
  {
    lhs.current == rhs.current && lhs.end == rhs.end && lhs.step == rhs.step
  }

  /** The test `IntegralIndex{3, 3}.next() == index` holds under field-wise equality. */
  lemma EmptyRangeNextEqual()
    ensures Equal(Next(Make(3, 3)), Make(3, 3))
  {
  }
}
