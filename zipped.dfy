/**
 * `ZippedIndex<IL, IR>`: a cursor over the pairs of elements at equal
 * positions of two cursors, as long as the shorter of the two
 * (sources/include/flic/ZippedIndex.hh). Each side is any cursor type, given
 * by its operations `lo` and `ro`.
 */
module ZippedIndexes {
  import opened Options
  import opened Cursors
  import opened Sequences
  import IntegralIndexes

  datatype ZippedIndex<CL, CR> = ZippedIndex(left: CL, right: CR)

  /**
   * `isDefined()`: both sides are defined; over lawful sides it holds exactly
   * when `get()` yields a pair.
   */
  predicate IsDefined<CL(!new), L, CR(!new), R>(lo: CursorOps<CL, L>, ro: CursorOps<CR, R>, z: ZippedIndex<CL, CR>)
    ensures Lawful(lo) && Lawful(ro) ==> (IsDefined(lo, ro, z) <==> Get(lo, ro, z).IsDefined())
  {
    lo.valid(z.left) && ro.valid(z.right)
  }

  /** `get()`: the pair of both sides' elements, absent when either side's is. */
  function Get<CL, L, CR, R>(lo: CursorOps<CL, L>, ro: CursorOps<CR, R>, z: ZippedIndex<CL, CR>): (r: Option<(L, R)>)
    ensures r.IsDefined() <==> lo.get(z.left).IsDefined() && ro.get(z.right).IsDefined()
    ensures r.IsDefined() ==> r.Get() == (lo.get(z.left).Get(), ro.get(z.right).Get())
  {
    lo.get(z.left).FlatMap((l: L) => ro.get(z.right).Map((r: R) => (l, r)))
  }

  /** `next()`: both sides advanced, unconditionally. */
  function Next<CL, L, CR, R>(lo: CursorOps<CL, L>, ro: CursorOps<CR, R>, z: ZippedIndex<CL, CR>): (r: ZippedIndex<CL, CR>)
    ensures r.left == lo.next(z.left) && r.right == ro.next(z.right)
  {
    ZippedIndex(lo.next(z.left), ro.next(z.right))
  }

  /** The smaller of the two sides' ranks. */
  function Rank<CL, L, CR, R>(lo: CursorOps<CL, L>, ro: CursorOps<CR, R>, z: ZippedIndex<CL, CR>): nat
  {
    if lo.rank(z.left) < ro.rank(z.right) then lo.rank(z.left) else ro.rank(z.right)
  }

  /** `ZippedIndex` over two lawful cursors is a lawful cursor. */
  function Ops<CL(!new), L(!new), CR(!new), R(!new)>(lo: CursorOps<CL, L>, ro: CursorOps<CR, R>): (ops: CursorOps<ZippedIndex<CL, CR>, (L, R)>)
    ensures Lawful(lo) && Lawful(ro) ==> Lawful(ops)
  {
    CursorOps(
      (z: ZippedIndex<CL, CR>) => IsDefined(lo, ro, z),
      (z: ZippedIndex<CL, CR>) => Get(lo, ro, z),
      (z: ZippedIndex<CL, CR>) => Next(lo, ro, z),
      (z: ZippedIndex<CL, CR>) => Rank(lo, ro, z))
  }

  /** Once undefined, a zipped cursor stays undefined under `next()`, given lawful sides. */
  lemma StaysUndefined<CL(!new), L(!new), CR(!new), R(!new)>(lo: CursorOps<CL, L>, ro: CursorOps<CR, R>, z: ZippedIndex<CL, CR>)
    requires Lawful(lo) && Lawful(ro)
    requires !IsDefined(lo, ro, z)
    ensures !IsDefined(lo, ro, Next(lo, ro, z))
  {
    if !lo.valid(z.left) {
      assert !lo.valid(lo.next(z.left));
    } else {
      assert !ro.valid(ro.next(z.right));
    }
  }

  /**
   * The zipped traversal pairs the two sides' traversals position by
   * position and is as long as the shorter one.
   */
  lemma {:induction false} ElemsOfZipped<CL(!new), L(!new), CR(!new), R(!new)>(lo: CursorOps<CL, L>, ro: CursorOps<CR, R>, z: ZippedIndex<CL, CR>)
    requires Lawful(lo) && Lawful(ro)
    ensures Elems(Ops(lo, ro), z) == Zip(Elems(lo, z.left), Elems(ro, z.right))
    decreases Rank(lo, ro, z)
  {
    ElemsStep(lo, z.left);
    ElemsStep(ro, z.right);
    ElemsStep(Ops(lo, ro), z);
    if IsDefined(lo, ro, z) {
      ElemsOfZipped(lo, ro, Next(lo, ro, z));
    }
  }

  /** Zipping 0, 1, 2 with 3, 2, 1 gives (0, 3), (1, 2), (2, 1). */
  lemma ZipEqualLengths()
    ensures Elems(Ops(IntegralIndexes.Ops(), IntegralIndexes.Ops()),
                  ZippedIndex(IntegralIndexes.Make(0, 3), IntegralIndexes.Make(3, 0, -1)))
         == [(0, 3), (1, 2), (2, 1)]
  {
    UpToThree();
    IntegralIndexes.ThreeDownToZero();
    ZipOfIntegrals(IntegralIndexes.Make(0, 3), IntegralIndexes.Make(3, 0, -1), [0, 1, 2], [3, 2, 1]);
    assert Zip([0, 1, 2], [3, 2, 1]) == [(0, 3), (1, 2), (2, 1)];
  }

  /** The left side is the shorter: 0, 1, 2 against 3, 2, 1, 0. */
  lemma ZipShorterLeft()
    ensures Elems(Ops(IntegralIndexes.Ops(), IntegralIndexes.Ops()),
                  ZippedIndex(IntegralIndexes.Make(0, 3), IntegralIndexes.Make(3, -1, -1)))
         == [(0, 3), (1, 2), (2, 1)]
  {
    UpToThree();
    DownToMinusOne();
    ZipOfIntegrals(IntegralIndexes.Make(0, 3), IntegralIndexes.Make(3, -1, -1), [0, 1, 2], [3, 2, 1, 0]);
    assert Zip([0, 1, 2], [3, 2, 1, 0]) == [(0, 3), (1, 2), (2, 1)];
  }

  /** The right side is the shorter: 0, 1, 2, 3 against 3, 2, 1. */
  lemma ZipShorterRight()
    ensures Elems(Ops(IntegralIndexes.Ops(), IntegralIndexes.Ops()),
                  ZippedIndex(IntegralIndexes.Make(0, 4), IntegralIndexes.Make(3, 0, -1)))
         == [(0, 3), (1, 2), (2, 1)]
  {
    UpToFour();
    IntegralIndexes.ThreeDownToZero();
    ZipOfIntegrals(IntegralIndexes.Make(0, 4), IntegralIndexes.Make(3, 0, -1), [0, 1, 2, 3], [3, 2, 1]);
    assert Zip([0, 1, 2, 3], [3, 2, 1]) == [(0, 3), (1, 2), (2, 1)];
  }

  lemma UpToThree()
    ensures Elems(IntegralIndexes.Ops(), IntegralIndexes.Make(0, 3)) == [0, 1, 2]
  {
    var i := IntegralIndexes.Make(0, 3);
    IntegralIndexes.CountOfIntegral(i);
    IntegralIndexes.ElementOfIntegral(i, 0);
    IntegralIndexes.ElementOfIntegral(i, 1);
    IntegralIndexes.ElementOfIntegral(i, 2);
  }

  lemma UpToFour()
    ensures Elems(IntegralIndexes.Ops(), IntegralIndexes.Make(0, 4)) == [0, 1, 2, 3]
  {
    var i := IntegralIndexes.Make(0, 4);
    IntegralIndexes.CountOfIntegral(i);
    IntegralIndexes.ElementOfIntegral(i, 0);
    IntegralIndexes.ElementOfIntegral(i, 1);
    IntegralIndexes.ElementOfIntegral(i, 2);
    IntegralIndexes.ElementOfIntegral(i, 3);
  }

  lemma DownToMinusOne()
    ensures Elems(IntegralIndexes.Ops(), IntegralIndexes.Make(3, -1, -1)) == [3, 2, 1, 0]
  {
    var i := IntegralIndexes.Make(3, -1, -1);
    IntegralIndexes.CountOfIntegral(i);
    IntegralIndexes.ElementOfIntegral(i, 0);
    IntegralIndexes.ElementOfIntegral(i, 1);
    IntegralIndexes.ElementOfIntegral(i, 2);
    IntegralIndexes.ElementOfIntegral(i, 3);
  }

  /** Zipping two integral ranges whose traversals are known. */
  lemma ZipOfIntegrals(l: IntegralIndexes.IntegralIndex, r: IntegralIndexes.IntegralIndex, sl: seq<int>, sr: seq<int>)
    requires Elems(IntegralIndexes.Ops(), l) == sl && Elems(IntegralIndexes.Ops(), r) == sr
    ensures Elems(Ops(IntegralIndexes.Ops(), IntegralIndexes.Ops()), ZippedIndex(l, r)) == Zip(sl, sr)
  {
    ElemsOfZipped(IntegralIndexes.Ops(), IntegralIndexes.Ops(), ZippedIndex(l, r));
  }
}
