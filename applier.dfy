/**
 * `Applier<Idx>`: the facade that owns one cursor and offers the
 * chain-building operations (`map`, `filter`) and the terminal operations
 * that drive the cursor to exhaustion (sources/include/flic/Applier.hh).
 * The cursor type `Idx` is `C`, with elements of type `T`; its members are
 * the dictionary `ops`. `Valid()` is what the template demands of `Idx`: that
 * it is a cursor, i.e. follows the protocol's laws.
 */
module Appliers {
  import opened Options
  import opened Cursors
  import Sequences
  import Indexes
  import MappedIndexes
  import FilteredIndexes

  datatype Applier<!C(!new), T(!new)> = Applier(ops: CursorOps<C, T>, source: C)
  {
    /** `Idx` is a cursor type. */
    ghost predicate Valid()
    {
      Lawful(ops)
    }

    /** The sequence the applier stands for: what is ahead of its cursor. */
    ghost function Elements(): seq<T>
      requires Valid()
    {
      Elems(ops, source)
    }

    /**
     * `map(fn)`: an applier over a `MappedIndex` of the cursor; its sequence is
     * `fn` applied to each element, in order.
     */
    function Map<B(!new)>(fn: T -> B): (r: Applier<MappedIndexes.MappedIndex<C, T, B>, B>)
      requires Valid()
      ensures r.source.base == source
      ensures r.Valid() && r.Elements() == Sequences.MapSeq(fn, Elements())
    {
      MappedIndexes.ElemsOfMapped(ops, MappedIndexes.MappedIndex(source, fn));
      Applier(MappedIndexes.Ops(ops), MappedIndexes.MappedIndex(source, fn))
    }

    /**
     * `filter(fn)`: an applier over a `FilteredIndex` of the cursor, whose
     * construction already moves it onto the first accepted element; its
     * sequence is the elements accepted by `fn`, in order. `inv` is the
     * cursor type's `invalid()`, which `FilteredIndex` needs.
     */
    function Filter(fn: T -> bool, inv: C -> C): (r: Applier<FilteredIndexes.FilteredIndex<C, T>, T>)
      requires Valid() && InvalidLaw(ops, inv)
      ensures r.source.pred == fn
      ensures ops.valid(r.source.base) ==> fn(ops.get(r.source.base).value)
      ensures r.Valid() && r.Elements() == Sequences.FilterSeq(fn, Elements())
    {
      FilteredIndexes.ElemsOfCreate(ops, inv, source, fn);
      Applier(FilteredIndexes.Ops(ops, inv), FilteredIndexes.Create(ops, inv, source, fn))
    }

    /** `toVector()`: the elements, in traversal order. */
    method ToVector() returns (v: seq<T>)
      requires Valid()
      ensures v == Elements()
    {
      v := Filler([], ops, source);
    }

    /** `toList()`: the elements, in traversal order. */
    method ToList() returns (l: seq<T>)
      requires Valid()
      ensures l == Elements()
    {
      l := Filler([], ops, source);
    }

    /** `fold(zero, fn)`: `fn(fn(fn(zero, e0), e1), e2)` for three elements. */
    method Fold(zero: T, fn: (T, T) -> T) returns (r: T)
      requires Valid()
      ensures r == Sequences.FoldLeft(fn, zero, Elements())
    {
      r := FoldLeft(zero, fn);
    }

    /** `foldLeft(zero, fn)`: the left fold, with an accumulator of any type. */
    method FoldLeft<R>(zero: R, fn: (R, T) -> R) returns (r: R)
      requires Valid()
      ensures r == Sequences.FoldLeft(fn, zero, Elements())
    {
      r := zero;
      var scan := source;
      while ops.valid(scan)
        invariant Sequences.FoldLeft(fn, r, Elems(ops, scan)) == Sequences.FoldLeft(fn, zero, Elements())
        decreases ops.rank(scan)
      {
        ElemsStep(ops, scan);
        r := fn(r, ops.get(scan).Get());
        scan := ops.next(scan);
      }
      ElemsStep(ops, scan);
    }

    /**
     * `foldRight(zero, fn)`: the elements copied out with `toVector()`, then
     * folded from the last to the first, `fn(fn(fn(zero, e2), e1), e0)`: the
     * left fold over the reversed sequence, which is the right fold with the
     * arguments of `fn` taken the other way round.
     */
    method FoldRight<R>(zero: R, fn: (R, T) -> R) returns (r: R)
      requires Valid()
      ensures r == Sequences.FoldLeft(fn, zero, Sequences.Reverse(Elements()))
      ensures r == Sequences.FoldRight(Sequences.Flip(fn), zero, Elements())
    {
      r := zero;
      var data := ToVector();
      var i := |data|;
      while i > 0
        invariant 0 <= i <= |data|
        invariant r == Sequences.FoldLeft(fn, zero, Sequences.Reverse(data[i..]))
      {
        Sequences.ReverseCons(data[i - 1..]);
        assert data[i - 1..][1..] == data[i..];
        Sequences.FoldLeftSnoc(fn, zero, Sequences.Reverse(data[i..]), data[i - 1]);
        r := fn(r, data[i - 1]);
        i := i - 1;
      }
      Sequences.FoldLeftReverse(fn, zero, data);
    }

    /**
     * `foreach(fn)`: `fn` applied to each element from left to right. The
     * effects of its calls are returned, in the order they happen.
     */
    method Foreach<E>(fn: T -> E) returns (effects: seq<E>)
      requires Valid()
      ensures effects == Sequences.MapSeq(fn, Elements())
    {
      ghost var e := Elements();
      effects := [];
      var scan := source;
      while ops.valid(scan)
        invariant |effects| <= |e| && Elems(ops, scan) == e[|effects|..]
        invariant forall i :: 0 <= i < |effects| ==> effects[i] == fn(e[i])
        decreases ops.rank(scan)
      {
        ElemsStep(ops, scan);
        effects := effects + [fn(ops.get(scan).Get())];
        scan := ops.next(scan);
      }
      ElemsStep(ops, scan);
    }

    /** `exists(p)`: some element satisfies `p`; the scan stops at the first one. */
    method Exists(p: T -> bool) returns (b: bool)
      requires Valid()
      ensures b <==> exists i :: 0 <= i < |Elements()| && p(Elements()[i])
    {
      ghost var e := Elements();
      ghost var seen := 0;
      var scan := source;
      while ops.valid(scan)
        invariant seen <= |e| && Elems(ops, scan) == e[seen..]
        invariant forall i :: 0 <= i < seen ==> !p(e[i])
        decreases ops.rank(scan)
      {
        ElemsStep(ops, scan);
        if p(ops.get(scan).Get()) {
          return true;
        }
        scan := ops.next(scan);
        seen := seen + 1;
      }
      ElemsStep(ops, scan);
      return false;
    }

    /** `forAll(p)`: every element satisfies `p`; the scan stops at the first that fails. */
    method ForAll(p: T -> bool) returns (b: bool)
      requires Valid()
      ensures b <==> forall i :: 0 <= i < |Elements()| ==> p(Elements()[i])
    {
      ghost var e := Elements();
      ghost var seen := 0;
      var scan := source;
      while ops.valid(scan)
        invariant seen <= |e| && Elems(ops, scan) == e[seen..]
        invariant forall i :: 0 <= i < seen ==> p(e[i])
        decreases ops.rank(scan)
      {
        ElemsStep(ops, scan);
        if !p(ops.get(scan).Get()) {
          return false;
        }
        scan := ops.next(scan);
        seen := seen + 1;
      }
      ElemsStep(ops, scan);
      return true;
    }

    /**
     * `makeString(separator, leftDelimiter, rightDelimiter)`: the left
     * delimiter, the elements rendered by `toStr` with the separator between
     * neighbours only, then the right delimiter; a separator or delimiter that
     * is '\0' is left out. `toStr` is the library's `toString` for `T`. By
     * default the separator is a comma and there are no delimiters.
     */
    method MakeString(toStr: T -> string, separator: char := ',', leftDelimiter: char := '\0', rightDelimiter: char := '\0')
      returns (s: string)
      requires Valid()
      ensures s == Sequences.Glyph(leftDelimiter)
                 + Sequences.Join(Sequences.MapSeq(toStr, Elements()), separator)
                 + Sequences.Glyph(rightDelimiter)
    {
      ghost var e := Elements();
      ghost var parts: seq<string> := [];
      s := Sequences.Glyph(leftDelimiter);
      ghost var lead := s;
      var scan := source;
      ElemsStep(ops, scan);
      if ops.valid(scan) {
        s := s + toStr(ops.get(scan).Get());
        parts := [toStr(e[0])];
        assert parts == Sequences.MapSeq(toStr, e[..1]);
        scan := ops.next(scan);
      }
      while ops.valid(scan)
        invariant |parts| <= |e| && Elems(ops, scan) == e[|parts|..]
        invariant parts == Sequences.MapSeq(toStr, e[..|parts|])
        invariant s == lead + Sequences.Join(parts, separator)
        invariant parts == [] ==> !ops.valid(scan)
        decreases ops.rank(scan)
      {
        ElemsStep(ops, scan);
        var item := toStr(ops.get(scan).Get());
        s := s + Sequences.Glyph(separator) + item;
        Sequences.JoinSnoc(lead, parts, item, separator);
        Sequences.MapSeqSnoc(toStr, e, |parts|);
        parts := parts + [item];
        scan := ops.next(scan);
      }
      ElemsStep(ops, scan);
      assert e[..|parts|] == e;
      s := s + Sequences.Glyph(rightDelimiter);
    }
  }

  /**
   * `filler(container, scan)`: appends to the container each element from
   * `scan` on, in traversal order.
   */
  method Filler<C(!new), T(!new)>(container: seq<T>, ops: CursorOps<C, T>, start: C) returns (result: seq<T>)
    requires Lawful(ops)
    ensures result == container + Elems(ops, start)
  {
    result := container;
    var scan := start;
    while ops.valid(scan)
      invariant result + Elems(ops, scan) == container + Elems(ops, start)
      decreases ops.rank(scan)
    {
      ElemsStep(ops, scan);
      assert Elems(ops, scan) == [ops.get(scan).value] + Elems(ops, ops.next(scan));
      result := result + [ops.get(scan).Get()];
      scan := ops.next(scan);
    }
    ElemsStep(ops, scan);
  }

  /** An applier over the index of a whole host sequence stands for that sequence. */
  lemma ElementsOfIndex<T(!new)>(host: seq<T>)
    ensures Applier(Indexes.Ops(), Indexes.Begin(host)).Valid()
    ensures Applier(Indexes.Ops(), Indexes.Begin(host)).Elements() == host
  {
    Indexes.ElemsOfBegin(host);
  }

  /** `(r, s) -> r + toString(s)`. */
  function AppendNumeral(r: string, x: int): string
  {
    r + Sequences.DecimalString(x)
  }

  /** `(r, s) -> toString(s) + r`. */
  function PrependNumeral(r: string, x: int): string
  {
    Sequences.DecimalString(x) + r
  }

  /** Over [1, 2, 3], `foldLeft("x", (r, s) -> r + toString(s))` is "x123". */
  lemma FoldLeftOrder()
    ensures Sequences.FoldLeft(AppendNumeral, "x", Applier(Indexes.Ops(), Indexes.Begin([1, 2, 3])).Elements()) == "x123"
  {
    ElementsOfIndex([1, 2, 3]);
    Sequences.SingleDigitNumerals();
  }

  /** Over [1, 2, 3], `foldRight("x", (r, s) -> toString(s) + r)` is "123x". */
  lemma FoldRightOrder()
    ensures Sequences.FoldLeft(PrependNumeral, "x", Sequences.Reverse(Applier(Indexes.Ops(), Indexes.Begin([1, 2, 3])).Elements())) == "123x"
  {
    ElementsOfIndex([1, 2, 3]);
    Sequences.SingleDigitNumerals();
    assert Sequences.Reverse([1, 2, 3]) == [3, 2, 1];
  }

  /**
   * Over [0, 2, 4], `makeString(',')` is "0,2,4" and `makeString('\0')` is
   * "024", `toString` of an `int` being its decimal numeral.
   */
  lemma MakeStringSeparators()
    ensures var e := Applier(Indexes.Ops(), Indexes.Begin([0, 2, 4])).Elements();
            Sequences.Glyph('\0') + Sequences.Join(Sequences.MapSeq(Sequences.DecimalString, e), ',') + Sequences.Glyph('\0') == "0,2,4"
    ensures var e := Applier(Indexes.Ops(), Indexes.Begin([0, 2, 4])).Elements();
            Sequences.Glyph('\0') + Sequences.Join(Sequences.MapSeq(Sequences.DecimalString, e), '\0') + Sequences.Glyph('\0') == "024"
  {
    ElementsOfIndex([0, 2, 4]);
    Sequences.SingleDigitNumerals();
    var parts := Sequences.MapSeq(Sequences.DecimalString, [0, 2, 4]);
    assert parts == ["0", "2", "4"];
    assert parts[..2] == ["0", "2"] && parts[..2][..1] == ["0"];
    assert Sequences.Join(["0", "2"], ',') == "0,2";
    assert Sequences.Join(["0", "2"], '\0') == "02";
  }

  /** `makeString()` with its default arguments renders [0, 2, 4] as "0,2,4". */
  method MakeStringWithDefaults() returns (s: string)
    ensures s == "0,2,4"
  {
    var a := Applier(Indexes.Ops(), Indexes.Begin([0, 2, 4]));
    ElementsOfIndex([0, 2, 4]);
    MakeStringSeparators();
    s := a.MakeString(Sequences.DecimalString);
  }

  /**
   * Keeping the even elements of [0, 1, 2, 3, 4] and then mapping `toString`
   * yields "0", "2", "4".
   */
  lemma FilterThenMap()
    ensures var a := Applier(Indexes.Ops(), Indexes.Begin([0, 1, 2, 3, 4]));
            a.Valid() && InvalidLaw(a.ops, Indexes.Invalid)
            && a.Filter(FilteredIndexes.IsEven, Indexes.Invalid).Map(Sequences.DecimalString).Elements() == ["0", "2", "4"]
  {
    var a := Applier(Indexes.Ops(), Indexes.Begin([0, 1, 2, 3, 4]));
    ElementsOfIndex([0, 1, 2, 3, 4]);
    var f := a.Filter(FilteredIndexes.IsEven, Indexes.Invalid);
    EvenUpToFour();
    assert f.Elements() == [0, 2, 4];
    var m := f.Map(Sequences.DecimalString);
    NumeralsOfZeroTwoFour();
    assert m.Elements() == ["0", "2", "4"];
  }

  lemma NumeralsOfZeroTwoFour()
    ensures Sequences.MapSeq(Sequences.DecimalString, [0, 2, 4]) == ["0", "2", "4"]
  {
    var m := Sequences.MapSeq(Sequences.DecimalString, [0, 2, 4]);
    Sequences.SingleDigitNumerals();
    assert m[0] == "0" && m[1] == "2" && m[2] == "4";
  }

  lemma EvenUpToFour()
    ensures Sequences.FilterSeq(FilteredIndexes.IsEven, [0, 1, 2, 3, 4]) == [0, 2, 4]
  {
    var s := [0, 1, 2, 3, 4];
    var p := FilteredIndexes.IsEven;
    assert Sequences.FilterSeq(p, s[3..]) == [4] by { assert s[3..][1..] == s[4..]; }
    assert Sequences.FilterSeq(p, s[1..]) == [2, 4] by { assert s[1..][1..] == s[2..]; assert s[2..][1..] == s[3..]; }
  }
}
