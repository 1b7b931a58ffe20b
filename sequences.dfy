/**
 * Reference definitions on plain sequences. The cursors and the Applier's
 * terminal operations are proved against these.
 */
module Sequences {

  /** Each element transformed by `f`, in order. */
  function MapSeq<A, B>(f: A -> B, s: seq<A>): (r: seq<B>)
    ensures |r| == |s|
    ensures forall i :: 0 <= i < |s| ==> r[i] == f(s[i])
  {
    if s == [] then [] else [f(s[0])] + MapSeq(f, s[1..])
  }

  /** Mapping one more element of `s` appends its image. */
  lemma MapSeqSnoc<A, B>(f: A -> B, s: seq<A>, k: nat)
    requires k < |s|
    ensures MapSeq(f, s[..k + 1]) == MapSeq(f, s[..k]) + [f(s[k])]
  {
    assert |MapSeq(f, s[..k + 1])| == k + 1;
  }

  /** The elements of `s` that satisfy `p`, in order. */
  function FilterSeq<T>(p: T -> bool, s: seq<T>): (r: seq<T>)
    ensures |r| <= |s|
  {
    if s == [] then []
    else if p(s[0]) then [s[0]] + FilterSeq(p, s[1..])
    else FilterSeq(p, s[1..])
  }

  /**
   * The filter keeps exactly the elements that satisfy `p`: everything kept
   * is in `s` and satisfies `p`, and every element of `s` that satisfies `p`
   * is kept.
   */
  lemma {:induction false} FilterSeqKeepsAccepted<T>(p: T -> bool, s: seq<T>)
    ensures forall i :: 0 <= i < |FilterSeq(p, s)| ==> FilterSeq(p, s)[i] in s && p(FilterSeq(p, s)[i])
    ensures forall i :: 0 <= i < |s| && p(s[i]) ==> s[i] in FilterSeq(p, s)
  {
    if s != [] {
      FilterSeqKeepsAccepted(p, s[1..]);
      var r := FilterSeq(p, s);
      var t := FilterSeq(p, s[1..]);
      forall i | 0 <= i < |r|
        ensures r[i] in s && p(r[i])
      {
        if p(s[0]) && i > 0 {
          assert r[i] == t[i - 1];
        }
      }
      forall i | 0 <= i < |s| && p(s[i])
        ensures s[i] in r
      {
        if i > 0 {
          assert s[i] == s[1..][i - 1];
        }
      }
    }
  }

  /** `s` with its leading run of elements that fail `p` removed. */
  function SkipRejected<T>(p: T -> bool, s: seq<T>): (r: seq<T>)
    ensures |r| <= |s| && r == s[|s| - |r|..]
    ensures forall i :: 0 <= i < |s| - |r| ==> !p(s[i])
    ensures r != [] ==> p(r[0])
  {
    if s == [] then []
    else if p(s[0]) then s
    else SkipRejected(p, s[1..])
  }

  /** The pairs of elements at equal positions, as long as the shorter sequence. */
  function Zip<A, B>(a: seq<A>, b: seq<B>): (r: seq<(A, B)>)
    ensures |r| == if |a| < |b| then |a| else |b|
    ensures forall i :: 0 <= i < |r| ==> r[i] == (a[i], b[i])
  {
    if a == [] || b == [] then [] else [(a[0], b[0])] + Zip(a[1..], b[1..])
  }

  /** `s` back to front. */
  function Reverse<T>(s: seq<T>): (r: seq<T>)
    ensures |r| == |s|
    ensures forall i :: 0 <= i < |s| ==> r[i] == s[|s| - 1 - i]
  {
    if s == [] then [] else [s[|s| - 1]] + Reverse(s[..|s| - 1])
  }

  /** Left fold: `f(f(f(z, s[0]), s[1]), s[2])` for three elements. */
  function FoldLeft<R, T>(f: (R, T) -> R, z: R, s: seq<T>): R
  {
    if s == [] then z else FoldLeft(f, f(z, s[0]), s[1..])
  }

  /** Right fold: `g(s[0], g(s[1], g(s[2], z)))` for three elements. */
  function FoldRight<R, T>(g: (T, R) -> R, z: R, s: seq<T>): R
  {
    if s == [] then z else g(s[0], FoldRight(g, z, s[1..]))
  }

  /**
   * The rendering of a separator or delimiter: nothing for the sentinel
   * character '\0', the character itself otherwise.
   */
  function Glyph(c: char): (r: string)
    ensures |r| <= 1
    ensures r == [] <==> c == '\0'
  {
    if c == '\0' then "" else [c]
  }

  /** The parts laid end to end with `Glyph(sep)` between neighbours only. */
  function Join(parts: seq<string>, sep: char): string
  {
    if |parts| == 0 then ""
    else if |parts| == 1 then parts[0]
    else Join(parts[..|parts| - 1], sep) + Glyph(sep) + parts[|parts| - 1]
  }

  /** Filtering distributes over concatenation. */
  lemma {:induction false} FilterAppend<T>(p: T -> bool, s: seq<T>, t: seq<T>)
    ensures FilterSeq(p, s + t) == FilterSeq(p, s) + FilterSeq(p, t)
  {
    if s == [] {
      assert s + t == t;
    } else {
      assert (s + t)[0] == s[0];
      assert (s + t)[1..] == s[1..] + t;
      FilterAppend(p, s[1..], t);
    }
  }

  /** Skipping the rejected prefix does not change what the filter keeps. */
  lemma {:induction false} FilterSkipRejected<T>(p: T -> bool, s: seq<T>)
    ensures FilterSeq(p, SkipRejected(p, s)) == FilterSeq(p, s)
  {
    if s != [] && !p(s[0]) {
      FilterSkipRejected(p, s[1..]);
    }
  }

  /** Folding left over `s + [x]` applies `f` to `x` last. */
  lemma {:induction false} FoldLeftSnoc<R, T>(f: (R, T) -> R, z: R, s: seq<T>, x: T)
    ensures FoldLeft(f, z, s + [x]) == f(FoldLeft(f, z, s), x)
  {
    if s != [] {
      assert (s + [x])[1..] == s[1..] + [x];
      FoldLeftSnoc(f, f(z, s[0]), s[1..], x);
    }
  }

  /**
   * A left fold over the reversed sequence is the right fold with the
   * arguments of `f` swapped: `f(f(f(z, e2), e1), e0)`.
   */
  lemma {:induction false} FoldLeftReverse<R, T>(f: (R, T) -> R, z: R, s: seq<T>)
    ensures FoldLeft(f, z, Reverse(s)) == FoldRight(Flip(f), z, s)
  {
    if s != [] {
      var g := Flip(f);
      calc {
        FoldLeft(f, z, Reverse(s));
        { ReverseCons(s); }
        FoldLeft(f, z, Reverse(s[1..]) + [s[0]]);
        { FoldLeftSnoc(f, z, Reverse(s[1..]), s[0]); }
        f(FoldLeft(f, z, Reverse(s[1..])), s[0]);
        { FoldLeftReverse(f, z, s[1..]); }
        f(FoldRight(g, z, s[1..]), s[0]);
      }
    }
  }

  /** `f` with its two arguments taken in the other order. */
  function Flip<R, T>(f: (R, T) -> R): (T, R) -> R
  {
    (x: T, acc: R) => f(acc, x)
  }

  /** Reversing takes the first element to the back. */
  lemma {:induction false} ReverseCons<T>(s: seq<T>)
    requires s != []
    ensures Reverse(s) == Reverse(s[1..]) + [s[0]]
  {
    if |s| > 1 {
      var n := |s| - 1;
      assert s[..n][1..] == s[1..][..n - 1];
      ReverseCons(s[..n]);
      assert s[1..][n - 1] == s[n];
    } else {
      assert s[1..] == [] && s[..0] == [];
    }
  }

  /**
   * Joining one more part puts the separator's glyph before it, also after
   * any prefix `lead`.
   */
  lemma JoinSnoc(lead: string, parts: seq<string>, last: string, sep: char)
    requires parts != []
    ensures Join(parts + [last], sep) == Join(parts, sep) + Glyph(sep) + last
    ensures lead + Join(parts + [last], sep) == lead + Join(parts, sep) + Glyph(sep) + last
  {
    assert (parts + [last])[..|parts|] == parts;
  }

  /** Joining a list with the sentinel separator is plain concatenation. */
  lemma {:induction false} JoinWithoutSeparator(parts: seq<string>)
    ensures Join(parts, '\0') == Concat(parts)
  {
    if |parts| > 1 {
      JoinWithoutSeparator(parts[..|parts| - 1]);
      ConcatSnoc(parts[..|parts| - 1], parts[|parts| - 1]);
      assert parts == parts[..|parts| - 1] + [parts[|parts| - 1]];
    }
  }

  /** The strings of `parts` laid end to end. */
  function Concat(parts: seq<string>): string
  {
    if parts == [] then "" else parts[0] + Concat(parts[1..])
  }

  lemma {:induction false} ConcatSnoc(parts: seq<string>, last: string)
    ensures Concat(parts + [last]) == Concat(parts) + last
  {
    if parts != [] {
      assert (parts + [last])[1..] == parts[1..] + [last];
      ConcatSnoc(parts[1..], last);
    }
  }

  /** The decimal numeral of `n`, with a leading '-' when negative (`std::to_string`). */
  function DecimalString(n: int): (r: string)
    ensures r != []
  {
    if n < 0 then "-" + Digits(-n) else Digits(n)
  }

  /** The numerals of the single digits. */
  lemma SingleDigitNumerals()
    ensures DecimalString(0) == "0" && DecimalString(1) == "1" && DecimalString(2) == "2"
    ensures DecimalString(3) == "3" && DecimalString(4) == "4"
  {
  }

  /** The decimal digits of `n`, most significant first, without leading zeros. */
  function Digits(n: nat): (r: string)
    ensures r != []
    ensures forall i :: 0 <= i < |r| ==> '0' <= r[i] <= '9'
  {
    if n < 10 then [('0' as int + n) as char] else Digits(n / 10) + Digits(n % 10)
  }
}
