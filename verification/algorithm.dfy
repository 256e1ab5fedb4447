/** The sequence algorithms of the library, over index ranges of sequences.

    The C++ algorithms mutate a range in place through iterators; here a range
    is `[first, last)` of a sequence, and a mutating algorithm returns the whole
    sequence as it stands afterwards (plus the iterator it returns, as an
    index).  Each recursive function below takes one step of the C++ loop and
    recurses on the rest, so the recursion follows the loop's own order. */
module Algorithm {
  import opened Iterator

  /** `n` copies of `val`. */
  function Repeat<T>(val: T, n: nat): (r: seq<T>)
    ensures |r| == n && forall i :: 0 <= i < n ==> r[i] == val
  {
    seq(n, _ => val)
  }

  /** `s` and `r` agree everywhere outside `[first, last)`. */
  ghost predicate SameOutside<T>(s: seq<T>, r: seq<T>, first: int, last: int)
  {
    |r| == |s| && forall i {:trigger r[i]} :: 0 <= i < |s| && !(first <= i < last) ==> r[i] == s[i]
  }

  // ---------------------------------------------------------------------------
  // Orderings used with the comparison-functor forms

  ghost predicate Asymmetric<T(!new)>(less: (T, T) -> bool)
  {
    forall x, y :: less(x, y) ==> !less(y, x)
  }

  ghost predicate StrictTotalOrder<T(!new)>(less: (T, T) -> bool)
  {
    && Asymmetric(less)
    && forall x, y :: x != y ==> less(x, y) || less(y, x)
  }

  /** `operator<` on integers. */
  function IntLess(x: int, y: int): bool
  {
    x < y
  }

  // ---------------------------------------------------------------------------
  // swap, iter_swap, swap_ranges

  /** `swap(a, b)`: the values of `a` and `b` afterwards. */
  function Swap<T>(a: T, b: T): (r: (T, T))
    ensures r == (b, a)
  {
    (b, a)
  }

  /** Swapping twice gives back both values. */
  lemma SwapTwiceRestores<T>(a: T, b: T)
    ensures var r := Swap(a, b); Swap(r.0, r.1) == (a, b)
  {
  }

  /** `iter_swap(s + i, s + j)`: exchanges the two elements. */
  function IterSwap<T>(s: seq<T>, i: nat, j: nat): (r: seq<T>)
    requires i < |s| && j < |s|
    ensures |r| == |s| && r[i] == s[j] && r[j] == s[i]
    ensures forall k {:trigger r[k]} :: 0 <= k < |s| && k != i && k != j ==> r[k] == s[k]
  {
    var p := Swap(s[i], s[j]);
    s[i := p.0][j := p.1]
  }

  /** `iter_swap` exchanges two elements and loses none. */
  lemma IterSwapIsPermutation<T>(s: seq<T>, i: nat, j: nat)
    requires i < |s| && j < |s|
    ensures multiset(IterSwap(s, i, j)) == multiset(s)
  {
  }

  /** `swap_ranges(first1, last1, first2)` for two ranges in distinct
      sequences `a` and `b`; the third component is the returned iterator. */
  function SwapRanges<T>(a: seq<T>, first1: nat, last1: nat, b: seq<T>, first2: nat): (r: (seq<T>, seq<T>, nat))
    requires first1 <= last1 <= |a| && first2 + (last1 - first1) <= |b|
    ensures r.2 == first2 + (last1 - first1)
    ensures SameOutside(a, r.0, first1, last1) && SameOutside(b, r.1, first2, r.2)
    ensures forall i :: first1 <= i < last1 ==> r.0[i] == b[i - first1 + first2]
    ensures forall i :: first2 <= i < r.2 ==> r.1[i] == a[i - first2 + first1]
    decreases last1 - first1
  {
    if first1 == last1 then (a, b, first2)
    else
      var p := Swap(a[first1], b[first2]);
      SwapRanges(a[first1 := p.0], first1 + 1, last1, b[first2 := p.1], first2 + 1)
  }

  /** Swapping the same two ranges again restores both sequences. */
  lemma SwapRangesTwiceRestores<T>(a: seq<T>, first1: nat, last1: nat, b: seq<T>, first2: nat)
    requires first1 <= last1 <= |a| && first2 + (last1 - first1) <= |b|
    ensures var r := SwapRanges(a, first1, last1, b, first2);
            SwapRanges(r.0, first1, last1, r.1, first2) == (a, b, r.2)
  {
    var r := SwapRanges(a, first1, last1, b, first2);
    var t := SwapRanges(r.0, first1, last1, r.1, first2);
    assert t.0 == a;
    assert t.1 == b;
  }

  // ---------------------------------------------------------------------------
  // fill, fill_n

  /** `fill(first, last, val)`. */
  function Fill<T>(s: seq<T>, first: nat, last: nat, val: T): (r: seq<T>)
    requires first <= last <= |s|
    ensures SameOutside(s, r, first, last)
    ensures forall i :: first <= i < last ==> r[i] == val
    decreases last - first
  {
    if first == last then s else Fill(s[first := val], first + 1, last, val)
  }

  /** `fill_n(first, len, val)`; the second component is the returned iterator. */
  function FillN<T>(s: seq<T>, first: nat, len: nat, val: T): (r: (seq<T>, nat))
    requires first + len <= |s|
    ensures r.1 == first + len
    ensures SameOutside(s, r.0, first, r.1)
    ensures forall i :: first <= i < r.1 ==> r.0[i] == val
    decreases len
  {
    if len == 0 then (s, first) else FillN(s[first := val], first + 1, len - 1, val)
  }

  /** `fill_n(first, len, val)` does what `fill(first, first + len, val)` does. */
  lemma {:induction false} FillNIsFill<T>(s: seq<T>, first: nat, len: nat, val: T)
    requires first + len <= |s|
    ensures FillN(s, first, len, val).0 == Fill(s, first, first + len, val)
    decreases len
  {
    if len > 0 {
      FillNIsFill(s[first := val], first + 1, len - 1, val);
    }
  }

  // ---------------------------------------------------------------------------
  // copy, copy_n

  /** `copy(src + first, src + last, dst + dest)` into a distinct sequence. */
  function Copy<T>(src: seq<T>, first: nat, last: nat, dst: seq<T>, dest: nat): (r: seq<T>)
    requires first <= last <= |src| && dest + (last - first) <= |dst|
    ensures SameOutside(dst, r, dest, dest + (last - first))
    ensures forall i :: dest <= i < dest + (last - first) ==> r[i] == src[i - dest + first]
    decreases last - first
  {
    if first == last then dst else Copy(src, first + 1, last, dst[dest := src[first]], dest + 1)
  }

  /** `copy_n(src + first, len, dst + dest)`; the second component is the
      returned iterator. */
  function CopyN<T>(src: seq<T>, first: nat, len: nat, dst: seq<T>, dest: nat): (r: (seq<T>, nat))
    requires first + len <= |src| && dest + len <= |dst|
    ensures r.1 == dest + len
    ensures SameOutside(dst, r.0, dest, r.1)
    ensures forall i :: dest <= i < r.1 ==> r.0[i] == src[i - dest + first]
    decreases len
  {
    if len == 0 then (dst, dest) else CopyN(src, first + 1, len - 1, dst[dest := src[first]], dest + 1)
  }

  /** `copy_n(first, len, dest)` does what `copy(first, first + len, dest)` does. */
  lemma {:induction false} CopyNIsCopy<T>(src: seq<T>, first: nat, len: nat, dst: seq<T>, dest: nat)
    requires first + len <= |src| && dest + len <= |dst|
    ensures CopyN(src, first, len, dst, dest).0 == Copy(src, first, first + len, dst, dest)
    decreases len
  {
    if len > 0 {
      CopyNIsCopy(src, first + 1, len - 1, dst[dest := src[first]], dest + 1);
    }
  }

  // ---------------------------------------------------------------------------
  // min, max

  /** `min(a, b, comp)`: `b` only when `comp(b, a)`, so ties give `a`.
      `min(a, b)` is the same with `comp` being the element type's `<`. */
  function Min<T>(a: T, b: T, less: (T, T) -> bool): (r: T)
    ensures less(b, a) ==> r == b
    ensures !less(b, a) ==> r == a
  {
    if less(b, a) then b else a
  }

  /** `max(a, b, comp)`: `b` only when `comp(a, b)`, so ties give `a`. */
  function Max<T>(a: T, b: T, less: (T, T) -> bool): (r: T)
    ensures less(a, b) ==> r == b
    ensures !less(a, b) ==> r == a
  {
    if less(a, b) then b else a
  }

  /** `min(a, b)` on integers. */
  function MinValue(a: int, b: int): (r: int)
    ensures r <= a && r <= b && (r == a || r == b)
  {
    Min(a, b, IntLess)
  }

  /** `max(a, b)` on integers. */
  function MaxValue(a: int, b: int): (r: int)
    ensures r >= a && r >= b && (r == a || r == b)
  {
    Max(a, b, IntLess)
  }

  /** For an asymmetric `comp`, `min` is below both arguments and `max` above
      both; when neither argument is less than the other both return `a`. */
  lemma MinMaxBounds<T(!new)>(a: T, b: T, less: (T, T) -> bool)
    requires Asymmetric(less)
    ensures var lo := Min(a, b, less); !less(a, lo) && !less(b, lo)
    ensures var hi := Max(a, b, less); !less(hi, a) && !less(hi, b)
    ensures !less(a, b) && !less(b, a) ==> Min(a, b, less) == a && Max(a, b, less) == a
  {
  }

  // ---------------------------------------------------------------------------
  // equal

  /** `equal(first1, last1, first2)` with `a` the first range and `b` the
      range starting at `first2`; the scan resumes at offset `i` once the
      first `i` pairs are known to match. */
  function EqualFrom<T(==)>(a: seq<T>, b: seq<T>, i: nat): (r: bool)
    requires i <= |a| <= |b| && a[..i] == b[..i]
    ensures r <==> a == b[..|a|]
    decreases |a| - i
  {
    if i == |a| then true
    else if !(a[i] == b[i]) then false
    else EqualFrom(a, b, i + 1)
  }

  /** `equal(first1, last1, first2)`. */
  function Equal<T(==)>(a: seq<T>, b: seq<T>): (r: bool)
    requires |a| <= |b|
    ensures r <==> forall i :: 0 <= i < |a| ==> a[i] == b[i]
  {
    var r := EqualFrom(a, b, 0);
    assert r <==> a == b[..|a|];
    r
  }

  /** `equal(first1, last1, first2, p)`, resuming at offset `i`. */
  function EqualByFrom<T>(a: seq<T>, b: seq<T>, p: (T, T) -> bool, i: nat): (r: bool)
    requires i <= |a| <= |b|
    requires forall j :: 0 <= j < i ==> p(a[j], b[j])
    ensures r <==> forall j :: 0 <= j < |a| ==> p(a[j], b[j])
    decreases |a| - i
  {
    if i == |a| then true
    else if !p(a[i], b[i]) then false
    else EqualByFrom(a, b, p, i + 1)
  }

  /** `equal(first1, last1, first2, p)`. */
  function EqualBy<T>(a: seq<T>, b: seq<T>, p: (T, T) -> bool): (r: bool)
    requires |a| <= |b|
    ensures r <==> forall j :: 0 <= j < |a| ==> p(a[j], b[j])
  {
    EqualByFrom(a, b, p, 0)
  }

  /** The form without a predicate is the predicate form with `==`. */
  lemma EqualIsEqualByEquality<T>(a: seq<T>, b: seq<T>)
    requires |a| <= |b|
    ensures Equal(a, b) == EqualBy(a, b, (x: T, y: T) => x == y)
    ensures Equal(a, b) <==> a == b[..|a|]
  {
    assert Equal(a, b) <==> a == b[..|a|];
  }

  // ---------------------------------------------------------------------------
  // lexicographical_compare

  /** Neither element is less than the other. */
  predicate Equivalent<T>(x: T, y: T, less: (T, T) -> bool)
  {
    !less(x, y) && !less(y, x)
  }

  /** The first `k` pairs of `a` and `b` are equivalent. */
  predicate EquivalentPrefix<T>(a: seq<T>, b: seq<T>, less: (T, T) -> bool, k: nat)
    requires k <= |a| && k <= |b|
  {
    forall i :: 0 <= i < k ==> Equivalent(a[i], b[i], less)
  }

  /** Strict lexicographic order, stated without a scan: some position `k`
      ends an equivalent common prefix, and there either `a`'s element is the
      lesser one or `a` has ended while `b` has not. */
  ghost predicate LexLess<T>(a: seq<T>, b: seq<T>, less: (T, T) -> bool)
  {
    exists k: nat :: k <= |a| && k <= |b| && EquivalentPrefix(a, b, less, k) && LexDecidesAt(a, b, less, k)
  }

  /** What position `k` contributes to `LexLess`. */
  predicate LexDecidesAt<T>(a: seq<T>, b: seq<T>, less: (T, T) -> bool, k: nat)
    requires k <= |a| && k <= |b|
  {
    (k < |a| && k < |b| && less(a[k], b[k])) || (k == |a| && k < |b|)
  }

  /** The first mismatching equivalence class decides `LexLess`. */
  lemma LexFirstMismatchDecides<T>(a: seq<T>, b: seq<T>, less: (T, T) -> bool, k: nat)
    requires k < |a| && k < |b| && EquivalentPrefix(a, b, less, k)
    requires !Equivalent(a[k], b[k], less)
    ensures LexLess(a, b, less) <==> less(a[k], b[k])
  {
    if less(a[k], b[k]) {
      assert LexDecidesAt(a, b, less, k);
    }
    if LexLess(a, b, less) {
      var j: nat :| j <= |a| && j <= |b| && EquivalentPrefix(a, b, less, j) && LexDecidesAt(a, b, less, j);
      assert j == k;
    }
  }

  /** Once the ranges are equivalent up to the end of one of them, `a` is less
      exactly when it is the shorter one. */
  lemma LexAtEnd<T>(a: seq<T>, b: seq<T>, less: (T, T) -> bool, k: nat)
    requires k <= |a| && k <= |b| && (k == |a| || k == |b|) && EquivalentPrefix(a, b, less, k)
    ensures LexLess(a, b, less) <==> k == |a| && k != |b|
  {
    if k == |a| && k != |b| {
      assert LexDecidesAt(a, b, less, k);
    }
    if LexLess(a, b, less) {
      var j: nat :| j <= |a| && j <= |b| && EquivalentPrefix(a, b, less, j) && LexDecidesAt(a, b, less, j);
      if j < k {
        assert Equivalent(a[j], b[j], less);
      }
    }
  }

  /** One pass of the loop of `lexicographical_compare`, resuming at offset
      `i` once the first `i` pairs are known to be equivalent. */
  function LexicographicalCompareFrom<T>(a: seq<T>, b: seq<T>, less: (T, T) -> bool, i: nat): (r: bool)
    requires i <= |a| && i <= |b| && EquivalentPrefix(a, b, less, i)
    ensures r <==> LexLess(a, b, less)
    decreases |a| - i
  {
    if i == |a| || i == |b| then
      LexAtEnd(a, b, less, i);
      i == |a| && i != |b|
    else if less(a[i], b[i]) then
      LexFirstMismatchDecides(a, b, less, i);
      true
    else if less(b[i], a[i]) then
      LexFirstMismatchDecides(a, b, less, i);
      false
    else
      LexicographicalCompareFrom(a, b, less, i + 1)
  }

  /** `lexicographical_compare(first1, last1, first2, last2, comp)`; the form
      without `comp` is this one with the element type's `<`. */
  function LexicographicalCompare<T>(a: seq<T>, b: seq<T>, less: (T, T) -> bool): (r: bool)
    ensures r <==> LexLess(a, b, less)
  {
    LexicographicalCompareFrom(a, b, less, 0)
  }

  /** A range that is an equivalent proper prefix of another is less, and not
      the other way round; in particular the empty range is less than every
      non-empty one. */
  lemma LexProperPrefixIsLess<T>(a: seq<T>, b: seq<T>, less: (T, T) -> bool)
    requires |a| < |b| && EquivalentPrefix(a, b, less, |a|)
    ensures LexicographicalCompare(a, b, less)
    ensures !LexicographicalCompare(b, a, less)
  {
    LexAtEnd(a, b, less, |a|);
    assert EquivalentPrefix(b, a, less, |a|);
    LexAtEnd(b, a, less, |a|);
  }

  /** Equal-length, pairwise-equivalent ranges (two empty ranges among them)
      are not less than each other in either direction. */
  lemma LexEquivalentRangesNotLess<T>(a: seq<T>, b: seq<T>, less: (T, T) -> bool)
    requires |a| == |b| && EquivalentPrefix(a, b, less, |a|)
    ensures !LexicographicalCompare(a, b, less)
    ensures !LexicographicalCompare(b, a, less)
  {
    LexAtEnd(a, b, less, |a|);
    assert EquivalentPrefix(b, a, less, |a|);
    LexAtEnd(b, a, less, |a|);
  }

  /** Length of the longest common prefix of `a` and `b`. */
  function CommonPrefix<T(==)>(a: seq<T>, b: seq<T>): (k: nat)
    ensures k <= |a| && k <= |b| && a[..k] == b[..k]
    ensures k < |a| && k < |b| ==> a[k] != b[k]
  {
    if |a| == 0 || |b| == 0 || a[0] != b[0] then 0
    else
      var k := CommonPrefix(a[1..], b[1..]);
      assert a[..k + 1] == [a[0]] + a[1..][..k];
      assert b[..k + 1] == [b[0]] + b[1..][..k];
      k + 1
  }

  /** Over a strict total order of the elements, lexicographic order is a strict
      total order of ranges: exactly one of `a < b`, `a == b`, `b < a` holds. */
  lemma LexTrichotomy<T(!new)>(a: seq<T>, b: seq<T>, less: (T, T) -> bool)
    requires StrictTotalOrder(less)
    ensures LexicographicalCompare(a, b, less) || a == b || LexicographicalCompare(b, a, less)
    ensures !(LexicographicalCompare(a, b, less) && LexicographicalCompare(b, a, less))
    ensures a == b ==> !LexicographicalCompare(a, b, less)
  {
    var k := CommonPrefix(a, b);
    assert EquivalentPrefix(a, b, less, k) by {
      forall i | 0 <= i < k
        ensures Equivalent(a[i], b[i], less)
      {
        assert a[i] == a[..k][i] == b[..k][i] == b[i];
      }
    }
    assert EquivalentPrefix(b, a, less, k);
    if k < |a| && k < |b| {
      LexFirstMismatchDecides(a, b, less, k);
      LexFirstMismatchDecides(b, a, less, k);
    } else {
      LexAtEnd(a, b, less, k);
      LexAtEnd(b, a, less, k);
      if k == |a| && k == |b| {
        assert a == a[..k] == b[..k] == b;
      }
    }
  }

  // ---------------------------------------------------------------------------
  // reverse, rotate

  /** `reverse(first, last)`: swaps `first` with `--last` while they differ
      and have not crossed. */
  function Reverse<T>(s: seq<T>, first: nat, last: nat): (r: seq<T>)
    requires first <= last <= |s|
    ensures SameOutside(s, r, first, last)
    ensures forall i :: first <= i < last ==> r[i] == s[first + last - 1 - i]
    decreases last - first
  {
    if first == last || first == last - 1 then s
    else Reverse(IterSwap(s, first, last - 1), first + 1, last - 1)
  }

  /** The reversal of a whole sequence, defined from its last element
      backwards: a reference for `Reverse` that does not swap. */
  function Reversed<T>(x: seq<T>): seq<T>
  {
    if |x| == 0 then [] else [x[|x| - 1]] + Reversed(x[..|x| - 1])
  }

  lemma {:induction false} ReversedMirrors<T>(x: seq<T>)
    ensures |Reversed(x)| == |x|
    ensures forall i :: 0 <= i < |x| ==> Reversed(x)[i] == x[|x| - 1 - i]
  {
    if |x| > 0 {
      ReversedMirrors(x[..|x| - 1]);
    }
  }

  lemma {:induction false} ReversedIsPermutation<T>(x: seq<T>)
    ensures multiset(Reversed(x)) == multiset(x)
  {
    if |x| > 0 {
      var init := x[..|x| - 1];
      ReversedIsPermutation(init);
      assert x == init + [x[|x| - 1]];
    }
  }

  /** `reverse` on `[first, last)` agrees with the reference reversal of that
      slice and leaves the rest alone. */
  lemma ReverseMatchesReversed<T>(s: seq<T>, first: nat, last: nat)
    requires first <= last <= |s|
    ensures Reverse(s, first, last) == s[..first] + Reversed(s[first..last]) + s[last..]
  {
    var r := Reverse(s, first, last);
    ReversedMirrors(s[first..last]);
    var t := s[..first] + Reversed(s[first..last]) + s[last..];
    assert |t| == |r|;
    forall i | 0 <= i < |r|
      ensures r[i] == t[i]
    {
      if i < first {
      } else if i < last {
        assert t[i] == Reversed(s[first..last])[i - first];
      } else {
      }
    }
  }

  /** `reverse` only exchanges elements, so the result is a permutation. */
  lemma ReverseIsPermutation<T>(s: seq<T>, first: nat, last: nat)
    requires first <= last <= |s|
    ensures multiset(Reverse(s, first, last)) == multiset(s)
  {
    ReverseMatchesReversed(s, first, last);
    ReversedIsPermutation(s[first..last]);
    assert s == s[..first] + s[first..last] + s[last..];
  }

  /** Reversing the same range twice restores it. */
  lemma ReverseTwiceRestores<T>(s: seq<T>, first: nat, last: nat)
    requires first <= last <= |s|
    ensures Reverse(Reverse(s, first, last), first, last) == s
  {
    var r := Reverse(Reverse(s, first, last), first, last);
    assert forall i :: 0 <= i < |s| ==> r[i] == s[i];
  }

  /** `r` is `s` with `[first, last)` rotated left so that `middle` comes
      first, stated position by position. */
  ghost predicate RotatedLeft<T>(s: seq<T>, r: seq<T>, first: nat, middle: nat, last: nat)
    requires first <= middle <= last <= |s|
  {
    && SameOutside(s, r, first, last)
    && (forall i :: first <= i < first + (last - middle) ==> r[i] == s[i - first + middle])
    && (forall i :: first + (last - middle) <= i < last ==> r[i] == s[i - (last - middle)])
  }

  /** The position-by-position statement of a rotation as a splice. */
  lemma RotatedLeftAsSplice<T>(s: seq<T>, r: seq<T>, first: nat, middle: nat, last: nat)
    requires first <= middle <= last <= |s| && RotatedLeft(s, r, first, middle, last)
    ensures r == s[..first] + s[middle..last] + s[first..middle] + s[last..]
  {
    var m := first + (last - middle);
    assert r[..first] == s[..first];
    assert r[first..m] == s[middle..last];
    assert r[m..last] == s[first..middle];
    assert r[last..] == s[last..];
    assert r == r[..first] + r[first..m] + r[m..last] + r[last..];
  }

  /** The reverse-reverse-reverse identity behind `rotate`. */
  lemma ThreeReversalsRotate<T>(s: seq<T>, first: nat, middle: nat, last: nat)
    requires first <= middle <= last <= |s|
    ensures RotatedLeft(s, Reverse(Reverse(Reverse(s, first, middle), middle, last), first, last), first, middle, last)
  {
    var a := Reverse(s, first, middle);
    var b := Reverse(a, middle, last);
    var c := Reverse(b, first, last);
    forall i | first <= i < first + (last - middle)
      ensures c[i] == s[i - first + middle]
    {
      var j := first + last - 1 - i;
      assert c[i] == b[j] == a[middle + last - 1 - j];
    }
    forall i | first + (last - middle) <= i < last
      ensures c[i] == s[i - (last - middle)]
    {
      var j := first + last - 1 - i;
      assert c[i] == b[j] == a[j] == s[first + middle - 1 - j];
    }
  }

  /** `rotate(first, middle, last)`: left rotation, so that `middle` becomes
      the first element; the second component is the returned iterator, the
      new position of the element that was at `first`. */
  function Rotate<T>(s: seq<T>, first: nat, middle: nat, last: nat): (r: (seq<T>, nat))
    requires first <= middle <= last <= |s|
    ensures RotatedLeft(s, r.0, first, middle, last)
    ensures r.1 == first + (last - middle)
  {
    if first == middle then
      (s, last)
    else if middle == last then
      (s, first)
    else
      var t := Reverse(Reverse(Reverse(s, first, middle), middle, last), first, last);
      ThreeReversalsRotate(s, first, middle, last);
      (t, first + Distance(middle, last))
  }

  /** The rotated range as a splice: `[middle, last)` then `[first, middle)`. */
  lemma RotateAsSplice<T>(s: seq<T>, first: nat, middle: nat, last: nat)
    requires first <= middle <= last <= |s|
    ensures Rotate(s, first, middle, last).0 == s[..first] + s[middle..last] + s[first..middle] + s[last..]
  {
    RotatedLeftAsSplice(s, Rotate(s, first, middle, last).0, first, middle, last);
  }

  /** Two left rotations of `[first, last)` whose middles are complementary
      compose to the identity. */
  lemma ComplementaryRotations<T>(s: seq<T>, t: seq<T>, u: seq<T>, first: nat, middle: nat, last: nat)
    requires first <= middle <= last <= |s| && |t| == |s| && |u| == |s|
    requires RotatedLeft(s, t, first, middle, last)
    requires RotatedLeft(t, u, first, first + (last - middle), last)
    ensures u == s
  {
    var m := first + (last - middle);
    forall i | first <= i < last
      ensures u[i] == s[i]
    {
      if i < first + (middle - first) {
        var j := i - first + m;
        assert u[i] == t[j];
        assert t[j] == s[j - (last - middle)];
      } else {
        var j := i - (middle - first);
        assert u[i] == t[j];
        assert t[j] == s[j - first + middle];
      }
    }
    assert forall i :: 0 <= i < |s| ==> u[i] == s[i];
  }

  /** Rotating at the complementary middle undoes a rotation. */
  lemma RotateComplementRestores<T>(s: seq<T>, first: nat, middle: nat, last: nat)
    requires first <= middle <= last <= |s|
    ensures var r := Rotate(s, first, middle, last);
            Rotate(r.0, first, r.1, last).0 == s
  {
    var r := Rotate(s, first, middle, last);
    ComplementaryRotations(s, r.0, Rotate(r.0, first, r.1, last).0, first, middle, last);
  }

  /** Mirroring a left rotation of the reversed sequence's prefix `[0, n - d)`
      by `k` gives a right rotation of `[d, n)` by `k`. */
  lemma MirroredRotation<T>(s: seq<T>, rot: seq<T>, d: nat, k: nat)
    requires d + k <= |s| && |rot| == |s|
    requires RotatedLeft(ReverseView(s), rot, 0, k, |s| - d)
    ensures RotatedLeft(s, ReverseView(rot), d, |s| - k, |s|)
  {
    var n := |s|;
    var v := ReverseView(s);
    var res := ReverseView(rot);
    forall i | 0 <= i < n && !(d <= i < n)
      ensures res[i] == s[i]
    {
      assert res[i] == rot[n - 1 - i] == v[n - 1 - i];
    }
    forall i | d <= i < d + k
      ensures res[i] == s[i - d + (n - k)]
    {
      var p := n - 1 - i;
      assert res[i] == rot[p] == v[p - (n - d - k)];
    }
    forall i | d + k <= i < n
      ensures res[i] == s[i - k]
    {
      var p := n - 1 - i;
      assert res[i] == rot[p] == v[k + p];
    }
  }

  /** A left rotation of a suffix `[d, n)` at `n - k` moves the last `k`
      elements to position `d`. */
  lemma RotatedRightAsSplice<T>(s: seq<T>, r: seq<T>, d: nat, k: nat)
    requires d + k <= |s| && RotatedLeft(s, r, d, |s| - k, |s|)
    ensures r == s[..d] + s[|s| - k..] + s[d..|s| - k]
  {
    var n := |s|;
    RotatedLeftAsSplice(s, r, d, n - k, n);
    assert s[n - k..n] == s[n - k..] && s[n..] == [];
  }

  /** Reading a left rotation of the reversed view's prefix `[0, |s| - d)`
      by `k` back through the view gives a right rotation of `[d, |s|)` by
      `k`: the last `k` elements move to position `d`. */
  lemma RightRotation<T>(s: seq<T>, d: nat, k: nat)
    requires d + k <= |s|
    ensures ReverseView(Rotate(ReverseView(s), 0, k, |s| - d).0) == s[..d] + s[|s| - k..] + s[d..|s| - k]
  {
    var rot := Rotate(ReverseView(s), 0, k, |s| - d).0;
    MirroredRotation(s, rot, d, k);
    RotatedRightAsSplice(s, ReverseView(rot), d, k);
  }

  /** `rotate` applied through reverse iterators — `rotate(rbegin(),
      rbegin() + k, reverse_iterator(begin() + d))` — is that right rotation. */
  lemma RotateThroughReverseIterators<T>(s: seq<T>, d: nat, k: nat)
    requires d + k <= |s|
    ensures var n := |s|;
            var rfirst := RBegin(n);
            var rmiddle := Add(rfirst, k);
            var rlast := ReverseIterator(d);
            ReverseView(Rotate(ReverseView(s), 0, ReverseDistance(rfirst, rmiddle), ReverseDistance(rfirst, rlast)).0)
            == s[..d] + s[n - k..] + s[d..n - k]
  {
    var n := |s|;
    assert ReverseDistance(RBegin(n), Add(RBegin(n), k)) == k;
    assert ReverseDistance(RBegin(n), ReverseIterator(d)) == n - d;
    RightRotation(s, d, k);
  }
}
