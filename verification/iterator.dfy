/** The reverse-iterator adapter as an index mapping.

    A cursor over a sequence is an integer index; a reverse iterator wraps one
    such cursor (`it_`).  Dereferencing reads the element *before* the wrapped
    cursor, stepping moves the wrapped cursor the other way, and the
    comparisons look at the wrapped cursors unchanged. */
module Iterator {

  /** Number of increments leading from cursor `first` to cursor `last`
      (`distance` on random-access cursors). */
  function Distance(first: int, last: int): int
  {
    last - first
  }

  datatype ReverseIterator = ReverseIterator(current: int)

  /** `base()`: the wrapped cursor. */
  function Base(r: ReverseIterator): (b: int)
    ensures ReverseIterator(b) == r
  {
    r.current
  }

  /** Index of the element that `*r` designates. */
  function DerefIndex(r: ReverseIterator): int
  {
    r.current - 1
  }

  /** `*r`: the element before the wrapped cursor. */
  function Deref<T>(s: seq<T>, r: ReverseIterator): (x: T)
    requires 0 < r.current <= |s|
    ensures x == s[Base(r) - 1]
    ensures Base(r) == |s| ==> x == s[|s| - 1]
  {
    s[DerefIndex(r)]
  }

  /** `r[n]`, which reads `it_[-n - 1]`. */
  function Subscript<T>(s: seq<T>, r: ReverseIterator, n: int): (x: T)
    requires 0 <= r.current - n - 1 < |s|
    ensures x == Deref(s, Add(r, n))
  {
    s[r.current + (-n - 1)]
  }

  /** `++r`: the wrapped cursor moves backward. */
  function Increment(r: ReverseIterator): (q: ReverseIterator)
    ensures Base(q) == Base(r) - 1
    ensures Less(q, r)
  {
    ReverseIterator(r.current - 1)
  }

  /** `--r`: the wrapped cursor moves forward. */
  function Decrement(r: ReverseIterator): (q: ReverseIterator)
    ensures Increment(q) == r
  {
    ReverseIterator(r.current + 1)
  }

  /** `r + n` wraps `it_ - n`. */
  function Add(r: ReverseIterator, n: int): (q: ReverseIterator)
    ensures ReverseDistance(r, q) == n
  {
    ReverseIterator(r.current - n)
  }

  /** `r - n` wraps `it_ + n`. */
  function Sub(r: ReverseIterator, n: int): (q: ReverseIterator)
    ensures Add(q, n) == r
  {
    ReverseIterator(r.current + n)
  }

  /** `operator==` compares the wrapped cursors: it holds exactly between
      equal iterators. */
  function SameBase(a: ReverseIterator, b: ReverseIterator): (e: bool)
    ensures e <==> a == b
  {
    Base(a) == Base(b)
  }

  /** `operator<` compares the wrapped cursors, without inverting them: `a`
      is less than `b` exactly when `a` lies further along the reversed
      traversal than `b`. */
  function Less(a: ReverseIterator, b: ReverseIterator): (l: bool)
    ensures l <==> ReverseDistance(b, a) > 0
  {
    Base(a) < Base(b)
  }

  /** Number of increments leading from reverse iterator `first` to `last`. */
  function ReverseDistance(first: ReverseIterator, last: ReverseIterator): int
  {
    Base(first) - Base(last)
  }

  /** `rbegin()` and `rend()` of a range of `n` elements starting at index 0. */
  function RBegin(n: nat): ReverseIterator
  {
    ReverseIterator(n)
  }

  function REnd(): ReverseIterator
  {
    ReverseIterator(0)
  }

  /** `n` pre-increments in a row. */
  function Steps(r: ReverseIterator, n: nat): ReverseIterator
    decreases n
  {
    if n == 0 then r else Steps(Increment(r), n - 1)
  }

  /** The elements met by `for (it = r; it != stop; ++it) ... *it ...`. */
  function Walk<T>(s: seq<T>, r: ReverseIterator, stop: ReverseIterator): seq<T>
    requires 0 <= stop.current <= r.current <= |s|
    decreases r.current - stop.current
  {
    if SameBase(r, stop) then [] else [Deref(s, r)] + Walk(s, Increment(r), stop)
  }

  /** The sequence as seen through reverse iterators starting at `rbegin()`:
      position `j` of the view mirrors position `|s| - 1 - j`. */
  function ReverseView<T>(s: seq<T>): (v: seq<T>)
    ensures |v| == |s|
    ensures forall j :: 0 <= j < |s| ==> v[j] == s[|s| - 1 - j]
    ensures forall j {:trigger Add(RBegin(|s|), j)} :: 0 <= j < |s| ==> v[j] == Deref(s, Add(RBegin(|s|), j))
  {
    seq(|s|, j requires 0 <= j < |s| => s[|s| - 1 - j])
  }

  /** Position `j` of the view is what `*(rbegin() + j)` designates. */
  lemma ReverseViewIsDerefOfAdd<T>(s: seq<T>, j: nat)
    requires j < |s|
    ensures ReverseView(s)[j] == Deref(s, Add(RBegin(|s|), j))
  {
  }

  /** Reading through the reverse view twice gives back the original order,
      so writes made through the view land on the mirrored positions. */
  lemma ReverseViewInvolution<T>(s: seq<T>)
    ensures ReverseView(ReverseView(s)) == s
  {
    var v := ReverseView(s);
    assert forall j :: 0 <= j < |s| ==> ReverseView(v)[j] == v[|s| - 1 - j];
  }

  /** `r[n]` is the element `*(r + n)` designates. */
  lemma SubscriptIsDerefOfAdd<T>(s: seq<T>, r: ReverseIterator, n: int)
    requires 0 <= r.current - n - 1 < |s|
    ensures Subscript(s, r, n) == Deref(s, Add(r, n))
  {
  }

  /** Pre-increment and pre-decrement undo each other, and `r + n` / `r - n`
      likewise; one increment is `r + 1`. */
  lemma StepsAreInverse(r: ReverseIterator, n: int)
    ensures Decrement(Increment(r)) == r && Increment(Decrement(r)) == r
    ensures Sub(Add(r, n), n) == r && Add(Sub(r, n), n) == r
    ensures Increment(r) == Add(r, 1) && Decrement(r) == Sub(r, 1)
    ensures Base(Increment(r)) == Base(r) - 1
  {
  }

  /** `r + n` lands where `n` pre-increments land. */
  lemma {:induction false} AddIsRepeatedIncrement(r: ReverseIterator, n: nat)
    ensures Steps(r, n) == Add(r, n)
    decreases n
  {
    if n > 0 {
      AddIsRepeatedIncrement(Increment(r), n - 1);
    }
  }

  /** The comparisons are not inverted: an iterator that is one step further
      along the reversed traversal compares LESS than the one before it. */
  lemma ComparisonFollowsBase(r: ReverseIterator)
    ensures Less(Increment(r), r) && !Less(r, Increment(r))
    ensures SameBase(r, Increment(r)) == false
    ensures forall n: int :: SameBase(Add(r, n), r) <==> n == 0
  {
  }

  /** Walking a reversed range from `ReverseIterator(hi)` down to
      `ReverseIterator(lo)` meets indices `hi-1, ..., lo`, in that order. */
  lemma {:induction false} WalkVisitsDescending<T>(s: seq<T>, hi: nat, lo: nat)
    requires lo <= hi <= |s|
    ensures Walk(s, ReverseIterator(hi), ReverseIterator(lo)) == seq(hi - lo, j requires 0 <= j < hi - lo => s[hi - 1 - j])
    decreases hi - lo
  {
    var w := Walk(s, ReverseIterator(hi), ReverseIterator(lo));
    var target := seq(hi - lo, j requires 0 <= j < hi - lo => s[hi - 1 - j]);
    if hi > lo {
      WalkVisitsDescending(s, hi - 1, lo);
      var rest := seq(hi - 1 - lo, j requires 0 <= j < hi - 1 - lo => s[hi - 2 - j]);
      assert Increment(ReverseIterator(hi)) == ReverseIterator(hi - 1);
      assert w == [s[hi - 1]] + rest;
      assert forall j :: 0 <= j < hi - lo ==> w[j] == target[j];
    }
  }

  /** From `rbegin()` to `rend()` the walk meets every element, last first,
      and takes exactly `n` steps. */
  lemma ReverseTraversal<T>(s: seq<T>)
    ensures Walk(s, RBegin(|s|), REnd()) == ReverseView(s)
    ensures ReverseDistance(RBegin(|s|), REnd()) == |s|
    ensures Steps(RBegin(|s|), |s|) == REnd()
  {
    var n := |s|;
    WalkVisitsDescending(s, n, 0);
    var w := Walk(s, RBegin(n), REnd());
    var v := ReverseView(s);
    assert |w| == |v| == n;
    assert forall j :: 0 <= j < n ==> w[j] == v[j];
    AddIsRepeatedIncrement(RBegin(n), n);
  }
}
