/** The fixed-size array: exactly `N` elements, always all present.

    `N` is the length of `elems`.  Construction and assignment from an array
    of another size copy `min(N, N2)` elements and value-initialise the rest
    (with `zero` standing for `T()`); `at` wraps its index modulo `N`
    instead of checking it.  The zero-size `array<T>` is only the common base
    of the sized arrays, so every array that exists has `N >= 1`; operations
    that need it say so. */
module FixedArray {
  import opened Iterator
  import opened Algorithm
  import opened Modulo

  datatype Array<T> = Array(elems: seq<T>)

  /** `size()` and `max_size()`: both are `N`, the distance from `begin()`
      to `end()`. */
  function Size<T>(a: Array<T>): (n: nat)
    ensures n == Distance(0, |a.elems|)
  {
    |a.elems|
  }

  /** `empty()` is constantly `false`, which agrees with `size() == 0` on
      every array that has an element. */
  function IsEmpty<T>(a: Array<T>): (r: bool)
    ensures Size(a) > 0 ==> !r
  {
    false
  }

  // ---------------------------------------------------------------------------
  // Construction.  `storage` is the block `T data_[N]` as it stands before
  // the constructor body runs (default-initialised, so its contents are
  // unknown); every constructor overwrites all of it.

  /** `array()`: `fill_n(data_, N, T())`, which is `array(T())`. */
  function Default<T>(storage: seq<T>, zero: T): (r: Array<T>)
    ensures Size(r) == |storage|
    ensures forall i :: 0 <= i < Size(r) ==> r.elems[i] == zero
  {
    Broadcast(storage, zero)
  }

  /** `array(val)`: `fill_n(data_, N, val)`. */
  function Broadcast<T>(storage: seq<T>, val: T): (r: Array<T>)
    ensures Size(r) == |storage|
    ensures forall i :: 0 <= i < Size(r) ==> r.elems[i] == val
  {
    Array(FillN(storage, 0, |storage|, val).0)
  }

  /** The copy constructor: `copy_n(other.begin(), N, data_)`. */
  function CopyConstruct<T>(storage: seq<T>, other: Array<T>): (r: Array<T>)
    requires Size(other) == |storage|
    ensures r == other
  {
    var r := CopyN(other.elems, 0, |storage|, storage, 0).0;
    assert r == other.elems;
    Array(r)
  }

  /** `fill(copy_n(src.begin(), min(src.size(), N), data_), end(), T())`:
      the shared body of the converting constructor and of both converting
      assignments. */
  function CopyThenPad<T>(storage: seq<T>, src: Array<T>, zero: T): (r: Array<T>)
    ensures Size(r) == |storage|
    ensures forall i :: 0 <= i < MinValue(Size(src), |storage|) ==> r.elems[i] == src.elems[i]
    ensures forall i :: MinValue(Size(src), |storage|) <= i < |storage| ==> r.elems[i] == zero
  {
    var copied := CopyN(src.elems, 0, MinValue(Size(src), |storage|), storage, 0);
    Array(Fill(copied.0, copied.1, |storage|, zero))
  }

  /** The converting constructor from an array of size `N2`. */
  function ConvertConstruct<T>(storage: seq<T>, other: Array<T>, zero: T): (r: Array<T>)
    ensures Size(r) == |storage|
    ensures var k := MinValue(Size(other), |storage|);
            r.elems == other.elems[..k] + Repeat(zero, |storage| - k)
  {
    var r := CopyThenPad(storage, other, zero);
    var k := MinValue(Size(other), |storage|);
    assert r.elems == other.elems[..k] + Repeat(zero, |storage| - k);
    r
  }

  // ---------------------------------------------------------------------------
  // Assignment

  /** `operator=` between arrays of the same size `N`:
      `copy_n(rhs.begin(), N, data_)`. */
  function AssignSame<T>(a: Array<T>, rhs: Array<T>): (r: Array<T>)
    requires Size(rhs) == Size(a)
    ensures r == rhs
  {
    CopyConstruct(a.elems, rhs)
  }

  /** `operator=` from an array of another size, and the base class's
      `operator=` reached through references to `array<T>`: copies
      `min(N, N2)` elements and value-initialises the rest of this array. */
  function AssignConvert<T>(a: Array<T>, rhs: Array<T>, zero: T): (r: Array<T>)
    ensures Size(r) == Size(a)
    ensures var k := MinValue(Size(rhs), Size(a));
            r.elems == rhs.elems[..k] + Repeat(zero, Size(a) - k)
  {
    ConvertConstruct(a.elems, rhs, zero)
  }

  /** Converting assignment forgets the previous contents; between arrays of
      one size it is plain copy assignment. */
  lemma AssignConvertOverwritesAll<T>(a: Array<T>, b: Array<T>, rhs: Array<T>, zero: T)
    requires Size(a) == Size(b)
    ensures AssignConvert(a, rhs, zero) == AssignConvert(b, rhs, zero)
    ensures Size(rhs) == Size(a) ==> AssignConvert(a, rhs, zero) == AssignSame(a, rhs)
  {
    if Size(rhs) == Size(a) {
      assert rhs.elems[..Size(a)] == rhs.elems;
    }
  }

  /** Converting into an array at least as large and then back into one of
      the original size gives back the original. */
  lemma WidenThenNarrowRestores<T>(a: Array<T>, wide: seq<T>, narrow: seq<T>, zero: T)
    requires |wide| >= Size(a) && |narrow| == Size(a)
    ensures ConvertConstruct(narrow, ConvertConstruct(wide, a, zero), zero) == a
  {
    var w := ConvertConstruct(wide, a, zero);
    var n := Size(a);
    assert w.elems[..n] == a.elems[..n] == a.elems;
  }

  // ---------------------------------------------------------------------------
  // Element access and iterators

  /** `operator[](pos)`, unchecked. */
  function Index<T>(a: Array<T>, pos: nat): (r: T)
    requires pos < Size(a)
    ensures r == a.elems[pos]
    ensures r in a.elems
  {
    a.elems[pos]
  }

  /** `at(pos)`: `data_[pos % N]`, never out of range. */
  function At<T>(a: Array<T>, pos: nat): (r: T)
    requires Size(a) > 0
    ensures r == a.elems[pos % Size(a)]
    ensures r in a.elems
    ensures pos < Size(a) ==> r == Index(a, pos)
  {
    ModPeriod(pos, Size(a));
    a.elems[pos % Size(a)]
  }

  /** `front()`, which is `data_[0]`. */
  function Front<T>(a: Array<T>): (r: T)
    requires Size(a) > 0
    ensures r == At(a, 0)
  {
    a.elems[0]
  }

  /** `back()`, which is `data_[N - 1]`. */
  function Back<T>(a: Array<T>): (r: T)
    requires Size(a) > 0
    ensures r == At(a, Size(a) - 1)
  {
    a.elems[Size(a) - 1]
  }

  /** `at` repeats with period `N`; `at(N)` is the front element again. */
  lemma AtWraps<T>(a: Array<T>, pos: nat)
    requires Size(a) > 0
    ensures At(a, pos + Size(a)) == At(a, pos)
    ensures At(a, Size(a)) == Front(a)
  {
    ModPeriod(pos, Size(a));
    ModPeriod(0, Size(a));
  }

  /** `begin()` to `end()` spans all `N` elements, and walking from
      `rbegin()` to `rend()` meets them last first. */
  lemma ReverseIterationOfArray<T>(a: Array<T>)
    ensures Distance(0, Size(a)) == Size(a)
    ensures Walk(a.elems, RBegin(Size(a)), REnd()) == ReverseView(a.elems)
    ensures Size(a) > 0 ==> Deref(a.elems, RBegin(Size(a))) == Back(a)
  {
    ReverseTraversal(a.elems);
  }
}
