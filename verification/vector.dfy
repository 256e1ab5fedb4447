/** The bounded vector: a fixed block of `N` storage slots of which the first
    `size` hold objects and the rest are raw.

    Nothing ever allocates: every operation that would grow the vector past
    its capacity is silently clamped (`min(count, max_size() - size)`), and
    `push_back` on a full vector does nothing.  `insert` grows the vector at
    its end and then rotates the new slots into place through reverse
    iterators; `erase` rotates the doomed elements to the end and shrinks.

    Operations take the vector by value and return it as it stands
    afterwards; an operation that returns an iterator returns it as an index
    in the second component. */
module BoundedVector {
  import opened Iterator
  import opened Algorithm
  import opened Memory
  import opened Modulo
  import opened Utility

  /** `cells` is the storage block, so its length is the capacity `N`. */
  datatype Vector<T> = Vector(cells: seq<Cell<T>>, size: nat)

  /** `max_size()` and `capacity()`: both are `N`, which bounds the size of
      every valid vector. */
  function Capacity<T>(v: Vector<T>): (n: nat)
    ensures Valid(v) ==> v.size <= n
  {
    |v.cells|
  }

  /** The representation invariant: `[0, size)` live, `[size, N)` raw. */
  predicate Valid<T>(v: Vector<T>)
  {
    v.size <= |v.cells| && AllLive(v.cells, 0, v.size) && AllRaw(v.cells, v.size, |v.cells|)
  }

  /** The elements, `[begin(), end())`. */
  function Elements<T>(v: Vector<T>): (r: seq<T>)
    requires Valid(v)
    ensures |r| == v.size
  {
    Values(v.cells, 0, v.size)
  }

  /** The vector of capacity `cap` holding exactly `e`. */
  function FromElements<T>(e: seq<T>, cap: nat): (r: Vector<T>)
    requires |e| <= cap
    ensures Valid(r) && Capacity(r) == cap && Elements(r) == e
  {
    Vector(Lives(e) + Raws(cap - |e|), |e|)
  }

  /** A valid vector is determined by its capacity and its elements. */
  lemma DeterminedByElements<T>(v: Vector<T>)
    requires Valid(v)
    ensures v == FromElements(Elements(v), Capacity(v))
  {
    var w := FromElements(Elements(v), Capacity(v));
    assert forall i :: 0 <= i < |v.cells| ==> v.cells[i] == w.cells[i];
  }

  /** Two valid vectors with the same capacity and elements are the same. */
  lemma SameElementsSameVector<T>(v: Vector<T>, w: Vector<T>)
    requires Valid(v) && Valid(w)
    requires Capacity(v) == Capacity(w) && Elements(v) == Elements(w)
    ensures v == w
  {
    DeterminedByElements(v);
    DeterminedByElements(w);
  }

  /** Storage whose first `|e|` slots hold `e` and whose rest is raw is the
      vector of `e`. */
  lemma ValidWith<T>(v: Vector<T>, e: seq<T>)
    requires v.size == |e| <= |v.cells|
    requires forall i :: 0 <= i < |e| ==> v.cells[i] == Live(e[i])
    requires AllRaw(v.cells, v.size, |v.cells|)
    ensures Valid(v) && Elements(v) == e
  {
  }

  // ---------------------------------------------------------------------------
  // Construction and destruction.  The storage of a new vector is raw.

  /** `vector()`. */
  function Empty<T>(cap: nat): (r: Vector<T>)
    ensures Valid(r)
    ensures Capacity(r) == cap
    ensures Elements(r) == []
  {
    Vector(Raws(cap), 0)
  }

  /** `vector(count)`: `min(count, N)` value-initialised elements. */
  function WithCount<T>(cap: nat, count: nat, zero: T): (r: Vector<T>)
    ensures Valid(r) && Capacity(r) == cap
    ensures Elements(r) == Repeat(zero, MinValue(count, cap))
  {
    var size := MinValue(count, cap);
    var r := Vector(UninitializedValueConstructN(Raws(cap), 0, size, zero).0, size);
    ValidWith(r, Repeat(zero, size));
    r
  }

  /** `vector(count, val)`, and `vector(first, last)` with integral arguments:
      `min(count, N)` copies of `val`. */
  function WithFill<T>(cap: nat, count: nat, val: T): (r: Vector<T>)
    ensures Valid(r) && Capacity(r) == cap
    ensures Elements(r) == Repeat(val, MinValue(count, cap))
  {
    var size := MinValue(count, cap);
    var r := Vector(UninitializedFillN(Raws(cap), 0, size, val).0, size);
    ValidWith(r, Repeat(val, size));
    r
  }

  /** `vector(first, last)` over a range `src`: its first `min(|src|, N)`
      elements. */
  function FromRange<T>(cap: nat, src: seq<T>): (r: Vector<T>)
    ensures Valid(r) && Capacity(r) == cap
    ensures Elements(r) == src[..MinValue(|src|, cap)]
  {
    var size := MinValue(|src|, cap);
    var r := Vector(UninitializedCopyN(src, 0, size, Raws(cap), 0).0, size);
    ValidWith(r, src[..size]);
    r
  }

  /** The copy constructor: the source has the same capacity, so the copy is
      equal to it. */
  function CopyOf<T>(other: Vector<T>): (r: Vector<T>)
    requires Valid(other)
    ensures r == other
  {
    var r := FromRange(Capacity(other), Elements(other));
    SameElementsSameVector(r, other);
    r
  }

  /** The copy adapter constructor from a vector of another capacity: the
      first `min(other.size(), N)` elements. */
  function ConvertFrom<T>(cap: nat, other: Vector<T>): (r: Vector<T>)
    requires Valid(other)
    ensures Valid(r) && Capacity(r) == cap
    ensures Elements(r) == Elements(other)[..MinValue(other.size, cap)]
  {
    FromRange(cap, Elements(other))
  }

  /** The destructor: every element is destroyed and the storage is raw again. */
  function Destruct<T>(v: Vector<T>): (r: seq<Cell<T>>)
    requires Valid(v)
    ensures r == Raws(Capacity(v))
  {
    var r := Destroy(v.cells, 0, v.size);
    assert forall i :: 0 <= i < |r| ==> r[i] == Raws(Capacity(v))[i];
    r
  }

  // ---------------------------------------------------------------------------
  // Size changes

  /** The shrinking branch of `resize(count)`: the elements at and after
      `count` are destroyed. */
  function Truncate<T>(v: Vector<T>, count: nat): (r: Vector<T>)
    requires Valid(v) && count <= v.size
    ensures Valid(r) && Capacity(r) == Capacity(v) && Elements(r) == Elements(v)[..count]
  {
    var r := Vector(Destroy(v.cells, count, v.size), count);
    ValidWith(r, Elements(v)[..count]);
    r
  }

  /** `resize(count)`: keeps the first `count` elements, or appends
      value-initialised ones up to `count`, clamped to the capacity. */
  function Resize<T>(v: Vector<T>, count: nat, zero: T): (r: Vector<T>)
    requires Valid(v)
    ensures Valid(r)
    ensures Capacity(r) == Capacity(v)
    ensures r.size == MinValue(count, Capacity(v))
    ensures Elements(r) == (Elements(v) + Repeat(zero, count))[..r.size]
  {
    if count <= v.size then
      Truncate(v, count)
    else
      var c := MinValue(count, Capacity(v));
      var r := Vector(UninitializedValueConstruct(v.cells, v.size, c, zero), c);
      ValidWith(r, (Elements(v) + Repeat(zero, count))[..c]);
      r
  }

  /** `resize(count, value)`: as `resize(count)` with copies of `value`. */
  function ResizeFill<T>(v: Vector<T>, count: nat, val: T): (r: Vector<T>)
    requires Valid(v)
    ensures Valid(r)
    ensures Capacity(r) == Capacity(v)
    ensures r.size == MinValue(count, Capacity(v))
    ensures Elements(r) == (Elements(v) + Repeat(val, count))[..r.size]
  {
    if count <= v.size then
      Truncate(v, count)
    else
      var c := MinValue(count, Capacity(v));
      var r := Vector(UninitializedFill(v.cells, v.size, c, val), c);
      ValidWith(r, (Elements(v) + Repeat(val, count))[..c]);
      r
  }

  /** `clear()`, which is `resize(0)`; that always takes the shrinking branch. */
  function Clear<T>(v: Vector<T>): (r: Vector<T>)
    requires Valid(v)
    ensures Valid(r) && Capacity(r) == Capacity(v) && Elements(r) == []
    ensures r.cells == Raws(Capacity(v))
  {
    var r := Truncate(v, 0);
    assert forall i :: 0 <= i < |r.cells| ==> r.cells[i] == Raws(Capacity(v))[i];
    r
  }

  /** `push_back(value)`: appends when there is room, else does nothing. */
  function PushBack<T>(v: Vector<T>, val: T): (r: Vector<T>)
    requires Valid(v)
    ensures Valid(r) && Capacity(r) == Capacity(v)
    ensures v.size < Capacity(v) ==> Elements(r) == Elements(v) + [val]
    ensures v.size == Capacity(v) ==> r == v
  {
    if v.size < Capacity(v) then
      var r := Vector(UninitializedFillN(v.cells, v.size, 1, val).0, v.size + 1);
      ValidWith(r, Elements(v) + [val]);
      r
    else
      v
  }

  /** `pop_back()`, which is `resize(size - 1)`: drops the last element. */
  function PopBack<T>(v: Vector<T>): (r: Vector<T>)
    requires Valid(v) && v.size > 0
    ensures Valid(r) && Capacity(r) == Capacity(v)
    ensures Elements(r) == Elements(v)[..v.size - 1]
  {
    Truncate(v, v.size - 1)
  }

  // ---------------------------------------------------------------------------
  // insert and erase

  /** The middle of `a + m + b` is cut out by slicing at `|a|` and `|a| + |m|`. */
  lemma SpliceParts<T>(a: seq<T>, m: seq<T>, b: seq<T>)
    ensures (a + m + b)[..|a|] == a && (a + m + b)[|a| + |m|..] == b
  {
    assert (a + m + b)[..|a|] == a;
    assert (a + m + b)[|a| + |m|..] == b;
  }

  /** Assigning `xs` over the elements starting at `pos` (as `fill_n`,
      `copy_n` or a single assignment do) keeps the vector valid and replaces
      exactly those elements. */
  lemma Overwrite<T>(w: Vector<T>, pos: nat, xs: seq<T>, cells: seq<Cell<T>>)
    requires Valid(w) && pos + |xs| <= w.size
    requires SameOutside(w.cells, cells, pos, pos + |xs|)
    requires forall i :: pos <= i < pos + |xs| ==> cells[i] == Live(xs[i - pos])
    ensures var r := Vector(cells, w.size);
            Valid(r) && Capacity(r) == Capacity(w) && Elements(r) == Elements(w)[..pos] + xs + Elements(w)[pos + |xs|..]
  {
    var e := Elements(w);
    var target := e[..pos] + xs + e[pos + |xs|..];
    forall i | 0 <= i < w.size
      ensures cells[i] == Live(target[i])
    {
      if i < pos {
        assert target[i] == e[i];
      } else if i < pos + |xs| {
        assert target[i] == xs[i - pos];
      } else {
        assert target[i] == e[i];
      }
    }
    ValidWith(Vector(cells, w.size), target);
  }

  /** `resize(size + count)` within the capacity, slot by slot: the old
      elements, then `count` value-initialised ones, then raw storage. */
  lemma GrownStorage<T>(v: Vector<T>, w: Vector<T>, count: nat, zero: T)
    requires Valid(v) && v.size + count <= Capacity(v)
    requires w == Resize(v, v.size + count, zero)
    ensures w.size == v.size + count && Capacity(w) == Capacity(v)
    ensures forall i :: 0 <= i < v.size ==> w.cells[i] == Live(Elements(v)[i])
    ensures forall i :: v.size <= i < w.size ==> w.cells[i] == Live(zero)
    ensures AllRaw(w.cells, w.size, |w.cells|)
  {
    var p := Elements(v) + Repeat(zero, count);
    assert Elements(w) == p;
    forall i | 0 <= i < w.size
      ensures w.cells[i] == Live(p[i])
    {
      assert w.cells[i] == Live(Elements(w)[i]);
    }
  }

  /** After `resize(size + count)` the storage `pre` holds the elements
      `e` followed by `count` copies of `zero`.  Rotating `[d, n)` right by
      `count` moves those copies to position `d`. */
  lemma MovedElements<T>(pre: seq<Cell<T>>, moved: seq<Cell<T>>, e: seq<T>, zero: T, d: nat, count: nat)
    requires d <= |e| && |pre| == |e| + count
    requires forall i :: 0 <= i < |e| ==> pre[i] == Live(e[i])
    requires forall i :: |e| <= i < |pre| ==> pre[i] == Live(zero)
    requires RotatedLeft(pre, moved, d, |pre| - count, |pre|)
    ensures forall i :: 0 <= i < |pre| ==> moved[i] == Live((e[..d] + Repeat(zero, count) + e[d..])[i])
  {
    var target := e[..d] + Repeat(zero, count) + e[d..];
    forall i | 0 <= i < |pre|
      ensures moved[i] == Live(target[i])
    {
      if i < d {
        assert moved[i] == pre[i];
        assert target[i] == e[i];
      } else if i < d + count {
        assert moved[i] == pre[i - d + |e|];
        assert target[i] == zero;
      } else {
        assert moved[i] == pre[i - count];
        assert target[i] == e[i - count];
      }
    }
  }

  /** The shared first half of every `insert`: `resize(size + count)` and then
      `rotate(rbegin(), rbegin() + count, reverse_iterator(begin() + d))`,
      which moves the `count` value-initialised elements from the end to
      position `d`.  `count` has already been clamped to the free space. */
  function MakeRoom<T>(v: Vector<T>, d: nat, count: nat, zero: T): (r: Vector<T>)
    requires Valid(v) && d <= v.size && v.size + count <= Capacity(v)
    ensures Valid(r) && Capacity(r) == Capacity(v)
    ensures Elements(r) == Elements(v)[..d] + Repeat(zero, count) + Elements(v)[d..]
  {
    var w := Resize(v, v.size + count, zero);
    var n := w.size;
    var rfirst := RBegin(n);
    var rmiddle := Add(rfirst, count);
    var rlast := ReverseIterator(d);
    var pre := w.cells[..n];
    var rot := Rotate(ReverseView(pre), 0, ReverseDistance(rfirst, rmiddle), ReverseDistance(rfirst, rlast)).0;
    var moved := ReverseView(rot);
    assert ReverseDistance(rfirst, rmiddle) == count && ReverseDistance(rfirst, rlast) == n - d;
    RotatedStorage(v, w, rot, d, count, zero);
    Vector(moved + w.cells[n..], n)
  }

  /** The storage `MakeRoom` leaves behind once the grown prefix has been
      rotated through reverse iterators. */
  lemma RotatedStorage<T>(v: Vector<T>, w: Vector<T>, rot: seq<Cell<T>>, d: nat, count: nat, zero: T)
    requires Valid(v) && d <= v.size && v.size + count <= Capacity(v)
    requires w == Resize(v, v.size + count, zero)
    requires |rot| == w.size <= |w.cells|
    requires RotatedLeft(ReverseView(w.cells[..w.size]), rot, 0, count, w.size - d)
    ensures var r := Vector(ReverseView(rot) + w.cells[w.size..], w.size);
            Valid(r) && Elements(r) == Elements(v)[..d] + Repeat(zero, count) + Elements(v)[d..]
  {
    var n := w.size;
    var pre := w.cells[..n];
    var moved := ReverseView(rot);
    var r := Vector(moved + w.cells[n..], n);
    MirroredRotation(pre, rot, d, count);
    GrownStorage(v, w, count, zero);
    MovedElements(pre, moved, Elements(v), zero, d, count);
    ValidWith(r, Elements(v)[..d] + Repeat(zero, count) + Elements(v)[d..]);
  }

  /** `insert(pos, val)`: when there is room, `val` is placed before `pos`;
      on a full vector nothing happens.  Returns `pos`. */
  function Insert<T>(v: Vector<T>, pos: nat, val: T, zero: T): (r: (Vector<T>, nat))
    requires Valid(v) && pos <= v.size
    ensures Valid(r.0) && Capacity(r.0) == Capacity(v) && r.1 == pos
    ensures v.size < Capacity(v) ==> Elements(r.0) == Elements(v)[..pos] + [val] + Elements(v)[pos..]
    ensures v.size == Capacity(v) ==> r.0 == v
  {
    if v.size < Capacity(v) then
      var w := MakeRoom(v, pos, 1, zero);
      var cells := w.cells[pos := Live(val)];
      Overwrite(w, pos, [val], cells);
      SpliceParts(Elements(v)[..pos], [zero], Elements(v)[pos..]);
      (Vector(cells, w.size), pos)
    else
      (v, pos)
  }

  /** `insert(pos, count, val)`, and `insert(pos, first, last)` with integral
      arguments: `min(count, N - size)` copies of `val` before `pos`. */
  function InsertN<T>(v: Vector<T>, pos: nat, count: nat, val: T, zero: T): (r: (Vector<T>, nat))
    requires Valid(v) && pos <= v.size
    ensures Valid(r.0) && Capacity(r.0) == Capacity(v) && r.1 == pos
    ensures var k := MinValue(count, Capacity(v) - v.size);
            Elements(r.0) == Elements(v)[..pos] + Repeat(val, k) + Elements(v)[pos..]
  {
    if v.size < Capacity(v) then
      var k := MinValue(count, Capacity(v) - v.size);
      var w := MakeRoom(v, pos, k, zero);
      var cells := FillN(w.cells, pos, k, Live(val)).0;
      Overwrite(w, pos, Repeat(val, k), cells);
      SpliceParts(Elements(v)[..pos], Repeat(zero, k), Elements(v)[pos..]);
      (Vector(cells, w.size), pos)
    else
      assert Elements(v)[..pos] + Repeat(val, 0) + Elements(v)[pos..] == Elements(v);
      (v, pos)
  }

  /** `insert(pos, first, last)` over a range `src`: the first
      `min(|src|, N - size)` elements of `src` before `pos`. */
  function InsertRange<T>(v: Vector<T>, pos: nat, src: seq<T>, zero: T): (r: (Vector<T>, nat))
    requires Valid(v) && pos <= v.size
    ensures Valid(r.0) && Capacity(r.0) == Capacity(v) && r.1 == pos
    ensures var k := MinValue(|src|, Capacity(v) - v.size);
            Elements(r.0) == Elements(v)[..pos] + src[..k] + Elements(v)[pos..]
  {
    if v.size < Capacity(v) then
      var k := MinValue(|src|, Capacity(v) - v.size);
      var w := MakeRoom(v, pos, k, zero);
      var cells := CopyN(Lives(src), 0, k, w.cells, pos).0;
      Overwrite(w, pos, src[..k], cells);
      SpliceParts(Elements(v)[..pos], Repeat(zero, k), Elements(v)[pos..]);
      (Vector(cells, w.size), pos)
    else
      assert Elements(v)[..pos] + src[..0] + Elements(v)[pos..] == Elements(v);
      (v, pos)
  }

  /** `rotate(first, middle, end())` within the live prefix keeps the vector
      valid and rotates its elements. */
  lemma RotateElements<T>(v: Vector<T>, first: nat, middle: nat)
    requires Valid(v) && first <= middle <= v.size
    ensures var w := Vector(Rotate(v.cells, first, middle, v.size).0, v.size);
            var e := Elements(v);
            Valid(w) && Capacity(w) == Capacity(v) && Elements(w) == e[..first] + e[middle..] + e[first..middle]
  {
    var w := Vector(Rotate(v.cells, first, middle, v.size).0, v.size);
    var e := Elements(v);
    var target := e[..first] + e[middle..] + e[first..middle];
    forall i | 0 <= i < v.size
      ensures w.cells[i] == Live(target[i])
    {
      if i < first {
      } else if i < first + (v.size - middle) {
        assert w.cells[i] == v.cells[i - first + middle];
      } else {
        assert w.cells[i] == v.cells[i - (v.size - middle)];
      }
    }
    ValidWith(w, target);
  }

  /** `erase(pos)`: `rotate(pos, pos + 1, end())` and then `resize(size - 1)`.
      Returns `pos`. */
  function Erase<T>(v: Vector<T>, pos: nat): (r: (Vector<T>, nat))
    requires Valid(v) && pos < v.size
    ensures Valid(r.0) && Capacity(r.0) == Capacity(v) && r.1 == pos
    ensures Elements(r.0) == Elements(v)[..pos] + Elements(v)[pos + 1..]
  {
    var w := Vector(Rotate(v.cells, pos, pos + 1, v.size).0, v.size);
    RotateElements(v, pos, pos + 1);
    var r := Truncate(w, v.size - 1);
    assert Elements(r) == Elements(v)[..pos] + Elements(v)[pos + 1..];
    (r, pos)
  }

  /** `erase(first, last)`: `rotate(first, last, end())` and then
      `resize(size - (last - first))`.  Returns `first`. */
  function EraseRange<T>(v: Vector<T>, first: nat, last: nat): (r: (Vector<T>, nat))
    requires Valid(v) && first <= last <= v.size
    ensures Valid(r.0) && Capacity(r.0) == Capacity(v) && r.1 == first
    ensures Elements(r.0) == Elements(v)[..first] + Elements(v)[last..]
  {
    var w := Vector(Rotate(v.cells, first, last, v.size).0, v.size);
    RotateElements(v, first, last);
    var r := Truncate(w, v.size - Distance(first, last));
    assert Elements(r) == Elements(v)[..first] + Elements(v)[last..];
    (r, first)
  }

  // ---------------------------------------------------------------------------
  // assign and assignment

  /** `assign(count, val)`: `resize(count)`, then `fill_n(begin(), size, val)`
      over every element. */
  function Assign<T>(v: Vector<T>, count: nat, val: T, zero: T): (r: Vector<T>)
    requires Valid(v)
    ensures Valid(r) && Capacity(r) == Capacity(v)
    ensures Elements(r) == Repeat(val, MinValue(count, Capacity(v)))
  {
    var w := Resize(v, count, zero);
    var cells := FillN(w.cells, 0, w.size, Live(val)).0;
    Overwrite(w, 0, Repeat(val, w.size), cells);
    assert Elements(w)[..0] + Repeat(val, w.size) + Elements(w)[w.size..] == Repeat(val, w.size);
    Vector(cells, w.size)
  }

  /** `assign(first, last)` over a range `src`: `resize(distance(first,
      last))`, then `copy_n(first, size, begin())`; the copy stops at the
      clamped size. */
  function AssignRange<T>(v: Vector<T>, src: seq<T>, zero: T): (r: Vector<T>)
    requires Valid(v)
    ensures Valid(r) && Capacity(r) == Capacity(v)
    ensures Elements(r) == src[..MinValue(|src|, Capacity(v))]
  {
    var w := Resize(v, |src|, zero);
    var cells := CopyN(Lives(src), 0, w.size, w.cells, 0).0;
    Overwrite(w, 0, src[..w.size], cells);
    assert Elements(w)[..0] + src[..w.size] + Elements(w)[w.size..] == src[..w.size];
    Vector(cells, w.size)
  }

  /** `operator=` from a vector of any capacity: `assign(rhs.begin(),
      rhs.end())`.  Between vectors of the same capacity the result is `rhs`
      itself. */
  function AssignFrom<T>(v: Vector<T>, rhs: Vector<T>, zero: T): (r: Vector<T>)
    requires Valid(v) && Valid(rhs)
    ensures Valid(r) && Capacity(r) == Capacity(v)
    ensures Elements(r) == Elements(rhs)[..MinValue(rhs.size, Capacity(v))]
    ensures Capacity(rhs) == Capacity(v) ==> r == rhs
  {
    var r := AssignRange(v, Elements(rhs), zero);
    assert Capacity(rhs) == Capacity(v) ==> r == rhs by {
      if Capacity(rhs) == Capacity(v) {
        assert Elements(rhs)[..rhs.size] == Elements(rhs);
        SameElementsSameVector(r, rhs);
      }
    }
    r
  }

  /** Assignment forgets the previous contents: it yields what the copy
      adapter constructor builds from `rhs`. */
  lemma AssignAgreesWithConstruction<T>(v: Vector<T>, rhs: Vector<T>, zero: T)
    requires Valid(v) && Valid(rhs)
    ensures AssignFrom(v, rhs, zero) == ConvertFrom(Capacity(v), rhs)
  {
    SameElementsSameVector(AssignFrom(v, rhs, zero), ConvertFrom(Capacity(v), rhs));
  }

  // ---------------------------------------------------------------------------
  // Element access and iterators

  /** `operator[](pos)`, unchecked: only meaningful on an element. */
  function Index<T>(v: Vector<T>, pos: nat): (r: T)
    requires Valid(v) && pos < v.size
    ensures v.cells[pos] == Live(r)
    ensures r == Elements(v)[pos]
  {
    v.cells[pos].value
  }

  /** `at(pos)`: the index wraps modulo the capacity instead of being
      checked.  The slot it lands on must hold an element. */
  function At<T>(v: Vector<T>, pos: nat): (r: T)
    requires Valid(v) && Capacity(v) > 0 && pos % Capacity(v) < v.size
    ensures r == Elements(v)[pos % Capacity(v)]
  {
    Index(v, pos % Capacity(v))
  }

  /** `front()`, which is `*begin()`. */
  function Front<T>(v: Vector<T>): (r: T)
    requires Valid(v) && v.size > 0
    ensures r == Elements(v)[0]
  {
    Index(v, 0)
  }

  /** `back()`, which is `end()[-1]`. */
  function Back<T>(v: Vector<T>): (r: T)
    requires Valid(v) && v.size > 0
    ensures r == Elements(v)[v.size - 1]
  {
    Index(v, v.size + (-1))
  }

  /** `empty()`: there are no elements. */
  function IsEmpty<T>(v: Vector<T>): (r: bool)
    requires Valid(v)
    ensures r <==> Elements(v) == []
  {
    v.size == 0
  }

  /** `at` agrees with `operator[]` below the capacity and repeats with
      period `N` above it. */
  lemma AtWraps<T>(v: Vector<T>, pos: nat)
    requires Valid(v) && Capacity(v) > 0 && pos % Capacity(v) < v.size
    ensures pos < v.size ==> At(v, pos) == Index(v, pos)
    ensures (pos + Capacity(v)) % Capacity(v) < v.size && At(v, pos + Capacity(v)) == At(v, pos)
  {
    ModPeriod(pos, Capacity(v));
  }

  /** `begin()` and `end()` as indices, and `rbegin()` / `rend()` wrapping
      them: walking from `rbegin()` to `rend()` meets the elements last
      first, in `size()` steps. */
  lemma ReverseIterationOfVector<T>(v: Vector<T>)
    requires Valid(v)
    ensures Base(RBegin(v.size)) == v.size && Base(REnd()) == 0
    ensures Walk(Elements(v), RBegin(v.size), REnd()) == ReverseView(Elements(v))
    ensures ReverseDistance(RBegin(v.size), REnd()) == v.size
  {
    ReverseTraversal(Elements(v));
  }

  /** `empty()` holds exactly when there are no elements. */
  lemma EmptyIffNoElements<T>(v: Vector<T>)
    requires Valid(v)
    ensures IsEmpty(v) <==> Elements(v) == []
    ensures IsEmpty(Clear(v)) && IsEmpty(Empty<T>(Capacity(v)))
  {
  }

  // ---------------------------------------------------------------------------
  // Comparison, over vectors of any two capacities

  /** `operator==`: equal sizes and `equal` over the elements. */
  function VectorEqual<T(==)>(a: Vector<T>, b: Vector<T>): (r: bool)
    requires Valid(a) && Valid(b)
    ensures r <==> Elements(a) == Elements(b)
  {
    a.size == b.size && Equal(Elements(a), Elements(b))
  }

  /** `operator<`: `lexicographical_compare` over the elements, with the
      element order `less`. */
  function VectorLess<T>(a: Vector<T>, b: Vector<T>, less: (T, T) -> bool): (r: bool)
    requires Valid(a) && Valid(b)
    ensures r <==> LexLess(Elements(a), Elements(b), less)
  {
    LexicographicalCompare(Elements(a), Elements(b), less)
  }

  /** Under a strict total element order exactly one of `a < b`, `a == b`,
      `b < a` holds. */
  lemma VectorTrichotomy<T(!new)>(a: Vector<T>, b: Vector<T>, less: (T, T) -> bool)
    requires Valid(a) && Valid(b) && StrictTotalOrder(less)
    ensures VectorLess(a, b, less) || Elements(a) == Elements(b) || VectorLess(b, a, less)
    ensures !(VectorLess(a, b, less) && VectorLess(b, a, less))
    ensures Elements(a) == Elements(b) ==> !VectorLess(a, b, less)
  {
    LexTrichotomy(Elements(a), Elements(b), less);
  }

  /** `vector`'s `operator<` as a total function on vectors. */
  function VectorOrder<T>(less: (T, T) -> bool): (Vector<T>, Vector<T>) -> bool
  {
    (x: Vector<T>, y: Vector<T>) => Valid(x) && Valid(y) && VectorLess(x, y, less)
  }

  /** `vector`'s `operator==` as a total function on vectors. */
  function VectorEquality<T(==)>(): (Vector<T>, Vector<T>) -> bool
  {
    (x: Vector<T>, y: Vector<T>) => Valid(x) && Valid(y) && VectorEqual(x, y)
  }

  /** The derived operators on vectors: `!=` is a difference of elements,
      and `<=`, `>=` are the lexicographic order or equal elements. */
  lemma VectorDerivedOperators<T(!new)>(a: Vector<T>, b: Vector<T>, less: (T, T) -> bool)
    requires Valid(a) && Valid(b) && StrictTotalOrder(less)
    ensures NotEqual(VectorEquality(), a, b) <==> Elements(a) != Elements(b)
    ensures LessEqual(VectorOrder(less), a, b) <==> VectorLess(a, b, less) || Elements(a) == Elements(b)
    ensures GreaterEqual(VectorOrder(less), a, b) <==> VectorLess(b, a, less) || Elements(a) == Elements(b)
    ensures Greater(VectorOrder(less), a, b) <==> LexLess(Elements(b), Elements(a), less)
  {
    VectorTrichotomy(a, b, less);
  }

  // ---------------------------------------------------------------------------
  // How the operations relate

  /** `pop_back` undoes a `push_back` that had room. */
  lemma PopBackUndoesPushBack<T>(v: Vector<T>, val: T)
    requires Valid(v) && v.size < Capacity(v)
    ensures PopBack(PushBack(v, val)) == v
  {
    var r := PopBack(PushBack(v, val));
    assert Elements(r) == (Elements(v) + [val])[..v.size] == Elements(v);
    SameElementsSameVector(r, v);
  }

  /** Cutting `m` back out of `e[..pos] + m + e[pos..]` leaves `e`. */
  lemma CutSplice<T>(e: seq<T>, pos: nat, m: seq<T>)
    requires pos <= |e|
    ensures var s := e[..pos] + m + e[pos..];
            s[..pos] + s[pos + |m|..] == e
  {
    var s := e[..pos] + m + e[pos..];
    assert s[..pos] == e[..pos] && s[pos + |m|..] == e[pos..];
  }

  /** `erase(pos)` undoes an `insert(pos, val)` that had room. */
  lemma EraseUndoesInsert<T>(v: Vector<T>, pos: nat, val: T, zero: T)
    requires Valid(v) && pos <= v.size < Capacity(v)
    ensures Erase(Insert(v, pos, val, zero).0, pos).0 == v
  {
    var r := Erase(Insert(v, pos, val, zero).0, pos).0;
    CutSplice(Elements(v), pos, [val]);
    SameElementsSameVector(r, v);
  }

  /** `erase(pos, pos + |src|)` undoes an `insert(pos, first, last)` that had
      room for all of `src`. */
  lemma EraseRangeUndoesInsertRange<T>(v: Vector<T>, pos: nat, src: seq<T>, zero: T)
    requires Valid(v) && pos <= v.size && v.size + |src| <= Capacity(v)
    ensures var i := InsertRange(v, pos, src, zero);
            i.0.size == v.size + |src| && EraseRange(i.0, pos, pos + |src|).0 == v
  {
    var i := InsertRange(v, pos, src, zero).0;
    assert src[..MinValue(|src|, Capacity(v) - v.size)] == src;
    var r := EraseRange(i, pos, pos + |src|).0;
    CutSplice(Elements(v), pos, src);
    SameElementsSameVector(r, v);
  }

  /** `insert(pos, first, last)` on a vector without room for the whole range
      inserts only its first `k = min(|src|, N - size)` elements, and erasing
      `k` elements at `pos` of the result undoes it. */
  lemma EraseRangeUndoesClampedInsertRange<T>(v: Vector<T>, pos: nat, src: seq<T>, zero: T, k: int)
    requires Valid(v) && pos <= v.size
    requires k == MinValue(|src|, Capacity(v) - v.size)
    ensures var i := InsertRange(v, pos, src, zero);
            0 <= k && i.0.size == v.size + k && EraseRange(i.0, pos, pos + k).0 == v
  {
    var i := InsertRange(v, pos, src, zero);
    EraseSpliced(v, i.0, pos, src[..k], k);
  }

  /** Erasing the `k` elements at `pos` of a vector whose elements are those
      of `v` with `m` (of length `k`) spliced in at `pos` gives back `v`. */
  lemma EraseSpliced<T>(v: Vector<T>, i: Vector<T>, pos: nat, m: seq<T>, k: nat)
    requires Valid(v) && Valid(i) && Capacity(i) == Capacity(v) && pos <= v.size
    requires Elements(i) == Elements(v)[..pos] + m + Elements(v)[pos..] && k == |m|
    ensures i.size == v.size + k && EraseRange(i, pos, pos + k).0 == v
  {
    var r := EraseRange(i, pos, pos + k).0;
    CutSplice(Elements(v), pos, m);
    SameElementsSameVector(r, v);
  }

  /** The value-initialised placeholders that `insert` rotates into place are
      all overwritten: the result does not depend on `T()`. */
  lemma InsertIgnoresPlaceholder<T>(v: Vector<T>, pos: nat, src: seq<T>, val: T, count: nat, z1: T, z2: T)
    requires Valid(v) && pos <= v.size
    ensures Insert(v, pos, val, z1) == Insert(v, pos, val, z2)
    ensures InsertN(v, pos, count, val, z1) == InsertN(v, pos, count, val, z2)
    ensures InsertRange(v, pos, src, z1) == InsertRange(v, pos, src, z2)
  {
    SameElementsSameVector(Insert(v, pos, val, z1).0, Insert(v, pos, val, z2).0);
    SameElementsSameVector(InsertN(v, pos, count, val, z1).0, InsertN(v, pos, count, val, z2).0);
    SameElementsSameVector(InsertRange(v, pos, src, z1).0, InsertRange(v, pos, src, z2).0);
  }

  /** Inserting one value is inserting a one-element range. */
  lemma InsertIsInsertRangeOfOne<T>(v: Vector<T>, pos: nat, val: T, zero: T)
    requires Valid(v) && pos <= v.size
    ensures Insert(v, pos, val, zero) == InsertRange(v, pos, [val], zero)
    ensures Insert(v, pos, val, zero) == InsertN(v, pos, 1, val, zero)
  {
    var e := Elements(v);
    if v.size < Capacity(v) {
      assert [val][..1] == [val] == Repeat(val, 1);
      SameElementsSameVector(Insert(v, pos, val, zero).0, InsertRange(v, pos, [val], zero).0);
      SameElementsSameVector(Insert(v, pos, val, zero).0, InsertN(v, pos, 1, val, zero).0);
    }
  }

  /** A vector of capacity 4 that is pushed five values keeps the first
      four: the fifth `push_back` is dropped silently. */
  lemma PushBackPastCapacity(a: int, b: int, c: int, d: int, e: int)
    ensures var v := PushBack(PushBack(PushBack(PushBack(PushBack(Empty<int>(4), a), b), c), d), e);
            Elements(v) == [a, b, c, d] && v.size == Capacity(v) == 4
  {
    var v1 := PushBack(Empty<int>(4), a);
    var v2 := PushBack(v1, b);
    var v3 := PushBack(v2, c);
    var v4 := PushBack(v3, d);
    assert Elements(v1) == [a];
    assert Elements(v2) == [a, b];
    assert Elements(v3) == [a, b, c];
    assert Elements(v4) == [a, b, c, d];
  }

  /** `insert(begin() + 1, 2, 'e')` on a capacity-16 vector of four `'a'`s. */
  lemma InsertTwoIntoFourAs(zero: char)
    ensures Elements(InsertN(WithFill(16, 4, 'a'), 1, 2, 'e', zero).0) == "aeeaaa"
  {
    var v := WithFill(16, 4, 'a');
    var e := Elements(v);
    assert e == "aaaa";
    assert MinValue(2, 16 - 4) == 2;
    assert e[..1] + Repeat('e', 2) + e[1..] == "aeeaaa";
  }

  /** `insert(begin() + 1, b, b + 4)` with `b` holding `"bcde"`, on the same
      vector. */
  lemma InsertRangeIntoFourAs(zero: char)
    ensures Elements(InsertRange(WithFill(16, 4, 'a'), 1, "bcde", zero).0) == "abcdeaaa"
  {
    var v := WithFill(16, 4, 'a');
    var e := Elements(v);
    assert e == "aaaa";
    assert MinValue(4, 16 - 4) == 4;
    assert e[..1] + "bcde"[..4] + e[1..] == "abcdeaaa";
  }
}
