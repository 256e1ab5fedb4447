/** Uninitialized storage and the primitives that begin and end object
    lifetimes in it.

    A storage slot is a `Cell`: either `Raw` (no object lives there) or
    `Live(value)`.  Placement-new turns a raw cell live, a destructor call
    turns a live cell raw.  The C++ primitives leave the caller responsible
    for constructing only into raw slots and destroying only live objects;
    here those duties are preconditions.

    Value-initialisation `T()` and default-initialisation `T` have no
    counterpart for an arbitrary Dafny type, so the value they produce is a
    parameter (`zero` and `dflt` respectively). */
module Memory {
  import opened Algorithm

  datatype Cell<T> = Raw | Live(value: T)

  /** No object lives in `[lo, hi)`. */
  predicate AllRaw<T>(cells: seq<Cell<T>>, lo: nat, hi: nat)
    requires lo <= hi <= |cells|
  {
    forall i :: lo <= i < hi ==> cells[i].Raw?
  }

  /** Every slot of `[lo, hi)` holds an object. */
  predicate AllLive<T>(cells: seq<Cell<T>>, lo: nat, hi: nat)
    requires lo <= hi <= |cells|
  {
    forall i :: lo <= i < hi ==> cells[i].Live?
  }

  /** The objects living in `[lo, hi)`, in order. */
  function Values<T>(cells: seq<Cell<T>>, lo: nat, hi: nat): (r: seq<T>)
    requires lo <= hi <= |cells| && AllLive(cells, lo, hi)
    ensures |r| == hi - lo
    ensures forall i :: 0 <= i < hi - lo ==> cells[lo + i] == Live(r[i])
  {
    seq(hi - lo, i requires 0 <= i < hi - lo => cells[lo + i].value)
  }

  /** Storage holding exactly the objects `vals`, in order. */
  function Lives<T>(vals: seq<T>): (r: seq<Cell<T>>)
    ensures |r| == |vals|
    ensures forall i :: 0 <= i < |vals| ==> r[i] == Live(vals[i])
  {
    seq(|vals|, i requires 0 <= i < |vals| => Live(vals[i]))
  }

  /** `n` slots of uninitialized storage. */
  function Raws<T>(n: nat): (r: seq<Cell<T>>)
    ensures |r| == n && AllRaw(r, 0, n)
  {
    seq(n, _ => Raw)
  }

  // ---------------------------------------------------------------------------
  // Constructing objects

  /** `new (&*p) value_type(val)` on the raw slot `i`. */
  function ConstructAt<T>(cells: seq<Cell<T>>, i: nat, val: T): (r: seq<Cell<T>>)
    requires i < |cells| && cells[i].Raw?
    ensures SameOutside(cells, r, i, i + 1) && r[i] == Live(val)
  {
    cells[i := Live(val)]
  }

  /** `uninitialized_copy(src + first, src + last, d_first)`: copy-constructs
      the source range into raw storage at `dest`; the second component is
      the returned iterator, one past the last constructed object. */
  function UninitializedCopy<T>(src: seq<T>, first: nat, last: nat, cells: seq<Cell<T>>, dest: nat): (r: (seq<Cell<T>>, nat))
    requires first <= last <= |src| && dest + (last - first) <= |cells|
    requires AllRaw(cells, dest, dest + (last - first))
    ensures r.1 == dest + (last - first)
    ensures SameOutside(cells, r.0, dest, r.1)
    ensures forall i :: dest <= i < r.1 ==> r.0[i] == Live(src[i - dest + first])
    decreases last - first
  {
    if first == last then (cells, dest)
    else UninitializedCopy(src, first + 1, last, ConstructAt(cells, dest, src[first]), dest + 1)
  }

  /** `uninitialized_copy_n(src + first, count, d_first)`. */
  function UninitializedCopyN<T>(src: seq<T>, first: nat, count: nat, cells: seq<Cell<T>>, dest: nat): (r: (seq<Cell<T>>, nat))
    requires first + count <= |src| && dest + count <= |cells|
    requires AllRaw(cells, dest, dest + count)
    ensures r.1 == dest + count
    ensures SameOutside(cells, r.0, dest, r.1)
    ensures forall i :: dest <= i < r.1 ==> r.0[i] == Live(src[i - dest + first])
    decreases count
  {
    if count == 0 then (cells, dest)
    else UninitializedCopyN(src, first + 1, count - 1, ConstructAt(cells, dest, src[first]), dest + 1)
  }

  /** `uninitialized_fill(first, last, val)`.  With `val` the value-initialised
      object this is `uninitialized_value_construct(first, last)`; with the
      default-initialised one it is `uninitialized_default_construct`. */
  function UninitializedFill<T>(cells: seq<Cell<T>>, first: nat, last: nat, val: T): (r: seq<Cell<T>>)
    requires first <= last <= |cells| && AllRaw(cells, first, last)
    ensures SameOutside(cells, r, first, last)
    ensures forall i :: first <= i < last ==> r[i] == Live(val)
    decreases last - first
  {
    if first == last then cells
    else UninitializedFill(ConstructAt(cells, first, val), first + 1, last, val)
  }

  /** `uninitialized_fill_n(first, count, val)`; likewise the `_n` forms of
      value- and default-construction.  The second component is the returned
      iterator. */
  function UninitializedFillN<T>(cells: seq<Cell<T>>, first: nat, count: nat, val: T): (r: (seq<Cell<T>>, nat))
    requires first + count <= |cells| && AllRaw(cells, first, first + count)
    ensures r.1 == first + count
    ensures SameOutside(cells, r.0, first, r.1)
    ensures forall i :: first <= i < r.1 ==> r.0[i] == Live(val)
    decreases count
  {
    if count == 0 then (cells, first)
    else UninitializedFillN(ConstructAt(cells, first, val), first + 1, count - 1, val)
  }

  /** `uninitialized_value_construct(first, last)`: `T()` in every slot. */
  function UninitializedValueConstruct<T>(cells: seq<Cell<T>>, first: nat, last: nat, zero: T): (r: seq<Cell<T>>)
    requires first <= last <= |cells| && AllRaw(cells, first, last)
    ensures SameOutside(cells, r, first, last) && AllLive(r, first, last)
    ensures Values(r, first, last) == Repeat(zero, last - first)
  {
    UninitializedFill(cells, first, last, zero)
  }

  /** `uninitialized_default_construct(first, last)`: the loop of
      value-construction with `T` in place of `T()`, so only the value put in
      every slot differs. */
  function UninitializedDefaultConstruct<T>(cells: seq<Cell<T>>, first: nat, last: nat, dflt: T): (r: seq<Cell<T>>)
    requires first <= last <= |cells| && AllRaw(cells, first, last)
    ensures SameOutside(cells, r, first, last) && AllLive(r, first, last)
    ensures Values(r, first, last) == Repeat(dflt, last - first)
  {
    UninitializedValueConstruct(cells, first, last, dflt)
  }

  /** `uninitialized_value_construct_n(first, n)`; returns one past the last
      constructed slot. */
  function UninitializedValueConstructN<T>(cells: seq<Cell<T>>, first: nat, n: nat, zero: T): (r: (seq<Cell<T>>, nat))
    requires first + n <= |cells| && AllRaw(cells, first, first + n)
    ensures r.1 == first + n
    ensures SameOutside(cells, r.0, first, r.1) && AllLive(r.0, first, r.1)
    ensures Values(r.0, first, r.1) == Repeat(zero, n)
  {
    UninitializedFillN(cells, first, n, zero)
  }

  /** `uninitialized_default_construct_n(first, n)`: as value-construction,
      with `T` in place of `T()`. */
  function UninitializedDefaultConstructN<T>(cells: seq<Cell<T>>, first: nat, n: nat, dflt: T): (r: (seq<Cell<T>>, nat))
    requires first + n <= |cells| && AllRaw(cells, first, first + n)
    ensures r.1 == first + n
    ensures SameOutside(cells, r.0, first, r.1) && AllLive(r.0, first, r.1)
    ensures Values(r.0, first, r.1) == Repeat(dflt, n)
  {
    UninitializedValueConstructN(cells, first, n, dflt)
  }

  // ---------------------------------------------------------------------------
  // Destroying objects

  /** `destroy_at(p)` on the live slot `i`. */
  function DestroyAt<T>(cells: seq<Cell<T>>, i: nat): (r: seq<Cell<T>>)
    requires i < |cells| && cells[i].Live?
    ensures SameOutside(cells, r, i, i + 1) && r[i].Raw?
  {
    cells[i := Raw]
  }

  /** `destroy(first, last)`. */
  function Destroy<T>(cells: seq<Cell<T>>, first: nat, last: nat): (r: seq<Cell<T>>)
    requires first <= last <= |cells| && AllLive(cells, first, last)
    ensures SameOutside(cells, r, first, last) && AllRaw(r, first, last)
    decreases last - first
  {
    if first == last then cells else Destroy(DestroyAt(cells, first), first + 1, last)
  }

  /** `destroy_n(first, count)`; the second component is the returned iterator. */
  function DestroyN<T>(cells: seq<Cell<T>>, first: nat, count: nat): (r: (seq<Cell<T>>, nat))
    requires first + count <= |cells| && AllLive(cells, first, first + count)
    ensures r.1 == first + count
    ensures SameOutside(cells, r.0, first, r.1) && AllRaw(r.0, first, r.1)
    decreases count
  {
    if count == 0 then (cells, first) else DestroyN(DestroyAt(cells, first), first + 1, count - 1)
  }

  // ---------------------------------------------------------------------------
  // How the primitives relate

  /** The counted forms do what the range forms do on `[first, first + count)`. */
  lemma {:induction false} UninitializedCopyNIsCopy<T>(src: seq<T>, first: nat, count: nat, cells: seq<Cell<T>>, dest: nat)
    requires first + count <= |src| && dest + count <= |cells|
    requires AllRaw(cells, dest, dest + count)
    ensures UninitializedCopyN(src, first, count, cells, dest) == UninitializedCopy(src, first, first + count, cells, dest)
    decreases count
  {
    if count > 0 {
      UninitializedCopyNIsCopy(src, first + 1, count - 1, ConstructAt(cells, dest, src[first]), dest + 1);
    }
  }

  lemma {:induction false} UninitializedFillNIsFill<T>(cells: seq<Cell<T>>, first: nat, count: nat, val: T)
    requires first + count <= |cells| && AllRaw(cells, first, first + count)
    ensures UninitializedFillN(cells, first, count, val).0 == UninitializedFill(cells, first, first + count, val)
    decreases count
  {
    if count > 0 {
      UninitializedFillNIsFill(ConstructAt(cells, first, val), first + 1, count - 1, val);
    }
  }

  lemma {:induction false} DestroyNIsDestroy<T>(cells: seq<Cell<T>>, first: nat, count: nat)
    requires first + count <= |cells| && AllLive(cells, first, first + count)
    ensures DestroyN(cells, first, count).0 == Destroy(cells, first, first + count)
    decreases count
  {
    if count > 0 {
      DestroyNIsDestroy(DestroyAt(cells, first), first + 1, count - 1);
    }
  }

  /** Copy-constructing a range and reading it back gives the source range. */
  lemma UninitializedCopyHoldsSource<T>(src: seq<T>, first: nat, last: nat, cells: seq<Cell<T>>, dest: nat)
    requires first <= last <= |src| && dest + (last - first) <= |cells|
    requires AllRaw(cells, dest, dest + (last - first))
    ensures var r := UninitializedCopy(src, first, last, cells, dest);
            AllLive(r.0, dest, r.1) && Values(r.0, dest, r.1) == src[first..last]
  {
  }

  /** Destroying what was just constructed gives the raw storage back, so
      constructing and destroying a range leaves no trace. */
  lemma DestroyUndoesConstruct<T>(src: seq<T>, first: nat, last: nat, cells: seq<Cell<T>>, dest: nat)
    requires first <= last <= |src| && dest + (last - first) <= |cells|
    requires AllRaw(cells, dest, dest + (last - first))
    ensures var r := UninitializedCopy(src, first, last, cells, dest);
            Destroy(r.0, dest, r.1) == cells
  {
    var r := UninitializedCopy(src, first, last, cells, dest);
    var d := Destroy(r.0, dest, r.1);
    assert forall i :: 0 <= i < |cells| ==> d[i] == cells[i];
  }
}
