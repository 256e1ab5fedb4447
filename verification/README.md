# static-stl core, modelled in Dafny

static-stl is a header-only C++ library of fixed-capacity containers for
embedded targets: nothing allocates, and requests beyond a container's
capacity are clamped silently instead of failing. This project models its
core and proves properties of the model:

- `iterator.dfy` (module `Iterator`): the `reverse_iterator` adapter as a
  mapping on indices. Dereference reads the element before the wrapped cursor,
  stepping moves the cursor the other way, and `==`/`<` compare the wrapped
  cursors without inverting them.
- `algorithm.dfy` (module `Algorithm`): `swap`, `iter_swap`, `swap_ranges`,
  `fill`, `fill_n`, `copy`, `copy_n`, `min`, `max`, both overloads of `equal`
  and `lexicographical_compare`, `reverse`, and `rotate` done as three
  reversals.
- `memory.dfy` (module `Memory`): storage slots that are `Raw` or `Live(value)`,
  the `uninitialized_*` construction primitives, and `destroy_at`, `destroy`,
  `destroy_n`.
- `vector.dfy` (module `BoundedVector`): the bounded vector. Its invariant is
  that slots `[0, size)` are live and `[size, N)` raw. Growth clamps to `N`.
  `insert` is `resize` plus a rotation through reverse iterators; `erase` is a
  rotation plus `resize`.
- `array.dfy` (module `FixedArray`): the fixed array. Its size is `N`;
  conversion copies `min(N, N2)` elements and value-initialises the rest;
  `at` wraps the index modulo `N`.
- `utility.dfy` (module `Utility`): `!=`, `>`, `<=` and `>=` derived from
  `==` and `<`.
- `modulo.dfy` (module `Modulo`): remainder facts that `at` relies on.

The in-place C++ algorithms become pure functions. A range is an index
interval `[first, last)` of a sequence. A mutating operation returns the
sequence or container as it stands afterwards. An iterator it returns becomes
an index in the second component. Value-initialisation `T()` and
default-initialisation have no generic Dafny counterpart, so the value they
produce is a parameter (`zero`, `dflt`). The element order used by `min`,
`max`, `lexicographical_compare` and the vector `<` is a parameter `less`;
the overloads without a comparator use the element type's `<`.

`inc/array.h` defines no `==` or `<` for `array`, so the model has none;
the vector's `==` and `<` are in `inc/vector.h` and are modelled there.

## Model

| member | source | states |
|---|---|---|
| Iterator.Base | inc/iterator.h:91 | `base()` gives back the cursor the iterator was built from |
| Iterator.Deref | inc/iterator.h:68 | `*r` reads the element just before `base()`; at `rbegin()` that is the last element |
| Iterator.Subscript | inc/iterator.h:72 | `r[n]` reads what `*(r + n)` reads |
| Iterator.Increment | inc/iterator.h:74 | `++r` moves the base back by one, so the incremented iterator compares less than `r` |
| Iterator.Decrement | inc/iterator.h:78 | `--r` is undone by `++` |
| Iterator.Add | inc/iterator.h:82 | `r + n` lies `n` increments past `r` |
| Iterator.Sub | inc/iterator.h:84 | `r - n` is undone by `+ n` |
| Iterator.SameBase | inc/iterator.h:97-101 | `==` holds exactly between equal iterators |
| Iterator.Less | inc/iterator.h:103-107 | `a < b` holds exactly when `a` lies a positive number of increments past `b`, the traversal order inverted |
| Iterator.ReverseView | inc/iterator.h:68-84 | position `j` of the view from `rbegin()` is element `n - 1 - j` |
| Iterator.ReverseViewIsDerefOfAdd | inc/iterator.h:82 | position `j` of the view is what `*(rbegin() + j)` reads |
| Iterator.ReverseViewInvolution | inc/iterator.h:68 | viewing the view in reverse gives the original sequence |
| Iterator.SubscriptIsDerefOfAdd | inc/iterator.h:72 | `r[n]` reads the element that `*(r + n)` reads |
| Iterator.StepsAreInverse | inc/iterator.h:74-84 | `++`/`--` and `+ n`/`- n` undo each other; `++r` is `r + 1` and moves the base back by one |
| Iterator.AddIsRepeatedIncrement | inc/iterator.h:74-82 | `r + n` lands where `n` pre-increments land |
| Iterator.ComparisonFollowsBase | inc/iterator.h:97-107 | `==` and `<` follow the base, so an iterator one step further along compares less, not greater |
| Iterator.WalkVisitsDescending | inc/iterator.h:68-74 | the walk from `reverse_iterator(hi)` to `reverse_iterator(lo)` meets indices `hi-1` down to `lo` |
| Iterator.ReverseTraversal | inc/iterator.h:68-74 | `rbegin()` to `rend()` meets every element, last first, in `n` steps |
| Algorithm.Swap | inc/algorithm.h:9-14 | the two values trade places |
| Algorithm.SwapTwiceRestores | inc/algorithm.h:9-14 | swapping twice gives back both values |
| Algorithm.IterSwap | inc/algorithm.h:9-20 | the two elements trade places and every other position is unchanged |
| Algorithm.IterSwapIsPermutation | inc/algorithm.h:16-20 | `iter_swap` keeps the multiset of elements |
| Algorithm.SwapRanges | inc/algorithm.h:23-29 | each range receives the other's elements, nothing else changes, and the returned iterator is `first2 + (last1 - first1)` |
| Algorithm.SwapRangesTwiceRestores | inc/algorithm.h:23-29 | swapping the same ranges again restores both sequences |
| Algorithm.Fill | inc/algorithm.h:32-35 | every slot of `[first, last)` holds `val` and nothing else changes |
| Algorithm.FillN | inc/algorithm.h:38-43 | `len` slots from `first` hold `val`; returns `first + len` |
| Algorithm.FillNIsFill | inc/algorithm.h:32-43 | `fill_n(first, len)` does what `fill(first, first + len)` does |
| Algorithm.Copy | inc/algorithm.h:46-49 | the destination range receives the source range in order, and nothing else changes |
| Algorithm.CopyN | inc/algorithm.h:52-57 | `len` elements copied in order; returns `dest + len` |
| Algorithm.CopyNIsCopy | inc/algorithm.h:46-57 | `copy_n(first, len)` does what `copy(first, first + len)` does |
| Algorithm.Min | inc/algorithm.h:66-69 | returns `b` exactly when `comp(b, a)`, so a tie returns `a` |
| Algorithm.Max | inc/algorithm.h:78-81 | returns `b` exactly when `comp(a, b)`, so a tie returns `a` |
| Algorithm.MinValue | inc/algorithm.h:60-63 | integer `min`: at most both arguments and equal to one of them |
| Algorithm.MaxValue | inc/algorithm.h:72-75 | integer `max`: at least both arguments and equal to one of them |
| Algorithm.MinMaxBounds | inc/algorithm.h:60-81 | for an asymmetric `comp`, neither argument is less than `min` and `max` is less than neither; ties give `a` for both |
| Algorithm.EqualFrom | inc/algorithm.h:84-93 | the scan resumed at `i` is true iff the first range equals the start of the second |
| Algorithm.Equal | inc/algorithm.h:84-93 | true iff every element equals its counterpart |
| Algorithm.EqualByFrom | inc/algorithm.h:96-106 | the resumed predicate scan is true iff `p` holds pairwise |
| Algorithm.EqualBy | inc/algorithm.h:96-106 | true iff `p` holds for every pair |
| Algorithm.EqualIsEqualByEquality | inc/algorithm.h:84-106 | `equal` without a predicate is `equal` with `==` |
| Algorithm.LexFirstMismatchDecides | inc/algorithm.h:112-116 | after an equivalent prefix, the first non-equivalent pair decides the order |
| Algorithm.LexAtEnd | inc/algorithm.h:118 | once one range is exhausted, the first is less iff it ended and the second did not |
| Algorithm.LexicographicalCompareFrom | inc/algorithm.h:122-133 | the loop resumed after an equivalent prefix decides strict lexicographic order |
| Algorithm.LexicographicalCompare | inc/algorithm.h:109-133 | true iff some position ends an equivalent common prefix and there the first range's element is less, or the first range ends while the second continues |
| Algorithm.LexProperPrefixIsLess | inc/algorithm.h:118 | an equivalent proper prefix is less, and not the other way round |
| Algorithm.LexEquivalentRangesNotLess | inc/algorithm.h:118 | equal-length pairwise-equivalent ranges are less in neither direction |
| Algorithm.LexTrichotomy | inc/algorithm.h:109-133 | over a strict total order exactly one of `a < b`, `a == b`, `b < a` holds |
| Algorithm.Reverse | inc/algorithm.h:136-139 | position `i` of `[first, last)` receives element `first + last - 1 - i`, and nothing else changes |
| Algorithm.ReversedMirrors | inc/algorithm.h:136-139 | the reference reversal mirrors every position |
| Algorithm.ReverseMatchesReversed | inc/algorithm.h:136-139 | the swap loop equals the reference reversal spliced into the range |
| Algorithm.ReverseIsPermutation | inc/algorithm.h:136-139 | `reverse` keeps the multiset of elements |
| Algorithm.ReverseTwiceRestores | inc/algorithm.h:136-139 | reversing twice restores the sequence |
| Algorithm.ThreeReversalsRotate | inc/algorithm.h:148-150 | reversing `[first, middle)`, then `[middle, last)`, then `[first, last)` is a left rotation |
| Algorithm.Rotate | inc/algorithm.h:142-153 | `[middle, last)` moves to `first`, followed by `[first, middle)`, and nothing else changes; returns `first + (last - middle)`, or `last`/`first` in the two trivial cases |
| Algorithm.RotateAsSplice | inc/algorithm.h:142-153 | the result is `s[..first] + s[middle..last] + s[first..middle] + s[last..]` |
| Algorithm.RotateComplementRestores | inc/algorithm.h:142-153 | rotating again at the returned iterator restores the sequence |
| Algorithm.MirroredRotation | inc/iterator.h:68-84 | a left rotation seen through reverse iterators is a right rotation of the mirrored range |
| Algorithm.RightRotation | inc/vector.h:119 | rotating the reversed prefix `[0, n - d)` by `k` moves the last `k` elements to position `d` |
| Algorithm.RotateThroughReverseIterators | inc/vector.h:128-130 | `rotate(rbegin(), rbegin() + k, reverse_iterator(begin() + d))` is that right rotation |
| Memory.ConstructAt | inc/memory.h:38 | placement-new turns raw slot `i` live with the value and changes nothing else |
| Memory.UninitializedCopy | inc/memory.h:9-18 | the raw destination slots become live copies of the source range, nothing else changes, and the result is one past the last |
| Memory.UninitializedCopyN | inc/memory.h:21-30 | `count` raw slots become live copies; returns `d_first + count` |
| Memory.UninitializedFill | inc/memory.h:33-40 | every raw slot of the range becomes live with `value` |
| Memory.UninitializedFillN | inc/memory.h:43-52 | `count` raw slots become live with `value`; returns `first + count` |
| Memory.UninitializedDefaultConstruct | inc/memory.h:55-62 | every slot of the range becomes live with the default-initialised value |
| Memory.UninitializedDefaultConstructN | inc/memory.h:65-74 | `n` slots become live with the default-initialised value; returns `first + n` |
| Memory.UninitializedValueConstruct | inc/memory.h:77-84 | every slot of the range becomes live with `T()` |
| Memory.UninitializedValueConstructN | inc/memory.h:87-96 | `n` slots become live with `T()`; returns `first + n` |
| Memory.DestroyAt | inc/memory.h:99-102 | the live slot becomes raw and nothing else changes |
| Memory.Destroy | inc/memory.h:105-108 | every live slot of the range becomes raw and nothing else changes |
| Memory.DestroyN | inc/memory.h:111-116 | `n` live slots become raw; returns `first + n` |
| Memory.UninitializedCopyNIsCopy | inc/memory.h:9-30 | the counted copy equals the range copy over `[first, first + count)` |
| Memory.UninitializedFillNIsFill | inc/memory.h:33-52 | the counted fill equals the range fill |
| Memory.DestroyNIsDestroy | inc/memory.h:105-116 | the counted destroy equals the range destroy |
| Memory.UninitializedCopyHoldsSource | inc/memory.h:9-18 | reading the constructed slots back gives the source range |
| Memory.DestroyUndoesConstruct | inc/memory.h:99-108 | destroying what `uninitialized_copy` constructed gives back the raw storage |
| BoundedVector.Empty | inc/vector.h:248 | the default vector is valid, has no elements and has all storage raw |
| BoundedVector.WithCount | inc/vector.h:259-261 | `vector(count)` holds `min(count, N)` value-initialised elements |
| BoundedVector.WithFill | inc/vector.h:263-265 | `vector(count, val)` holds `min(count, N)` copies of `val` |
| BoundedVector.FromRange | inc/vector.h:293-297 | `vector(first, last)` holds the first `min(distance, N)` source elements |
| BoundedVector.CopyOf | inc/vector.h:250-252 | the copy constructor yields a vector equal to the source |
| BoundedVector.ConvertFrom | inc/vector.h:254-257 | the copy adapter constructor holds the first `min(other.size(), N)` elements |
| BoundedVector.Destruct | inc/vector.h:273 | after the destructor every storage slot is raw |
| BoundedVector.Truncate | inc/vector.h:170-172 | shrinking destroys the tail and keeps the first `count` elements |
| BoundedVector.Resize | inc/vector.h:169-178 | the size becomes `min(count, N)` and the elements are the old ones then `T()`s, cut to that size |
| BoundedVector.ResizeFill | inc/vector.h:179-188 | as `Resize`, padding with copies of `value` |
| BoundedVector.Clear | inc/vector.h:112 | no elements remain and all storage is raw |
| BoundedVector.PushBack | inc/vector.h:158-163 | with room, appends `value`; when full, the vector is unchanged |
| BoundedVector.PopBack | inc/vector.h:166 | drops the last element |
| BoundedVector.MakeRoom | inc/vector.h:128-130 | after `resize(size + count)` and the reverse-iterator rotation, `count` `T()`s sit at position `d` and the old elements keep their order around them |
| BoundedVector.Insert | inc/vector.h:115-124 | with room, `val` is placed before `pos`; when full, the vector is unchanged; returns `pos` |
| BoundedVector.InsertN | inc/vector.h:125-135 | `min(count, N - size)` copies of `val` are placed before `pos`; returns `pos` |
| BoundedVector.InsertRange | inc/vector.h:213-225 | the first `min(distance, N - size)` source elements are placed before `pos`; returns `pos` |
| BoundedVector.RotateElements | inc/vector.h:145 | rotating within the live prefix keeps the vector valid and rotates its elements |
| BoundedVector.Erase | inc/vector.h:143-148 | removes the element at `pos`, keeps the others in order, and returns `pos` |
| BoundedVector.EraseRange | inc/vector.h:149-155 | removes `[first, last)`, keeps the others in order, and returns `first` |
| BoundedVector.Assign | inc/vector.h:49-52 | the vector holds `min(count, N)` copies of `val` |
| BoundedVector.AssignRange | inc/vector.h:201-205 | the vector holds the first `min(distance, N)` source elements |
| BoundedVector.AssignFrom | inc/vector.h:33-42 | the vector holds the first `min(rhs.size(), N)` elements of `rhs`; at equal capacity it equals `rhs` |
| BoundedVector.AssignAgreesWithConstruction | inc/vector.h:276-285 | assignment forgets the old contents and gives what the copy adapter constructor builds |
| BoundedVector.Index | inc/vector.h:45-46 | `operator[]` reads the live element at `pos` |
| BoundedVector.At | inc/vector.h:61-62 | `at(pos)` reads element `pos % N` |
| BoundedVector.Front | inc/vector.h:65-66 | `front()` is the first element |
| BoundedVector.Back | inc/vector.h:69-70 | `back()` is the last element |
| BoundedVector.AtWraps | inc/vector.h:61-62 | `at` agrees with `operator[]` below the size and repeats with period `N` |
| BoundedVector.ReverseIterationOfVector | inc/vector.h:91-98 | walking `rbegin()` to `rend()` meets the elements last first, in `size()` steps |
| BoundedVector.Capacity | inc/vector.h:105-109 | `capacity()` is `N` and bounds the size of every valid vector |
| BoundedVector.IsEmpty | inc/vector.h:101 | `empty()` holds exactly when there are no elements |
| BoundedVector.EmptyIffNoElements | inc/vector.h:101 | `empty()` holds iff there are no elements; it holds after `clear()` and for a new vector |
| BoundedVector.VectorEqual | inc/vector.h:305-309 | `==` is true iff the element sequences are equal, whatever the capacities |
| BoundedVector.VectorLess | inc/vector.h:311-315 | `<` is strict lexicographic order of the elements |
| BoundedVector.VectorTrichotomy | inc/vector.h:311-315 | over a strict total element order exactly one of `a < b`, equal elements, `b < a` holds |
| BoundedVector.PopBackUndoesPushBack | inc/vector.h:158-166 | `pop_back` after a `push_back` that had room restores the vector |
| BoundedVector.EraseUndoesInsert | inc/vector.h:143-148 | `erase(pos)` after an `insert(pos, val)` that had room restores the vector |
| BoundedVector.EraseRangeUndoesInsertRange | inc/vector.h:149-155 | `erase(pos, pos + k)` after inserting a range of `k` that fit restores the vector |
| BoundedVector.EraseRangeUndoesClampedInsertRange | inc/vector.h:213-225 | when the range does not fit, `insert` adds only its first `min(k, N - size)` elements, and erasing that many at `pos` restores the vector |
| BoundedVector.InsertIgnoresPlaceholder | inc/vector.h:115-135 | the `T()` placeholders rotated into the gap never survive; the result does not depend on `T()` |
| BoundedVector.InsertIsInsertRangeOfOne | inc/vector.h:115-135 | inserting one value equals inserting a one-element range and inserting a count of one |
| BoundedVector.PushBackPastCapacity | inc/vector.h:158-163 | a capacity-4 vector pushed five values holds the first four |
| BoundedVector.InsertTwoIntoFourAs | test/vector.cpp:265-272 | inserting two `'e'`s at 1 into four `'a'`s gives `aeeaaa` |
| BoundedVector.InsertRangeIntoFourAs | test/vector.cpp:274-284 | inserting `bcde` at 1 into four `'a'`s gives `abcdeaaa` |
| FixedArray.Default | inc/array.h:134 | `array()` holds `N` value-initialised elements, whatever the storage held before |
| FixedArray.Broadcast | inc/array.h:143 | `array(val)` holds `N` copies of `val` |
| FixedArray.CopyConstruct | inc/array.h:136 | the copy constructor yields an array equal to the source |
| FixedArray.CopyThenPad | inc/array.h:140 | the first `min(N2, N)` elements are copied and the rest are `T()` |
| FixedArray.ConvertConstruct | inc/array.h:138-141 | the converted array is the source's first `min(N2, N)` elements followed by `T()`s, and has size `N` |
| FixedArray.AssignSame | inc/array.h:146-149 | same-size assignment yields `rhs` |
| FixedArray.AssignConvert | inc/array.h:151-155 | cross-size assignment keeps `N`, copies `min(N2, N)` elements and value-initialises the rest |
| FixedArray.AssignConvertOverwritesAll | inc/array.h:32-45 | converting assignment leaves no old content, and between equal sizes it is copy assignment |
| FixedArray.WidenThenNarrowRestores | inc/array.h:138-141 | converting to a larger array and back to the original size restores the array |
| FixedArray.Size | inc/array.h:85-104 | `size()` is `N`, the distance from `begin()` to `end()` |
| FixedArray.IsEmpty | inc/array.h:100 | `empty()` is false for every array that has an element |
| FixedArray.Index | inc/array.h:48-53 | `operator[](pos)` reads element `pos` |
| FixedArray.At | inc/array.h:56-61 | `at(pos)` reads element `pos % N`, so it always reads an element and agrees with `operator[]` below `N` |
| FixedArray.Front | inc/array.h:64-67 | `front()` is `at(0)` |
| FixedArray.Back | inc/array.h:70-73 | `back()` is `at(N - 1)` |
| FixedArray.AtWraps | inc/array.h:56-61 | `at` repeats with period `N`; `at(N)` is the front |
| FixedArray.ReverseIterationOfArray | inc/array.h:80-97 | `end() - begin()` is `N`; `rbegin()` to `rend()` meets the elements last first; `*rbegin()` is `back()` |
| Utility.NotEqual | inc/utility.h:7-8 | `!=` is the negation of `==` |
| Utility.Greater | inc/utility.h:11-12 | `lhs > rhs` is `rhs < lhs` |
| Utility.LessEqual | inc/utility.h:15-16 | `<=` is the complement of `>` |
| Utility.GreaterEqual | inc/utility.h:19-20 | `lhs >= rhs` is `rhs <= lhs` |
| Utility.DerivedOperators | inc/utility.h:8-20 | over a strict total order, `!=`, `>`, `<=`, `>=` mean what their names say, and exactly one of `<`, `==`, `>` holds |
| BoundedVector.VectorDerivedOperators | inc/utility.h:8-20 | on vectors, `!=` means different elements and `<=`/`>=` mean lexicographically less/greater or equal |

## Left out

- `inc/type_traits.h` is not part of this model. The `is_integral` dispatch it drives is modelled by naming each branch separately. The integral branch of `vector(first, last)` is `WithFill`, of `insert(pos, first, last)` is `InsertN`, and of `assign(first, last)` is `Assign`.
- `distance` is not defined in any of the files modelled. It is taken to be the index difference: `Distance` for plain cursors and `ReverseDistance` for reverse iterators.
- The base/derived layout trick is not modelled. The capacity-erased `vector<T>` and `array<T>` reach their storage by casting to a fixed-size child. The model stores the capacity with the storage instead.
- `data()`, `operator->`, `cbegin`/`cend`/`crbegin`/`crend` and the const overloads are left out. They return the same positions as the modelled accessors. `begin()`/`end()` appear as the indices `0` and `size`.
- The post-increment and post-decrement operators and `+=`/`-=` of `reverse_iterator` are left out. As written they do not type-check: they return `*tmp` and `it_ -= n` where a `reverse_iterator` is expected.
- Conversions between element types `T2` and `T` are left out; both sides have the same element type.
- Unsigned wrap-around of `size_type` is left out. `pop_back` and `erase(pos)` on an empty vector underflow `size_ - 1`; the model requires a non-empty vector.
- `BoundedVector.At` requires `pos % N < size`. The source reads `begin()[pos % N]` without a check, which reads raw storage when the slot is not live.
- `Algorithm.Equal`, `BoundedVector.VectorEqual` (and `VectorEquality`, `VectorDerivedOperators` through it): the element type's `operator==` is taken to be value equality. A user-defined `==` that is not identity, such as a case-insensitive comparison, is not modelled by these members; `Algorithm.EqualBy` takes any predicate, and `Algorithm.EqualIsEqualByEquality` shows `Equal` is its `==` instance.
- `BoundedVector.Index` and `FixedArray.Index` require an index in range. The source does not check it.
- `BoundedVector.Front` and `BoundedVector.Back` require `size > 0`. The source reads `*begin()` or `end()[-1]` without a check, which on an empty vector reads raw storage (or before it).
- Aliasing and iterator invalidation are left out. Every operation gets its arguments by value, so an insert from a range of the same vector, or an iterator invalidated by a `resize`, cannot be expressed.
- Constructors' and destructors' side effects on the element type, and exceptions, are left out. Construction is a transition from `Raw` to `Live`; destruction is the reverse.
- The test harness is left out. Two of its insert cases appear as lemmas.

## Notes

- `reverse_iterator`'s `<` compares the wrapped cursors unchanged, so an iterator further along the reversed traversal compares *less* (`Iterator.ComparisonFollowsBase`). This differs from the usual standard-library convention. The model keeps the code's behaviour; no operation in the library relies on the ordering.
- `at` on both containers wraps the index modulo the capacity rather than rejecting it. The model keeps the wrap.
