/**
 * gdt::dynarr<T, Allocator>: a growable array with a small-buffer
 * optimisation. When the allocator hands out plain `T*` pointers, the bytes
 * that would hold the heap pointer are reused to store up to K elements in
 * place ("small" or inline mode, capacity == K); above that the elements live
 * in an allocated buffer ("large" or heap mode, capacity > K).
 *
 * The object is a class whose fields are the source's members: the allocator,
 * the storage (`small`, the inline buffer, and `large`, the heap pointer),
 * the capacity and the size. Elements() is the sequence of live elements.
 */
module Dynarrs {
  import opened Sequences
  import Allocators
  import Growth
  import Buffers
  import FillIterators

  /**
   * dynarr_small_capacity: with plain `T*` pointers, the number of elements
   * that fit in the bytes of one pointer, further limited by what the size
   * and difference types can count; with any other pointer type, zero.
   */
  function SmallCapacity(l: Allocators.Layout): (r: nat)
    requires l.elemSize > 0
    ensures !l.rawPointer ==> r == 0
    ensures l.rawPointer ==>
      r * l.elemSize <= l.ptrSize && r * l.elemSize <= l.sizeMax && r <= l.diffMax
    ensures l.rawPointer ==>
      (r + 1) * l.elemSize > l.ptrSize || (r + 1) * l.elemSize > l.sizeMax || r + 1 > l.diffMax
  {
    if l.rawPointer then
      var r := Allocators.Min(Allocators.Min(l.ptrSize / l.elemSize, l.sizeMax / l.elemSize), l.diffMax);
      Allocators.DivBounds(l.ptrSize, l.elemSize, r);
      Allocators.DivBounds(l.sizeMax, l.elemSize, r);
      Allocators.DivBounds(l.ptrSize, l.elemSize, r + 1);
      Allocators.DivBounds(l.sizeMax, l.elemSize, r + 1);
      r
    else 0
  }

  /** The inline capacity never exceeds max_size, so an inline dynarr is a valid state. */
  lemma SmallCapacityFitsMaxSize(l: Allocators.Layout)
    requires Allocators.WellFormed(l)
    ensures SmallCapacity(l) <= Allocators.MaxSize(l) <= l.sizeMax
  {
    Allocators.MaxSizeAtMostSizeMax(l);
    var r, m := SmallCapacity(l), Allocators.MaxSize(l);
    if r > m {
      Allocators.MulMonotone(m + 1, r, l.elemSize);
    }
  }

  /** On a 64-bit platform: two ints or one double fit inline, a 16-byte element does not. */
  lemma SmallCapacityExamples()
    ensures SmallCapacity(Allocators.Platform64(4)) == 2
    ensures SmallCapacity(Allocators.Platform64(8)) == 1
    ensures SmallCapacity(Allocators.Platform64(16)) == 0
    ensures SmallCapacity(Allocators.Platform64(4).(rawPointer := false)) == 0
  {}

  class Dynarr<T> {
    /** The element type's and allocator type's compile-time facts. */
    const layout: Allocators.Layout
    const traits: Allocators.Traits
    /** _small_capacity(), and max_size() taken as the allocator's own limit. */
    const K: nat
    const maxSize: nat
    /** The value-initialised element T(), which resize appends. */
    const zero: T
    /** The storage union's inline bytes, K elements long. */
    const small: array<T>
    /** The storage union's heap pointer; meaningful only in heap mode. */
    var large: array?<T>
    var alloc: Allocators.Alloc
    var capacity: nat
    var size: nat

    /**
     * The class invariant: capacity is K (inline) or more (heap), within
     * max_size, and covers the size; in heap mode `large` is a buffer of
     * exactly `capacity` elements, and in inline mode no heap buffer is held.
     */
    ghost predicate Valid()
      reads this
    {
      Allocators.WellFormed(layout) && K == SmallCapacity(layout)
      && maxSize == Allocators.MaxSize(layout) && maxSize <= layout.sizeMax
      && small.Length == K
      && K <= capacity <= maxSize && size <= capacity
      && (capacity > K ==> large != null && large.Length == capacity && large != small)
      && (capacity == K ==> large == null)
    }

    /** _storage.ptr(_capacity): the buffer the elements live in. */
    function Buf(): (b: array<T>)
      reads this
      requires Valid()
      ensures b.Length == capacity
      ensures b == small || b == large
    {
      if capacity > K then large else small
    }

    /** The live elements, in order. */
    ghost function Elements(): seq<T>
      reads this, small, large
      requires Valid()
    {
      Buf()[..size]
    }

    /** Two dynarrs with the same element and allocator types. */
    predicate Compatible(other: Dynarr<T>)
    {
      layout == other.layout && traits == other.traits
    }

    /** Two distinct dynarrs share no buffer. */
    ghost predicate Disjoint(other: Dynarr<T>)
      reads this, other
    {
      this != other && small != other.small && small != other.large
      && large != other.small && (large == null || large != other.large)
    }

    /** The capacity `reserve(n)` leaves, starting from capacity cap. */
    function Reserved(cap: nat, n: nat): nat
      requires cap <= maxSize <= layout.sizeMax
    {
      if cap < n then Growth.ChooseNewCapacity(cap, n, maxSize, layout.sizeMax) else cap
    }

    /** The capacity `_reserve_for_assign(n)` leaves: a too-small buffer is dropped first. */
    function ReservedForAssign(cap: nat, n: nat): nat
      requires K <= maxSize <= layout.sizeMax
    {
      if cap < n then Growth.ChooseNewCapacity(K, n, maxSize, layout.sizeMax) else cap
    }

    // ----- Construction -----

    /** dynarr(allocator): empty, inline, holding the given allocator. */
    constructor (l: Allocators.Layout, t: Allocators.Traits, a: Allocators.Alloc, z: T)
      requires Allocators.WellFormed(l)
      ensures Valid() && fresh(small) && large == null
      ensures layout == l && traits == t && alloc == a && zero == z
      ensures Elements() == [] && capacity == K
    {
      SmallCapacityFitsMaxSize(l);
      layout, traits, alloc, zero := l, t, a, z;
      K := SmallCapacity(l);
      maxSize := Allocators.MaxSize(l);
      small := new T[SmallCapacity(l)](_ => z);
      large := null;
      capacity := SmallCapacity(l);
      size := 0;
    }

    /** dynarr(len, allocator): len value-initialised elements. */
    constructor Sized(l: Allocators.Layout, t: Allocators.Traits, a: Allocators.Alloc, z: T, len: nat)
      requires Allocators.WellFormed(l) && len <= Allocators.MaxSize(l)
      ensures Valid() && fresh(small) && (large == null || fresh(large))
      ensures layout == l && traits == t && alloc == a && zero == z
      ensures Elements() == Repeat(z, len) && capacity == Reserved(K, len)
    {
      SmallCapacityFitsMaxSize(l);
      layout, traits, alloc, zero := l, t, a, z;
      K := SmallCapacity(l);
      maxSize := Allocators.MaxSize(l);
      small := new T[SmallCapacity(l)](_ => z);
      large := null;
      capacity := SmallCapacity(l);
      size := 0;
      new;
      Resize(len);
    }

    /** dynarr(len, value, allocator): len copies of value. */
    constructor Filled(l: Allocators.Layout, t: Allocators.Traits, a: Allocators.Alloc, z: T, len: nat, v: T)
      requires Allocators.WellFormed(l) && len <= Allocators.MaxSize(l)
      ensures Valid() && fresh(small) && (large == null || fresh(large))
      ensures layout == l && traits == t && alloc == a && zero == z
      ensures Elements() == Repeat(v, len) && capacity == Reserved(K, len)
    {
      SmallCapacityFitsMaxSize(l);
      layout, traits, alloc, zero := l, t, a, z;
      K := SmallCapacity(l);
      maxSize := Allocators.MaxSize(l);
      small := new T[SmallCapacity(l)](_ => z);
      large := null;
      capacity := SmallCapacity(l);
      size := 0;
      new;
      AssignFill(len, v);
    }

    /**
     * dynarr(first, last, allocator) for a forward range, and
     * dynarr(initializer_list, allocator): a copy of the range.
     */
    constructor FromRange(l: Allocators.Layout, t: Allocators.Traits, a: Allocators.Alloc, z: T, src: seq<T>)
      requires Allocators.WellFormed(l) && |src| <= Allocators.MaxSize(l)
      ensures Valid() && fresh(small) && (large == null || fresh(large))
      ensures layout == l && traits == t && alloc == a && zero == z
      ensures Elements() == src && capacity == Reserved(K, |src|)
    {
      SmallCapacityFitsMaxSize(l);
      layout, traits, alloc, zero := l, t, a, z;
      K := SmallCapacity(l);
      maxSize := Allocators.MaxSize(l);
      small := new T[SmallCapacity(l)](_ => z);
      large := null;
      capacity := SmallCapacity(l);
      size := 0;
      new;
      Assign(src);
    }

    /**
     * dynarr(first, last, allocator) for an input-only range: assign on an
     * empty dynarr, so the elements are appended one at a time from the
     * inline capacity, and a range that fits the inline buffer stays inline.
     */
    constructor FromEach(l: Allocators.Layout, t: Allocators.Traits, a: Allocators.Alloc, z: T, src: seq<T>)
      requires Allocators.WellFormed(l) && |src| <= Allocators.MaxSize(l)
      ensures Valid() && fresh(small) && (large == null || fresh(large))
      ensures layout == l && traits == t && alloc == a && zero == z
      ensures Elements() == src && capacity == Growth.GrownTo(K, |src|, maxSize, layout.sizeMax)
      ensures |src| <= K ==> capacity == K && large == null
    {
      SmallCapacityFitsMaxSize(l);
      layout, traits, alloc, zero := l, t, a, z;
      K := SmallCapacity(l);
      maxSize := Allocators.MaxSize(l);
      small := new T[SmallCapacity(l)](_ => z);
      large := null;
      capacity := SmallCapacity(l);
      size := 0;
      new;
      AssignEach(src);
    }

    /**
     * dynarr(const dynarr& other, allocator): an element-by-element copy with
     * the given allocator; the copy never shares other's buffer.
     */
    constructor CopyWithAllocator(other: Dynarr<T>, a: Allocators.Alloc)
      requires other.Valid()
      ensures Valid() && fresh(small) && (large == null || fresh(large)) && Disjoint(other)
      ensures Compatible(other) && zero == other.zero && alloc == a
      ensures Elements() == other.Elements() && capacity == Reserved(K, other.size)
    {
      SmallCapacityFitsMaxSize(other.layout);
      layout, traits, alloc, zero := other.layout, other.traits, a, other.zero;
      K := other.K;
      maxSize := other.maxSize;
      small := new T[other.K](_ => other.zero);
      large := null;
      capacity := other.K;
      size := 0;
      new;
      Assign(other.Buf()[..other.size]);
    }

    /**
     * dynarr(const dynarr& other): as above, with the allocator that
     * select_on_container_copy_construction derives from other's.
     */
    constructor Copy(other: Dynarr<T>)
      requires other.Valid()
      ensures Valid() && fresh(small) && (large == null || fresh(large)) && Disjoint(other)
      ensures Compatible(other) && zero == other.zero
      ensures alloc == Allocators.SelectOnCopy(other.traits, other.alloc)
      ensures Elements() == other.Elements() && capacity == Reserved(K, other.size)
    {
      SmallCapacityFitsMaxSize(other.layout);
      layout, traits, zero := other.layout, other.traits, other.zero;
      alloc := Allocators.SelectOnCopy(other.traits, other.alloc);
      K := other.K;
      maxSize := other.maxSize;
      small := new T[other.K](_ => other.zero);
      large := null;
      capacity := other.K;
      size := 0;
      new;
      Assign(other.Buf()[..other.size]);
    }

    /**
     * dynarr(dynarr&& other): takes other's allocator and contents. A heap
     * buffer changes owner without copying; inline elements are moved across.
     * other is left empty and inline.
     */
    constructor Move(other: Dynarr<T>)
      requires other.Valid()
      modifies other
      ensures Valid() && other.Valid() && fresh(small) && Disjoint(other)
      ensures Compatible(other) && zero == other.zero && alloc == other.alloc
      ensures Elements() == old(other.Elements()) && capacity == old(other.capacity)
      ensures old(other.capacity) > K ==> large == old(other.large)
      ensures other.Elements() == [] && other.capacity == other.K && other.alloc == old(other.alloc)
    {
      layout, traits, alloc, zero := other.layout, other.traits, other.alloc, other.zero;
      K := other.K;
      maxSize := other.maxSize;
      small := new T[other.K](_ => other.zero);
      large := null;
      capacity := other.K;
      size := 0;
      new;
      TakeBuffer(other);
    }

    /**
     * dynarr(dynarr&& other, allocator): when the allocators compare equal
     * (always, for an always-equal allocator type) the buffer is taken as by
     * the move constructor; otherwise the elements are moved one by one into
     * storage from the new allocator and other keeps its buffer and size.
     */
    constructor MoveWithAllocator(other: Dynarr<T>, a: Allocators.Alloc)
      requires other.Valid()
      modifies other
      ensures Valid() && other.Valid() && fresh(small) && Disjoint(other)
      ensures Compatible(other) && zero == other.zero && alloc == a
      ensures Elements() == old(other.Elements()) && other.alloc == old(other.alloc)
      ensures Allocators.Equal(traits, a, old(other.alloc)) ==>
        capacity == old(other.capacity) && (old(other.capacity) > K ==> large == old(other.large))
        && other.Elements() == [] && other.capacity == other.K
      ensures !Allocators.Equal(traits, a, old(other.alloc)) ==>
        capacity == Reserved(K, old(other.size))
        && other.Elements() == old(other.Elements()) && other.capacity == old(other.capacity)
    {
      layout, traits, alloc, zero := other.layout, other.traits, a, other.zero;
      K := other.K;
      maxSize := other.maxSize;
      small := new T[other.K](_ => other.zero);
      large := null;
      capacity := other.K;
      size := 0;
      new;
      if Allocators.Equal(traits, alloc, other.alloc) {
        TakeBuffer(other);
      } else {
        Reserve(other.size);
        PushBackMove(other.Buf()[..other.size]);
      }
    }

    // ----- Capacity -----

    /**
     * _reallocate(new_capacity): moves the elements to a buffer of exactly
     * new_capacity (none when it is zero); the contents are unchanged.
     */
    method Reallocate(newCap: nat)
      requires Valid() && size <= newCap <= maxSize && (newCap > K || newCap == 0 == K)
      modifies this
      ensures Valid() && Elements() == old(Elements())
      ensures capacity == newCap && size == old(size) && alloc == old(alloc)
      ensures newCap > K ==> fresh(large)
    {
      var src := Buf();
      if newCap > 0 {
        var p := Allocators.Allocate(layout, newCap, zero);
        Buffers.MoveRange(p, 0, src, 0, size);
        large := p;
      } else {
        large := null;
      }
      capacity := newCap;
    }

    /**
     * reserve(n): grows the capacity to at least n by the growth rule, moving
     * the elements to a new heap buffer; does nothing when n already fits.
     */
    method Reserve(n: nat)
      requires Valid() && n <= maxSize
      modifies this
      ensures Valid() && Elements() == old(Elements()) && size == old(size) && alloc == old(alloc)
      ensures capacity == Reserved(old(capacity), n) && capacity >= n
      ensures old(capacity) < n ==> fresh(large)
      ensures old(capacity) >= n ==> large == old(large)
    {
      if capacity < n {
        Reallocate(Growth.ChooseNewCapacity(capacity, n, maxSize, layout.sizeMax));
      }
    }

    /**
     * shrink_to_fit: drops unused capacity. A heap dynarr whose elements fit
     * inline moves them back into the inline buffer.
     */
    method ShrinkToFit()
      requires Valid()
      modifies this, small
      ensures Valid() && Elements() == old(Elements()) && alloc == old(alloc)
      ensures capacity == if old(capacity) > old(size) then Growth.Max(old(size), K) else old(capacity)
      ensures large == null || large == old(large) || fresh(large)
    {
      if capacity > size {
        if K == 0 {
          Reallocate(size);
        } else if size > K {
          Reallocate(size);
        } else if capacity > K {
          Buffers.MoveRange(small, 0, large, 0, size);
          large := null;
          capacity := K;
        }
      }
    }

    /** _reset: no elements and no heap buffer. */
    method Reset()
      requires Valid()
      modifies this
      ensures Valid() && Elements() == [] && capacity == K && large == null && alloc == old(alloc)
    {
      large := null;
      capacity := K;
      size := 0;
    }

    /**
     * _reserve_for_assign(n): makes room for n elements about to be
     * assigned; a buffer that is too small is dropped, contents and all,
     * before the new one is reserved, since nothing in it is needed.
     */
    method ReserveForAssign(n: nat)
      requires Valid() && n <= maxSize
      modifies this
      ensures Valid() && capacity == ReservedForAssign(old(capacity), n) && capacity >= n
      ensures alloc == old(alloc)
      ensures old(capacity) >= n ==> Elements() == old(Elements()) && large == old(large)
      ensures old(capacity) < n ==> Elements() == [] && fresh(large)
    {
      if capacity < n {
        Reset();
        Reserve(n);
      }
    }

    // ----- Element access -----

    /** empty(). */
    predicate Empty()
      reads this, small, large
      requires Valid()
      ensures Empty() <==> Elements() == []
    {
      size == 0
    }

    /** at(i), and operator[] with the bound it evidently intends: the i-th element. */
    function At(i: nat): (r: T)
      reads this, small, large
      requires Valid() && i < size
      ensures r == Elements()[i]
    {
      Buf()[i]
    }

    /** front(): the first element of a non-empty dynarr. */
    function Front(): (r: T)
      reads this, small, large
      requires Valid() && size > 0
      ensures r == Elements()[0]
    {
      Buf()[0]
    }

    /** back(): the last element of a non-empty dynarr. */
    function Back(): (r: T)
      reads this, small, large
      requires Valid() && size > 0
      ensures r == Elements()[|Elements()| - 1]
    {
      Buf()[size - 1]
    }

    /**
     * data(): the buffer the elements start at; the inline buffer in inline
     * mode, and no buffer at all only when the capacity is zero.
     */
    function Data(): (r: array?<T>)
      reads this, small, large
      requires Valid()
      ensures r == null <==> capacity == 0
      ensures r != null ==> r.Length == capacity && r[..size] == Elements()
      ensures r != null && capacity == K ==> r == small
    {
      if capacity > K then large else if K == 0 then null else small
    }

    /** operator[]'s guard as written: it lets i == capacity through, one past the buffer. */
    predicate SubscriptAdmitsAsWritten(i: nat)
      reads this
    {
      i <= capacity
    }

    // ----- Modifiers -----

    /**
     * emplace_back(v) and push_back(v): appends v, first growing a full
     * dynarr to the next capacity.
     */
    method EmplaceBack(v: T)
      requires Valid() && size < maxSize
      modifies this, small, large
      ensures Valid() && Elements() == old(Elements()) + [v] && alloc == old(alloc)
      ensures capacity == if old(size) == old(capacity)
        then Growth.ChooseNextCapacity(old(capacity), maxSize, layout.sizeMax) else old(capacity)
      ensures old(size) < old(capacity) ==> large == old(large)
      ensures old(size) == old(capacity) ==> fresh(large)
    {
      if capacity == size {
        Reallocate(Growth.ChooseNextCapacity(capacity, maxSize, layout.sizeMax));
      }
      var b := Buf();
      b[size] := v;
      size := size + 1;
      assert Elements() == b[..size - 1] + [v];
    }

    /** pop_back(): removes the last element. */
    method PopBack()
      requires Valid() && size > 0
      modifies this
      ensures Valid() && Elements() == old(Elements())[..old(size) - 1]
      ensures capacity == old(capacity) && large == old(large) && alloc == old(alloc)
    {
      size := size - 1;
    }

    /** _truncate(begin() + n): keeps the first n elements. */
    method Truncate(n: nat)
      requires Valid() && n <= size
      modifies this
      ensures Valid() && Elements() == old(Elements())[..n]
      ensures capacity == old(capacity) && large == old(large) && alloc == old(alloc)
    {
      size := n;
    }

    /** clear(): no elements; the capacity and buffer are kept. */
    method Clear()
      requires Valid()
      modifies this
      ensures Valid() && Elements() == []
      ensures capacity == old(capacity) && large == old(large) && alloc == old(alloc)
    {
      Truncate(0);
    }

    /** _push_back_move(first, last): appends the range when the room is already there. */
    method PushBackMove(src: seq<T>)
      requires Valid() && size + |src| <= capacity
      modifies this, small, large
      ensures Valid() && Elements() == old(Elements()) + src
      ensures capacity == old(capacity) && large == old(large) && alloc == old(alloc)
    {
      for i := 0 to |src|
        invariant Valid() && Elements() == old(Elements()) + src[..i] && size == old(size) + i
        invariant capacity == old(capacity) && large == old(large) && alloc == old(alloc)
      {
        EmplaceBack(src[i]);
        assert src[..i + 1] == src[..i] + [src[i]];
      }
      assert src[..|src|] == src;
    }

    /** _fill_to(n, v): appends copies of v until there are n elements. */
    method FillTo(n: nat, v: T)
      requires Valid() && n <= capacity
      modifies this, small, large
      ensures Valid() && capacity == old(capacity) && large == old(large) && alloc == old(alloc)
      ensures Elements() == if old(size) <= n then old(Elements()) + Repeat(v, n - old(size)) else old(Elements())
    {
      while size < n
        invariant Valid() && capacity == old(capacity) && large == old(large) && alloc == old(alloc)
        invariant old(size) <= n ==> old(size) <= size <= n && Elements() == old(Elements()) + Repeat(v, size - old(size))
        invariant old(size) > n ==> Elements() == old(Elements())
        decreases n - size
      {
        EmplaceBack(v);
      }
    }

    /** _reserve_or_shrink(n): room for n elements, dropping any beyond the n-th. */
    method ReserveOrShrink(n: nat)
      requires Valid() && n <= maxSize
      modifies this
      ensures Valid() && alloc == old(alloc) && capacity == Reserved(old(capacity), n)
      ensures Elements() == if n < old(size) then old(Elements())[..n] else old(Elements())
      ensures large == old(large) || fresh(large)
    {
      Reserve(n);
      while size > n
        invariant Valid() && alloc == old(alloc) && capacity == Reserved(old(capacity), n)
        invariant n <= size <= old(size) ==> Elements() == old(Elements())[..size]
        invariant size <= old(size) && (size < old(size) ==> n <= size)
        invariant size == old(size) ==> Elements() == old(Elements())
        invariant large == old(large) || fresh(large)
      {
        PopBack();
      }
    }

    /** resize(n): keeps the first n elements, or appends value-initialised ones up to n. */
    method Resize(n: nat)
      requires Valid() && n <= maxSize
      modifies this, small, large
      ensures Valid() && alloc == old(alloc) && capacity == Reserved(old(capacity), n)
      ensures Elements() == if n <= old(size) then old(Elements())[..n]
        else old(Elements()) + Repeat(zero, n - old(size))
      ensures large == old(large) || fresh(large)
    {
      ReserveOrShrink(n);
      ghost var e := Elements();
      while size < n
        invariant Valid() && alloc == old(alloc) && capacity == Reserved(old(capacity), n)
        invariant |e| <= size <= n && Elements() == e + Repeat(zero, size - |e|)
        invariant large == old(large) || fresh(large)
      {
        EmplaceBack(zero);
      }
    }

    /** resize(n, v): keeps the first n elements, or appends copies of v up to n. */
    method ResizeFill(n: nat, v: T)
      requires Valid() && n <= maxSize
      modifies this, small, large
      ensures Valid() && alloc == old(alloc) && capacity == Reserved(old(capacity), n)
      ensures Elements() == if n <= old(size) then old(Elements())[..n]
        else old(Elements()) + Repeat(v, n - old(size))
      ensures large == old(large) || fresh(large)
    {
      ReserveOrShrink(n);
      FillTo(n, v);
    }

    /**
     * assign(first, last) for a forward range, and assign(initializer_list):
     * the contents become the range. Existing elements are overwritten in
     * place, then the rest is appended or the surplus truncated.
     */
    method Assign(src: seq<T>)
      requires Valid() && |src| <= maxSize
      modifies this, small, large
      ensures Valid() && Elements() == src && alloc == old(alloc)
      ensures capacity == ReservedForAssign(old(capacity), |src|)
      ensures large == old(large) || fresh(large)
    {
      ReserveForAssign(|src|);
      var b := Buf();
      var m := Growth.Min(size, |src|);
      Buffers.CopyIn(b, 0, src[..m]);
      if size < |src| {
        assert Elements() == src[..m];
        PushBackMove(src[m..]);
        assert src[..m] + src[m..] == src;
      } else {
        Truncate(m);
        assert Elements() == src;
      }
    }

    /**
     * assign(first, last) for an input-only range: nothing is reserved in
     * advance. Existing elements are overwritten in place, then the rest is
     * appended one push_back at a time, growing whenever the dynarr is full,
     * or the surplus truncated; a range that fits the current capacity
     * keeps the buffer.
     */
    method AssignEach(src: seq<T>)
      requires Valid() && |src| <= maxSize
      modifies this, small, large
      ensures Valid() && Elements() == src && alloc == old(alloc)
      ensures capacity == Growth.GrownTo(old(capacity), |src|, maxSize, layout.sizeMax)
      ensures |src| <= old(capacity) ==> capacity == old(capacity) && large == old(large)
      ensures large == old(large) || fresh(large)
    {
      var b := Buf();
      var m := Growth.Min(size, |src|);
      Buffers.CopyIn(b, 0, src[..m]);
      if size < |src| {
        assert Elements() == src[..m];
        for i := m to |src|
          invariant Valid() && size == i && Elements() == src[..i] && alloc == old(alloc)
          invariant Growth.GrownTo(capacity, |src|, maxSize, layout.sizeMax)
            == Growth.GrownTo(old(capacity), |src|, maxSize, layout.sizeMax)
          invariant large == old(large) || fresh(large)
          invariant |src| <= old(capacity) ==> capacity == old(capacity) && large == old(large)
        {
          EmplaceBack(src[i]);
          assert src[..i] + [src[i]] == src[..i + 1];
        }
        assert src[..|src|] == src;
      } else {
        Truncate(m);
        assert Elements() == src;
      }
    }

    /** assign(n, v): the contents become n copies of v. */
    method AssignFill(n: nat, v: T)
      requires Valid() && n <= maxSize
      modifies this, small, large
      ensures Valid() && Elements() == Repeat(v, n) && alloc == old(alloc)
      ensures capacity == ReservedForAssign(old(capacity), n)
      ensures large == old(large) || fresh(large)
    {
      ReserveForAssign(n);
      var fillLen := Growth.Min(size, n);
      var b := Buf();
      for i := 0 to fillLen
        invariant Valid() && b == Buf()
        invariant forall j :: 0 <= j < i ==> b[j] == v
        modifies b
      {
        b[i] := v;
      }
      if size < n {
        FillTo(n, v);
      } else {
        Truncate(fillLen);
      }
    }

    /**
     * _take_buffer(other): this takes other's contents and capacity; a heap
     * buffer changes owner, inline elements are moved across; other is left
     * empty and inline. What this held before is discarded.
     */
    method TakeBuffer(other: Dynarr<T>)
      requires Valid() && other.Valid() && Compatible(other) && Disjoint(other)
      modifies this, small, other
      ensures Valid() && other.Valid() && Disjoint(other)
      ensures Elements() == old(other.Elements()) && capacity == old(other.capacity)
      ensures old(other.capacity) > K ==> large == old(other.large)
      ensures other.Elements() == [] && other.capacity == K && other.large == null
      ensures alloc == old(alloc) && other.alloc == old(other.alloc)
    {
      if other.capacity > K {
        large := other.large;
        other.large := null;
      } else {
        Buffers.MoveRange(small, 0, other.small, 0, other.size);
        large := null;
      }
      capacity, size := other.capacity, other.size;
      other.capacity, other.size := K, 0;
    }

    // ----- Insertion -----

    /**
     * insert(pos, v) and emplace(pos, v): v is placed before position p. A
     * full dynarr builds the result directly in a buffer of the next
     * capacity; otherwise the tail is shifted back by one in place.
     */
    method Insert(p: nat, v: T) returns (r: nat)
      requires Valid() && p <= size && size < maxSize
      modifies this, small, large
      ensures Valid() && r == p && Elements() == Splice(old(Elements()), p, [v]) && alloc == old(alloc)
      ensures capacity == if old(size) == old(capacity)
        then Growth.ChooseNextCapacity(old(capacity), maxSize, layout.sizeMax) else old(capacity)
      ensures old(size) < old(capacity) ==> large == old(large)
      ensures old(size) == old(capacity) ==> fresh(large)
    {
      if capacity == size {
        var newCap := Growth.ChooseNextCapacity(capacity, maxSize, layout.sizeMax);
        var np := Allocators.Allocate(layout, newCap, zero);
        r := EmplaceMigrate(np, newCap, p, v);
        return;
      }
      var b := Buf();
      ghost var e := Elements();
      SpliceAt(e, p, [v]);
      if p == size {
        b[size] := v;
        size := size + 1;
        r := p;
        assert Elements() == Splice(e, p, [v]);
        return;
      }
      var n := size;
      Buffers.OpenSlot(b, p, n);
      size := n + 1;
      b[p] := v;
      r := p;
      assert b[..n + 1] == e[..p] + [v] + e[p..];
    }

    /**
     * _emplace_migrate: with np a new buffer of newCap elements, moves the
     * elements before p, places v, moves the rest after it, and adopts np.
     */
    method EmplaceMigrate(np: array<T>, newCap: nat, p: nat, v: T) returns (r: nat)
      requires Valid() && np.Length == newCap && size < newCap <= maxSize && K < newCap && p <= size
      requires np != small && np != large
      modifies this, np
      ensures Valid() && r == p && Elements() == Splice(old(Elements()), p, [v])
      ensures capacity == newCap && large == np && alloc == old(alloc)
    {
      var src := Buf();
      ghost var e := Elements();
      var n := size;
      Buffers.MigrateAround(np, src, n, p, [v]);
      ghost var result := np[..n + 1];
      assert result == Splice(e, p, [v]);
      large := np;
      capacity := newCap;
      size := n + 1;
      r := p;
      assert Elements() == result;
    }

    /**
     * insert(pos, first, last) for a forward range, and
     * insert(pos, initializer_list): the range is placed before position p.
     * It grows by the growth rule when the new size exceeds the capacity,
     * appends in place at the end, and otherwise opens a gap mid-buffer.
     * `bidirectional` is the range's iterator category, which picks the order
     * the gap is filled in.
     */
    method InsertRange(p: nat, src: seq<T>, bidirectional: bool) returns (r: nat)
      requires Valid() && p <= size && |src| <= maxSize - size
      modifies this, small, large
      ensures Valid() && r == p && Elements() == Splice(old(Elements()), p, src) && alloc == old(alloc)
      ensures capacity == Reserved(old(capacity), old(size) + |src|)
      ensures large == old(large) || fresh(large)
    {
      var newSize := size + |src|;
      if capacity < newSize {
        var newCap := Growth.ChooseNewCapacity(capacity, newSize, maxSize, layout.sizeMax);
        var np := Allocators.Allocate(layout, newCap, zero);
        r := InsertMigrate(np, newCap, newSize, p, src);
        return;
      }
      if p == size {
        var b := Buf();
        ghost var e := Elements();
        for i := 0 to |src|
          invariant size == |e| + i && b[..size] == e + src[..i]
          modifies this, b
          invariant Valid() && b == Buf() && capacity == old(capacity)
          invariant large == old(large) && alloc == old(alloc)
        {
          b[size] := src[i];
          size := size + 1;
          assert src[..i + 1] == src[..i] + [src[i]];
        }
        r := p;
        assert src[..|src|] == src;
        return;
      }
      r := InsertMidBuffer(newSize, p, src, bidirectional);
    }

    /**
     * _insert_migrate: with np a new buffer, moves the elements before p,
     * copies the range, moves the rest after it, and adopts np.
     */
    method InsertMigrate(np: array<T>, newCap: nat, newSize: nat, p: nat, src: seq<T>) returns (r: nat)
      requires Valid() && np.Length == newCap && newSize <= newCap <= maxSize && K < newCap
      requires newSize == size + |src| && newSize > size && p <= size
      requires np != small && np != large
      modifies this, np
      ensures Valid() && r == p && Elements() == Splice(old(Elements()), p, src)
      ensures capacity == newCap && large == np && alloc == old(alloc)
    {
      var from := Buf();
      ghost var e := Elements();
      Buffers.MigrateAround(np, from, size, p, src);
      ghost var result := np[..newSize];
      assert result == Splice(e, p, src);
      large := np;
      capacity := newCap;
      size := newSize;
      r := p;
      assert Elements() == result;
    }

    /**
     * _insert_mid_buffer: opens a gap of |src| elements at p by shifting the
     * tail back, last element first (the source constructs the slots past
     * the old end and assigns over live ones; both are one move here), then
     * fills the gap from the range: back to front for a bidirectional range,
     * front to back otherwise. The source assumes the new size exceeds the
     * old; here an empty range is allowed and leaves the contents unchanged.
     */
    method InsertMidBuffer(newSize: nat, p: nat, src: seq<T>, bidirectional: bool) returns (r: nat)
      requires Valid() && newSize == size + |src| && newSize <= capacity && p <= size
      modifies this, small, large
      ensures Valid() && r == p && Elements() == Splice(old(Elements()), p, src)
      ensures capacity == old(capacity) && large == old(large) && alloc == old(alloc)
    {
      var b := Buf();
      ghost var e := Elements();
      Buffers.InsertInPlace(b, size, p, src, bidirectional);
      ghost var result := b[..newSize];
      assert result == Splice(e, p, src);
      size := newSize;
      r := p;
      assert Elements() == result;
    }

    /**
     * insert(pos, n, v): n copies of v placed before position p, fed to the
     * range insertion through a pair of fill iterators over v.
     */
    method InsertFill(p: nat, n: nat, v: T) returns (r: nat)
      requires Valid() && p <= size && n <= maxSize - size
      modifies this, small, large
      ensures Valid() && r == p && Elements() == Splice(old(Elements()), p, Repeat(v, n))
      ensures capacity == Reserved(old(capacity), old(size) + n) && alloc == old(alloc)
      ensures large == old(large) || fresh(large)
    {
      var cell := new FillIterators.Cell(v);
      var first := FillIterators.FillIterator(cell, 0);
      var last := FillIterators.FillIterator(cell, n);
      FillIterators.FillRangeIsRepeat(cell, n);
      r := InsertRange(p, FillIterators.Values(first, last), true);
    }

    /**
     * insert(pos, first, last) for an input-only range: the length is not
     * known in advance, so the elements are inserted one at a time, each
     * after the ones before it, growing whenever the dynarr is full. The
     * result is the same as inserting the whole range at once. Positions are
     * kept as indices; see InsertAsWritten for the code as written.
     */
    method InsertEach(p: nat, src: seq<T>) returns (r: nat)
      requires Valid() && p <= size && |src| <= maxSize - size
      modifies this, small, large
      ensures Valid() && r == p && Elements() == Splice(old(Elements()), p, src) && alloc == old(alloc)
      ensures capacity == Growth.GrownTo(old(capacity), old(size) + |src|, maxSize, layout.sizeMax)
      ensures large == null || large == old(large) || fresh(large)
    {
      ghost var e := Elements();
      ghost var target := Growth.GrownTo(capacity, |e| + |src|, maxSize, layout.sizeMax);
      for i := 0 to |src|
        invariant InsertedSoFar(e, p, src, i, target) && alloc == old(alloc)
        invariant large == old(large) || fresh(large)
      {
        InsertNext(e, p, src, i, target);
      }
      assert src[..|src|] == src;
      r := p;
    }

    /**
     * The state after InsertEach has inserted the first i elements of src
     * into e at p, on the way to capacity `target`.
     */
    ghost predicate InsertedSoFar(e: seq<T>, p: nat, src: seq<T>, i: nat, target: nat)
      reads this, small, large
    {
      Valid() && p <= |e| && i <= |src| && size == |e| + i && |e| + |src| <= maxSize
      && Elements() == Splice(e, p, src[..i])
      && Growth.GrownTo(capacity, |e| + |src|, maxSize, layout.sizeMax) == target
    }

    /** One step of InsertEach: src[i] goes in after the i elements already inserted. */
    method InsertNext(ghost e: seq<T>, p: nat, src: seq<T>, i: nat, ghost target: nat)
      requires InsertedSoFar(e, p, src, i, target) && i < |src|
      modifies this, small, large
      ensures InsertedSoFar(e, p, src, i + 1, target) && alloc == old(alloc)
      ensures large == old(large) || fresh(large)
    {
      SpliceNext(e, p, src, i);
      ghost var c := capacity;
      var _ := Insert(p + i, src[i]);
      Growth.GrownToStep(c, capacity, |e| + i, |e| + |src|, maxSize, layout.sizeMax);
    }

    // ----- Erasure -----

    /** erase(first, last): removes positions first .. last - 1, shifting the tail forward. */
    method Erase(first: nat, last: nat) returns (r: nat)
      requires Valid() && first <= last <= size
      modifies this, small, large
      ensures Valid() && r == first && Elements() == Erased(old(Elements()), first, last)
      ensures capacity == old(capacity) && large == old(large) && alloc == old(alloc)
    {
      var b := Buf();
      ghost var e := Elements();
      var dstEnd := Buffers.MoveDown(b, last, size, first);
      Truncate(dstEnd);
      r := first;
      assert Elements() == b[..first] + b[first..dstEnd];
    }

    /** erase(pos): removes the element at p. */
    method EraseAt(p: nat) returns (r: nat)
      requires Valid() && p < size
      modifies this, small, large
      ensures Valid() && r == p && Elements() == old(Elements())[..p] + old(Elements())[p + 1..]
      ensures capacity == old(capacity) && large == old(large) && alloc == old(alloc)
    {
      r := Erase(p, p + 1);
    }

    // ----- Assignment and swap -----

    /**
     * operator=(const dynarr&): copies other's elements. An allocator type
     * that propagates on copy assignment first adopts other's allocator,
     * dropping the current buffer when the two allocators differ.
     */
    method CopyAssign(other: Dynarr<T>)
      requires Valid() && other.Valid() && Compatible(other)
      requires other == this || Disjoint(other)
      modifies this, small, large
      ensures Valid() && Elements() == old(other.Elements())
      ensures alloc == if traits.propagateOnCopy then old(other.alloc) else old(alloc)
      ensures capacity == if traits.propagateOnCopy && !Allocators.Equal(traits, old(alloc), old(other.alloc))
        then ReservedForAssign(K, old(other.size)) else ReservedForAssign(old(capacity), old(other.size))
      ensures other != this ==> Disjoint(other) && other.Elements() == old(other.Elements())
    {
      if traits.propagateOnCopy {
        if !Allocators.Equal(traits, alloc, other.alloc) {
          Reset();
        }
        alloc := other.alloc;
      }
      Assign(other.Buf()[..other.size]);
    }

    /**
     * operator=(dynarr&&): self-assignment does nothing. When the allocator
     * propagates on move assignment, or the two allocators compare equal,
     * other's buffer is taken over and other is left empty. Otherwise the
     * elements are moved one by one into this dynarr's own storage, over the
     * existing elements first and then appended, exactly as assign does, and
     * other keeps its buffer and size.
     */
    method MoveAssign(other: Dynarr<T>)
      requires Valid() && other.Valid() && Compatible(other)
      requires other == this || Disjoint(other)
      modifies this, small, large, other
      ensures Valid() && other.Valid() && Elements() == old(other.Elements())
      ensures other == this ==> capacity == old(capacity) && large == old(large) && alloc == old(alloc)
      ensures other != this ==> Disjoint(other) && other.alloc == old(other.alloc)
      ensures other != this && (traits.propagateOnMove || Allocators.Equal(traits, old(alloc), old(other.alloc))) ==>
        capacity == old(other.capacity) && (old(other.capacity) > K ==> large == old(other.large))
        && other.Elements() == [] && other.capacity == K
        && alloc == (if traits.propagateOnMove then old(other.alloc) else old(alloc))
      ensures other != this && !traits.propagateOnMove && !Allocators.Equal(traits, old(alloc), old(other.alloc)) ==>
        capacity == ReservedForAssign(old(capacity), old(other.size)) && alloc == old(alloc)
        && other.Elements() == old(other.Elements()) && other.capacity == old(other.capacity)
    {
      if other == this {
      } else if traits.propagateOnMove {
        alloc := other.alloc;
        TakeBuffer(other);
      } else if Allocators.Equal(traits, alloc, other.alloc) {
        TakeBuffer(other);
      } else {
        Assign(other.Buf()[..other.size]);
      }
    }

    /**
     * swap(other): exchanges contents and capacities. Heap buffers change
     * owner; inline elements are moved or swapped across. The allocators are
     * swapped when the allocator type propagates on swap, and must otherwise
     * compare equal.
     */
    method Swap(other: Dynarr<T>)
      requires Valid() && other.Valid() && Compatible(other) && Disjoint(other)
      requires traits.propagateOnSwap || Allocators.Equal(traits, alloc, other.alloc)
      modifies this, small, other, other.small
      ensures Valid() && other.Valid() && Disjoint(other)
      ensures Elements() == old(other.Elements()) && other.Elements() == old(Elements())
      ensures capacity == old(other.capacity) && other.capacity == old(capacity)
      ensures old(capacity) > K ==> other.large == old(large)
      ensures old(other.capacity) > K ==> large == old(other.large)
      ensures traits.propagateOnSwap ==> alloc == old(other.alloc) && other.alloc == old(alloc)
      ensures !traits.propagateOnSwap ==> alloc == old(alloc) && other.alloc == old(other.alloc)
    {
      SwapStorage(other);
      if traits.propagateOnSwap {
        alloc, other.alloc := other.alloc, alloc;
      }
    }

    /**
     * dynarr_storage::swap followed by the exchange of capacities and sizes:
     * both heap buffers change owner; a heap buffer changes owner while the
     * other container's inline elements are moved across; or the two inline
     * buffers are swapped element by element.
     */
    method SwapStorage(other: Dynarr<T>)
      requires Valid() && other.Valid() && Compatible(other) && Disjoint(other)
      modifies this, small, other, other.small
      ensures Valid() && other.Valid() && Disjoint(other)
      ensures Elements() == old(other.Elements()) && other.Elements() == old(Elements())
      ensures capacity == old(other.capacity) && other.capacity == old(capacity)
      ensures old(capacity) > K ==> other.large == old(large)
      ensures old(other.capacity) > K ==> large == old(other.large)
      ensures alloc == old(alloc) && other.alloc == old(other.alloc)
    {
      var cap, oCap, sz, oSz := capacity, other.capacity, size, other.size;
      if cap > K && oCap > K {
        ghost var e, oe := Elements(), other.Elements();
        large, other.large := other.large, large;
        capacity, other.capacity := oCap, cap;
        size, other.size := oSz, sz;
        assert Elements() == oe && other.Elements() == e;
      } else if cap > K {
        GiveHeapTakeInline(other);
      } else if oCap > K {
        other.GiveHeapTakeInline(this);
      } else {
        SwapInline(other);
      }
    }

    /**
     * The storage swap when only this container is on the heap: the other
     * container's inline elements move into this one's inline buffer, and
     * the heap buffer changes owner.
     */
    method GiveHeapTakeInline(other: Dynarr<T>)
      requires Valid() && other.Valid() && Compatible(other) && Disjoint(other)
      requires capacity > K && other.capacity == K
      modifies this, small, other
      ensures Valid() && other.Valid() && Disjoint(other)
      ensures Elements() == old(other.Elements()) && other.Elements() == old(Elements())
      ensures capacity == old(other.capacity) && other.capacity == old(capacity)
      ensures other.large == old(large) && large == null
      ensures alloc == old(alloc) && other.alloc == old(other.alloc)
    {
      ghost var e, oe := Elements(), other.Elements();
      var cap, sz, oSz := capacity, size, other.size;
      Buffers.MoveRange(small, 0, other.small, 0, oSz);
      other.large := large;
      large := null;
      capacity, other.capacity := K, cap;
      size, other.size := oSz, sz;
      assert Elements() == oe && other.Elements() == e;
    }

    /** The storage swap when both containers are inline: the live prefixes are exchanged. */
    method SwapInline(other: Dynarr<T>)
      requires Valid() && other.Valid() && Compatible(other) && Disjoint(other)
      requires capacity == K && other.capacity == K
      modifies this, small, other, other.small
      ensures Valid() && other.Valid() && Disjoint(other)
      ensures Elements() == old(other.Elements()) && other.Elements() == old(Elements())
      ensures capacity == K && other.capacity == K && large == null && other.large == null
      ensures alloc == old(alloc) && other.alloc == old(other.alloc)
    {
      ghost var e, oe := Elements(), other.Elements();
      var sz, oSz := size, other.size;
      Buffers.SwapPrefixes(small, sz, other.small, oSz);
      size, other.size := oSz, sz;
      assert Elements() == oe && other.Elements() == e;
    }

    // ----- Comparison -----

    /**
     * operator<=>: walks both dynarrs in step; the first element comparison
     * that is not equal decides, and otherwise the shorter one is less.
     */
    method Compare(other: Dynarr<T>, cmp: (T, T) -> Ordering) returns (r: Ordering)
      requires Valid() && other.Valid()
      ensures r == Lex(Elements(), other.Elements(), cmp)
    {
      var b, ob := Buf(), other.Buf();
      ghost var e, oe := Elements(), other.Elements();
      var i := 0;
      while i < size && i < other.size
        invariant i <= size && i <= other.size
        invariant Lex(e, oe, cmp) == Lex(e[i..], oe[i..], cmp)
      {
        var c := cmp(b[i], ob[i]);
        if c != Equal {
          assert e[i..][0] == b[i] && oe[i..][0] == ob[i];
          return c;
        }
        LexSkipsEqual(e, oe, i, cmp);
        i := i + 1;
      }
      if i < size {
        r := Greater;
      } else if i < other.size {
        r := Less;
      } else {
        r := Equal;
      }
    }
  }

  /**
   * operator==: std::equal over the two ranges, comparing elements with T's
   * operator== `eq`: the same size and pairwise equal elements.
   */
  function Equals<T>(a: Dynarr<T>, b: Dynarr<T>, eq: (T, T) -> bool): (r: bool)
    reads a, a.small, a.large, b, b.small, b.large
    requires a.Valid() && b.Valid()
    ensures r <==> a.size == b.size && forall i :: 0 <= i < a.size ==> eq(a.Elements()[i], b.Elements()[i])
  {
    var x, y := a.Buf()[..a.size], b.Buf()[..b.size];
    assert x == a.Elements() && y == b.Elements() && |x| == a.size && |y| == b.size;
    EqualBy(x, y, eq)
  }

  /**
   * When T's `==` and `<=>` agree on elements, the dynarr's `<=>` reports
   * equal exactly when its `==` holds; when `==` is identity, `==` holds
   * exactly for the same contents.
   */
  lemma EqualsAgreesWithCompare<T(!new)>(a: Dynarr<T>, b: Dynarr<T>, eq: (T, T) -> bool, cmp: (T, T) -> Ordering)
    requires a.Valid() && b.Valid() && Consistent(eq, cmp)
    ensures Equals(a, b, eq) <==> Lex(a.Elements(), b.Elements(), cmp) == Equal
    ensures (forall x, y :: eq(x, y) <==> x == y) ==> (Equals(a, b, eq) <==> a.Elements() == b.Elements())
  {
    LexEqualIffEqualBy(a.Elements(), b.Elements(), eq, cmp);
    if forall x, y :: eq(x, y) <==> x == y {
      EqualByExact(a.Elements(), b.Elements(), eq);
    }
  }

  // ----- Free erasure -----

  /**
   * erase_if(a, pred): std::remove_if compacts the elements that do not
   * match towards the front, keeping their order; the tail is then erased.
   * Returns the number of elements removed.
   */
  method EraseIf<T>(a: Dynarr<T>, pred: T -> bool) returns (count: nat)
    requires a.Valid()
    modifies a, a.small, a.large
    ensures a.Valid() && a.Elements() == RemoveIf(old(a.Elements()), pred)
    ensures count == CountIf(old(a.Elements()), pred) && count == |old(a.Elements())| - |a.Elements()|
    ensures a.capacity == old(a.capacity) && a.large == old(a.large) && a.alloc == old(a.alloc)
  {
    var b := a.Buf();
    var n := a.size;
    ghost var e := a.Elements();
    var j := Buffers.RemoveIfInPlace(b, n, pred);
    RemoveIfProperties(e, pred);
    count := n - j;
    var _ := a.Erase(j, n);
  }

  /** The predicate "equals value" under T's operator== with the value's type U. */
  function EqualTo<T, U>(value: U, eq: (T, U) -> bool): T -> bool
  {
    x => eq(x, value)
  }

  /**
   * erase(a, value): std::remove, which tests each element with `== value`,
   * followed by erasing the tail; afterwards no element equals value and
   * every other element is kept, in order.
   */
  method EraseValue<T, U>(a: Dynarr<T>, value: U, eq: (T, U) -> bool) returns (count: nat)
    requires a.Valid()
    modifies a, a.small, a.large
    ensures a.Valid() && a.Elements() == RemoveIf(old(a.Elements()), EqualTo(value, eq))
    ensures forall x :: x in a.Elements() <==> x in old(a.Elements()) && !eq(x, value)
    ensures count == CountIf(old(a.Elements()), EqualTo(value, eq))
    ensures a.capacity == old(a.capacity) && a.large == old(a.large) && a.alloc == old(a.alloc)
  {
    ghost var e := a.Elements();
    count := EraseIf(a, EqualTo(value, eq));
    RemoveIfProperties(e, EqualTo(value, eq));
  }

  // ----- Defects in the source -----

  /** Which way `_insert` goes for a forward range of k elements inserted before p. */
  datatype InsertRoute = Migrate | AtEnd | MidBuffer

  function RouteOf(capacity: nat, size: nat, p: nat, k: nat): (r: InsertRoute)
    ensures r == Migrate <==> capacity < size + k
    ensures r == AtEnd <==> capacity >= size + k && p == size
  {
    if capacity < size + k then Migrate else if p == size then AtEnd else MidBuffer
  }

  /** `_insert_mid_buffer`'s assumption as written: the new size exceeds the old. */
  predicate MidBufferAssumeAsWritten(size: nat, newSize: nat)
  {
    newSize > size
  }

  /**
   * The assumption fails exactly for an empty range: inserting nothing before
   * an element of a dynarr (insert(begin(), 0, v) on a non-empty one) reaches
   * `_insert_mid_buffer` with the new size equal to the old.
   */
  lemma MidBufferAssumeFailsOnEmptyRange(capacity: nat, size: nat, p: nat, k: nat)
    requires p <= size
    ensures RouteOf(capacity, size, p, k) == MidBuffer ==> (MidBufferAssumeAsWritten(size, size + k) <==> k > 0)
    ensures p < size <= capacity ==> RouteOf(capacity, size, p, 0) == MidBuffer
  {}

  /**
   * insert(pos, first, last) as written, by the category of the range. For
   * an input-only range `pos` is rebuilt as `position - beg + beg`, an
   * iterator, so the cursor `dst` is one too, and `begin() + dst` adds an
   * iterator to an iterator, which dynarr's iterator does not define. For a
   * forward range that is not bidirectional, the front-to-back fill of
   * `_insert_mid_buffer` passes both of its arguments to std::addressof.
   * Neither instantiation compiles, so those categories have no result;
   * bidirectional and random-access ranges insert the range at pos.
   */
  function InsertAsWritten<T>(e: seq<T>, p: nat, src: seq<T>, cat: Category): (r: Option<seq<T>>)
    requires p <= |e|
    ensures r.Some? ==> r.value == Splice(e, p, src)
  {
    match cat
    case InputOnly => None
    case ForwardOnly => None
    case Bidirectional => Some(Splice(e, p, src))
    case RandomAccess => Some(Splice(e, p, src))
  }

  /**
   * The range insert as written has a result exactly for bidirectional and
   * random-access ranges: for input-only and forward-only ones it never
   * yields the splice that InsertEach and Buffers.FillGap build.
   */
  lemma InsertAsWrittenNeedsBidirectional<T>(e: seq<T>, p: nat, src: seq<T>, cat: Category)
    requires p <= |e|
    ensures InsertAsWritten(e, p, src, cat) == Some(Splice(e, p, src)) <==> cat == Bidirectional || cat == RandomAccess
  {}

  /**
   * max_size() as written, for dynarr and vector alike: with one-byte
   * elements on a 64-bit platform the containers report SIZE_MAX while the
   * allocator hands out at most PTRDIFF_MAX elements. A request for
   * PTRDIFF_MAX + 1 elements of a dynarr<char> therefore passes the
   * containers' `n <= max_size()` assertions, the growth rule grants it
   * exactly, and allocate's own assertion then stops the program. The model
   * uses the allocator's limit for the containers.
   */
  lemma MaxSizeAsWrittenExceedsAllocator()
    ensures var l, n := Allocators.Platform64(1), 0x8000_0000_0000_0000;
      var asWritten := Allocators.TraitsMaxSizeAsWritten(l);
      asWritten == l.stdSizeMax && Allocators.MaxSize(l) == l.diffMax
      && SmallCapacity(l) < n <= asWritten
      && Growth.ChooseNewCapacity(SmallCapacity(l), n, asWritten, l.sizeMax) == n
      && n > Allocators.MaxSize(l)
  {}

  /**
   * `dynarr a = {1, 2, 3}` on a 64-bit platform: two ints fit inline, so
   * the range assign grows the capacity from 2 to 4, not 3, and a
   * moved-from or reset dynarr is back at capacity 2, not 0.
   */
  lemma BracedThreeIntsGrowToFour(d: Dynarr<int>)
    requires d.Valid() && d.layout == Allocators.Platform64(4)
    ensures d.K == 2 && d.ReservedForAssign(d.K, 3) == 4
  {
    SmallCapacityExamples();
  }

  /** operator[]'s guard admits index capacity, which lies past the end of the buffer. */
  lemma SubscriptGuardAdmitsPastBuffer<T>(d: Dynarr<T>)
    requires d.Valid()
    ensures d.SubscriptAdmitsAsWritten(d.capacity) && d.capacity == d.Buf().Length
    ensures d.size < d.capacity ==> d.SubscriptAdmitsAsWritten(d.size) && d.size >= |d.Elements()|
  {}
}
