/**
 * gdt::vector<T, Allocator>: a growable array whose elements always live in
 * an allocated buffer. The object is a class whose fields are the source's
 * members: the allocator, the buffer pointer (null while the capacity is
 * zero), the capacity and the size. Elements() is the sequence of live
 * elements.
 */
module Vectors {
  import opened Sequences
  import Allocators
  import Growth
  import Buffers

  class Vector<T> {
    /** The element type's and allocator type's compile-time facts. */
    const layout: Allocators.Layout
    const traits: Allocators.Traits
    /** max_size(), taken as the allocator's own limit. */
    const maxSize: nat
    /** The value-initialised element T(), which resize appends. */
    const zero: T
    var ptr: array?<T>
    var alloc: Allocators.Alloc
    var capacity: nat
    var size: nat

    /**
     * The class invariant: the size is within the capacity and the capacity
     * within max_size; a buffer is held exactly when the capacity is not
     * zero, and it is exactly `capacity` elements long.
     */
    ghost predicate Valid()
      reads this
    {
      Allocators.WellFormed(layout)
      && maxSize == Allocators.MaxSize(layout) && maxSize <= layout.sizeMax
      && size <= capacity <= maxSize
      && (capacity == 0 <==> ptr == null)
      && (ptr != null ==> ptr.Length == capacity)
    }

    /** The live elements, in order. */
    function Elements(): seq<T>
      reads this, ptr
      requires Valid()
    {
      if ptr == null then [] else ptr[..size]
    }

    /** Two vectors with the same element and allocator types. */
    predicate Compatible(other: Vector<T>)
    {
      layout == other.layout && traits == other.traits
    }

    /** Two distinct vectors share no buffer. */
    ghost predicate Disjoint(other: Vector<T>)
      reads this, other
    {
      this != other && (ptr == null || ptr != other.ptr)
    }

    /** The capacity `reserve(n)` leaves, starting from capacity cap. */
    function Reserved(cap: nat, n: nat): (r: nat)
      requires cap <= maxSize <= layout.sizeMax
      ensures r >= cap && r >= n && (n <= maxSize ==> r <= maxSize)
      ensures cap < n && 2 * cap <= n ==> r == n
    {
      if cap < n then Growth.ChooseNewCapacity(cap, n, maxSize, layout.sizeMax) else cap
    }

    // ----- Construction -----

    /** vector(allocator): empty, with no buffer. */
    constructor (l: Allocators.Layout, t: Allocators.Traits, a: Allocators.Alloc, z: T)
      requires Allocators.WellFormed(l)
      ensures Valid() && layout == l && traits == t && alloc == a && zero == z
      ensures Elements() == [] && capacity == 0 && ptr == null
    {
      Allocators.MaxSizeAtMostSizeMax(l);
      layout, traits, alloc, zero := l, t, a, z;
      maxSize := Allocators.MaxSize(l);
      ptr := null;
      capacity, size := 0, 0;
    }

    /** vector(len, allocator): len value-initialised elements. */
    constructor Sized(l: Allocators.Layout, t: Allocators.Traits, a: Allocators.Alloc, z: T, len: nat)
      requires Allocators.WellFormed(l) && len <= Allocators.MaxSize(l)
      ensures Valid() && layout == l && traits == t && alloc == a && zero == z
      ensures Elements() == Repeat(z, len) && capacity == len
      ensures ptr == null || fresh(ptr)
    {
      Allocators.MaxSizeAtMostSizeMax(l);
      layout, traits, alloc, zero := l, t, a, z;
      maxSize := Allocators.MaxSize(l);
      ptr := null;
      capacity, size := 0, 0;
      new;
      Resize(len);
    }

    /** vector(len, value, allocator): len copies of value. */
    constructor Filled(l: Allocators.Layout, t: Allocators.Traits, a: Allocators.Alloc, z: T, len: nat, v: T)
      requires Allocators.WellFormed(l) && len <= Allocators.MaxSize(l)
      ensures Valid() && layout == l && traits == t && alloc == a && zero == z
      ensures Elements() == Repeat(v, len) && capacity == len
      ensures ptr == null || fresh(ptr)
    {
      Allocators.MaxSizeAtMostSizeMax(l);
      layout, traits, alloc, zero := l, t, a, z;
      maxSize := Allocators.MaxSize(l);
      ptr := null;
      capacity, size := 0, 0;
      new;
      AssignFill(len, v);
    }

    /**
     * vector(first, last, allocator) for a forward range, and
     * vector(initializer_list, allocator): a copy of the range, in a buffer
     * of exactly its length. As written only a random-access range compiles
     * (see AssignAsWritten); this is the evidently intended result for the
     * other forward ranges too.
     */
    constructor FromRange(l: Allocators.Layout, t: Allocators.Traits, a: Allocators.Alloc, z: T, src: seq<T>)
      requires Allocators.WellFormed(l) && |src| <= Allocators.MaxSize(l)
      ensures Valid() && layout == l && traits == t && alloc == a && zero == z
      ensures Elements() == src && capacity == |src|
      ensures ptr == null || fresh(ptr)
    {
      Allocators.MaxSizeAtMostSizeMax(l);
      layout, traits, alloc, zero := l, t, a, z;
      maxSize := Allocators.MaxSize(l);
      ptr := null;
      capacity, size := 0, 0;
      new;
      Assign(src);
    }

    /**
     * vector(first, last, allocator) for an input-only range: assign on an
     * empty vector, so the elements are pushed back one at a time. As
     * written such a range does not compile (see AssignAsWritten); this is
     * the evidently intended result.
     */
    constructor FromEach(l: Allocators.Layout, t: Allocators.Traits, a: Allocators.Alloc, z: T, src: seq<T>)
      requires Allocators.WellFormed(l) && |src| <= Allocators.MaxSize(l)
      ensures Valid() && layout == l && traits == t && alloc == a && zero == z
      ensures Elements() == src && capacity == Growth.GrownTo(0, |src|, maxSize, layout.sizeMax)
      ensures src == [] ==> ptr == null
      ensures ptr == null || fresh(ptr)
    {
      Allocators.MaxSizeAtMostSizeMax(l);
      layout, traits, alloc, zero := l, t, a, z;
      maxSize := Allocators.MaxSize(l);
      ptr := null;
      capacity, size := 0, 0;
      new;
      AssignEach(src);
    }

    /** vector(const vector& other, allocator): an element-by-element copy with the given allocator. */
    constructor CopyWithAllocator(other: Vector<T>, a: Allocators.Alloc)
      requires other.Valid()
      ensures Valid() && Compatible(other) && zero == other.zero && alloc == a
      ensures Elements() == other.Elements() && capacity == other.size
      ensures (ptr == null || fresh(ptr)) && Disjoint(other)
    {
      Allocators.MaxSizeAtMostSizeMax(other.layout);
      layout, traits, alloc, zero := other.layout, other.traits, a, other.zero;
      maxSize := other.maxSize;
      ptr := null;
      capacity, size := 0, 0;
      new;
      Assign(other.Elements());
    }

    /**
     * vector(const vector& other): as above, with the allocator that
     * select_on_container_copy_construction derives from other's.
     */
    constructor Copy(other: Vector<T>)
      requires other.Valid()
      ensures Valid() && Compatible(other) && zero == other.zero
      ensures alloc == Allocators.SelectOnCopy(other.traits, other.alloc)
      ensures Elements() == other.Elements() && capacity == other.size
      ensures (ptr == null || fresh(ptr)) && Disjoint(other)
    {
      Allocators.MaxSizeAtMostSizeMax(other.layout);
      layout, traits, zero := other.layout, other.traits, other.zero;
      alloc := Allocators.SelectOnCopy(other.traits, other.alloc);
      maxSize := other.maxSize;
      ptr := null;
      capacity, size := 0, 0;
      new;
      Assign(other.Elements());
    }

    /**
     * vector(vector&& other): takes other's allocator, buffer, capacity and
     * size; other is left empty with no buffer.
     */
    constructor Move(other: Vector<T>)
      requires other.Valid()
      modifies other
      ensures Valid() && other.Valid() && Compatible(other) && zero == other.zero && alloc == other.alloc
      ensures Elements() == old(other.Elements()) && capacity == old(other.capacity) && ptr == old(other.ptr)
      ensures other.Elements() == [] && other.capacity == 0 && other.ptr == null
      ensures other.alloc == old(other.alloc)
    {
      layout, traits, alloc, zero := other.layout, other.traits, other.alloc, other.zero;
      maxSize := other.maxSize;
      ptr := null;
      capacity, size := 0, 0;
      new;
      TakeBuffer(other);
    }

    /**
     * vector(vector&& other, allocator): when the allocators compare equal
     * (always, for an always-equal allocator type) the buffer is taken as by
     * the move constructor; otherwise room is reserved and the elements are
     * moved one by one, and other keeps its buffer and size.
     */
    constructor MoveWithAllocator(other: Vector<T>, a: Allocators.Alloc)
      requires other.Valid()
      modifies other
      ensures Valid() && other.Valid() && Compatible(other) && zero == other.zero && alloc == a
      ensures Elements() == old(other.Elements()) && other.alloc == old(other.alloc)
      ensures Allocators.Equal(traits, a, old(other.alloc)) ==>
        capacity == old(other.capacity) && ptr == old(other.ptr)
        && other.Elements() == [] && other.capacity == 0
      ensures !Allocators.Equal(traits, a, old(other.alloc)) ==>
        capacity == old(other.size) && (ptr == null || fresh(ptr))
        && other.Elements() == old(other.Elements()) && other.capacity == old(other.capacity)
    {
      layout, traits, alloc, zero := other.layout, other.traits, a, other.zero;
      maxSize := other.maxSize;
      ptr := null;
      capacity, size := 0, 0;
      new;
      if Allocators.Equal(traits, alloc, other.alloc) {
        TakeBuffer(other);
      } else {
        Reserve(other.size);
        PushBackRange(other.Elements());
      }
    }

    // ----- Capacity -----

    /**
     * _reallocate(new_capacity): moves the elements to a buffer of exactly
     * new_capacity (none when it is zero); the contents are unchanged.
     */
    method Reallocate(newCap: nat)
      requires Valid() && size <= newCap <= maxSize
      modifies this
      ensures Valid() && Elements() == old(Elements())
      ensures capacity == newCap && size == old(size) && alloc == old(alloc)
      ensures newCap > 0 ==> fresh(ptr)
    {
      if newCap == 0 {
        ptr := null;
      } else {
        var np := Allocators.Allocate(layout, newCap, zero);
        if ptr != null {
          Buffers.MoveRange(np, 0, ptr, 0, size);
        }
        ptr := np;
      }
      capacity := newCap;
    }

    /**
     * reserve(n): grows the capacity to at least n by the growth rule, moving
     * the elements to a new buffer; does nothing when n already fits.
     */
    method Reserve(n: nat)
      requires Valid() && n <= maxSize
      modifies this
      ensures Valid() && Elements() == old(Elements()) && size == old(size) && alloc == old(alloc)
      ensures capacity == Reserved(old(capacity), n) && capacity >= n
      ensures old(capacity) < n ==> fresh(ptr)
      ensures old(capacity) >= n ==> ptr == old(ptr)
    {
      if capacity < n {
        Reallocate(Growth.ChooseNewCapacity(capacity, n, maxSize, layout.sizeMax));
      }
    }

    /** shrink_to_fit: a buffer with unused room is replaced by one of exactly the size. */
    method ShrinkToFit()
      requires Valid()
      modifies this
      ensures Valid() && Elements() == old(Elements()) && alloc == old(alloc)
      ensures capacity == old(size) && (capacity == 0 ==> ptr == null)
      ensures old(capacity) == old(size) ==> ptr == old(ptr)
    {
      if capacity > size {
        Reallocate(size);
      }
    }

    /** _reset: no elements and no buffer. */
    method Reset()
      requires Valid()
      modifies this
      ensures Valid() && Elements() == [] && capacity == 0 && ptr == null && alloc == old(alloc)
    {
      ptr := null;
      capacity, size := 0, 0;
    }

    /**
     * _reserve_without_migrate(n): makes room for n elements about to be
     * assigned. A buffer that is too small is dropped, contents and all,
     * and since growth then starts from capacity zero the new buffer holds
     * exactly n elements.
     */
    method ReserveWithoutMigrate(n: nat)
      requires Valid() && n <= maxSize
      modifies this
      ensures Valid() && alloc == old(alloc) && capacity >= n
      ensures capacity == if old(capacity) < n then n else old(capacity)
      ensures old(capacity) >= n ==> Elements() == old(Elements()) && ptr == old(ptr)
      ensures old(capacity) < n ==> Elements() == [] && fresh(ptr)
    {
      if capacity < n {
        Reset();
        Reserve(n);
      }
    }

    // ----- Element access -----

    /** empty(). */
    predicate Empty()
      reads this, ptr
      requires Valid()
      ensures Empty() <==> Elements() == []
    {
      size == 0
    }

    /** operator[](i) and at(i): the i-th element. */
    function At(i: nat): (r: T)
      reads this, ptr
      requires Valid() && i < size
      ensures r == Elements()[i]
    {
      ptr[i]
    }

    /** front(): the first element of a non-empty vector. */
    function Front(): (r: T)
      reads this, ptr
      requires Valid() && size > 0
      ensures r == Elements()[0]
    {
      ptr[0]
    }

    /** back(): the last element of a non-empty vector. */
    function Back(): (r: T)
      reads this, ptr
      requires Valid() && size > 0
      ensures r == Elements()[|Elements()| - 1]
    {
      ptr[size - 1]
    }

    /** data(): the buffer, which is absent exactly when the capacity is zero. */
    function Data(): (r: array?<T>)
      reads this, ptr
      requires Valid()
      ensures r == null <==> capacity == 0
      ensures r != null ==> r.Length == capacity && r[..size] == Elements()
    {
      ptr
    }

    // ----- Appending and truncating -----

    /**
     * emplace_back(v) and push_back(v): appends v, first moving a full
     * vector to a buffer of the next capacity.
     */
    method EmplaceBack(v: T)
      requires Valid() && size < maxSize
      modifies this, ptr
      ensures Valid() && Elements() == old(Elements()) + [v] && alloc == old(alloc)
      ensures capacity == if old(size) == old(capacity)
        then Growth.ChooseNextCapacity(old(capacity), maxSize, layout.sizeMax) else old(capacity)
      ensures old(size) < old(capacity) ==> ptr == old(ptr)
      ensures old(size) == old(capacity) ==> fresh(ptr)
    {
      if capacity == size {
        Reallocate(Growth.ChooseNextCapacity(capacity, maxSize, layout.sizeMax));
      }
      var b := ptr;
      b[size] := v;
      size := size + 1;
      assert Elements() == b[..size - 1] + [v];
    }

    /** pop_back(): removes the last element. */
    method PopBack()
      requires Valid() && size > 0
      modifies this
      ensures Valid() && Elements() == old(Elements())[..old(size) - 1]
      ensures capacity == old(capacity) && ptr == old(ptr) && alloc == old(alloc)
    {
      size := size - 1;
    }

    /** _erase_after(i): keeps the first i elements. */
    method EraseAfter(i: nat)
      requires Valid() && i <= size
      modifies this
      ensures Valid() && Elements() == old(Elements())[..i]
      ensures capacity == old(capacity) && ptr == old(ptr) && alloc == old(alloc)
    {
      size := i;
    }

    /** clear(): no elements; the capacity and buffer are kept. */
    method Clear()
      requires Valid()
      modifies this
      ensures Valid() && Elements() == []
      ensures capacity == old(capacity) && ptr == old(ptr) && alloc == old(alloc)
    {
      EraseAfter(0);
    }

    /**
     * _push_back(first, last) and _push_back_move(first, last): push_back of
     * each element of the range in turn, growing as needed. When the room is
     * already there, the buffer is kept.
     */
    method PushBackRange(src: seq<T>)
      requires Valid() && size + |src| <= maxSize
      modifies this, ptr
      ensures Valid() && Elements() == old(Elements()) + src && alloc == old(alloc)
      ensures capacity == Growth.GrownTo(old(capacity), old(size) + |src|, maxSize, layout.sizeMax)
      ensures ptr == old(ptr) || fresh(ptr)
      ensures old(size) + |src| <= old(capacity) ==> ptr == old(ptr)
    {
      for i := 0 to |src|
        invariant Valid() && Elements() == old(Elements()) + src[..i] && size == old(size) + i
        invariant Growth.GrownTo(capacity, old(size) + |src|, maxSize, layout.sizeMax)
          == Growth.GrownTo(old(capacity), old(size) + |src|, maxSize, layout.sizeMax)
        invariant alloc == old(alloc) && (ptr == old(ptr) || fresh(ptr))
        invariant old(size) + |src| <= old(capacity) ==> capacity == old(capacity) && ptr == old(ptr)
      {
        EmplaceBack(src[i]);
        assert src[..i + 1] == src[..i] + [src[i]];
      }
      assert src[..|src|] == src;
    }

    /** _fill_to(n, v): push_back of v until there are n elements. */
    method FillTo(n: nat, v: T)
      requires Valid() && n <= maxSize
      modifies this, ptr
      ensures Valid() && alloc == old(alloc)
      ensures Elements() == if old(size) <= n then old(Elements()) + Repeat(v, n - old(size)) else old(Elements())
      ensures capacity >= old(capacity) && (ptr == old(ptr) || fresh(ptr))
      ensures n <= old(capacity) ==> capacity == old(capacity) && ptr == old(ptr)
    {
      while size < n
        invariant Valid() && alloc == old(alloc)
        invariant old(size) <= n ==> old(size) <= size <= n && Elements() == old(Elements()) + Repeat(v, size - old(size))
        invariant old(size) > n ==> Elements() == old(Elements())
        invariant capacity >= old(capacity) && (ptr == old(ptr) || fresh(ptr))
        invariant n <= old(capacity) ==> capacity == old(capacity) && ptr == old(ptr)
        decreases n - size
      {
        EmplaceBack(v);
      }
    }

    /** _reserve_or_shrink(n): room for n elements, popping any beyond the n-th. */
    method ReserveOrShrink(n: nat)
      requires Valid() && n <= maxSize
      modifies this
      ensures Valid() && alloc == old(alloc) && capacity == Reserved(old(capacity), n)
      ensures Elements() == if n < old(size) then old(Elements())[..n] else old(Elements())
      ensures ptr == old(ptr) || fresh(ptr)
      ensures n <= old(capacity) ==> ptr == old(ptr)
    {
      Reserve(n);
      while size > n
        invariant Valid() && alloc == old(alloc) && capacity == Reserved(old(capacity), n)
        invariant n <= size <= old(size) ==> Elements() == old(Elements())[..size]
        invariant size <= old(size) && (size < old(size) ==> n <= size)
        invariant size == old(size) ==> Elements() == old(Elements())
        invariant ptr == old(ptr) || fresh(ptr)
        invariant n <= old(capacity) ==> ptr == old(ptr)
      {
        PopBack();
      }
    }

    /** resize(n): keeps the first n elements, or appends value-initialised ones up to n. */
    method Resize(n: nat)
      requires Valid() && n <= maxSize
      modifies this, ptr
      ensures Valid() && alloc == old(alloc) && capacity == Reserved(old(capacity), n)
      ensures Elements() == if n <= old(size) then old(Elements())[..n]
        else old(Elements()) + Repeat(zero, n - old(size))
      ensures ptr == old(ptr) || fresh(ptr)
      ensures n <= old(capacity) ==> ptr == old(ptr)
    {
      ReserveOrShrink(n);
      ghost var e := Elements();
      while size < n
        invariant Valid() && alloc == old(alloc) && capacity == Reserved(old(capacity), n)
        invariant |e| <= size <= n && Elements() == e + Repeat(zero, size - |e|)
        invariant ptr == old(ptr) || fresh(ptr)
        invariant n <= old(capacity) ==> ptr == old(ptr)
      {
        EmplaceBack(zero);
      }
    }

    /** resize(n, v): keeps the first n elements, or appends copies of v up to n. */
    method ResizeFill(n: nat, v: T)
      requires Valid() && n <= maxSize
      modifies this, ptr
      ensures Valid() && alloc == old(alloc) && capacity == Reserved(old(capacity), n)
      ensures Elements() == if n <= old(size) then old(Elements())[..n]
        else old(Elements()) + Repeat(v, n - old(size))
      ensures ptr == old(ptr) || fresh(ptr)
      ensures n <= old(capacity) ==> ptr == old(ptr)
    {
      ReserveOrShrink(n);
      FillTo(n, v);
    }

    // ----- Assignment -----

    /**
     * assign(first, last) for a forward range, and assign(initializer_list):
     * the contents become the range. Existing elements are overwritten in
     * place, then the rest is pushed back or the surplus erased. As written
     * only a random-access range compiles (see AssignAsWritten); this is the
     * evidently intended result for the other forward ranges too.
     */
    method Assign(src: seq<T>)
      requires Valid() && |src| <= maxSize
      modifies this, ptr
      ensures Valid() && Elements() == src && alloc == old(alloc)
      ensures capacity == if old(capacity) < |src| then |src| else old(capacity)
      ensures ptr == old(ptr) || fresh(ptr)
      ensures |src| <= old(capacity) ==> ptr == old(ptr)
    {
      ReserveWithoutMigrate(|src|);
      if ptr == null {
        return;
      }
      var m := Growth.Min(size, |src|);
      Buffers.CopyIn(ptr, 0, src[..m]);
      if size < |src| {
        assert Elements() == src[..m];
        PushBackRange(src[m..]);
        assert src[..m] + src[m..] == src;
      } else {
        EraseAfter(m);
        assert src[..m] == src;
      }
    }

    /**
     * assign(first, last) for an input-only range: nothing is reserved in
     * advance. Existing elements are overwritten in place, then the rest is
     * pushed back one at a time, or the surplus erased; a range that fits
     * the current capacity keeps the buffer. As written such a range does
     * not compile (see AssignAsWritten); this is the evidently intended
     * result.
     */
    method AssignEach(src: seq<T>)
      requires Valid() && |src| <= maxSize
      modifies this, ptr
      ensures Valid() && Elements() == src && alloc == old(alloc)
      ensures capacity == Growth.GrownTo(old(capacity), |src|, maxSize, layout.sizeMax)
      ensures |src| <= old(capacity) ==> ptr == old(ptr)
      ensures ptr == old(ptr) || fresh(ptr)
    {
      var m := Growth.Min(size, |src|);
      if ptr != null {
        Buffers.CopyIn(ptr, 0, src[..m]);
      }
      if size < |src| {
        assert Elements() == src[..m];
        PushBackRange(src[m..]);
        assert src[..m] + src[m..] == src;
      } else {
        EraseAfter(m);
        assert src[..m] == src;
      }
    }

    /** assign(n, v): the contents become n copies of v. */
    method AssignFill(n: nat, v: T)
      requires Valid() && n <= maxSize
      modifies this, ptr
      ensures Valid() && Elements() == Repeat(v, n) && alloc == old(alloc)
      ensures capacity == if old(capacity) < n then n else old(capacity)
      ensures ptr == old(ptr) || fresh(ptr)
      ensures n <= old(capacity) ==> ptr == old(ptr)
    {
      ReserveWithoutMigrate(n);
      var fillLen := Growth.Min(size, n);
      var b := ptr;
      if b != null {
        for i := 0 to fillLen
          invariant forall j :: 0 <= j < i ==> b[j] == v
          modifies b
        {
          b[i] := v;
        }
        assert Elements()[..fillLen] == Repeat(v, fillLen);
      }
      if size < n {
        FillTo(n, v);
      } else {
        EraseAfter(n);
      }
    }

    /**
     * _take_buffer(other): this takes other's buffer, capacity and size;
     * other is left empty with no buffer. What this held is discarded.
     */
    method TakeBuffer(other: Vector<T>)
      requires Valid() && other.Valid() && Compatible(other) && this != other
      modifies this, other
      ensures Valid() && other.Valid()
      ensures Elements() == old(other.Elements()) && capacity == old(other.capacity) && ptr == old(other.ptr)
      ensures other.Elements() == [] && other.capacity == 0 && other.ptr == null
      ensures alloc == old(alloc) && other.alloc == old(other.alloc)
    {
      ptr, capacity, size := other.ptr, other.capacity, other.size;
      other.ptr, other.capacity, other.size := null, 0, 0;
    }

    /**
     * operator=(const vector&): copies other's elements. An allocator type
     * that propagates on copy assignment first adopts other's allocator,
     * dropping the current buffer when the two allocators differ.
     */
    method CopyAssign(other: Vector<T>)
      requires Valid() && other.Valid() && Compatible(other)
      requires other == this || Disjoint(other)
      modifies this, ptr
      ensures Valid() && Elements() == old(other.Elements())
      ensures alloc == if traits.propagateOnCopy then old(other.alloc) else old(alloc)
      ensures var c := if traits.propagateOnCopy && !Allocators.Equal(traits, old(alloc), old(other.alloc))
          then 0 else old(capacity);
        capacity == if c < old(other.size) then old(other.size) else c
      ensures other != this ==> other.Elements() == old(other.Elements())
      ensures !traits.propagateOnCopy && old(other.size) <= old(capacity) ==> ptr == old(ptr)
    {
      if traits.propagateOnCopy {
        if !Allocators.Equal(traits, alloc, other.alloc) {
          Reset();
        }
        alloc := other.alloc;
      }
      Assign(other.Elements());
    }

    /**
     * operator=(vector&&): self-assignment does nothing. When the allocator
     * propagates on move assignment, or the two allocators compare equal,
     * other's buffer is taken over and other is left empty. Otherwise the
     * elements are moved one by one into this vector's own buffer, over the
     * existing elements first and then appended, exactly as assign does, and
     * other keeps its buffer and size.
     */
    method MoveAssign(other: Vector<T>)
      requires Valid() && other.Valid() && Compatible(other)
      requires other == this || Disjoint(other)
      modifies this, ptr, other
      ensures Valid() && other.Valid() && Elements() == old(other.Elements())
      ensures other == this ==> capacity == old(capacity) && ptr == old(ptr) && alloc == old(alloc)
      ensures other != this ==> other.alloc == old(other.alloc)
      ensures other != this && (traits.propagateOnMove || Allocators.Equal(traits, old(alloc), old(other.alloc))) ==>
        capacity == old(other.capacity) && ptr == old(other.ptr)
        && other.Elements() == [] && other.capacity == 0
        && alloc == (if traits.propagateOnMove then old(other.alloc) else old(alloc))
      ensures other != this && !traits.propagateOnMove && !Allocators.Equal(traits, old(alloc), old(other.alloc)) ==>
        capacity == (if old(capacity) < old(other.size) then old(other.size) else old(capacity))
        && alloc == old(alloc) && Disjoint(other) && (old(other.size) <= old(capacity) ==> ptr == old(ptr))
        && other.Elements() == old(other.Elements()) && other.capacity == old(other.capacity)
    {
      if other == this {
      } else if traits.propagateOnMove {
        alloc := other.alloc;
        TakeBuffer(other);
      } else if Allocators.Equal(traits, alloc, other.alloc) {
        TakeBuffer(other);
      } else {
        Assign(other.Elements());
      }
    }

    // ----- Insertion -----

    /**
     * emplace(pos, v), insert(pos, v): v is placed before position p. A full
     * vector builds the result directly in a buffer of the next capacity;
     * otherwise v is placed in the existing buffer.
     */
    method Emplace(p: nat, v: T) returns (r: nat)
      requires Valid() && p <= size && size < maxSize
      modifies this, ptr
      ensures Valid() && r == p && Elements() == Splice(old(Elements()), p, [v]) && alloc == old(alloc)
      ensures capacity == if old(size) == old(capacity)
        then Growth.ChooseNextCapacity(old(capacity), maxSize, layout.sizeMax) else old(capacity)
      ensures old(size) < old(capacity) ==> ptr == old(ptr)
      ensures old(size) == old(capacity) ==> fresh(ptr)
    {
      if capacity == size {
        var newCap := Growth.ChooseNextCapacity(capacity, maxSize, layout.sizeMax);
        var np := Allocators.Allocate(layout, newCap, zero);
        r := MigrateInsert(np, newCap, p, [v]);
      } else {
        r := ReplaceEmplace(p, v);
      }
    }

    /**
     * _replace_emplace(pos, v): at the end, v is constructed in the first
     * free slot; elsewhere a one-element gap is made at p and v put in it.
     */
    method ReplaceEmplace(p: nat, v: T) returns (r: nat)
      requires Valid() && p <= size < capacity
      modifies this, ptr
      ensures Valid() && r == p && Elements() == Splice(old(Elements()), p, [v])
      ensures capacity == old(capacity) && ptr == old(ptr) && alloc == old(alloc)
    {
      var b := ptr;
      ghost var e := Elements();
      var n := size;
      if p == n {
        b[n] := v;
      } else {
        Buffers.MoveUp(b, p, n, n + 1);
        b[p] := v;
        assert b[p + 1..n + 1] == e[p..];
      }
      ghost var result := b[..n + 1];
      assert result == Splice(e, p, [v]);
      size := n + 1;
      r := p;
      assert Elements() == result;
    }

    /**
     * _migrate_emplace and _migrate_insert: with np a new buffer, the
     * elements before p are migrated, the inserted ones constructed after
     * them, the rest migrated after those (_start_migrate_insert,
     * _end_migrate_insert), and np adopted.
     */
    method MigrateInsert(np: array<T>, newCap: nat, p: nat, ins: seq<T>) returns (r: nat)
      requires Valid() && np.Length == newCap && size + |ins| <= newCap <= maxSize && 0 < newCap && p <= size
      requires np != ptr
      modifies this, np
      ensures Valid() && r == p && Elements() == Splice(old(Elements()), p, ins)
      ensures capacity == newCap && ptr == np && alloc == old(alloc)
    {
      ghost var e := Elements();
      var n := size;
      if ptr == null {
        Buffers.CopyIn(np, 0, ins);
      } else {
        Buffers.MigrateAround(np, ptr, n, p, ins);
      }
      ghost var result := np[..n + |ins|];
      assert result == Splice(e, p, ins);
      ptr := np;
      capacity := newCap;
      size := n + |ins|;
      r := p;
      assert Elements() == result;
    }

    /**
     * _replace_insert(pos, n, v) and _replace_insert(pos, n, first, last):
     * _make_gap shifts the elements from p back by |ins|, last first, and the
     * gap is filled from the range, back to front for a bidirectional range
     * (as for a fill), front to back otherwise.
     */
    method ReplaceInsert(p: nat, ins: seq<T>, bidirectional: bool) returns (r: nat)
      requires Valid() && p <= size && size + |ins| <= capacity
      modifies this, ptr
      ensures Valid() && r == p && Elements() == Splice(old(Elements()), p, ins)
      ensures capacity == old(capacity) && ptr == old(ptr) && alloc == old(alloc)
    {
      r := p;
      if ptr == null {
        assert Elements() == Splice(Elements(), p, ins);
        return;
      }
      var b := ptr;
      ghost var e := Elements();
      var n := size;
      Buffers.InsertInPlace(b, n, p, ins, bidirectional);
      ghost var result := b[..n + |ins|];
      assert result == Splice(e, p, ins);
      size := n + |ins|;
      assert Elements() == result;
    }

    /**
     * insert(pos, n, v): n copies of v placed before position p, growing by
     * the growth rule when the new size exceeds the capacity.
     */
    method InsertFill(p: nat, n: nat, v: T) returns (r: nat)
      requires Valid() && p <= size && size + n <= maxSize
      modifies this, ptr
      ensures Valid() && r == p && Elements() == Splice(old(Elements()), p, Repeat(v, n)) && alloc == old(alloc)
      ensures capacity == Reserved(old(capacity), old(size) + n)
      ensures ptr == old(ptr) || fresh(ptr)
    {
      var req := size + n;
      if capacity < req {
        var newCap := Growth.ChooseNewCapacity(capacity, req, maxSize, layout.sizeMax);
        var np := Allocators.Allocate(layout, newCap, zero);
        r := MigrateInsert(np, newCap, p, Repeat(v, n));
      } else {
        r := ReplaceInsert(p, Repeat(v, n), true);
      }
    }

    /**
     * insert(pos, first, last) for a forward range, and
     * insert(pos, initializer_list): the range placed before position p.
     * `bidirectional` is the range's iterator category, which picks the order
     * the gap is filled in.
     */
    method InsertRange(p: nat, src: seq<T>, bidirectional: bool) returns (r: nat)
      requires Valid() && p <= size && size + |src| <= maxSize
      modifies this, ptr
      ensures Valid() && r == p && Elements() == Splice(old(Elements()), p, src) && alloc == old(alloc)
      ensures capacity == Reserved(old(capacity), old(size) + |src|)
      ensures ptr == old(ptr) || fresh(ptr)
    {
      var req := size + |src|;
      if capacity < req {
        var newCap := Growth.ChooseNewCapacity(capacity, req, maxSize, layout.sizeMax);
        var np := Allocators.Allocate(layout, newCap, zero);
        r := MigrateInsert(np, newCap, p, src);
      } else {
        r := ReplaceInsert(p, src, bidirectional);
      }
    }

    /**
     * insert(pos, first, last) for an input-only range: the length is not
     * known in advance, so the elements are inserted one at a time, each
     * after the ones before it. The result is the same as inserting the
     * whole range at once.
     */
    method InsertEach(p: nat, src: seq<T>) returns (r: nat)
      requires Valid() && p <= size && size + |src| <= maxSize
      modifies this, ptr
      ensures Valid() && r == p && Elements() == Splice(old(Elements()), p, src) && alloc == old(alloc)
      ensures capacity == Growth.GrownTo(old(capacity), old(size) + |src|, maxSize, layout.sizeMax)
      ensures ptr == old(ptr) || fresh(ptr)
    {
      ghost var e := Elements();
      ghost var target := Growth.GrownTo(capacity, |e| + |src|, maxSize, layout.sizeMax);
      for i := 0 to |src|
        invariant InsertedSoFar(e, p, src, i, target) && alloc == old(alloc)
        invariant ptr == old(ptr) || fresh(ptr)
      {
        InsertNext(e, p, src, i, target);
      }
      assert src[..|src|] == src;
      r := p;
    }

    /**
     * The state after InsertEach has inserted the first i elements of src
     * into e at p, on the way to capacity `target`.
     */
    ghost predicate InsertedSoFar(e: seq<T>, p: nat, src: seq<T>, i: nat, target: nat)
      reads this, ptr
    {
      Valid() && p <= |e| && i <= |src| && size == |e| + i && |e| + |src| <= maxSize
      && Elements() == Splice(e, p, src[..i])
      && Growth.GrownTo(capacity, |e| + |src|, maxSize, layout.sizeMax) == target
    }

    /** One step of InsertEach: src[i] goes in after the i elements already inserted. */
    method InsertNext(ghost e: seq<T>, p: nat, src: seq<T>, i: nat, ghost target: nat)
      requires InsertedSoFar(e, p, src, i, target) && i < |src|
      modifies this, ptr
      ensures InsertedSoFar(e, p, src, i + 1, target) && alloc == old(alloc)
      ensures ptr == old(ptr) || fresh(ptr)
    {
      SpliceNext(e, p, src, i);
      ghost var c := capacity;
      var _ := Emplace(p + i, src[i]);
      Growth.GrownToStep(c, capacity, |e| + i, |e| + |src|, maxSize, layout.sizeMax);
    }

    // ----- Erasure -----

    /** erase(first, last): removes positions first .. last - 1, shifting the tail forward. */
    method Erase(first: nat, last: nat) returns (r: nat)
      requires Valid() && first <= last <= size
      modifies this, ptr
      ensures Valid() && r == first && Elements() == Erased(old(Elements()), first, last)
      ensures capacity == old(capacity) && ptr == old(ptr) && alloc == old(alloc)
    {
      r := first;
      if ptr == null {
        return;
      }
      var b := ptr;
      ghost var e := Elements();
      var dstEnd := Buffers.MoveDown(b, last, size, first);
      EraseAfter(dstEnd);
      assert Elements() == b[..first] + b[first..dstEnd];
    }

    /** erase(pos): removes the element at p. */
    method EraseAt(p: nat) returns (r: nat)
      requires Valid() && p < size
      modifies this, ptr
      ensures Valid() && r == p && Elements() == old(Elements())[..p] + old(Elements())[p + 1..]
      ensures capacity == old(capacity) && ptr == old(ptr) && alloc == old(alloc)
    {
      r := Erase(p, p + 1);
    }

    // ----- Swap and comparison -----

    /**
     * swap(other): exchanges buffers, capacities and sizes. The allocators
     * are swapped when the allocator type propagates on swap, and must
     * otherwise compare equal.
     */
    method Swap(other: Vector<T>)
      requires Valid() && other.Valid() && Compatible(other) && Disjoint(other)
      requires traits.propagateOnSwap || Allocators.Equal(traits, alloc, other.alloc)
      modifies this, other
      ensures Valid() && other.Valid() && Disjoint(other)
      ensures Elements() == old(other.Elements()) && other.Elements() == old(Elements())
      ensures capacity == old(other.capacity) && other.capacity == old(capacity)
      ensures ptr == old(other.ptr) && other.ptr == old(ptr)
      ensures traits.propagateOnSwap ==> alloc == old(other.alloc) && other.alloc == old(alloc)
      ensures !traits.propagateOnSwap ==> alloc == old(alloc) && other.alloc == old(other.alloc)
    {
      if traits.propagateOnSwap {
        alloc, other.alloc := other.alloc, alloc;
      }
      ptr, other.ptr := other.ptr, ptr;
      capacity, other.capacity := other.capacity, capacity;
      size, other.size := other.size, size;
    }

    /**
     * operator<=>: walks both vectors in step; the first element comparison
     * that is not equal decides, and otherwise the shorter one is less.
     */
    method Compare(other: Vector<T>, cmp: (T, T) -> Ordering) returns (r: Ordering)
      requires Valid() && other.Valid()
      ensures r == Lex(Elements(), other.Elements(), cmp)
    {
      var e, oe := Elements(), other.Elements();
      var i := 0;
      while i < |e| && i < |oe|
        invariant i <= |e| && i <= |oe|
        invariant Lex(e, oe, cmp) == Lex(e[i..], oe[i..], cmp)
      {
        var c := cmp(e[i], oe[i]);
        if c != Equal {
          assert e[i..][0] == e[i] && oe[i..][0] == oe[i];
          return c;
        }
        LexSkipsEqual(e, oe, i, cmp);
        i := i + 1;
      }
      if i < |e| {
        r := Greater;
      } else if i < |oe| {
        r := Less;
      } else {
        r := Equal;
      }
    }
  }

  /**
   * operator==: std::equal over the two ranges, comparing elements with T's
   * operator== `eq`: the same size and pairwise equal elements.
   */
  function Equals<T>(a: Vector<T>, b: Vector<T>, eq: (T, T) -> bool): (r: bool)
    reads a, a.ptr, b, b.ptr
    requires a.Valid() && b.Valid()
    ensures r <==> a.size == b.size && forall i :: 0 <= i < a.size ==> eq(a.Elements()[i], b.Elements()[i])
  {
    EqualBy(a.Elements(), b.Elements(), eq)
  }

  /**
   * When T's `==` and `<=>` agree on elements, the vector's `<=>` reports
   * equal exactly when its `==` holds; when `==` is identity, `==` holds
   * exactly for the same contents.
   */
  lemma EqualsAgreesWithCompare<T(!new)>(a: Vector<T>, b: Vector<T>, eq: (T, T) -> bool, cmp: (T, T) -> Ordering)
    requires a.Valid() && b.Valid() && Consistent(eq, cmp)
    ensures Equals(a, b, eq) <==> Lex(a.Elements(), b.Elements(), cmp) == Equal
    ensures (forall x, y :: eq(x, y) <==> x == y) ==> (Equals(a, b, eq) <==> a.Elements() == b.Elements())
  {
    LexEqualIffEqualBy(a.Elements(), b.Elements(), eq, cmp);
    if forall x, y :: eq(x, y) <==> x == y {
      EqualByExact(a.Elements(), b.Elements(), eq);
    }
  }

  /**
   * assign(first, last) as written, by the category of the range, and with
   * it vector(first, last, allocator). The leftover tail goes to
   * `_push_back`, whose loop tests `first < last`; only random-access
   * iterators have `<`, and the call is instantiated for every range, so
   * input-only, forward-only and bidirectional ranges do not compile and
   * have no result. A random-access range becomes the contents.
   */
  function AssignAsWritten<T>(src: seq<T>, cat: Category): (r: Option<seq<T>>)
    ensures r.Some? ==> r.value == src
  {
    if cat == RandomAccess then Some(src) else None
  }

  /**
   * The range assign as written has a result exactly for random-access
   * ranges, while Assign and AssignEach make every range the contents.
   */
  lemma AssignAsWrittenNeedsRandomAccess<T>(src: seq<T>, cat: Category)
    ensures AssignAsWritten(src, cat) == Some(src) <==> cat == RandomAccess
  {}
}
