/**
 * gdt::allocator and the allocator capabilities that dynarr and vector consult.
 *
 * The allocator is stateless: `max_size` depends only on the element type and
 * on the size and difference types, every two allocators compare equal, and
 * `allocate` hands out a fresh buffer or stops the program.
 */
module Allocators {

  /** What the compiler knows about an element type and an allocator type. */
  datatype Layout = Layout(
    elemSize: nat,     // sizeof(T)
    ptrSize: nat,      // sizeof(T*)
    stdSizeMax: nat,   // SIZE_MAX
    sizeMax: nat,      // largest value of the allocator's size_type
    diffMax: nat,      // largest value of the allocator's difference_type
    rawPointer: bool)  // the allocator's pointer type is a plain T*

  /** Every object has a non-zero size and a pointer fits in a size_t. */
  predicate WellFormed(l: Layout)
  {
    l.elemSize > 0 && 0 < l.ptrSize <= l.stdSizeMax
  }

  /** A 64-bit platform with the default size_t / ptrdiff_t size and difference types. */
  function Platform64(elemSize: nat): (l: Layout)
    requires elemSize > 0
    ensures WellFormed(l)
  {
    Layout(elemSize, 8, 0xFFFF_FFFF_FFFF_FFFF, 0xFFFF_FFFF_FFFF_FFFF, 0x7FFF_FFFF_FFFF_FFFF, true)
  }

  function Min(a: nat, b: nat): nat { if a <= b then a else b }

  lemma MulMonotone(a: nat, b: nat, c: nat)
    requires a <= b
    ensures a * c <= b * c
  {}

  /** `q * d` never exceeds `n` when `q` is at most `n / d`, and `q + 1` past `n / d` overshoots. */
  lemma DivBounds(n: nat, d: nat, q: nat)
    requires d > 0
    ensures q <= n / d ==> q * d <= n
    ensures q > n / d ==> q * d > n
  {
    if q <= n / d {
      MulMonotone(q, n / d, d);
    } else {
      MulMonotone(n / d + 1, q, d);
    }
  }

  /**
   * allocator::max_size: the largest element count whose byte size fits in a
   * size_t and in the size type, and which the difference type can represent.
   * It is the greatest such count.
   */
  function MaxSize(l: Layout): (r: nat)
    requires l.elemSize > 0
    ensures r * l.elemSize <= l.stdSizeMax && r * l.elemSize <= l.sizeMax && r <= l.diffMax
    ensures (r + 1) * l.elemSize > l.stdSizeMax || (r + 1) * l.elemSize > l.sizeMax || r + 1 > l.diffMax
  {
    var r := Min(Min(l.stdSizeMax / l.elemSize, l.sizeMax / l.elemSize), l.diffMax);
    DivBounds(l.stdSizeMax, l.elemSize, r);
    DivBounds(l.sizeMax, l.elemSize, r);
    DivBounds(l.stdSizeMax, l.elemSize, r + 1);
    DivBounds(l.sizeMax, l.elemSize, r + 1);
    r
  }

  lemma MaxSizeAtMostSizeMax(l: Layout)
    requires l.elemSize > 0
    ensures MaxSize(l) <= l.sizeMax
  {
    MulMonotone(1, l.elemSize, MaxSize(l));
  }

  /**
   * std::allocator_traits<A>::max_size(a), which is what the containers'
   * max_size() returns. The traits call `a.max_size()` only when it can be
   * called on a const allocator; gdt::allocator::max_size is not const, so
   * they fall back to the size type's largest value divided by sizeof(T),
   * ignoring the SIZE_MAX and difference-type limits. It never reports less
   * than the allocator's own limit.
   */
  function TraitsMaxSizeAsWritten(l: Layout): (r: nat)
    requires l.elemSize > 0
    ensures r * l.elemSize <= l.sizeMax && (r + 1) * l.elemSize > l.sizeMax
    ensures MaxSize(l) <= r
  {
    var r := l.sizeMax / l.elemSize;
    DivBounds(l.sizeMax, l.elemSize, r);
    DivBounds(l.sizeMax, l.elemSize, r + 1);
    r
  }

  /** allocator<int> on a 64-bit platform can hand out SIZE_MAX / sizeof(int) elements. */
  lemma MaxSizeOfInt64()
    ensures MaxSize(Platform64(4)) == 0xFFFF_FFFF_FFFF_FFFF / 4
  {}

  /**
   * allocator<int, unsigned char>: the byte count must fit in an unsigned char,
   * so only UCHAR_MAX / sizeof(int) elements can be requested, not UCHAR_MAX.
   */
  lemma MaxSizeOfIntWithByteSizeType()
    ensures MaxSize(Platform64(4).(sizeMax := 255)) == 63
  {}

  /**
   * The allocator type's traits, as std::allocator_traits reports them. copyStep
   * is how select_on_container_copy_construction derives the copy's allocator:
   * 0 means the allocator itself is copied.
   */
  datatype Traits = Traits(
    propagateOnCopy: bool,
    propagateOnMove: bool,
    propagateOnSwap: bool,
    alwaysEqual: bool,
    copyStep: int)

  /** gdt::allocator: propagates on move assignment and is always equal; the rest are the defaults. */
  const GdtTraits := Traits(false, true, false, true, 0)

  /** An allocator value; only its identity matters for comparison. */
  datatype Alloc = Alloc(id: int)

  /** operator==: every gdt::allocator equals every other; otherwise allocators with the same identity. */
  predicate Equal(t: Traits, a: Alloc, b: Alloc)
  {
    t.alwaysEqual || a.id == b.id
  }

  lemma GdtAllocatorsAlwaysEqual(a: Alloc, b: Alloc)
    ensures Equal(GdtTraits, a, b) && Equal(GdtTraits, b, a)
  {}

  /** Allocator equality is an equivalence relation. */
  lemma EqualIsEquivalence(t: Traits, a: Alloc, b: Alloc, c: Alloc)
    ensures Equal(t, a, a)
    ensures Equal(t, a, b) ==> Equal(t, b, a)
    ensures Equal(t, a, b) && Equal(t, b, c) ==> Equal(t, a, c)
  {}

  /** select_on_container_copy_construction: the allocator a copy-constructed container receives. */
  function SelectOnCopy(t: Traits, a: Alloc): (r: Alloc)
    ensures t.copyStep == 0 ==> r == a
    ensures t.alwaysEqual ==> Equal(t, r, a)
  {
    Alloc(a.id + t.copyStep)
  }

  /**
   * allocator::allocate(n): a fresh buffer of n elements. A request above
   * max_size stops the program, so callers must stay within it; `fill` stands
   * for the unspecified contents of raw storage.
   */
  method Allocate<T>(l: Layout, n: nat, fill: T) returns (p: array<T>)
    requires WellFormed(l) && n <= MaxSize(l)
    ensures fresh(p) && p.Length == n
  {
    p := new T[n](_ => fill);
  }
}
