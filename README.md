# gdt containers in Dafny

A model of the container core of the gdt C++ library:

- `gdt::allocator` (`allocator.dfy`, module `Allocators`): the element-count
  limit `max_size`, `allocate`, allocator equality and the allocator traits
  the containers consult (propagation on copy, move and swap, always-equal,
  the allocator a copy receives).
- The growth rule shared by both containers (`growth.dfy`, module `Growth`):
  `_choose_new_capacity` and `_choose_next_capacity`, with doubling done in
  the allocator's unsigned size type, where it wraps.
- `gdt::dynarr` (`dynarr.dfy`, module `Dynarrs`): a growable array with a
  small-buffer optimisation. With plain `T*` pointers, up to K elements are
  stored inline in the bytes of the heap pointer (capacity == K). Above that
  they live in an allocated buffer. `class Dynarr` has the source's members:
  the inline buffer `small`, the heap pointer `large`, the allocator, the
  capacity and the size. The free functions `erase` and `erase_if` are also
  here.
- `gdt::vector` (`vector.dfy`, module `Vectors`): a growable array whose
  elements always live in an allocated buffer. The pointer is null exactly
  when the capacity is zero. `class Vector` has the source's members.
- `gdt_detail::fill_iterator` (`fill_iterator.dfy`, module `FillIterators`):
  the random-access iterator over "n copies of one value" that feeds
  `insert(pos, n, value)`.
- `gdt::vec` (`vec.dfy`, module `Vecs`): fixed-size 2-, 3- and 4-vectors
  with their constructors, named components, subscript, swizzles and the
  converting constructor.
- `buffers.dfy` (module `Buffers`): the element-moving loops the containers
  are built from, each as a method on arrays with its own contract. These
  are the move to another buffer, the forward and backward shifts, the fill
  of an insertion gap, the inline-buffer swap and the `remove_if`
  compaction.
- `sequences.dfy` (module `Sequences`): the specification vocabulary.
  `Splice` is insertion, `Erased` is erasure, `Lex` is the three-way
  lexicographic comparison, and `RemoveIf`/`CountIf` describe removal by a
  predicate.

Every container method is proved against the sequence of its live elements
(`Elements()`), with the class invariant `Valid()` kept throughout. The new
capacity is stated through the growth rule, and the methods state when the
buffer is kept and when it is replaced by a fresh one.

The integer limits are explicit. `Layout` carries `sizeof(T)`, `SIZE_MAX`
and the largest values of the size and difference types. The size-type
wrap-around of capacity doubling is modelled exactly.

The containers' `max_size()` is taken to be the allocator's own limit,
`Allocators.MaxSize`. As written it goes through `std::allocator_traits`,
which cannot call gdt::allocator's non-const `max_size` and reports a larger
limit for one-byte elements. This is recorded under Findings.

The allocator test at `test/allocator.cxx:19` expects `max_size()` of
`allocator<int, unsigned char>` to be `UCHAR_MAX`. The code divides the size
type's maximum by `sizeof(int)`, which gives 63. The model follows the code
(`Allocators.MaxSizeOfIntWithByteSizeType`).

## Model

| member | source | states |
|---|---|---|
| Allocators.MaxSize | include/gdt/allocator.hxx:45-59 | max_size is the greatest count whose byte size fits in a size_t and in the size type and which the difference type can represent: it meets all three limits and one more element breaks one of them |
| Allocators.MaxSizeAtMostSizeMax | include/gdt/allocator.hxx:45-59 | max_size is representable in the size type |
| Allocators.TraitsMaxSizeAsWritten | include/gdt/dynarr.hxx:447-449 | the containers' max_size as the allocator traits compute it: the greatest count whose byte size fits in the size type, never below the allocator's own max_size |
| Allocators.MaxSizeOfInt64 | test/allocator.cxx:18 | allocator<int> on a 64-bit platform gives SIZE_MAX / sizeof(int) |
| Allocators.MaxSizeOfIntWithByteSizeType | include/gdt/allocator.hxx:45-59 | allocator<int, unsigned char> gives 63, not UCHAR_MAX |
| Allocators.GdtAllocatorsAlwaysEqual | include/gdt/allocator.hxx:106-112 | any two gdt allocators compare equal, both ways round |
| Allocators.EqualIsEquivalence | include/gdt/allocator.hxx:106-112 | allocator equality is reflexive, symmetric and transitive |
| Allocators.SelectOnCopy | include/gdt/dynarr.hxx:137-141 | the copy's allocator is the original when the traits copy it, and equals it for an always-equal type |
| Allocators.Allocate | include/gdt/allocator.hxx:62-85 | a request within max_size yields a fresh buffer of exactly n elements |
| Growth.Doubled | include/gdt/dynarr.hxx:835-845 | doubling in the size type: exact when it fits, otherwise wraps to a value below the capacity, 2 * capacity minus the modulus |
| Growth.ChooseNewCapacity | include/gdt/dynarr.hxx:835-845 | the result is max(req, min(2 * capacity, max_size)); it is at least req and within max_size whenever req is |
| Growth.ChooseNextCapacity | include/gdt/dynarr.hxx:827-832 | the next capacity exceeds the current one |
| Growth.NextCapacityDoublesOrSaturates | include/gdt/dynarr.hxx:827-845 | growing for one more element at least doubles the capacity or reaches exactly max_size, and never passes max_size |
| Growth.NewCapacityIsRequestWhenLarge | include/gdt/dynarr.hxx:835-845 | a request of at least twice the capacity is granted exactly |
| Growth.GrowthExamples | test/dynarr.cxx:519-540 | reserve(46) at capacity 45 gives 90; a full capacity-2 container grows to 4 |
| Growth.WrappedDoublingSaturates | include/gdt/dynarr.hxx:835-845 | with an 8-bit size type, doubling 200 wraps to 144 and the wrap test picks max_size |
| Growth.GrownTo | include/gdt/dynarr.hxx:827-832 | the capacity reached by growing for one more element at a time until n elements fit: never below the start or n, within max_size, unchanged when n already fits, and under 2n otherwise |
| Growth.GrownToStep | include/gdt/dynarr.hxx:827-832 | one push_back (growing only when full) keeps the capacity that growing one element at a time to n reaches |
| Growth.GrownToExample | test/dynarr.cxx:519-540 | three elements pushed one at a time onto an empty container grow its capacity 0, 1, 2 and then 4 |
| Sequences.SpliceOneMore | include/gdt/vector.hxx:656-666 | inserting one more element just after an inserted run equals inserting the longer run at once |
| Sequences.EraseUndoesSplice | include/gdt/dynarr.hxx:691-712 | erasing the positions just inserted gives back the original contents |
| Sequences.EqualBy | include/gdt/dynarr.hxx:758-761 | std::equal over two ranges holds exactly when the lengths agree and T's `==` holds at every position |
| Sequences.EqualByExact | include/gdt/dynarr.hxx:758-761 | when T's `==` is identity, std::equal holds exactly for equal sequences |
| Sequences.EqualByIrreflexive | include/gdt/dynarr.hxx:758-761 | a range holding an element not equal to itself (a NaN) is not equal to itself |
| Sequences.LexEqualIffEqualBy | include/gdt/dynarr.hxx:758-801 | when T's `==` and `<=>` agree on elements, the lexicographic comparison is Equal exactly when std::equal holds |
| Sequences.LexEqualIffSame | include/gdt/dynarr.hxx:764-801 | with an exact element comparison, the lexicographic comparison is Equal exactly for equal sequences |
| Sequences.LexAntisymmetric | include/gdt/dynarr.hxx:764-801 | swapping the operands flips the result |
| Sequences.LexTransitive | include/gdt/dynarr.hxx:764-801 | lexicographic Less is transitive when the element order is |
| Sequences.LexPrefixIsLess | include/gdt/dynarr.hxx:764-801 | a proper prefix compares Less |
| Sequences.RemoveIfProperties | include/gdt/dynarr.hxx:1279-1289 | remove_if keeps exactly the non-matching elements, and its length plus the match count is the old length |
| FillIterators.DerefIgnoresPosition | include/gdt_detail/fill_iterator.hxx:24-40 | `*it` and `it[n]` read the fill value at every position |
| FillIterators.PreIncrement | include/gdt_detail/fill_iterator.hxx:43-47 | `++it` stays in the same range, one step forward |
| FillIterators.PreDecrement | include/gdt_detail/fill_iterator.hxx:50-54 | `--it` moves one step back |
| FillIterators.PostIncrement | include/gdt_detail/fill_iterator.hxx:57-60 | `it++` yields the old iterator and leaves the variable as `++it` would |
| FillIterators.PostDecrement | include/gdt_detail/fill_iterator.hxx:63-66 | `it--` yields the old iterator and leaves the variable as `--it` would |
| FillIterators.Add | include/gdt_detail/fill_iterator.hxx:69-74 | `it + n` is n positions forward in the same range |
| FillIterators.AddLeft | include/gdt_detail/fill_iterator.hxx:77-82 | `n + it` equals `it + n` |
| FillIterators.SubtractAsWritten | include/gdt_detail/fill_iterator.hxx:85-90 | `it - n` as written lands where `it + n` does |
| FillIterators.Subtract | include/gdt_detail/fill_iterator.hxx:85-90 | `it - n` as intended lands n positions back |
| FillIterators.AddAssign | include/gdt_detail/fill_iterator.hxx:102-108 | `it += n` leaves the variable at `it + n` |
| FillIterators.SubtractAssign | include/gdt_detail/fill_iterator.hxx:111-117 | `it -= n` leaves the variable n positions back |
| FillIterators.Compare | include/gdt_detail/fill_iterator.hxx:129-135 | `<=>` is Less, Equal or Greater exactly as the distance is negative, zero or positive |
| FillIterators.StepsAreInverse | include/gdt_detail/fill_iterator.hxx:43-117 | ++ and --, + and -, += and -= undo each other, and `a - b` recovers the offset |
| FillIterators.SubtractAsWrittenIsNotInverse | include/gdt_detail/fill_iterator.hxx:85-90 | as written, `(it + n) - n` is 2n away from it for every n != 0 |
| FillIterators.Values | include/gdt_detail/fill_iterator.hxx:18-47 | walking from first to last reads last - first copies of the fill value |
| FillIterators.FillRangeIsRepeat | include/gdt/dynarr.hxx:647-658 | the iterator pair insert(pos, n, v) builds is n apart and reads n copies of v |
| Vecs.ColourAliases | include/gdt/vec.hxx:123-140 | r, g, b, a read the same components as x, y, z, w |
| Vecs.SubscriptAsWritten | include/gdt/vec.hxx:111-122 | the guard as written admits i == N, which reads no component |
| Vecs.SubscriptGuardAdmitsOnePastEnd | include/gdt/vec.hxx:111-122 | index N passes the guard as written and has no component |
| Vecs.Subscript | include/gdt/vec.hxx:111-122 | `v[i]` with i < N is the component every name of index i reads |
| Vecs.Swizzle | include/gdt/vec.hxx:143-258 | a swizzle's k-th component is the k-th named component |
| Vecs.SwizzleReverseTwice | include/gdt/vec.hxx:143-258 | `v.zyx().zyx()` gives v back |
| Vecs.SwizzleIdentity | include/gdt/vec.hxx:143-258 | `xy()`, `xyz()` and `xyzw()` copy a vec of that size |
| Vecs.Vec2 | include/gdt/vec.hxx:23-27 | vec2(x, y) has components x and y |
| Vecs.Vec3 | include/gdt/vec.hxx:30-34 | vec3(x, y, z) has components x, y and z |
| Vecs.Vec3Of12 | include/gdt/vec.hxx:37-41 | vec3(x, yz): x then yz, and the yz swizzle gives yz back |
| Vecs.Vec3Of21 | include/gdt/vec.hxx:44-48 | vec3(xy, z): the xy swizzle gives xy back and z is last |
| Vecs.Vec4 | include/gdt/vec.hxx:51-55 | vec4(x, y, z, w) has those four components |
| Vecs.Vec4Of112 | include/gdt/vec.hxx:58-62 | vec4(x, y, zw): the zw swizzle gives zw back |
| Vecs.Vec4Of121AsWritten | include/gdt/vec.hxx:65-69 | as written the constructor builds no vec4 |
| Vecs.Vec4Of121 | include/gdt/vec.hxx:65-69 | vec4(x, yz, w) as intended: the yz swizzle gives yz back, x first and w last |
| Vecs.Vec4Of121AsWrittenBuildsNothing | include/gdt/vec.hxx:65-69 | the as-written constructor never yields the intended vec4 |
| Vecs.Vec4Of211 | include/gdt/vec.hxx:72-76 | vec4(xy, z, w): the xy swizzle gives xy back |
| Vecs.Vec4Of22 | include/gdt/vec.hxx:79-83 | vec4(xy, zw): the xy and zw swizzles give them back |
| Vecs.Vec4Of13 | include/gdt/vec.hxx:86-90 | vec4(x, yzw): the yzw swizzle gives yzw back |
| Vecs.Vec4Of31 | include/gdt/vec.hxx:93-97 | vec4(xyz, w): the xyz swizzle gives xyz back |
| Vecs.SplitAndReassemble | include/gdt/vec.hxx:79-97 | splitting a vec4 by swizzles and rebuilding it gives it back |
| Vecs.ConstructorExamples | test/vec.cxx:9-11 | `{v1, 3}` is (1, 2, 3) and `vec4<int>{v1, v1}` is (1, 2, 1, 2) |
| Vecs.Convert | include/gdt/vec.hxx:100-108 | the first N components, each converted |
| Buffers.MoveRange | include/gdt/dynarr.hxx:893-901 | the n elements arrive in order at the destination and nothing else there changes |
| Buffers.MoveDown | include/gdt/dynarr.hxx:691-712 | the run moves towards the front intact; the part before the destination and the part after the run are unchanged |
| Buffers.MoveUp | include/gdt/vector.hxx:1037-1059 | the run ends up intact ending at dstEnd; the part before the run and the part after dstEnd are unchanged |
| Buffers.SwapPrefixes | include/gdt/dynarr.hxx:1452-1481 | the two live inline prefixes are exchanged |
| Buffers.FillGap | include/gdt/dynarr.hxx:1218-1246 | the gap holds the range in order, in either fill direction, and nothing outside it changes |
| Buffers.CopyIn | include/gdt/vector.hxx:250-282 | the range is written at the offset and the rest of the buffer is unchanged |
| Buffers.OpenSlot | include/gdt/dynarr.hxx:991-1040 | the elements from p move up by one and the rest are unchanged |
| Buffers.MigrateAround | include/gdt/dynarr.hxx:1105-1138 | the new buffer holds the prefix, the inserted range, then the suffix |
| Buffers.InsertInPlace | include/gdt/dynarr.hxx:1186-1253 | the buffer's live part becomes the prefix, the range, then the old tail |
| Buffers.RemoveIfInPlace | include/gdt/dynarr.hxx:1279-1289 | the first j slots hold exactly the non-matching elements, in order |
| Dynarrs.SmallCapacity | include/gdt/dynarr.hxx:19-46 | with raw pointers, the most elements that fit in a pointer's bytes and that the size and difference types can count; zero otherwise |
| Dynarrs.SmallCapacityFitsMaxSize | include/gdt/dynarr.hxx:19-46 | the inline capacity never exceeds max_size |
| Dynarrs.SmallCapacityExamples | include/gdt/dynarr.hxx:19-46 | on 64-bit: two ints or one double inline, no 16-byte element, none without raw pointers |
| Dynarrs.Dynarr.Buf | include/gdt/dynarr.hxx:1337-1348 | the storage pointer is the inline buffer or the heap buffer, capacity elements long |
| Dynarrs.Dynarr.constructor | include/gdt/dynarr.hxx:92-98 | empty and inline with the given allocator |
| Dynarrs.Dynarr.Sized | include/gdt/dynarr.hxx:101-108 | len value-initialised elements, at the capacity reserve gives |
| Dynarrs.Dynarr.Filled | include/gdt/dynarr.hxx:111-119 | len copies of the value |
| Dynarrs.Dynarr.FromRange | include/gdt/dynarr.hxx:126-134 | a copy of the range |
| Dynarrs.Dynarr.FromEach | include/gdt/dynarr.hxx:126-134 | a copy of an input-only range, at the capacity GrownTo reaches from K; one that fits the inline buffer stays inline |
| Dynarrs.Dynarr.CopyWithAllocator | include/gdt/dynarr.hxx:157-161 | same elements, given allocator, no shared buffer |
| Dynarrs.Dynarr.Copy | include/gdt/dynarr.hxx:137-141 | same elements, the allocator select_on_container_copy_construction gives |
| Dynarrs.Dynarr.Move | include/gdt/dynarr.hxx:144-155 | takes the elements, capacity and heap buffer; the source is left empty and inline |
| Dynarrs.Dynarr.MoveWithAllocator | include/gdt/dynarr.hxx:163-181 | equal allocators: as the move constructor; otherwise an element-wise move and the source is unchanged |
| Dynarrs.Dynarr.Reallocate | include/gdt/dynarr.hxx:910-919 | same elements in a fresh buffer of exactly the new capacity |
| Dynarrs.Dynarr.Reserve | include/gdt/dynarr.hxx:476-482 | capacity by the growth rule and at least n, same elements; the buffer is kept when n fits |
| Dynarrs.Dynarr.ShrinkToFit | include/gdt/dynarr.hxx:485-516 | same elements; capacity becomes max(size, K) when there was slack |
| Dynarrs.Dynarr.Reset | include/gdt/dynarr.hxx:939-945 | empty, inline, no heap buffer |
| Dynarrs.Dynarr.ReserveForAssign | include/gdt/dynarr.hxx:949-956 | room for n; a too-small buffer is dropped with its contents |
| Dynarrs.Dynarr.Empty | include/gdt/dynarr.hxx:435-438 | empty exactly when there are no elements |
| Dynarrs.Dynarr.At | include/gdt/dynarr.hxx:533-544 | the i-th live element |
| Dynarrs.Dynarr.Front | include/gdt/dynarr.hxx:547-558 | the first element |
| Dynarrs.Dynarr.Back | include/gdt/dynarr.hxx:561-572 | the last element |
| Dynarrs.Dynarr.Data | include/gdt/dynarr.hxx:575-584 | null exactly at capacity zero; otherwise a buffer starting with the elements, the inline one when inline |
| Dynarrs.Dynarr.EmplaceBack | include/gdt/dynarr.hxx:588-612 | v appended; a full dynarr grows to the next capacity in a fresh buffer, otherwise the buffer is kept |
| Dynarrs.Dynarr.PopBack | include/gdt/dynarr.hxx:615-619 | the last element removed, capacity and buffer kept |
| Dynarrs.Dynarr.Truncate | include/gdt/dynarr.hxx:929-936 | the first n elements kept |
| Dynarrs.Dynarr.Clear | include/gdt/dynarr.hxx:752-755 | no elements, capacity and buffer kept |
| Dynarrs.Dynarr.PushBackMove | include/gdt/dynarr.hxx:970-976 | the range appended without reallocation |
| Dynarrs.Dynarr.FillTo | include/gdt/dynarr.hxx:979-985 | copies of v appended up to n elements |
| Dynarrs.Dynarr.ReserveOrShrink | include/gdt/dynarr.hxx:960-967 | capacity reserved for n, elements past n dropped |
| Dynarrs.Dynarr.Resize | include/gdt/dynarr.hxx:459-466 | the first n elements, or padded with T() up to n |
| Dynarrs.Dynarr.ResizeFill | include/gdt/dynarr.hxx:469-473 | the first n elements, or padded with v up to n |
| Dynarrs.Dynarr.Assign | include/gdt/dynarr.hxx:284-328 | the contents become the range |
| Dynarrs.Dynarr.AssignEach | include/gdt/dynarr.hxx:284-328 | for an input-only range nothing is reserved: the contents become the range, the capacity is what GrownTo reaches from the old one, and a range that fits keeps the capacity and the buffer |
| Dynarrs.Dynarr.AssignFill | include/gdt/dynarr.hxx:331-348 | the contents become n copies of v |
| Dynarrs.Dynarr.TakeBuffer | include/gdt/dynarr.hxx:818-824 | this holds other's elements and capacity; other is empty and inline |
| Dynarrs.Dynarr.Insert | include/gdt/dynarr.hxx:991-1040 | v inserted before p, returning p; a full dynarr grows to the next capacity |
| Dynarrs.Dynarr.EmplaceMigrate | include/gdt/dynarr.hxx:1105-1138 | v inserted before p while moving to the new buffer, which is adopted |
| Dynarrs.Dynarr.InsertRange | include/gdt/dynarr.hxx:1044-1088 | the range inserted before p, returning p; capacity by the growth rule |
| Dynarrs.Dynarr.InsertMigrate | include/gdt/dynarr.hxx:1142-1182 | the range inserted before p while moving to the new buffer |
| Dynarrs.Dynarr.InsertMidBuffer | include/gdt/dynarr.hxx:1186-1253 | the range inserted before p in place; an empty range leaves the contents unchanged |
| Dynarrs.Dynarr.InsertFill | include/gdt/dynarr.hxx:647-658 | n copies of v inserted before p |
| Dynarrs.Dynarr.InsertEach | include/gdt/dynarr.hxx:1089-1100 | the input-only insert with positions kept as indices, as evidently intended: inserting one element at a time equals inserting the range at once, and the capacity is what GrownTo reaches from the old one |
| Dynarrs.Dynarr.Erase | include/gdt/dynarr.hxx:691-712 | positions first .. last - 1 removed, returning first; capacity and buffer kept |
| Dynarrs.Dynarr.EraseAt | include/gdt/dynarr.hxx:682-688 | the element at p removed |
| Dynarrs.Dynarr.CopyAssign | include/gdt/dynarr.hxx:198-217 | other's elements copied; the allocator propagates when the traits say so, dropping the buffer if it differs |
| Dynarrs.Dynarr.MoveAssign | include/gdt/dynarr.hxx:220-270 | self-move does nothing; propagating or equal allocators take other's buffer and empty it; otherwise an element-wise move leaves other intact |
| Dynarrs.Dynarr.Swap | include/gdt/dynarr.hxx:715-742 | contents and capacities exchanged, heap buffers change owner; allocators swapped only if they propagate |
| Dynarrs.Dynarr.SwapStorage | include/gdt/dynarr.hxx:1399-1482 | the storage swap's four cases exchange contents, capacities and heap buffers |
| Dynarrs.Dynarr.GiveHeapTakeInline | include/gdt/dynarr.hxx:1416-1451 | one heap and one inline: the heap buffer changes owner and the inline elements move across |
| Dynarrs.Dynarr.SwapInline | include/gdt/dynarr.hxx:1452-1481 | both inline: the live elements are exchanged |
| Dynarrs.Dynarr.Compare | include/gdt/dynarr.hxx:764-801 | `<=>` is the lexicographic comparison of the contents |
| Dynarrs.Equals | include/gdt/dynarr.hxx:758-761 | `==` holds exactly when the sizes match and T's `==` holds at every position |
| Dynarrs.EqualsAgreesWithCompare | include/gdt/dynarr.hxx:758-801 | when T's `==` and `<=>` agree, `<=>` is Equal exactly when `==` holds; when T's `==` is identity, `==` holds exactly for equal contents |
| Dynarrs.EraseIf | include/gdt/dynarr.hxx:1279-1289 | the non-matching elements remain in order; the count returned is the number removed |
| Dynarrs.EraseValue | include/gdt/dynarr.hxx:1266-1275 | with T's `==` against the value's type: no element equals value afterwards, every other element remains in order, and the count is those removed |
| Dynarrs.RouteOf | include/gdt/dynarr.hxx:1063-1087 | migrate exactly when the new size exceeds the capacity; append exactly at the end otherwise |
| Dynarrs.MidBufferAssumeFailsOnEmptyRange | include/gdt/dynarr.hxx:1193 | on the mid-buffer route the assumption holds exactly for a non-empty range, and an empty range before an element takes that route |
| Dynarrs.InsertAsWritten | include/gdt/dynarr.hxx:1093-1099 | the range insert as written, by iterator category: input-only and forward-only ranges do not compile and have no result; any result is the splice |
| Dynarrs.InsertAsWrittenNeedsBidirectional | include/gdt/dynarr.hxx:1244-1247 | the range insert as written yields the splice exactly for bidirectional and random-access ranges |
| Dynarrs.MaxSizeAsWrittenExceedsAllocator | include/gdt/dynarr.hxx:447-449 | for dynarr<char> on a 64-bit platform the containers report SIZE_MAX, above the allocator's PTRDIFF_MAX, and a request between the two is granted by the growth rule and refused by allocate |
| Dynarrs.BracedThreeIntsGrowToFour | include/gdt/dynarr.hxx:284-297 | `dynarr<int>{1, 2, 3}` on a 64-bit platform starts inline at capacity 2 and grows to 4 |
| Dynarrs.SubscriptGuardAdmitsPastBuffer | include/gdt/dynarr.hxx:519-530 | the guard admits index capacity, one past the buffer, and any index between size and capacity |
| Vectors.Vector.Reserved | include/gdt/vector.hxx:808-818 | reserve leaves at least the old capacity and n, within max_size, and exactly n for a request of twice the capacity or more |
| Vectors.Vector.constructor | include/gdt/vector.hxx:54-60 | empty, no buffer, the given allocator |
| Vectors.Vector.Sized | include/gdt/vector.hxx:63-70 | len value-initialised elements in a buffer of exactly len |
| Vectors.Vector.Filled | include/gdt/vector.hxx:73-81 | len copies of the value in a buffer of exactly len |
| Vectors.Vector.FromRange | include/gdt/vector.hxx:88-96 | a copy of the range in a buffer of exactly its length |
| Vectors.Vector.FromEach | include/gdt/vector.hxx:88-96 | a copy of an input-only range, at the capacity GrownTo reaches from 0; an empty one allocates nothing |
| Vectors.Vector.CopyWithAllocator | include/gdt/vector.hxx:115-119 | same elements, capacity equal to other's size, no shared buffer |
| Vectors.Vector.Copy | include/gdt/vector.hxx:99-103 | same elements, the allocator select_on_container_copy_construction gives |
| Vectors.Vector.Move | include/gdt/vector.hxx:106-112 | takes the buffer, capacity and size; the source has no buffer |
| Vectors.Vector.MoveWithAllocator | include/gdt/vector.hxx:121-139 | equal allocators: as the move constructor; otherwise an element-wise move and the source is unchanged |
| Vectors.Vector.Reallocate | include/gdt/vector.hxx:876-885 | same elements in a fresh buffer of exactly the new capacity, none at zero |
| Vectors.Vector.Reserve | include/gdt/vector.hxx:430-436 | capacity by the growth rule and at least n; the buffer is kept when n fits |
| Vectors.Vector.ShrinkToFit | include/gdt/vector.hxx:439-445 | capacity becomes the size, same elements |
| Vectors.Vector.Reset | include/gdt/vector.hxx:1206-1212 | empty with no buffer |
| Vectors.Vector.ReserveWithoutMigrate | include/gdt/vector.hxx:900-907 | a too-small buffer is dropped and replaced by one of exactly n |
| Vectors.Vector.Empty | include/gdt/vector.hxx:389-392 | empty exactly when there are no elements |
| Vectors.Vector.At | include/gdt/vector.hxx:448-477 | the i-th live element |
| Vectors.Vector.Front | include/gdt/vector.hxx:480-491 | the first element |
| Vectors.Vector.Back | include/gdt/vector.hxx:494-505 | the last element |
| Vectors.Vector.Data | include/gdt/vector.hxx:508-517 | null exactly at capacity zero; otherwise the buffer starting with the elements |
| Vectors.Vector.EmplaceBack | include/gdt/vector.hxx:521-545 | v appended; a full vector grows to the next capacity in a fresh buffer |
| Vectors.Vector.PopBack | include/gdt/vector.hxx:548-552 | the last element removed |
| Vectors.Vector.EraseAfter | include/gdt/vector.hxx:1194-1203 | the first i elements kept |
| Vectors.Vector.Clear | include/gdt/vector.hxx:739-742 | no elements, buffer kept |
| Vectors.Vector.PushBackRange | include/gdt/vector.hxx:911-926 | the range appended; the buffer is kept when it has room |
| Vectors.Vector.FillTo | include/gdt/vector.hxx:929-935 | copies of v appended up to n |
| Vectors.Vector.ReserveOrShrink | include/gdt/vector.hxx:889-896 | capacity reserved for n, elements past n dropped |
| Vectors.Vector.Resize | include/gdt/vector.hxx:413-420 | the first n elements, or padded with T() up to n; the buffer is kept when n fits |
| Vectors.Vector.ResizeFill | include/gdt/vector.hxx:423-427 | the first n elements, or padded with v up to n |
| Vectors.Vector.Assign | include/gdt/vector.hxx:250-282 | the contents become the range; the buffer is kept when it is large enough |
| Vectors.Vector.AssignEach | include/gdt/vector.hxx:250-282 | for an input-only range nothing is reserved: the contents become the range, the capacity is what GrownTo reaches from the old one, and a range that fits keeps the buffer |
| Vectors.Vector.AssignFill | include/gdt/vector.hxx:285-302 | the contents become n copies of v |
| Vectors.Vector.TakeBuffer | include/gdt/vector.hxx:799-805 | this holds other's buffer, capacity and size; other has none |
| Vectors.Vector.CopyAssign | include/gdt/vector.hxx:158-176 | other's elements copied; the allocator propagates when the traits say so, dropping the buffer if it differs |
| Vectors.Vector.MoveAssign | include/gdt/vector.hxx:179-236 | self-move does nothing; propagating or equal allocators take other's buffer; otherwise an element-wise move leaves other intact |
| Vectors.Vector.Emplace | include/gdt/vector.hxx:556-587 | v inserted before p, returning p; a full vector grows to the next capacity |
| Vectors.Vector.ReplaceEmplace | include/gdt/vector.hxx:1072-1095 | v inserted before p in the existing buffer |
| Vectors.Vector.MigrateInsert | include/gdt/vector.hxx:938-1034 | the range inserted before p while moving to the new buffer, which is adopted |
| Vectors.Vector.ReplaceInsert | include/gdt/vector.hxx:1098-1184 | the range inserted before p in place, in either fill order |
| Vectors.Vector.InsertFill | include/gdt/vector.hxx:590-614 | n copies of v inserted before p; capacity by the growth rule |
| Vectors.Vector.InsertRange | include/gdt/vector.hxx:621-655 | the range inserted before p; capacity by the growth rule |
| Vectors.Vector.InsertEach | include/gdt/vector.hxx:656-666 | inserting an input-only range one element at a time equals inserting it at once, and the capacity is what GrownTo reaches from the old one |
| Vectors.AssignAsWritten | include/gdt/vector.hxx:911-917 | assign(first, last) as written, by iterator category: `_push_back`'s `first < last` compiles only for random-access ranges, so the others have no result; any result is the range |
| Vectors.AssignAsWrittenNeedsRandomAccess | include/gdt/vector.hxx:250-282 | the range assign as written yields the range exactly for random-access ranges |
| Vectors.Vector.Erase | include/gdt/vector.hxx:687-703 | positions first .. last - 1 removed, returning first |
| Vectors.Vector.EraseAt | include/gdt/vector.hxx:678-684 | the element at p removed |
| Vectors.Vector.Swap | include/gdt/vector.hxx:706-729 | buffers, capacities and sizes exchanged; allocators swapped only if they propagate |
| Vectors.Vector.Compare | include/gdt/vector.hxx:751-784 | `<=>` is the lexicographic comparison of the contents |
| Vectors.Equals | include/gdt/vector.hxx:745-748 | `==` holds exactly when the sizes match and T's `==` holds at every position |
| Vectors.EqualsAgreesWithCompare | include/gdt/vector.hxx:745-784 | when T's `==` and `<=>` agree, `<=>` is Equal exactly when `==` holds; when T's `==` is identity, `==` holds exactly for equal contents |

## Left out

- Element moves are modelled as copies. A moved-from slot keeps its value, and the model never relies on it.
- Element construction and destruction, destructors and deallocation are not modelled. Shrinking the size simply forgets the elements past it.
- The `std::is_constant_evaluated()` branches are not modelled, only the run-time paths. In constant evaluation dynarr allocates a heap block for its inline elements, but its capacity still starts at and resets to K (include/gdt/dynarr.hxx:96, 822, 943), so the capacities are the same on both paths. The dynarr test repeats the vector test's capacity expectations: capacity 0 after a move (test/dynarr.cxx:97) and capacity 3 for three ints (test/dynarr.cxx:98, 331, 353). The code gives K and 4 on either path (`Dynarrs.BracedThreeIntsGrowToFour`), so those assertions fail and the compile-time test cannot compile.
- Allocation failure is not modelled. `gdt_assert` and `gdt_assume` conditions on callers become preconditions, and the wrap-around checks they guard are stated as `size + n <= max_size`.
- Exceptions are not modelled. No operation is left half-done.
- An inserted value that aliases an element of the container itself is not modelled. Values are passed as values.
- Iterator classes, reverse iterators, deduction guides and `get_allocator` are not modelled. Positions are indices and ranges are sequences. A range's iterator category is the `bidirectional` flag, or the choice of `InsertEach`, `AssignEach` or `FromEach` for an input-only range; the as-written members take it as a `Category` value.
- Self-swap is excluded by `Disjoint`. The source's swap does not special-case it.
- The difference type's range is not modelled for fill iterator counters. The counters are unbounded integers.
- `vector`'s `_push_back` compares iterators with `<`, which only random-access iterators support, so as written `vector(first, last)` and `assign(first, last)` compile only for random-access ranges (see Findings). The model appends a sequence and gives every category the evidently intended result.
- The free `erase` and `erase_if` for vector (include/gdt/vector.hxx:1224-1239) are declared on `std::vector`. `erase`'s lambda returns nothing and `erase_if` is an unfinished stub with no return, so there is no behaviour to model.
- The source shifts elements in two loops, constructing slots past the old end and then assigning over live slots (`_make_gap`, `_insert_mid_buffer`). The model does this as one backward move (`Buffers.MoveUp`), because it does not track object lifetime.
- Dynarrs.Dynarr.Compare and Vectors.Vector.Compare take the element comparison as a function returning an ordering. The lemmas about it assume it is a strong ordering, which is what the source's `<=>` over strongly ordered elements gives.
- Dynarrs.Dynarr.ShrinkToFit: does not state which of the old or a fresh heap buffer is kept, only that one of them is.

## Findings

| source | as written | input that shows it | evidently intended | confidence | as-written member | corrected member |
|---|---|---|---|---|---|---|
| include/gdt_detail/fill_iterator.hxx:85-90 | `it - n` adds n to the counter | any n != 0: `(it + n) - n` ends 2n positions from it | subtract n | high, not executed | FillIterators.SubtractAsWrittenIsNotInverse | FillIterators.Subtract |
| include/gdt/vec.hxx:65-69 | the brace list reads `yz[0]. yz[1]`, a member access instead of two components | `vec4<int>(1, vec2<int>(2, 3), 4)` does not compile | `{x, yz[0], yz[1], w}` | high, not executed | Vecs.Vec4Of121AsWrittenBuildsNothing | Vecs.Vec4Of121 |
| include/gdt/vec.hxx:111-122 | `operator[]` assumes `i <= N` | `v[N]` passes the assumption and reads past the components | `i < N` | high, not executed | Vecs.SubscriptGuardAdmitsOnePastEnd | Vecs.Subscript |
| include/gdt/dynarr.hxx:519-530 | `operator[]` assumes `i <= capacity()` | `a[a.capacity()]` passes, one past the buffer | `i < size()` | medium, not executed | Dynarrs.SubscriptGuardAdmitsPastBuffer | Dynarrs.Dynarr.At |
| include/gdt/dynarr.hxx:1193 | `_insert_mid_buffer` assumes the new size exceeds the old | `a.insert(a.begin(), 0, v)` on a non-empty dynarr reaches it with equal sizes | an empty range is a no-op | medium, not executed | Dynarrs.MidBufferAssumeFailsOnEmptyRange | Dynarrs.Dynarr.InsertMidBuffer |
| include/gdt/dynarr.hxx:1244-1247 | the forward fill passes both arguments to `std::addressof` | `a.insert(a.end(), l.begin(), l.end())` with a `std::forward_list<int>` l and a `dynarr<int>` a fails to compile, because `_insert_mid_buffer` is instantiated whatever the position | `_construct(std::addressof(*dst++), *first++)` | high, not executed | Dynarrs.InsertAsWritten | Buffers.FillGap |
| include/gdt/dynarr.hxx:1093-1099 | the input-only `insert` keeps `pos` and `dst` as iterators and adds them to `begin()` | inserting a `std::istream_iterator<int>` range into a `dynarr<int>` fails to compile | indices, as vector does at include/gdt/vector.hxx:656-666 | high, not executed | Dynarrs.InsertAsWritten | Dynarrs.Dynarr.InsertEach |
| include/gdt/vector.hxx:911-917 | `_push_back` loops while `first < last` | `v.assign(l.begin(), l.end())` or `vector<int>(l.begin(), l.end())` with a `std::list<int>` l fails to compile: bidirectional iterators have no `<` | `first != last` | high, not executed | Vectors.AssignAsWritten | Vectors.Vector.Assign |
| include/gdt/dynarr.hxx:447-449 | `max_size()` goes through `std::allocator_traits`, which cannot call the non-const `allocator::max_size` (include/gdt/allocator.hxx:45) and falls back to `size_type` max / `sizeof(T)` | `dynarr<char>` on a 64-bit platform reports SIZE_MAX; a request for PTRDIFF_MAX + 1 elements passes the containers' checks and stops in `allocate` | the allocator's own limit, with `max_size` declared const | medium, not executed | Dynarrs.MaxSizeAsWrittenExceedsAllocator | Allocators.MaxSize |
