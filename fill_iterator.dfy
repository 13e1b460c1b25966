/**
 * gdt_detail::fill_iterator: a random-access iterator over "n copies of one
 * value", used by `insert(pos, n, value)` to feed the range insertion.
 *
 * It holds a pointer to the fill value and an iteration counter. Every
 * position dereferences to the same value; only the counter moves. The
 * iterator is a two-word value type: its in-place operators (`++`, `--`,
 * `+=`, `-=`) are modelled as functions giving the updated value, which the
 * caller stores back in its variable.
 */
module FillIterators {
  import opened Sequences

  /** The object the iterator's `const T*` points at. */
  class Cell<T> {
    const value: T

    constructor (v: T)
      ensures value == v
    {
      value := v;
    }
  }

  datatype FillIterator<T> = FillIterator(ptr: Cell<T>, iteration: int)

  /** Two iterators taken from the same fill value; comparing others is undefined. */
  predicate SameRange<T>(a: FillIterator<T>, b: FillIterator<T>)
  {
    a.ptr == b.ptr
  }

  /** `a - b` for two iterators: the difference of the counters. */
  function Distance<T>(a: FillIterator<T>, b: FillIterator<T>): int
    requires SameRange(a, b)
  {
    a.iteration - b.iteration
  }

  /** `*it` (and `it->`): the fill value. */
  function Deref<T>(it: FillIterator<T>): T
  {
    it.ptr.value
  }

  /** `it[n]`: also the fill value, whatever n is. */
  function Subscript<T>(it: FillIterator<T>, n: int): T
  {
    it.ptr.value
  }

  /** Every position of a fill range reads the same value. */
  lemma DerefIgnoresPosition<T>(it: FillIterator<T>, n: int, m: int)
    ensures Subscript(it, n) == Deref(it)
    ensures Deref(Add(it, m)) == Deref(it) && Deref(Subtract(it, m)) == Deref(it)
  {}

  /** `++it`: one step forward. */
  function PreIncrement<T>(it: FillIterator<T>): (r: FillIterator<T>)
    ensures SameRange(r, it) && Distance(r, it) == 1
  {
    it.(iteration := it.iteration + 1)
  }

  /** `--it`: one step back. */
  function PreDecrement<T>(it: FillIterator<T>): (r: FillIterator<T>)
    ensures SameRange(r, it) && Distance(r, it) == -1
  {
    it.(iteration := it.iteration - 1)
  }

  /** `it++`: yields the iterator as it was, and the variable moves one step forward. */
  function PostIncrement<T>(it: FillIterator<T>): (r: (FillIterator<T>, FillIterator<T>))
    ensures r.0 == it && r.1 == PreIncrement(it)
  {
    (it, it.(iteration := it.iteration + 1))
  }

  /** `it--`: yields the iterator as it was, and the variable moves one step back. */
  function PostDecrement<T>(it: FillIterator<T>): (r: (FillIterator<T>, FillIterator<T>))
    ensures r.0 == it && r.1 == PreDecrement(it)
  {
    (it, it.(iteration := it.iteration - 1))
  }

  /** `it + n`: n steps forward. */
  function Add<T>(it: FillIterator<T>, n: int): (r: FillIterator<T>)
    ensures SameRange(r, it) && Distance(r, it) == n
  {
    FillIterator(it.ptr, it.iteration + n)
  }

  /** `n + it`: the same as `it + n`. */
  function AddLeft<T>(n: int, it: FillIterator<T>): (r: FillIterator<T>)
    ensures r == Add(it, n)
  {
    FillIterator(it.ptr, n + it.iteration)
  }

  /** `it - n` as written: the counter is increased, so the result is where `it + n` points. */
  function SubtractAsWritten<T>(it: FillIterator<T>, n: int): (r: FillIterator<T>)
    ensures r == Add(it, n)
  {
    FillIterator(it.ptr, it.iteration + n)
  }

  /** `it - n` as evidently intended: n steps back. */
  function Subtract<T>(it: FillIterator<T>, n: int): (r: FillIterator<T>)
    ensures SameRange(r, it) && Distance(it, r) == n
  {
    FillIterator(it.ptr, it.iteration - n)
  }

  /** `it += n` leaves the variable where `it + n` points. */
  function AddAssign<T>(it: FillIterator<T>, n: int): (r: FillIterator<T>)
    ensures r == Add(it, n)
  {
    it.(iteration := it.iteration + n)
  }

  /** `it -= n` leaves the variable n steps back. */
  function SubtractAssign<T>(it: FillIterator<T>, n: int): (r: FillIterator<T>)
    ensures SameRange(r, it) && Distance(it, r) == n
  {
    it.(iteration := it.iteration - n)
  }

  /** `a == b`: the same position in the same fill range. */
  predicate Same<T>(a: FillIterator<T>, b: FillIterator<T>)
    requires SameRange(a, b)
  {
    a.iteration == b.iteration
  }

  /** `a <=> b`: the counters' order. */
  function Compare<T>(a: FillIterator<T>, b: FillIterator<T>): (r: Ordering)
    requires SameRange(a, b)
    ensures r == Less <==> Distance(a, b) < 0
    ensures r == Equal <==> Same(a, b)
    ensures r == Greater <==> Distance(a, b) > 0
  {
    if a.iteration < b.iteration then Less
    else if a.iteration == b.iteration then Equal
    else Greater
  }

  /** Stepping forward and back again, or adding and then subtracting, returns to the same iterator. */
  lemma StepsAreInverse<T>(it: FillIterator<T>, n: int)
    ensures PreDecrement(PreIncrement(it)) == it && PreIncrement(PreDecrement(it)) == it
    ensures Subtract(Add(it, n), n) == it && SubtractAssign(AddAssign(it, n), n) == it
    ensures Add(it, Distance(Add(it, n), it)) == Add(it, n)
  {}

  /** As written, `(it + n) - n` is n steps further on, not back at it. */
  lemma SubtractAsWrittenIsNotInverse<T>(it: FillIterator<T>, n: int)
    requires n != 0
    ensures SubtractAsWritten(Add(it, n), n) != it
    ensures Distance(SubtractAsWritten(Add(it, n), n), it) == 2 * n
  {}

  /** The values a loop reads while advancing `first` until it equals `last`. */
  function Values<T>(first: FillIterator<T>, last: FillIterator<T>): (r: seq<T>)
    requires SameRange(first, last) && Distance(last, first) >= 0
    ensures r == Repeat(first.ptr.value, Distance(last, first))
    decreases Distance(last, first)
  {
    if Same(first, last) then [] else [Deref(first)] + Values(PreIncrement(first), last)
  }

  /**
   * The pair `fill_iterator(&v, 0)`, `fill_iterator(&v, n)` that
   * `insert(pos, n, v)` builds is n positions apart and reads n copies of v.
   */
  lemma FillRangeIsRepeat<T>(c: Cell<T>, n: nat)
    ensures Distance(FillIterator(c, n), FillIterator(c, 0)) == n
    ensures Values(FillIterator(c, 0), FillIterator(c, n)) == Repeat(c.value, n)
  {}
}
