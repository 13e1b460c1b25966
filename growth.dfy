/**
 * The growth rule shared by dynarr and vector (`_choose_new_capacity` and
 * `_choose_next_capacity`; both containers carry the same code).
 *
 * Capacities live in the allocator's unsigned size type, whose largest value
 * is `sizeMax`; doubling is done in that type and so wraps around.
 */
module Growth {

  function Max(a: nat, b: nat): nat { if a >= b then a else b }
  function Min(a: nat, b: nat): nat { if a <= b then a else b }

  /**
   * `size_type(capacity * 2)`: doubling in the size type, reduced modulo
   * sizeMax + 1. Since capacity <= sizeMax, the product is below twice the
   * modulus, so at most one subtraction of the modulus is needed.
   */
  function Doubled(capacity: nat, sizeMax: nat): (r: nat)
    requires capacity <= sizeMax
    ensures r <= sizeMax
    ensures 2 * capacity <= sizeMax ==> r == 2 * capacity
    ensures 2 * capacity > sizeMax ==> r < capacity && r + sizeMax + 1 == 2 * capacity
  {
    if 2 * capacity > sizeMax then 2 * capacity - (sizeMax + 1) else 2 * capacity
  }

  /**
   * _choose_new_capacity(req): the doubled capacity, replaced by max_size when
   * the doubling wrapped or went past max_size, and never less than req. The
   * wrap test makes this exactly max(req, min(2 * capacity, max_size)).
   */
  function ChooseNewCapacity(capacity: nat, req: nat, maxSize: nat, sizeMax: nat): (r: nat)
    requires capacity <= maxSize <= sizeMax
    ensures r == Max(req, Min(2 * capacity, maxSize))
    ensures r >= req && (req <= maxSize ==> r <= maxSize)
  {
    var x2 := Doubled(capacity, sizeMax);
    var clamped := if x2 < capacity || x2 > maxSize then maxSize else x2;
    Max(req, clamped)
  }

  /**
   * _choose_next_capacity: room for one more element. `capacity + 1` must not
   * wrap to zero in the size type, which the source asserts.
   */
  function ChooseNextCapacity(capacity: nat, maxSize: nat, sizeMax: nat): (r: nat)
    requires capacity <= maxSize <= sizeMax && capacity < sizeMax
    ensures r > capacity
  {
    ChooseNewCapacity(capacity, capacity + 1, maxSize, sizeMax)
  }

  /**
   * The capacity reached by appending one element at a time, starting at
   * `capacity`, until there are n elements: whenever the container is full
   * it grows to the next capacity. The result covers n, stays within
   * max_size, is unchanged when n already fits, and otherwise is less than
   * twice n.
   */
  function GrownTo(capacity: nat, n: nat, maxSize: nat, sizeMax: nat): (r: nat)
    requires capacity <= maxSize <= sizeMax && n <= maxSize
    ensures capacity <= r && n <= r <= maxSize
    ensures n <= capacity ==> r == capacity
    ensures n > capacity ==> r < 2 * n
    decreases maxSize - capacity
  {
    if n <= capacity then capacity
    else GrownTo(ChooseNextCapacity(capacity, maxSize, sizeMax), n, maxSize, sizeMax)
  }

  /**
   * One append on the way to n elements, which grows a full container to
   * the next capacity, leaves the capacity finally reached unchanged.
   */
  lemma GrownToStep(capacity: nat, next: nat, size: nat, n: nat, maxSize: nat, sizeMax: nat)
    requires capacity <= maxSize <= sizeMax && size <= capacity && size < n <= maxSize
    requires next == if size == capacity then ChooseNextCapacity(capacity, maxSize, sizeMax) else capacity
    ensures next <= maxSize && GrownTo(next, n, maxSize, sizeMax) == GrownTo(capacity, n, maxSize, sizeMax)
  {
    if size == capacity {
      assert next == ChooseNewCapacity(capacity, capacity + 1, maxSize, sizeMax);
    }
  }

  /**
   * Geometric growth: a container that fills up and grows again gets at least
   * double its capacity, unless that would pass max_size, in which case it
   * gets exactly max_size.
   */
  lemma NextCapacityDoublesOrSaturates(capacity: nat, maxSize: nat, sizeMax: nat)
    requires capacity < maxSize <= sizeMax
    ensures var r := ChooseNextCapacity(capacity, maxSize, sizeMax);
      capacity < r <= maxSize && (r >= 2 * capacity || r == maxSize)
  {}

  /** Growing never asks for more than the request unless the request is below double the capacity. */
  lemma NewCapacityIsRequestWhenLarge(capacity: nat, req: nat, maxSize: nat, sizeMax: nat)
    requires capacity <= maxSize <= sizeMax && req >= 2 * capacity
    ensures ChooseNewCapacity(capacity, req, maxSize, sizeMax) == req
  {}

  /** reserve(46) on a capacity-45 container yields 90; growing a full capacity-2 vector by one yields 4. */
  lemma GrowthExamples(maxSize: nat, sizeMax: nat)
    requires 90 <= maxSize <= sizeMax
    ensures ChooseNewCapacity(45, 46, maxSize, sizeMax) == 90
    ensures ChooseNewCapacity(2, 3, maxSize, sizeMax) == 4
    ensures ChooseNextCapacity(2, maxSize, sizeMax) == 4
  {}

  /** Three push_backs onto an empty vector grow the capacity 0, 1, 2 and then 4. */
  lemma GrownToExample(maxSize: nat, sizeMax: nat)
    requires 4 <= maxSize <= sizeMax
    ensures GrownTo(0, 3, maxSize, sizeMax) == 4
  {
    assert ChooseNextCapacity(0, maxSize, sizeMax) == 1;
    assert ChooseNextCapacity(1, maxSize, sizeMax) == 2;
    assert ChooseNextCapacity(2, maxSize, sizeMax) == 4;
    assert GrownTo(2, 3, maxSize, sizeMax) == GrownTo(4, 3, maxSize, sizeMax);
    assert GrownTo(1, 3, maxSize, sizeMax) == GrownTo(2, 3, maxSize, sizeMax);
  }

  /** With an 8-bit size type, doubling 200 wraps to 144; the wrap test then picks max_size. */
  lemma WrappedDoublingSaturates()
    ensures Doubled(200, 255) == 144
    ensures ChooseNewCapacity(200, 201, 255, 255) == 255
  {}
}
