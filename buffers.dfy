/**
 * The element-moving loops both containers are built from: moving a run of
 * elements into another buffer (`_migrate`, and `std::move` between two
 * containers), and shifting a run inside one buffer towards the front
 * (`std::move`) or towards the back (`std::move_backward`).
 *
 * A move leaves the destination holding the source's values; what remains in
 * a moved-from slot is not relied upon by either container.
 */
module Buffers {
  import opened Sequences

  /** Moves n elements from src[sOff ..] to dst[dOff ..]; nothing else in dst changes. */
  method MoveRange<T>(dst: array<T>, dOff: nat, src: array<T>, sOff: nat, n: nat)
    requires dst != src && dOff + n <= dst.Length && sOff + n <= src.Length
    modifies dst
    ensures dst[dOff..dOff + n] == src[sOff..sOff + n]
    ensures dst[..dOff] == old(dst[..dOff]) && dst[dOff + n..] == old(dst[dOff + n..])
  {
    for i := 0 to n
      invariant dst[dOff..dOff + i] == src[sOff..sOff + i]
      invariant dst[..dOff] == old(dst[..dOff]) && dst[dOff + n..] == old(dst[dOff + n..])
    {
      dst[dOff + i] := src[sOff + i];
    }
  }

  /**
   * std::move(b + from, b + to, b + dst) with dst <= from: shifts the run
   * towards the front, first element first, so no source is overwritten
   * before it is read. Returns the end of the destination run.
   */
  method MoveDown<T>(b: array<T>, from: nat, to: nat, dst: nat) returns (dstEnd: nat)
    requires dst <= from <= to <= b.Length
    modifies b
    ensures dstEnd == dst + (to - from)
    ensures b[dst..dstEnd] == old(b[from..to])
    ensures b[..dst] == old(b[..dst]) && b[to..] == old(b[to..])
  {
    ghost var e := b[..];
    var i := 0;
    while i < to - from
      invariant 0 <= i <= to - from
      invariant forall j :: dst <= j < dst + i ==> b[j] == e[from + j - dst]
      invariant forall j :: 0 <= j < dst ==> b[j] == e[j]
      invariant forall j :: from + i <= j < b.Length ==> b[j] == e[j]
    {
      b[dst + i] := b[from + i];
      i := i + 1;
    }
    dstEnd := dst + (to - from);
    assert b[dst..dstEnd] == e[from..to];
  }

  /**
   * std::move_backward(b + from, b + to, b + dstEnd) with dstEnd >= to: shifts
   * the run towards the back, last element first, so that it ends at dstEnd.
   */
  method MoveUp<T>(b: array<T>, from: nat, to: nat, dstEnd: nat)
    requires from <= to <= dstEnd <= b.Length
    modifies b
    ensures b[dstEnd - (to - from)..dstEnd] == old(b[from..to])
    ensures b[..from] == old(b[..from]) && b[dstEnd..] == old(b[dstEnd..])
  {
    ghost var e := b[..];
    var shift := dstEnd - to;
    var i := to;
    while i > from
      invariant from <= i <= to
      invariant forall j :: i + shift <= j < dstEnd ==> b[j] == e[j - shift]
      invariant forall j :: 0 <= j < i ==> b[j] == e[j]
      invariant forall j :: dstEnd <= j < b.Length ==> b[j] == e[j]
    {
      i := i - 1;
      b[i + shift] := b[i];
    }
    assert b[dstEnd - (to - from)..dstEnd] == e[from..to];
  }

  /**
   * Exchanges the live prefixes of two equally sized inline buffers: the
   * first aSize elements of a and the first bSize elements of b. The common
   * part is swapped element by element; the longer prefix's surplus is then
   * moved across.
   */
  method SwapPrefixes<T>(a: array<T>, aSize: nat, b: array<T>, bSize: nat)
    requires a != b && a.Length == b.Length && aSize <= a.Length && bSize <= b.Length
    modifies a, b
    ensures a[..bSize] == old(b[..bSize]) && b[..aSize] == old(a[..aSize])
  {
    ghost var a0, b0 := a[..], b[..];
    var common := if aSize <= bSize then aSize else bSize;
    for i := 0 to common
      invariant forall j :: 0 <= j < i ==> a[j] == b0[j] && b[j] == a0[j]
      invariant forall j :: i <= j < a.Length ==> a[j] == a0[j] && b[j] == b0[j]
    {
      a[i], b[i] := b[i], a[i];
    }
    for i := common to bSize
      invariant forall j :: 0 <= j < i ==> a[j] == b0[j]
      invariant forall j :: i <= j < a.Length ==> a[j] == a0[j]
      invariant forall j :: 0 <= j < common ==> b[j] == a0[j]
      invariant forall j :: common <= j < b.Length ==> b[j] == b0[j]
    {
      a[i] := b[i];
    }
    for i := common to aSize
      invariant forall j :: 0 <= j < i ==> b[j] == a0[j]
      invariant forall j :: 0 <= j < bSize ==> a[j] == b0[j]
      invariant forall j :: common <= j < aSize ==> a[j] == a0[j]
    {
      b[i] := a[i];
    }
    assert a[..bSize] == b0[..bSize];
    assert b[..aSize] == a0[..aSize];
  }

  /**
   * The fill of a mid-buffer insertion: writes src into the gap b[p .. p + |src|).
   * From a bidirectional range it goes back to front (past the old end
   * first, then over the moved-from slots), from a forward-only range front
   * to back (over the moved-from slots first, then past the old end).
   */
  method FillGap<T>(b: array<T>, p: nat, oldEnd: nat, src: seq<T>, bidirectional: bool)
    requires p <= oldEnd && p + |src| <= b.Length
    modifies b
    ensures b[p..p + |src|] == src
    ensures b[..p] == old(b[..p]) && b[p + |src|..] == old(b[p + |src|..])
  {
    ghost var e := b[..];
    var k := |src|;
    if bidirectional {
      var dst, last := p + k, k;
      while dst > oldEnd
        invariant p <= dst <= p + k && last == dst - p
        invariant forall j :: dst <= j < p + k ==> b[j] == src[j - p]
        invariant forall j :: 0 <= j < dst ==> b[j] == e[j]
        invariant forall j :: p + k <= j < b.Length ==> b[j] == e[j]
      {
        dst, last := dst - 1, last - 1;
        b[dst] := src[last];
      }
      while dst > p
        invariant p <= dst <= p + k && last == dst - p
        invariant forall j :: dst <= j < p + k ==> b[j] == src[j - p]
        invariant forall j :: 0 <= j < dst ==> b[j] == e[j]
        invariant forall j :: p + k <= j < b.Length ==> b[j] == e[j]
      {
        dst, last := dst - 1, last - 1;
        b[dst] := src[last];
      }
    } else {
      var dst, first := p, 0;
      while dst < p + k && dst < oldEnd
        invariant p <= dst <= p + k && first == dst - p
        invariant forall j :: p <= j < dst ==> b[j] == src[j - p]
        invariant forall j :: 0 <= j < p ==> b[j] == e[j]
        invariant forall j :: dst <= j < b.Length ==> b[j] == e[j]
      {
        b[dst] := src[first];
        dst, first := dst + 1, first + 1;
      }
      while dst < p + k
        invariant p <= dst <= p + k && first == dst - p
        invariant forall j :: p <= j < dst ==> b[j] == src[j - p]
        invariant forall j :: 0 <= j < p ==> b[j] == e[j]
        invariant forall j :: dst <= j < b.Length ==> b[j] == e[j]
      {
        b[dst] := src[first];
        dst, first := dst + 1, first + 1;
      }
    }
    assert b[p..p + k] == src;
  }

  /** Copies the range src into dst[off .. off + |src|), first element first. */
  method CopyIn<T>(dst: array<T>, off: nat, src: seq<T>)
    requires off + |src| <= dst.Length
    modifies dst
    ensures dst[off..off + |src|] == src
    ensures dst[..off] == old(dst[..off]) && dst[off + |src|..] == old(dst[off + |src|..])
  {
    for i := 0 to |src|
      invariant dst[off..off + i] == src[..i]
      invariant dst[..off] == old(dst[..off]) && dst[off + |src|..] == old(dst[off + |src|..])
    {
      dst[off + i] := src[i];
      assert dst[off..off + i + 1] == dst[off..off + i] + [dst[off + i]];
      assert src[..i + 1] == src[..i] + [src[i]];
    }
    assert src[..|src|] == src;
  }

  /**
   * Opens a one-element gap at p in the n live elements of b: the last
   * element is copied into the free slot at n, then b[p .. n - 1) is moved
   * back by one (std::move_backward). Afterwards b[p + 1 .. n + 1) holds
   * what b[p .. n) held.
   */
  method OpenSlot<T>(b: array<T>, p: nat, n: nat)
    requires p < n < b.Length
    modifies b
    ensures b[..p] == old(b[..p]) && b[p + 1..n + 1] == old(b[p..n])
    ensures b[n + 1..] == old(b[n + 1..])
  {
    ghost var e := b[..];
    b[n] := b[n - 1];
    MoveUp(b, p, n - 1, n);
    assert b[p + 1..n + 1] == b[p + 1..n] + [b[n]];
    assert e[p..n] == e[p..n - 1] + [e[n - 1]];
  }

  /**
   * The migration of a range insertion: fills the new buffer dst with the n
   * live elements of src, with ins placed before position p.
   */
  method MigrateAround<T>(dst: array<T>, src: array<T>, n: nat, p: nat, ins: seq<T>)
    requires dst != src && p <= n <= src.Length && n + |ins| <= dst.Length
    modifies dst
    ensures dst[..n + |ins|] == src[..p] + ins + src[p..n]
  {
    var k := |ins|;
    MoveRange(dst, 0, src, 0, p);
    CopyIn(dst, p, ins);
    assert dst[..p + k] == src[..p] + ins;
    MoveRange(dst, p + k, src, p, n - p);
    assert dst[..n + k] == dst[..p + k] + dst[p + k..n + k];
  }

  /**
   * A range insertion inside one buffer: the tail b[p .. n) is shifted back
   * by |ins| slots and the gap filled from ins, so that the first n + |ins|
   * slots hold ins spliced into the n live elements at p.
   */
  method InsertInPlace<T>(b: array<T>, n: nat, p: nat, ins: seq<T>, bidirectional: bool)
    requires p <= n && n + |ins| <= b.Length
    modifies b
    ensures b[..n + |ins|] == old(b[..p]) + ins + old(b[p..n])
  {
    var k := |ins|;
    MoveUp(b, p, n, n + k);
    FillGap(b, p, n, ins, bidirectional);
    assert b[..n + k] == b[..p] + b[p..p + k] + b[p + k..n + k];
  }

  /**
   * std::remove_if over the n live elements of b: every element that does
   * not satisfy pred is moved forward over the removed ones, in order.
   * Returns the end of the kept run.
   */
  method RemoveIfInPlace<T>(b: array<T>, n: nat, pred: T -> bool) returns (j: nat)
    requires n <= b.Length
    modifies b
    ensures j <= n && b[..j] == RemoveIf(old(b[..n]), pred)
  {
    ghost var e := b[..n];
    j := 0;
    for i := 0 to n
      invariant j <= i && b[..j] == RemoveIf(e[..i], pred)
      invariant forall m :: i <= m < n ==> b[m] == e[m]
    {
      assert e[..i + 1][..i] == e[..i];
      assert RemoveIf(e[..i + 1], pred) == RemoveIf(e[..i], pred) + (if pred(e[i]) then [] else [e[i]]);
      if !pred(b[i]) {
        b[j] := b[i];
        j := j + 1;
      }
    }
    assert e[..n] == e;
  }
}
