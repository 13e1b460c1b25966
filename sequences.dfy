/**
 * Sequence vocabulary for the containers' contents: the value sequence a
 * container holds, the results of inserting and erasing, the
 * lexicographic three-way comparison and the removal of matching elements.
 */
module Sequences {

  /** The result of a three-way comparison (`<=>`). */
  datatype Ordering = Less | Equal | Greater

  /** A value, or nothing where the source has no well-formed result. */
  datatype Option<T> = None | Some(value: T)

  /**
   * The iterator category of a source range: the strongest of the
   * standard input, forward, bidirectional and random-access tags its
   * iterator's category derives from.
   */
  datatype Category = InputOnly | ForwardOnly | Bidirectional | RandomAccess

  function Flip(o: Ordering): Ordering
  {
    match o
    case Less => Greater
    case Equal => Equal
    case Greater => Less
  }

  /** n copies of v. */
  function Repeat<T>(v: T, n: nat): (r: seq<T>)
    ensures |r| == n && forall i :: 0 <= i < n ==> r[i] == v
  {
    if n == 0 then [] else Repeat(v, n - 1) + [v]
  }

  /** `e` with `ins` placed before position p. */
  function Splice<T>(e: seq<T>, p: nat, ins: seq<T>): seq<T>
    requires p <= |e|
  {
    e[..p] + ins + e[p..]
  }

  /** Where each element of a splice comes from. */
  lemma SpliceAt<T>(e: seq<T>, p: nat, ins: seq<T>)
    requires p <= |e|
    ensures |Splice(e, p, ins)| == |e| + |ins|
    ensures forall j :: 0 <= j < p ==> Splice(e, p, ins)[j] == e[j]
    ensures forall j :: p <= j < p + |ins| ==> Splice(e, p, ins)[j] == ins[j - p]
    ensures forall j :: p + |ins| <= j < |e| + |ins| ==> Splice(e, p, ins)[j] == e[j - |ins|]
  {}

  /**
   * Inserting a range one element at a time, each after the ones already
   * inserted, builds the same sequence as inserting it at once.
   */
  lemma SpliceOneMore<T>(e: seq<T>, p: nat, ins: seq<T>, x: T)
    requires p <= |e|
    ensures p + |ins| <= |Splice(e, p, ins)|
    ensures Splice(Splice(e, p, ins), p + |ins|, [x]) == Splice(e, p, ins + [x])
  {
    var s := Splice(e, p, ins);
    assert s[..p + |ins|] == e[..p] + ins;
    assert s[p + |ins|..] == e[p..];
  }

  /** SpliceOneMore for the next element of a range inserted one at a time. */
  lemma SpliceNext<T>(e: seq<T>, p: nat, src: seq<T>, i: nat)
    requires p <= |e| && i < |src|
    ensures p + i <= |Splice(e, p, src[..i])|
    ensures Splice(Splice(e, p, src[..i]), p + i, [src[i]]) == Splice(e, p, src[..i + 1])
  {
    SpliceOneMore(e, p, src[..i], src[i]);
    assert src[..i] + [src[i]] == src[..i + 1];
  }

  /** `e` without the elements at positions first .. last - 1. */
  function Erased<T>(e: seq<T>, first: nat, last: nat): seq<T>
    requires first <= last <= |e|
  {
    e[..first] + e[last..]
  }

  /** Erasing what was just inserted gives back the original sequence. */
  lemma EraseUndoesSplice<T>(e: seq<T>, p: nat, ins: seq<T>)
    requires p <= |e|
    ensures Erased(Splice(e, p, ins), p, p + |ins|) == e
  {
    var s := Splice(e, p, ins);
    assert s[..p] == e[..p];
    assert s[p + |ins|..] == e[p..];
  }

  /**
   * Lexicographic three-way comparison with the element comparison `cmp`:
   * the first position where the elements differ decides; otherwise the
   * shorter sequence is the lesser.
   */
  function Lex<T>(a: seq<T>, b: seq<T>, cmp: (T, T) -> Ordering): Ordering
  {
    if a == [] && b == [] then Equal
    else if a == [] then Less
    else if b == [] then Greater
    else if cmp(a[0], b[0]) != Equal then cmp(a[0], b[0])
    else Lex(a[1..], b[1..], cmp)
  }

  /** The element comparison reports Equal exactly for equal values. */
  ghost predicate EqualMeansSame<T(!new)>(cmp: (T, T) -> Ordering)
  {
    forall x, y :: cmp(x, y) == Equal <==> x == y
  }

  /** Swapping the operands flips the element comparison. */
  ghost predicate Antisymmetric<T(!new)>(cmp: (T, T) -> Ordering)
  {
    forall x, y :: cmp(y, x) == Flip(cmp(x, y))
  }

  /** Less is transitive, and Equal elements are interchangeable. */
  ghost predicate Transitive<T(!new)>(cmp: (T, T) -> Ordering)
  {
    (forall x, y, z :: cmp(x, y) == Less && cmp(y, z) == Less ==> cmp(x, z) == Less) &&
    (forall x, y, z :: cmp(x, y) == Equal ==> cmp(x, z) == cmp(y, z))
  }

  /** With an exact element comparison, Lex reports Equal exactly for equal sequences. */
  lemma {:induction false} LexEqualIffSame<T(!new)>(a: seq<T>, b: seq<T>, cmp: (T, T) -> Ordering)
    requires EqualMeansSame(cmp)
    ensures Lex(a, b, cmp) == Equal <==> a == b
  {
    if a != [] && b != [] && cmp(a[0], b[0]) == Equal {
      LexEqualIffSame(a[1..], b[1..], cmp);
      assert a == [a[0]] + a[1..] && b == [b[0]] + b[1..];
    }
  }

  /** Comparing the other way round flips the result. */
  lemma {:induction false} LexAntisymmetric<T(!new)>(a: seq<T>, b: seq<T>, cmp: (T, T) -> Ordering)
    requires Antisymmetric(cmp)
    ensures Lex(b, a, cmp) == Flip(Lex(a, b, cmp))
  {
    if a != [] && b != [] {
      assert cmp(b[0], a[0]) == Flip(cmp(a[0], b[0]));
      if cmp(a[0], b[0]) == Equal {
        LexAntisymmetric(a[1..], b[1..], cmp);
      }
    }
  }

  /** Lexicographic Less is transitive when the element order is. */
  lemma {:induction false} LexTransitive<T(!new)>(a: seq<T>, b: seq<T>, c: seq<T>, cmp: (T, T) -> Ordering)
    requires Transitive(cmp) && Antisymmetric(cmp)
    requires Lex(a, b, cmp) == Less && Lex(b, c, cmp) == Less
    ensures Lex(a, c, cmp) == Less
  {
    if a != [] && c != [] {
      assert b != [];
      var ab, bc := cmp(a[0], b[0]), cmp(b[0], c[0]);
      if ab == Equal && bc == Equal {
        assert cmp(a[0], c[0]) == Equal;
        LexTransitive(a[1..], b[1..], c[1..], cmp);
      } else if ab == Equal {
        assert cmp(a[0], c[0]) == bc;
      } else if bc == Equal {
        assert cmp(b[0], a[0]) == Flip(ab);
        assert cmp(c[0], a[0]) == cmp(b[0], a[0]) by {
          assert cmp(c[0], b[0]) == Equal;
        }
      }
    }
  }

  /** A proper prefix compares Less than the longer sequence. */
  lemma {:induction false} LexPrefixIsLess<T(!new)>(a: seq<T>, rest: seq<T>, cmp: (T, T) -> Ordering)
    requires EqualMeansSame(cmp) && rest != []
    ensures Lex(a, a + rest, cmp) == Less
  {
    if a != [] {
      assert cmp(a[0], a[0]) == Equal;
      assert (a + rest)[1..] == a[1..] + rest;
      LexPrefixIsLess(a[1..], rest, cmp);
    }
  }

  /**
   * std::equal over two ranges with the element equality `eq` (T's
   * operator==): the lengths agree and the elements are pairwise equal.
   */
  function EqualBy<T>(a: seq<T>, b: seq<T>, eq: (T, T) -> bool): (r: bool)
    ensures r <==> |a| == |b| && forall i :: 0 <= i < |a| ==> eq(a[i], b[i])
  {
    if |a| != |b| then false
    else if a == [] then true
    else
      var r := EqualBy(a[1..], b[1..], eq);
      assert forall i :: 1 <= i < |a| ==> a[1..][i - 1] == a[i] && b[1..][i - 1] == b[i];
      eq(a[0], b[0]) && r
  }

  /** The element equality holds exactly where the comparison reports Equal. */
  ghost predicate Consistent<T(!new)>(eq: (T, T) -> bool, cmp: (T, T) -> Ordering)
  {
    forall x, y :: eq(x, y) <==> cmp(x, y) == Equal
  }

  /** When T's `==` is identity, std::equal holds exactly for equal sequences. */
  lemma EqualByExact<T(!new)>(a: seq<T>, b: seq<T>, eq: (T, T) -> bool)
    requires forall x, y :: eq(x, y) <==> x == y
    ensures EqualBy(a, b, eq) <==> a == b
  {
    if EqualBy(a, b, eq) {
      assert forall i :: 0 <= i < |a| ==> a[i] == b[i];
    }
  }

  /** A value that is not equal to itself, such as a floating-point NaN, makes a range unequal to itself. */
  lemma EqualByIrreflexive<T>(a: seq<T>, i: nat, eq: (T, T) -> bool)
    requires i < |a| && !eq(a[i], a[i])
    ensures !EqualBy(a, a, eq)
  {}

  /** With consistent `==` and `<=>` on elements, Lex reports Equal exactly when std::equal holds. */
  lemma {:induction false} LexEqualIffEqualBy<T(!new)>(a: seq<T>, b: seq<T>, eq: (T, T) -> bool, cmp: (T, T) -> Ordering)
    requires Consistent(eq, cmp)
    ensures Lex(a, b, cmp) == Equal <==> EqualBy(a, b, eq)
  {
    if a != [] && b != [] && cmp(a[0], b[0]) == Equal {
      LexEqualIffEqualBy(a[1..], b[1..], eq, cmp);
      if |a| == |b| {
        assert forall i :: 1 <= i < |a| ==> a[1..][i - 1] == a[i] && b[1..][i - 1] == b[i];
      }
    }
  }

  /** Lex only looks past a common prefix of equal elements. */
  lemma LexSkipsEqual<T>(a: seq<T>, b: seq<T>, i: nat, cmp: (T, T) -> Ordering)
    requires i < |a| && i < |b| && cmp(a[i], b[i]) == Equal
    ensures Lex(a[i..], b[i..], cmp) == Lex(a[i + 1..], b[i + 1..], cmp)
  {
    assert a[i..][1..] == a[i + 1..] && b[i..][1..] == b[i + 1..];
  }

  /** The elements of e that do not satisfy pred, in their original order (std::remove_if). */
  function RemoveIf<T>(e: seq<T>, pred: T -> bool): seq<T>
  {
    if e == [] then []
    else RemoveIf(e[..|e| - 1], pred) + (if pred(e[|e| - 1]) then [] else [e[|e| - 1]])
  }

  /** How many elements of e satisfy pred. */
  function CountIf<T>(e: seq<T>, pred: T -> bool): nat
  {
    if e == [] then 0
    else CountIf(e[..|e| - 1], pred) + (if pred(e[|e| - 1]) then 1 else 0)
  }

  /** remove_if keeps only non-matching elements, keeps all of them, and drops exactly the matching ones. */
  lemma {:induction false} RemoveIfProperties<T>(e: seq<T>, pred: T -> bool)
    ensures forall x :: x in RemoveIf(e, pred) <==> x in e && !pred(x)
    ensures |RemoveIf(e, pred)| + CountIf(e, pred) == |e|
    ensures CountIf(e, pred) == 0 ==> RemoveIf(e, pred) == e
  {
    if e != [] {
      var init := e[..|e| - 1];
      RemoveIfProperties(init, pred);
      assert e == init + [e[|e| - 1]];
    }
  }
}
