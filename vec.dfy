/**
 * gdt::vec<T, N>: a fixed-size vector of N components with constructors that
 * assemble it from scalars and smaller vectors, named component accessors
 * (x, y, z, w and their colour aliases r, g, b, a) and swizzles that build a
 * new 2-, 3- or 4-vector from any choice of named components.
 *
 * A vec is modelled as the sequence of its components; N is its length.
 */
module Vecs {
  import opened Sequences

  datatype Vec<T> = Vec(data: seq<T>)

  /** The component names; r, g, b, a are aliases of x, y, z, w. */
  datatype Component = X | Y | Z | W | R | G | B | A

  function Index(c: Component): nat
  {
    match c
    case X => 0 case Y => 1 case Z => 2 case W => 3
    case R => 0 case G => 1 case B => 2 case A => 3
  }

  /** x() .. w(), r() .. a(): the named component, available only when N exceeds its index. */
  function Get<T>(v: Vec<T>, c: Component): T
    requires Index(c) < |v.data|
  {
    v.data[Index(c)]
  }

  /** The colour names read the same components as the position names. */
  lemma ColourAliases<T>(v: Vec<T>)
    requires |v.data| == 4
    ensures Get(v, R) == Get(v, X) && Get(v, G) == Get(v, Y)
    ensures Get(v, B) == Get(v, Z) && Get(v, A) == Get(v, W)
  {}

  // ----- Subscript -----

  /** The guard `operator[]` places on its index, as written: i <= N. */
  predicate SubscriptAdmitsAsWritten(n: nat, i: nat)
  {
    i <= n
  }

  /**
   * `v[i]` as written: any index the guard admits is read, but index N is
   * past the last component, so that read has no defined result.
   */
  function SubscriptAsWritten<T>(v: Vec<T>, i: nat): (r: Option<T>)
    requires SubscriptAdmitsAsWritten(|v.data|, i)
    ensures r.Some? <==> i < |v.data|
  {
    if i < |v.data| then Some(v.data[i]) else None
  }

  /** The guard as written lets index N through, where no component exists. */
  lemma SubscriptGuardAdmitsOnePastEnd<T>(v: Vec<T>)
    ensures SubscriptAdmitsAsWritten(|v.data|, |v.data|)
    ensures SubscriptAsWritten(v, |v.data|) == None
  {}

  /** `v[i]` with the evidently intended guard i < N: the component that carries index i. */
  function Subscript<T>(v: Vec<T>, i: nat): (r: T)
    requires i < |v.data|
    ensures forall c :: Index(c) == i ==> r == Get(v, c)
  {
    v.data[i]
  }

  // ----- Swizzles -----

  /** All names from one family: the swizzles spell either position names or colour names. */
  predicate OneFamily(cs: seq<Component>)
  {
    (forall k :: 0 <= k < |cs| ==> cs[k] in {X, Y, Z, W}) ||
    (forall k :: 0 <= k < |cs| ==> cs[k] in {R, G, B, A})
  }

  predicate Available(n: nat, cs: seq<Component>)
  {
    forall k :: 0 <= k < |cs| ==> Index(cs[k]) < n
  }

  /** The named components, in the order named. */
  function Pick<T>(v: Vec<T>, cs: seq<Component>): (r: seq<T>)
    requires Available(|v.data|, cs)
    ensures |r| == |cs| && forall k :: 0 <= k < |cs| ==> r[k] == Get(v, cs[k])
  {
    if cs == [] then [] else Pick(v, cs[..|cs| - 1]) + [Get(v, cs[|cs| - 1])]
  }

  /**
   * A swizzle such as `v.zyx()` or `v.rrga()`: a fresh vec whose k-th
   * component is the k-th named component of v.
   */
  function Swizzle<T>(v: Vec<T>, cs: seq<Component>): (r: Vec<T>)
    requires 2 <= |cs| <= 4 && OneFamily(cs) && Available(|v.data|, cs)
    ensures |r.data| == |cs| && forall k :: 0 <= k < |cs| ==> r.data[k] == Get(v, cs[k])
  {
    Vec(Pick(v, cs))
  }

  /** Reversing the components twice, `v.zyx().zyx()`, gives v back. */
  lemma {:induction false} SwizzleReverseTwice<T>(v: Vec<T>)
    requires |v.data| == 3
    ensures Swizzle(Swizzle(v, [Z, Y, X]), [Z, Y, X]) == v
  {
    var s := Swizzle(Swizzle(v, [Z, Y, X]), [Z, Y, X]);
    assert s.data[0] == v.data[0] && s.data[1] == v.data[1] && s.data[2] == v.data[2];
    assert s.data == v.data;
  }

  /** `v.xy()` on a vec2, `v.xyz()` on a vec3 and `v.xyzw()` on a vec4 copy v. */
  lemma SwizzleIdentity<T>(v: Vec<T>)
    requires 2 <= |v.data| <= 4
    ensures |v.data| == 2 ==> Swizzle(v, [X, Y]) == v
    ensures |v.data| == 3 ==> Swizzle(v, [X, Y, Z]) == v
    ensures |v.data| == 4 ==> Swizzle(v, [X, Y, Z, W]) == v
  {
    if |v.data| == 2 { assert Swizzle(v, [X, Y]).data == v.data; }
    if |v.data| == 3 { assert Swizzle(v, [X, Y, Z]).data == v.data; }
    if |v.data| == 4 { assert Swizzle(v, [X, Y, Z, W]).data == v.data; }
  }

  // ----- Constructors -----

  /** vec2(x, y). */
  function Vec2<T>(x: T, y: T): (r: Vec<T>)
    ensures |r.data| == 2 && Get(r, X) == x && Get(r, Y) == y
  {
    Vec([x, y])
  }

  /** vec3(x, y, z). */
  function Vec3<T>(x: T, y: T, z: T): (r: Vec<T>)
    ensures |r.data| == 3 && Get(r, X) == x && Get(r, Y) == y && Get(r, Z) == z
  {
    Vec([x, y, z])
  }

  /** vec3(x, yz): the yz swizzle of the result gives yz back. */
  function Vec3Of12<T>(x: T, yz: Vec<T>): (r: Vec<T>)
    requires |yz.data| == 2
    ensures |r.data| == 3 && Get(r, X) == x && Swizzle(r, [Y, Z]) == yz
  {
    var r := Vec([x, yz.data[0], yz.data[1]]);
    assert Swizzle(r, [Y, Z]).data == yz.data;
    r
  }

  /** vec3(xy, z): the xy swizzle of the result gives xy back. */
  function Vec3Of21<T>(xy: Vec<T>, z: T): (r: Vec<T>)
    requires |xy.data| == 2
    ensures |r.data| == 3 && Swizzle(r, [X, Y]) == xy && Get(r, Z) == z
  {
    var r := Vec([xy.data[0], xy.data[1], z]);
    assert Swizzle(r, [X, Y]).data == xy.data;
    r
  }

  /** vec4(x, y, z, w). */
  function Vec4<T>(x: T, y: T, z: T, w: T): (r: Vec<T>)
    ensures |r.data| == 4 && Get(r, X) == x && Get(r, Y) == y && Get(r, Z) == z && Get(r, W) == w
  {
    Vec([x, y, z, w])
  }

  /** vec4(x, y, zw). */
  function Vec4Of112<T>(x: T, y: T, zw: Vec<T>): (r: Vec<T>)
    requires |zw.data| == 2
    ensures |r.data| == 4 && Get(r, X) == x && Get(r, Y) == y && Swizzle(r, [Z, W]) == zw
  {
    var r := Vec([x, y, zw.data[0], zw.data[1]]);
    assert Swizzle(r, [Z, W]).data == zw.data;
    r
  }

  /**
   * vec4(x, yz, w) as written. The brace list reads `yz[0]. yz[1]`: the stray
   * period makes one member-access expression asking the component yz[0] for
   * a member named yz, which an arithmetic T does not have, so any use of this
   * constructor fails to compile and yields no vec4.
   */
  function Vec4Of121AsWritten<T>(x: T, yz: Vec<T>, w: T): (r: Option<Vec<T>>)
    requires |yz.data| == 2
    ensures r.None?
  {
    None
  }

  /** vec4(x, yz, w) as evidently intended. */
  function Vec4Of121<T>(x: T, yz: Vec<T>, w: T): (r: Vec<T>)
    requires |yz.data| == 2
    ensures |r.data| == 4 && Get(r, X) == x && Swizzle(r, [Y, Z]) == yz && Get(r, W) == w
  {
    var r := Vec([x, yz.data[0], yz.data[1], w]);
    assert Swizzle(r, [Y, Z]).data == yz.data;
    r
  }

  /** The (x, yz, w) constructor as written builds nothing where the intended one builds a vec4. */
  lemma Vec4Of121AsWrittenBuildsNothing<T>(x: T, yz: Vec<T>, w: T)
    requires |yz.data| == 2
    ensures Vec4Of121AsWritten(x, yz, w) != Some(Vec4Of121(x, yz, w))
  {}

  /** vec4(xy, z, w). */
  function Vec4Of211<T>(xy: Vec<T>, z: T, w: T): (r: Vec<T>)
    requires |xy.data| == 2
    ensures |r.data| == 4 && Swizzle(r, [X, Y]) == xy && Get(r, Z) == z && Get(r, W) == w
  {
    var r := Vec([xy.data[0], xy.data[1], z, w]);
    assert Swizzle(r, [X, Y]).data == xy.data;
    r
  }

  /** vec4(xy, zw). */
  function Vec4Of22<T>(xy: Vec<T>, zw: Vec<T>): (r: Vec<T>)
    requires |xy.data| == 2 && |zw.data| == 2
    ensures |r.data| == 4 && Swizzle(r, [X, Y]) == xy && Swizzle(r, [Z, W]) == zw
  {
    var r := Vec([xy.data[0], xy.data[1], zw.data[0], zw.data[1]]);
    assert Swizzle(r, [X, Y]).data == xy.data;
    assert Swizzle(r, [Z, W]).data == zw.data;
    r
  }

  /** vec4(x, yzw). */
  function Vec4Of13<T>(x: T, yzw: Vec<T>): (r: Vec<T>)
    requires |yzw.data| == 3
    ensures |r.data| == 4 && Get(r, X) == x && Swizzle(r, [Y, Z, W]) == yzw
  {
    var r := Vec([x, yzw.data[0], yzw.data[1], yzw.data[2]]);
    assert Swizzle(r, [Y, Z, W]).data == yzw.data;
    r
  }

  /** vec4(xyz, w). */
  function Vec4Of31<T>(xyz: Vec<T>, w: T): (r: Vec<T>)
    requires |xyz.data| == 3
    ensures |r.data| == 4 && Swizzle(r, [X, Y, Z]) == xyz && Get(r, W) == w
  {
    var r := Vec([xyz.data[0], xyz.data[1], xyz.data[2], w]);
    assert Swizzle(r, [X, Y, Z]).data == xyz.data;
    r
  }

  /** Splitting a vec4 with swizzles and reassembling it gives it back. */
  lemma SplitAndReassemble<T>(v: Vec<T>)
    requires |v.data| == 4
    ensures Vec4Of22(Swizzle(v, [X, Y]), Swizzle(v, [Z, W])) == v
    ensures Vec4Of13(Get(v, X), Swizzle(v, [Y, Z, W])) == v
    ensures Vec4Of31(Swizzle(v, [X, Y, Z]), Get(v, W)) == v
  {
    assert Vec4Of22(Swizzle(v, [X, Y]), Swizzle(v, [Z, W])).data == v.data;
    assert Vec4Of13(Get(v, X), Swizzle(v, [Y, Z, W])).data == v.data;
    assert Vec4Of31(Swizzle(v, [X, Y, Z]), Get(v, W)).data == v.data;
  }

  /** `vec v2 = {v1, 3}` and `vec4<int>{v1, v1}` with `v1 = {1, 2}`. */
  lemma ConstructorExamples()
    ensures Vec3Of21(Vec2(1, 2), 3) == Vec([1, 2, 3])
    ensures Vec4Of22(Vec2(1, 2), Vec2(1, 2)) == Vec([1, 2, 1, 2])
  {}

  // ----- Conversion -----

  /**
   * The converting constructor from a vec<S, M> with M >= N: component i is
   * the conversion of the source's component i, for the first N components.
   */
  method Convert<S, T>(other: Vec<S>, n: nat, convert: S -> T) returns (r: Vec<T>)
    requires n <= |other.data|
    ensures |r.data| == n
    ensures forall i :: 0 <= i < n ==> r.data[i] == convert(other.data[i])
  {
    var data: seq<T> := [];
    for i := 0 to n
      invariant |data| == i
      invariant forall j :: 0 <= j < i ==> data[j] == convert(other.data[j])
    {
      data := data + [convert(Subscript(other, i))];
    }
    r := Vec(data);
  }
}
