/**
 * The coordinate resolver: where a local bit position of a fragment lands in
 * the grid, given the instance offset and a per-dimension mirror flag, and
 * how an N-dimensional grid coordinate is laid out in flat storage.
 */
module Coordinates {

  /** `if mirror[d] {-1} else {1}`. */
  function Sign(mirror: bool): int
  {
    if mirror then -1 else 1
  }

  /** absolute[d] = offset[d] + sign(mirror[d]) * p[d], for every dimension d. */
  function Resolve(offset: seq<int>, mirror: seq<bool>, p: seq<int>): (a: seq<int>)
    requires |offset| == |mirror| == |p|
    ensures |a| == |p|
  {
    seq(|p|, d requires 0 <= d < |p| => offset[d] + Sign(mirror[d]) * p[d])
  }

  /** Componentwise sum; an array element's delta plus a bit's local position. */
  function VecAdd(a: seq<int>, b: seq<int>): (r: seq<int>)
    requires |a| == |b|
    ensures |r| == |a| && forall d :: 0 <= d < |a| ==> r[d] - a[d] == b[d]
  {
    seq(|a|, d requires 0 <= d < |a| => a[d] + b[d])
  }

  function Zeros(n: nat): (z: seq<int>)
    ensures |z| == n && forall d :: 0 <= d < n ==> z[d] == 0
  {
    seq(n, _ => 0)
  }

  /** Along a mirrored dimension a local displacement moves the other way. */
  lemma ResolveMirror(offset: seq<int>, mirror: seq<bool>, p: seq<int>, d: nat)
    requires |offset| == |mirror| == |p| && d < |p|
    ensures mirror[d] ==> Resolve(offset, mirror, p)[d] == offset[d] - p[d]
    ensures !mirror[d] ==> Resolve(offset, mirror, p)[d] == offset[d] + p[d]
  {
  }

  /**
   * An array element displaced by `a` is the element's pattern placed at the
   * resolved position of `a`, under the same mirroring: resolving `a + p`
   * equals resolving `p` against the resolved `a`.
   */
  lemma ResolveCompose(offset: seq<int>, mirror: seq<bool>, a: seq<int>, p: seq<int>)
    requires |offset| == |mirror| == |a| == |p|
    ensures Resolve(offset, mirror, VecAdd(a, p)) == Resolve(Resolve(offset, mirror, a), mirror, p)
  {
  }

  /** For one placement, distinct local positions land on distinct coordinates. */
  lemma ResolveInjective(offset: seq<int>, mirror: seq<bool>, p: seq<int>, q: seq<int>)
    requires |offset| == |mirror| == |p| == |q|
    requires Resolve(offset, mirror, p) == Resolve(offset, mirror, q)
    ensures p == q
  {
    forall d | 0 <= d < |p| ensures p[d] == q[d] {
      assert Resolve(offset, mirror, p)[d] == Resolve(offset, mirror, q)[d];
    }
  }

  // ---------------------------------------------------------------------
  // Grid storage
  // ---------------------------------------------------------------------

  /** A coordinate lies inside a grid of the given extent per dimension. */
  predicate InBounds(c: seq<int>, shape: seq<nat>)
  {
    |c| == |shape| && forall d :: 0 <= d < |c| ==> 0 <= c[d] < shape[d]
  }

  /** Number of cells of a grid. */
  function Product(shape: seq<nat>): nat
  {
    if |shape| == 0 then 1 else shape[0] * Product(shape[1..])
  }

  /**
   * Index of a grid cell in flat storage, the first coordinate varying
   * fastest: [x] is x, [x, y] is x + width * y.
   */
  function Flatten(c: seq<int>, shape: seq<nat>): (i: nat)
    requires InBounds(c, shape)
    ensures i < Product(shape)
  {
    if |c| == 0 then 0
    else
      var rest := Flatten(c[1..], shape[1..]);
      FlattenStep(c[0], shape[0], rest, Product(shape[1..]));
      c[0] + shape[0] * rest
  }

  lemma FlattenStep(x: nat, w: nat, rest: nat, p: nat)
    requires x < w && rest < p
    ensures x + w * rest < w * p
  {
    MulStep(w, rest, p);
  }

  lemma MulStep(w: nat, a: nat, b: nat)
    requires a < b
    ensures w * a + w <= w * b
    decreases b - a
  {
    assert w * b == w * (b - 1) + w;
    if b > a + 1 {
      MulStep(w, a, b - 1);
    }
  }

  /** x + w * r determines x and r when x < w. */
  lemma SplitUnique(x1: nat, r1: nat, x2: nat, r2: nat, w: nat)
    requires x1 < w && x2 < w && x1 + w * r1 == x2 + w * r2
    ensures x1 == x2 && r1 == r2
  {
    if r1 < r2 {
      MulStep(w, r1, r2);
    } else if r2 < r1 {
      MulStep(w, r2, r1);
    }
  }

  /** Distinct in-bounds coordinates occupy distinct cells. */
  lemma {:induction false} FlattenInjective(c: seq<int>, e: seq<int>, shape: seq<nat>)
    requires InBounds(c, shape) && InBounds(e, shape)
    requires Flatten(c, shape) == Flatten(e, shape)
    ensures c == e
    decreases |c|
  {
    if |c| > 0 {
      var r1, r2 := Flatten(c[1..], shape[1..]), Flatten(e[1..], shape[1..]);
      SplitUnique(c[0], r1, e[0], r2, shape[0]);
      FlattenInjective(c[1..], e[1..], shape[1..]);
      assert c == [c[0]] + c[1..] && e == [e[0]] + e[1..];
    }
  }

  /** A one-dimensional grid is indexed by the coordinate itself. */
  lemma Flatten1(x: int, n: nat)
    requires 0 <= x < n
    ensures InBounds([x], [n]) && Flatten([x], [n]) == x && Product([n]) == n
  {
    assert [x][1..] == [] && [n][1..] == [];
  }

  /** A two-dimensional grid of width w stores (x, y) at x + w * y. */
  lemma Flatten2(x: int, y: int, w: nat, h: nat)
    requires 0 <= x < w && 0 <= y < h
    ensures InBounds([x, y], [w, h]) && Flatten([x, y], [w, h]) == x + w * y && Product([w, h]) == w * h
  {
    assert [x, y][1..] == [y] && [w, h][1..] == [h];
    Flatten1(y, h);
  }
}
