/** Brute-force nearest-neighbour search, standing in for scipy's cKDTree.
    Distances are compared squared, so no square root is needed; a distance
    limit is passed in squared as well. */
module NearestNeighbour {

  /** A point in radar index space: azimuth (y) and range (x). */
  datatype Point = Point(y: real, x: real)

  function Dist2(a: Point, b: Point): real {
    (a.y - b.y) * (a.y - b.y) + (a.x - b.x) * (a.x - b.x)
  }

  /** `k` is an index of a candidate with no strictly closer candidate. */
  predicate IsNearest(cands: seq<Point>, p: Point, k: int) {
    0 <= k < |cands| &&
    forall j | 0 <= j < |cands| :: Dist2(cands[k], p) <= Dist2(cands[j], p)
  }

  /** No candidate lies strictly within the (squared) limit. */
  predicate NoneWithin(cands: seq<Point>, p: Point, limit2: real) {
    forall j | 0 <= j < |cands| :: limit2 <= Dist2(cands[j], p)
  }

  /** The answer of a bounded query: -1 when nothing is within the limit,
      otherwise the index of a nearest candidate, which is within the limit. */
  predicate IsNearestWithin(cands: seq<Point>, p: Point, limit2: real, k: int) {
    if k == -1 then NoneWithin(cands, p, limit2)
    else IsNearest(cands, p, k) && Dist2(cands[k], p) < limit2
  }

  /** Unbounded query (`tree.query(..., k=1)` without an upper bound). */
  method Nearest(cands: seq<Point>, p: Point) returns (k: nat)
    requires |cands| > 0
    ensures IsNearest(cands, p, k)
  {
    k := 0;
    var best := Dist2(cands[0], p);
    var j := 1;
    while j < |cands|
      invariant 1 <= j <= |cands|
      invariant k < |cands| && best == Dist2(cands[k], p)
      invariant forall i | 0 <= i < j :: best <= Dist2(cands[i], p)
    {
      var d := Dist2(cands[j], p);
      if d < best {
        k, best := j, d;
      }
      j := j + 1;
    }
  }

  /** Bounded query (`distance_upper_bound`): an infinite distance, turned
      into -1 by the caller, when no candidate is within the limit. */
  method NearestWithin(cands: seq<Point>, p: Point, limit2: real) returns (k: int)
    ensures -1 <= k < |cands|
    ensures IsNearestWithin(cands, p, limit2, k)
  {
    if |cands| == 0 {
      return -1;
    }
    var n := Nearest(cands, p);
    k := if Dist2(cands[n], p) < limit2 then n else -1;
  }

  /** A query point that coincides with one candidate, every other candidate
      being at a positive distance, has that candidate as its only possible
      answer, whatever positive limit is used. */
  lemma CoincidentMatch(cands: seq<Point>, p: Point, limit2: real, k: nat, q: int)
    requires k < |cands| && cands[k] == p
    requires forall j | 0 <= j < |cands| && j != k :: 0.0 < Dist2(cands[j], p)
    requires 0.0 < limit2
    requires IsNearestWithin(cands, p, limit2, q)
    ensures q == k
  {
    assert Dist2(cands[k], p) == 0.0;
    if q == -1 {
      assert false;
    }
  }

  /** `xr.broadcast(y, x)` flattened row-major: the radar cell centres. */
  function Centres(ys: seq<real>, xs: seq<real>): (c: seq<Point>)
    ensures |c| == |ys| * |xs|
  {
    if ys == [] then []
    else seq(|xs|, j requires 0 <= j < |xs| => Point(ys[0], xs[j])) + Centres(ys[1..], xs)
  }

  /** Row-major layout: centre number `i * |xs| + j` is `(ys[i], xs[j])`. */
  lemma {:induction false} CentreAt(ys: seq<real>, xs: seq<real>, i: nat, j: nat)
    requires i < |ys| && j < |xs|
    ensures i * |xs| + j < |Centres(ys, xs)|
    ensures Centres(ys, xs)[i * |xs| + j] == Point(ys[i], xs[j])
  {
    if i > 0 {
      CentreAt(ys[1..], xs, i - 1, j);
      assert i * |xs| + j == |xs| + ((i - 1) * |xs| + j);
    }
  }
}
