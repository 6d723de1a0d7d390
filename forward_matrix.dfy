/** The forward (radar to geographic) matrix of `intf_ra2ll_matrix`: for every
    cell of the full-area translation grid, the row-major index of the nearest
    interferogram cell centre within a distance limit, or -1. */
module ForwardMatrix {
  import opened Common
  import opened NearestNeighbour

  /** One row of trans.dat: range, azimuth, elevation, longitude, latitude. */
  datatype TransRow = TransRow(rng: real, azi: real, ele: real, lon: real, lat: real)

  /** The table's (azimuth, range) points, in table order. */
  function TransPoints(trans: seq<TransRow>): (pts: seq<Point>)
    ensures |pts| == |trans|
  {
    seq(|trans|, i requires 0 <= i < |trans| => Point(trans[i].azi, trans[i].rng))
  }

  /** `intf2trans`: for every translation point, its nearest interferogram
      cell centre within the limit, or -1 (an infinite cKDTree distance). */
  method Intf2Trans(centres: seq<Point>, pts: seq<Point>, limit2: real) returns (v: seq<int>)
    ensures |v| == |pts|
    ensures forall i | 0 <= i < |pts| :: -1 <= v[i] < |centres|
    ensures forall i | 0 <= i < |pts| :: IsNearestWithin(centres, pts[i], limit2, v[i])
  {
    v := [];
    var i := 0;
    while i < |pts|
      invariant 0 <= i <= |pts| && |v| == i
      invariant forall k | 0 <= k < i :: -1 <= v[k] < |centres|
      invariant forall k | 0 <= k < i :: IsNearestWithin(centres, pts[k], limit2, v[k])
    {
      var k := NearestWithin(centres, pts[i], limit2);
      v := v + [k];
      i := i + 1;
    }
  }

  /** `np.where(trans_ra2ll >= 0, intf2trans[trans_ra2ll], -1)`. The fancy
      index is evaluated for every cell, negative ones included, so a cell
      below `-len(intf2trans)` or at or above `len(intf2trans)` raises. */
  function Compose(tr: Grid<int>, v: seq<int>): (r: Result<Grid<int>>)
    ensures r.Ok? <==> forall c | 0 <= c < |tr.data| :: InPyRange(|v|, tr.data[c])
    ensures r.Err? ==> r.error == IndexError
    ensures r.Ok? ==> SameShape(r.value, tr) && |r.value.data| == |tr.data|
    ensures r.Ok? ==> forall c | 0 <= c < |tr.data| ::
                        r.value.data[c] == if tr.data[c] < 0 then -1 else v[tr.data[c]]
  {
    var taken :- PyTake(v, tr.data);
    Ok(Grid(tr.rows, tr.cols, seq(|tr.data|, c requires 0 <= c < |tr.data| =>
                                    if tr.data[c] >= 0 then taken[c] else -1)))
  }

  /** The integer entries as reals, for `Max`. */
  function AsReals(s: seq<int>): (r: seq<real>)
    ensures |r| == |s| && forall i | 0 <= i < |s| :: r[i] == s[i] as real
  {
    seq(|s|, i requires 0 <= i < |s| => s[i] as real)
  }

  /** Some entry reaches `size` exactly when the maximum does. */
  lemma ReachesMax(size: int, s: seq<int>)
    requires |s| > 0
    ensures (exists c | 0 <= c < |s| :: size <= s[c]) <==> size as real <= Max(AsReals(s))
  {
    var vals := AsReals(s);
    var top := Max(vals);
    if size as real <= top {
      var c :| 0 <= c < |vals| && vals[c] == top;
      assert size <= s[c];
    }
    if exists c | 0 <= c < |s| :: size <= s[c] {
      var c :| 0 <= c < |s| && size <= s[c];
      assert vals[c] <= top;
    }
  }

  /** `assert intf_grid.size > intf_ra2ll.max()`: the maximum of an empty
      array raises ValueError before the comparison is made. */
  function CheckMax(size: int, g: Grid<int>): (r: Result<Grid<int>>)
    ensures r == Err(ValueError) <==> |g.data| == 0
    ensures r == Err(AssertionError) <==>
              |g.data| > 0 && exists c | 0 <= c < |g.data| :: size <= g.data[c]
    ensures r.Ok? ==> r.value == g && forall c | 0 <= c < |g.data| :: g.data[c] < size
  {
    if |g.data| == 0 then Err(ValueError)
    else
      var top := Max(AsReals(g.data));
      ReachesMax(size, g.data);
      if !(size as real > top) then Err(AssertionError)
      else Ok(g)
  }

  /** What a built forward matrix holds, cell by cell. */
  predicate ForwardCells(ys: seq<real>, xs: seq<real>, trans: seq<TransRow>, tr: Grid<int>,
                         limit2: real, m: Grid<int>)
  {
    SameShape(m, tr) && |m.data| == |tr.data| &&
    forall c | 0 <= c < |tr.data| ::
      -1 <= m.data[c] < |ys| * |xs| &&
      (tr.data[c] < 0 ==> m.data[c] == -1) &&
      (0 <= tr.data[c] < |trans| ==>
         IsNearestWithin(Centres(ys, xs), TransPoints(trans)[tr.data[c]], limit2, m.data[c]))
  }

  /** `intf_ra2ll_matrix` without its file I/O: `ys`, `xs` are the
      interferogram coordinates, `trans` the translation table, `tr` the
      full-area `trans_ra2ll` matrix and `limit2` the squared distance limit.
      The bounds of an empty table raise ValueError (line 88); the first
      coordinate step of an axis with fewer than two values raises
      IndexError (lines 103-104). */
  method BuildForwardMatrix(ys: seq<real>, xs: seq<real>, trans: seq<TransRow>, tr: Grid<int>,
                            limit2: real) returns (r: Result<Grid<int>>)
    ensures r == Err(ValueError) <==>
              |trans| == 0 || (2 <= |ys| && 2 <= |xs| && |tr.data| == 0)
    ensures r == Err(IndexError) <==>
              |trans| > 0 &&
              (|ys| < 2 || |xs| < 2 || exists c | 0 <= c < |tr.data| :: !InPyRange(|trans|, tr.data[c]))
    ensures r.Err? ==> r.error == IndexError || r.error == ValueError
    ensures r.Ok? ==> 2 <= |ys| && 2 <= |xs| && |trans| > 0
    ensures r.Ok? ==> ForwardCells(ys, xs, trans, tr, limit2, r.value)
  {
    if |trans| == 0 {
      return Err(ValueError);
    }
    if |ys| < 2 || |xs| < 2 {
      return Err(IndexError);
    }
    var centres := Centres(ys, xs);
    var pts := TransPoints(trans);
    var intf2trans := Intf2Trans(centres, pts, limit2);
    var composed := Compose(tr, intf2trans);
    if composed.Err? {
      return Err(IndexError);
    }
    var m := composed.value;
    assert forall c | 0 <= c < |m.data| :: -1 <= m.data[c] < |ys| * |xs|;
    r := CheckMax(|ys| * |xs|, m);
  }

  /** When the translation table lists exactly the interferogram cell centres,
      in row-major order, and the centres are pairwise apart, the forward
      matrix reproduces `trans_ra2ll` on every non-negative cell. So a
      `trans_ra2ll` holding each of 0..n-1 once gives a forward matrix holding
      each of 0..n-1 once and no -1. */
  lemma CoincidentTable(ys: seq<real>, xs: seq<real>, trans: seq<TransRow>, tr: Grid<int>,
                        limit2: real, m: Grid<int>)
    requires TransPoints(trans) == Centres(ys, xs)
    requires forall i, j | 0 <= i < |trans| && 0 <= j < |trans| && i != j ::
               0.0 < Dist2(Centres(ys, xs)[j], Centres(ys, xs)[i])
    requires 0.0 < limit2
    requires ForwardCells(ys, xs, trans, tr, limit2, m)
    ensures forall c | 0 <= c < |tr.data| && 0 <= tr.data[c] < |trans| :: m.data[c] == tr.data[c]
    ensures forall c | 0 <= c < |tr.data| && tr.data[c] < 0 :: m.data[c] == -1
  {
    var centres := Centres(ys, xs);
    forall c | 0 <= c < |tr.data| && 0 <= tr.data[c] < |trans|
      ensures m.data[c] == tr.data[c]
    {
      var k := tr.data[c];
      CoincidentMatch(centres, centres[k], limit2, k, m.data[c]);
    }
  }
}
