/** Inverse geocoding (the second `intf_ll2ra`): geographic rasters, already
    on the translation grid, are resampled onto the radar grid by gathering
    through the inverse matrix, whose "no match" value is the uint32 sentinel. */
module InverseResampler {
  import opened Common
  import opened NearestNeighbour
  import opened InverseMatrix

  /** The inner `ll2ra` exactly as written: the fancy index
      `grid.reshape(-1)[matrix_ll2ra]` is evaluated for every cell, the
      sentinel cells included, before `np.where` masks them. */
  function Ll2raAsWritten(flat: seq<Cell>, m: Grid<U32>): (r: Result<Grid<Cell>>)
    ensures r.Ok? <==> forall k | 0 <= k < |m.data| :: m.data[k] < |flat|
    ensures r.Err? ==> r.error == IndexError
    ensures r.Ok? ==> SameShape(r.value, m) && |r.value.data| == |m.data|
    ensures r.Ok? ==> forall k | 0 <= k < |m.data| ::
                        r.value.data[k] == if m.data[k] == Sentinel then NaN else flat[m.data[k]]
  {
    var taken :- PyTake(flat, m.data);
    Ok(Grid(m.rows, m.cols, seq(|m.data|, k requires 0 <= k < |m.data| =>
                                  if m.data[k] != Sentinel then taken[k] else NaN)))
  }

  /** `ll2ra` as intended: a sentinel cell is NaN without being looked up;
      every other entry must name a cell of the layer. */
  function Ll2ra(flat: seq<Cell>, m: Grid<U32>): (r: Result<Grid<Cell>>)
    ensures r.Ok? <==> forall k | 0 <= k < |m.data| :: m.data[k] == Sentinel || m.data[k] < |flat|
    ensures r.Err? ==> r.error == IndexError
    ensures r.Ok? ==> SameShape(r.value, m) && |r.value.data| == |m.data|
    ensures r.Ok? ==> forall k | 0 <= k < |m.data| ::
                        (m.data[k] == Sentinel ==> r.value.data[k] == NaN) &&
                        (m.data[k] != Sentinel ==> r.value.data[k] == flat[m.data[k]])
  {
    var masked := seq(|m.data|, k requires 0 <= k < |m.data| =>
                        if m.data[k] == Sentinel then 0 else m.data[k]);
    if exists k | 0 <= k < |m.data| :: m.data[k] != Sentinel && |flat| <= m.data[k] then
      Err(IndexError)
    else if |m.data| == 0 then
      Ok(Grid(m.rows, m.cols, []))
    else if |flat| == 0 then
      assert m.data[0] == Sentinel;
      Ok(Grid(m.rows, m.cols, seq(|m.data|, k requires 0 <= k < |m.data| => NaN)))
    else
      Ok(Grid(m.rows, m.cols, seq(|m.data|, k requires 0 <= k < |m.data| =>
                                    if m.data[k] == Sentinel then NaN else flat[masked[k]])))
  }

  /** As written, a single sentinel cell makes the whole lookup raise, for
      any layer with fewer than 2^32 - 1 cells. */
  lemma SentinelRaisesAsWritten(flat: seq<Cell>, m: Grid<U32>, k: nat)
    requires |flat| <= Sentinel
    requires k < |m.data| && m.data[k] == Sentinel
    ensures Ll2raAsWritten(flat, m) == Err(IndexError)
  {
  }

  /** The smallest input that shows it: a one-cell matrix holding the
      sentinel, over a one-cell layer. */
  lemma SentinelExample()
    ensures Ll2raAsWritten([Val(1.0)], Grid(1, 1, [Sentinel])) == Err(IndexError)
    ensures Ll2ra([Val(1.0)], Grid(1, 1, [Sentinel])) == Ok(Grid(1, 1, [NaN]))
  {
    var g := Ll2ra([Val(1.0)], Grid(1, 1, [Sentinel]));
    assert g.Ok? && g.value.data[0] == NaN;
    assert g.value.data == [NaN];
  }

  /** On matrices without the sentinel, the matrices `intf_ll2ra_matrix`
      actually builds, the code as written and the intended code agree. */
  lemma {:induction false} AgreeWithoutSentinel(flat: seq<Cell>, m: Grid<U32>)
    requires forall k | 0 <= k < |m.data| :: m.data[k] != Sentinel
    ensures Ll2raAsWritten(flat, m) == Ll2ra(flat, m)
  {
    var a, b := Ll2raAsWritten(flat, m), Ll2ra(flat, m);
    assert a.Ok? <==> b.Ok?;
    if a.Ok? {
      assert a.value.data == b.value.data;
    }
  }

  /** Nearest resampling keeps the values of a mask: every output cell is
      NaN or a value the layer already holds. */
  lemma {:induction false} ValuesPreserved(flat: seq<Cell>, m: Grid<U32>)
    requires Ll2ra(flat, m).Ok?
    ensures forall k | 0 <= k < |m.data| :: Ll2ra(flat, m).value.data[k] == NaN ||
                                            Ll2ra(flat, m).value.data[k] in flat
  {
    var out := Ll2ra(flat, m).value.data;
    forall k | 0 <= k < |m.data|
      ensures out[k] == NaN || out[k] in flat
    {
      if m.data[k] != Sentinel {
        assert out[k] == flat[m.data[k]];
      }
    }
  }

  /** In the source a call sees a block of layers flattened together; with
      matrix entries below one layer's size, only the block's first layer is
      ever read. */
  lemma {:induction false} FirstLayerOnly(first: seq<Cell>, rest: seq<Cell>, m: Grid<U32>)
    requires forall k | 0 <= k < |m.data| :: m.data[k] == Sentinel || m.data[k] < |first|
    ensures Ll2ra(first + rest, m) == Ll2ra(first, m)
  {
    var a, b := Ll2ra(first + rest, m), Ll2ra(first, m);
    assert a.Ok? && b.Ok?;
    forall k | 0 <= k < |m.data|
      ensures a.value.data[k] == b.value.data[k]
    {
      if m.data[k] != Sentinel {
        assert (first + rest)[m.data[k]] == first[m.data[k]];
      }
    }
    assert a.value.data == b.value.data;
  }

  /** `ll2ra` applied to every layer of a stack, in order. */
  function Ll2raLayers(layers: seq<Grid<Cell>>, m: Grid<U32>): (r: Result<seq<Grid<Cell>>>)
    ensures r.Ok? <==> forall i | 0 <= i < |layers| :: Ll2ra(layers[i].data, m).Ok?
    ensures r.Err? ==> r.error == IndexError
    ensures r.Ok? ==> |r.value| == |layers| &&
                      forall i | 0 <= i < |layers| :: r.value[i] == Ll2ra(layers[i].data, m).value
  {
    if layers == [] then Ok([])
    else
      var first :- Ll2ra(layers[0].data, m);
      var rest :- Ll2raLayers(layers[1..], m);
      Ok([first] + rest)
  }

  /** The dimensions `apply_ufunc` loops over: all but the two core ones. */
  function LoopDims(dims: seq<string>): (loop: seq<string>)
    ensures forall d :: d in loop <==> d in dims && d != "lat" && d != "lon"
    ensures |loop| <= |dims|
  {
    if dims == [] then []
    else if dims[0] == "lat" || dims[0] == "lon" then LoopDims(dims[1..])
    else [dims[0]] + LoopDims(dims[1..])
  }

  /** Coordinates along the excluded core dimensions are dropped. */
  function DropGeographic(coords: Coords): (c: Coords)
    ensures forall k :: k in c <==> k in coords && k != "lat" && k != "lon"
    ensures forall k | k in c :: c[k] == coords[k]
  {
    map k | k in coords && k != "lat" && k != "lon" :: coords[k]
  }

  /** The second `intf_ll2ra`. `r` stands for the grids after `interp_like`
      onto the translation grid, `m` for the stored inverse matrix. When
      `lat` is absent the guard at line 332 reads the undefined name `grid`;
      when `lon` is absent `apply_ufunc` lacks a core dimension. A single
      layer is expanded to a stack of one, resampled, and unwrapped. */
  function InverseGeocode(r: Raster, m: Matrix<U32>): (out: Result<Raster>)
    requires WellFormed(r)
    decreases r.Layer?
  {
    if !("lat" in r.dims) then Err(NameError)
    else if !("lon" in r.dims) then Err(ValueError)
    else match r
      case Stack(dims, coords, layers) =>
        var outs :- Ll2raLayers(layers, m.grid);
        Ok(Stack(LoopDims(dims) + ["y", "x"], DropGeographic(coords), outs))
      case Layer(dims, coords, g) =>
        var st :- InverseGeocode(Stack(["new"] + dims, coords, [g]), m);
        Ok(Layer(st.dims[1..], st.coords, st.layers[0]))
  }

  /** The error cases of `intf_ll2ra`, and the radar shape of its result. */
  lemma InverseShape(r: Raster, m: Matrix<U32>)
    requires WellFormed(r)
    ensures InverseGeocode(r, m) == Err(NameError) <==> !("lat" in r.dims)
    ensures InverseGeocode(r, m) == Err(ValueError) <==> "lat" in r.dims && !("lon" in r.dims)
    ensures InverseGeocode(r, m).Ok? ==>
              InverseGeocode(r, m).value.Layer? == r.Layer? &&
              |InverseGeocode(r, m).value.dims| >= 2 &&
              InverseGeocode(r, m).value.dims[|InverseGeocode(r, m).value.dims| - 2..] == ["y", "x"]
    ensures InverseGeocode(r, m).Ok? && r.Layer? ==>
              SameShape(InverseGeocode(r, m).value.grid, m.grid)
    ensures InverseGeocode(r, m).Ok? && r.Stack? ==>
              |InverseGeocode(r, m).value.layers| == |r.layers| &&
              forall i | 0 <= i < |r.layers| :: SameShape(InverseGeocode(r, m).value.layers[i], m.grid)
  {
    if "lat" in r.dims && "lon" in r.dims && r.Layer? {
      var dims := ["new"] + r.dims;
      assert "lat" in dims && "lon" in dims;
      assert "new" in LoopDims(dims) by { assert dims[0] == "new"; }
    }
  }

  /** A two-dimensional grid is resampled as a stack of one: the result is
      the single-layer lookup, with dimensions `y`, `x`. */
  lemma LayerIsStackOfOne(dims: seq<string>, coords: Coords, g: Grid<Cell>, m: Matrix<U32>)
    requires |dims| == 2 && "lat" in dims && "lon" in dims
    ensures InverseGeocode(Layer(dims, coords, g), m).Ok? <==> Ll2ra(g.data, m.grid).Ok?
    ensures InverseGeocode(Layer(dims, coords, g), m).Ok? ==>
              InverseGeocode(Layer(dims, coords, g), m).value ==
              Layer(["y", "x"], DropGeographic(coords), Ll2ra(g.data, m.grid).value)
  {
    var sdims := ["new"] + dims;
    assert "lat" in sdims && "lon" in sdims;
    assert LoopDims(dims) == [] by {
      assert dims == ["lat", "lon"] || dims == ["lon", "lat"];
    }
    assert LoopDims(sdims) == ["new"] + LoopDims(dims) by { assert sdims[1..] == dims; }
  }

  /** End to end, for a built inverse matrix: where a tile cell's label is
      the nearest-candidate label of its (azimuth, range) point, resampling a
      layer laid out on the translation grid gives that cell the value of a
      translation cell at least as close as every candidate. */
  lemma InverseGatherMeaning(t: TransTable, sel: seq<Extent>, azi: Grid<real>, rng: Grid<real>,
                             flat: seq<Cell>, m: Grid<U32>)
    requires ValidTable(t) && AllNamed(t, sel)
    requires t.azi.rows * t.azi.cols <= Sentinel && |flat| == t.azi.rows * t.azi.cols
    requires |azi.data| == |rng.data| == |m.data|
    requires forall k | 0 <= k < |m.data| :: NearestLabel(t, sel, Point(azi.data[k], rng.data[k]), m.data[k])
    ensures Ll2ra(flat, m).Ok? && Ll2raAsWritten(flat, m) == Ll2ra(flat, m)
    ensures forall k | 0 <= k < |m.data| ::
              m.data[k] < |flat| && Ll2ra(flat, m).value.data[k] == flat[m.data[k]] &&
              forall j | 0 <= j < |CandidatePoints(t, sel)| ::
                Dist2(Point(t.azi.data[m.data[k]], t.rng.data[m.data[k]]), Point(azi.data[k], rng.data[k])) <=
                Dist2(CandidatePoints(t, sel)[j], Point(azi.data[k], rng.data[k]))
  {
    forall k | 0 <= k < |m.data|
      ensures m.data[k] < |flat| && m.data[k] != Sentinel
      ensures forall j | 0 <= j < |CandidatePoints(t, sel)| ::
                Dist2(Point(t.azi.data[m.data[k]], t.rng.data[m.data[k]]), Point(azi.data[k], rng.data[k])) <=
                Dist2(CandidatePoints(t, sel)[j], Point(azi.data[k], rng.data[k]))
    {
      TileLabelMeaning(t, sel, Point(azi.data[k], rng.data[k]), m.data[k]);
    }
    AgreeWithoutSentinel(flat, m);
  }
}
