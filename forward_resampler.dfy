/** Forward geocoding (`intf_ra2ll`): radar-coordinate rasters are resampled
    onto the geographic grid by gathering through the forward matrix. */
module ForwardResampler {
  import opened Common

  /** The inner `ra2ll` on one layer, exactly as written. `flat` is the layer
      after `reindex_like`, flattened row-major, so `grid.size` is `|flat|`.
      Entries at or above the size are first replaced by -1; NumPy then reads
      index -1 as the last element, and the `matrix_ra2ll >= 0` test, made on
      the unreplaced matrix, keeps that element. */
  function Ra2llAsWritten(flat: seq<Cell>, m: Grid<int>): (r: Result<Grid<Cell>>)
    ensures r.Ok? <==> forall k | 0 <= k < |m.data| :: 0 < |flat| && -|flat| <= m.data[k]
    ensures r.Err? ==> r.error == IndexError
    ensures r.Ok? ==> SameShape(r.value, m) && |r.value.data| == |m.data|
    ensures r.Ok? ==> forall k | 0 <= k < |m.data| ::
                        (m.data[k] < 0 ==> r.value.data[k] == NaN) &&
                        (0 <= m.data[k] < |flat| ==> r.value.data[k] == flat[m.data[k]]) &&
                        (|flat| <= m.data[k] ==> r.value.data[k] == flat[|flat| - 1])
  {
    var valid := Cropped(flat, m);
    var taken :- PyTake(flat, valid);
    Ok(Grid(m.rows, m.cols, seq(|m.data|, k requires 0 <= k < |m.data| =>
                                  if m.data[k] >= 0 then taken[k] else NaN)))
  }

  /** `xr.where(matrix_ra2ll < grid.size, matrix_ra2ll, -1)`. */
  function Cropped(flat: seq<Cell>, m: Grid<int>): (valid: seq<int>)
    ensures |valid| == |m.data|
    ensures forall k | 0 <= k < |m.data| ::
              valid[k] == (if m.data[k] < |flat| then m.data[k] else -1) &&
              (InPyRange(|flat|, valid[k]) <==> 0 < |flat| && -|flat| <= m.data[k])
  {
    seq(|m.data|, k requires 0 <= k < |m.data| => if m.data[k] < |flat| then m.data[k] else -1)
  }

  /** `ra2ll` as intended, testing the cropped matrix instead of the original
      one: an entry outside the layer gives NaN, like a -1 entry. */
  function Ra2ll(flat: seq<Cell>, m: Grid<int>): (r: Result<Grid<Cell>>)
    ensures r.Ok? <==> forall k | 0 <= k < |m.data| :: 0 < |flat| && -|flat| <= m.data[k]
    ensures r.Err? ==> r.error == IndexError
    ensures r.Ok? ==> SameShape(r.value, m) && |r.value.data| == |m.data|
    ensures r.Ok? ==> forall k | 0 <= k < |m.data| ::
                        (0 <= m.data[k] < |flat| ==> r.value.data[k] == flat[m.data[k]]) &&
                        (!(0 <= m.data[k] < |flat|) ==> r.value.data[k] == NaN)
  {
    var valid := Cropped(flat, m);
    var taken :- PyTake(flat, valid);
    Ok(Grid(m.rows, m.cols, seq(|m.data|, k requires 0 <= k < |m.data| =>
                                  if valid[k] >= 0 then taken[k] else NaN)))
  }

  /** The two agree whenever the layer is at least as large as the matrix
      expects, that is when no entry falls outside it. */
  lemma {:induction false} AgreeWithinLayer(flat: seq<Cell>, m: Grid<int>)
    requires forall k | 0 <= k < |m.data| :: m.data[k] < |flat|
    ensures Ra2llAsWritten(flat, m) == Ra2ll(flat, m)
  {
    var a, b := Ra2llAsWritten(flat, m), Ra2ll(flat, m);
    if a.Ok? {
      assert a.value.data == b.value.data;
    }
  }

  /** A two-cell layer under a one-cell matrix that names cell 2, beyond the
      layer: as written the result is the layer's last value, not NaN. */
  lemma CropExample()
    ensures Ra2llAsWritten([Val(1.0), Val(2.0)], Grid(1, 1, [2])) == Ok(Grid(1, 1, [Val(2.0)]))
    ensures Ra2ll([Val(1.0), Val(2.0)], Grid(1, 1, [2])) == Ok(Grid(1, 1, [NaN]))
  {
    var a := Ra2llAsWritten([Val(1.0), Val(2.0)], Grid(1, 1, [2]));
    var b := Ra2ll([Val(1.0), Val(2.0)], Grid(1, 1, [2]));
    assert a.Ok? && a.value.data[0] == Val(2.0);
    assert a.value.data == [Val(2.0)];
    assert b.Ok? && b.value.data[0] == NaN;
    assert b.value.data == [NaN];
  }

  /** `ra2ll` applied to every layer of a stack, in order; the first failing
      layer fails the whole map. */
  function Ra2llLayers(layers: seq<Grid<Cell>>, m: Grid<int>): (r: Result<seq<Grid<Cell>>>)
    ensures r.Ok? <==> forall i | 0 <= i < |layers| :: Ra2ll(layers[i].data, m).Ok?
    ensures r.Err? ==> r.error == IndexError
    ensures r.Ok? ==> |r.value| == |layers| &&
                      forall i | 0 <= i < |layers| :: r.value[i] == Ra2ll(layers[i].data, m).value
  {
    if layers == [] then Ok([])
    else
      var first :- Ra2ll(layers[0].data, m);
      var rest :- Ra2llLayers(layers[1..], m);
      Ok([first] + rest)
  }

  /** `not 'y' in dims and 'x' in dims`, read with Python's precedence:
      `not` applies to the first membership test only. */
  predicate SkipsGeocoding(dims: seq<string>) {
    !("y" in dims) && "x" in dims
  }

  /** The matrix coordinates, with every coordinate of the input except the
      two radar axes copied over them. */
  function WithPassengers(base: Coords, from: Coords): Coords {
    base + map k | k in from && k != "y" && k != "x" :: from[k]
  }

  /** `intf_ra2ll` as a value: passthrough, one layer, or a stack. A stack's
      result has one layer per input layer along the input's leading
      dimension; concatenating no layers raises ValueError. */
  function Geocode(r: Raster, m: Matrix<int>): Result<Raster>
    requires WellFormed(r)
  {
    if SkipsGeocoding(r.dims) then Ok(r)
    else match r
      case Layer(_, _, g) =>
        var gm :- Ra2ll(g.data, m.grid);
        Ok(Layer(m.dims, m.coords, gm))
      case Stack(dims, coords, layers) =>
        var outs :- Ra2llLayers(layers, m.grid);
        if outs == [] then Err(ValueError)
        else Ok(Stack([dims[0]] + m.dims, WithPassengers(m.coords, coords), outs))
  }

  /** The layer loop of `intf_ra2ll` (run in parallel by joblib in the
      source; the layers are independent). */
  method GeocodeLayers(layers: seq<Grid<Cell>>, m: Grid<int>) returns (r: Result<seq<Grid<Cell>>>)
    ensures r == Ra2llLayers(layers, m)
  {
    var outs: seq<Grid<Cell>> := [];
    var i := 0;
    while i < |layers|
      invariant 0 <= i <= |layers| && |outs| == i
      invariant forall k | 0 <= k < i :: Ra2ll(layers[k].data, m).Ok? && outs[k] == Ra2ll(layers[k].data, m).value
    {
      var gi := Ra2ll(layers[i].data, m);
      if gi.Err? {
        return Err(gi.error);
      }
      outs := outs + [gi.value];
      i := i + 1;
    }
    var all := Ra2llLayers(layers, m);
    assert all.Ok?;
    assert all.value == outs;
    r := Ok(outs);
  }

  /** The passenger coordinates among the names in `names`. */
  function PassengersAmong(from: Coords, names: set<string>): Coords {
    map k | k in names && k in from && k != "y" && k != "x" :: from[k]
  }

  lemma PassengersStep(base: Coords, from: Coords, names: set<string>, k: string)
    requires k in from && k !in names
    ensures k != "y" && k != "x" ==>
              (base + PassengersAmong(from, names))[k := from[k]] == base + PassengersAmong(from, names + {k})
    ensures !(k != "y" && k != "x") ==>
              base + PassengersAmong(from, names) == base + PassengersAmong(from, names + {k})
  {
    if k != "y" && k != "x" {
      assert PassengersAmong(from, names + {k}) == PassengersAmong(from, names)[k := from[k]];
    } else {
      assert PassengersAmong(from, names + {k}) == PassengersAmong(from, names);
    }
  }

  /** The coordinate loop of `intf_ra2ll`: every input coordinate except `y`
      and `x` is assigned into the result. */
  method CopyPassengers(base: Coords, from: Coords) returns (merged: Coords)
    ensures merged == WithPassengers(base, from)
  {
    merged := base;
    var todo := from.Keys;
    ghost var done: set<string> := {};
    assert PassengersAmong(from, done) == map[];
    while todo != {}
      invariant todo <= from.Keys && done == from.Keys - todo
      invariant merged == base + PassengersAmong(from, done)
      decreases todo
    {
      var k :| k in todo;
      PassengersStep(base, from, done, k);
      if k != "y" && k != "x" {
        merged := merged[k := from[k]];
      }
      todo := todo - {k};
      done := done + {k};
    }
    assert PassengersAmong(from, done) == map k | k in from && k != "y" && k != "x" :: from[k];
  }

  /** `intf_ra2ll`: passthrough, one layer, or the two loops over a stack. */
  method IntfRa2ll(r: Raster, m: Matrix<int>) returns (out: Result<Raster>)
    requires WellFormed(r)
    ensures out == Geocode(r, m)
  {
    if SkipsGeocoding(r.dims) {
      return Ok(r);
    }
    match r {
      case Layer(_, _, g) =>
        var gm := Ra2ll(g.data, m.grid);
        if gm.Err? {
          return Err(gm.error);
        }
        out := Ok(Layer(m.dims, m.coords, gm.value));
      case Stack(dims, coords, layers) =>
        var outs := GeocodeLayers(layers, m.grid);
        if outs.Err? {
          return Err(outs.error);
        }
        if outs.value == [] {
          return Err(ValueError);
        }
        var merged := CopyPassengers(m.coords, coords);
        out := Ok(Stack([dims[0]] + m.dims, merged, outs.value));
    }
  }

  /** A raster is returned unchanged when it skips geocoding; otherwise the
      result, if any, carries the matrix's dimensions (after the stack's
      leading dimension). */
  lemma Passthrough(r: Raster, m: Matrix<int>)
    requires WellFormed(r)
    ensures SkipsGeocoding(r.dims) ==> Geocode(r, m) == Ok(r)
    ensures !SkipsGeocoding(r.dims) && Geocode(r, m).Ok? ==>
              Geocode(r, m).value.dims == (if r.Layer? then m.dims else [r.dims[0]] + m.dims) &&
              Geocode(r, m).value.Layer? == r.Layer?
  {
  }

  /** The literal precedence: a geographic grid is not passed through, and
      neither is a radar grid; a grid with an `x` and no `y` axis is. */
  lemma SkipExamples()
    ensures !SkipsGeocoding(["lat", "lon"])
    ensures !SkipsGeocoding(["y", "x"]) && !SkipsGeocoding(["pair", "y", "x"])
    ensures SkipsGeocoding(["pair", "x"])
  {
    assert "lat" != "x" && "lon" != "x";
    assert ["pair", "x"][1] == "x";
  }

  /** Stacks are mapped layer by layer: layer `i` of a geocoded stack is the
      geocoded single layer `i`, for a non-empty stack whose layers are
      themselves radar grids. */
  lemma {:induction false} StackLayerwise(dims: seq<string>, coords: Coords, layers: seq<Grid<Cell>>,
                                          m: Matrix<int>, i: nat)
    requires |dims| == 3 && !SkipsGeocoding(dims) && !SkipsGeocoding(dims[1..])
    requires i < |layers|
    requires Geocode(Stack(dims, coords, layers), m).Ok?
    ensures Geocode(Layer(dims[1..], coords, layers[i]), m).Ok?
    ensures |Geocode(Stack(dims, coords, layers), m).value.layers| == |layers|
    ensures Geocode(Stack(dims, coords, layers), m).value.layers[i] ==
            Geocode(Layer(dims[1..], coords, layers[i]), m).value.grid
  {
    var outs := Ra2llLayers(layers, m.grid);
    assert outs.Ok?;
    assert outs.value[i] == Ra2ll(layers[i].data, m.grid).value;
  }
}
