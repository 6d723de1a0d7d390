/** The inverse (geographic to radar) matrix of `intf_ll2ra_matrix`: every
    cell of a radar tile gets the label of the nearest translation-table point,
    searched only among the table blocks whose bounding box meets the tile. */
module InverseMatrix {
  import opened Common
  import opened NearestNeighbour

  lemma MulLe(a: nat, b: nat, c: nat)
    requires a <= b
    ensures a * c <= b * c
  {
  }

  /** Row-major positions of a `rows` by `cols` grid lie below its size. */
  lemma RowMajorBound(rows: nat, cols: nat, r: nat, c: nat)
    requires r < rows && c < cols
    ensures r * cols + c < rows * cols
  {
    MulLe(r + 1, rows, cols);
  }

  /** `dask.array.arange(size, dtype=np.uint32).reshape(shape)`: the label of
      a translation cell is its row-major position, stored as uint32. */
  function Labels(rows: nat, cols: nat): (g: Grid<U32>)
    ensures g.rows == rows && g.cols == cols && g.Shaped()
  {
    Grid(rows, cols, seq(rows * cols, i => i % U32Modulus))
  }

  /** While the grid has at most 2^32 cells, the label of cell (r, c) is
      `r * cols + c` and no two cells share a label. */
  lemma LabelsRowMajor(rows: nat, cols: nat, r: nat, c: nat)
    requires r < rows && c < cols && rows * cols <= U32Modulus
    ensures r * cols + c < rows * cols
    ensures Labels(rows, cols).data[r * cols + c] == r * cols + c
    ensures forall i, j | 0 <= i < j < rows * cols :: Labels(rows, cols).data[i] != Labels(rows, cols).data[j]
  {
    RowMajorBound(rows, cols, r, c);
  }

  /** Past 2^32 cells the uint32 labels repeat. */
  lemma LabelsWrap(rows: nat, cols: nat)
    requires U32Modulus < rows * cols
    ensures Labels(rows, cols).data[0] == Labels(rows, cols).data[U32Modulus]
  {
  }

  // ---- Chunked blocks ------------------------------------------------------

  function Sum(s: seq<nat>): nat {
    if s == [] then 0 else Sum(s[..|s| - 1]) + s[|s| - 1]
  }

  lemma {:induction false} PrefixSumLe(s: seq<nat>, j: nat)
    requires j <= |s|
    ensures Sum(s[..j]) <= Sum(s)
  {
    if j < |s| {
      var init := s[..|s| - 1];
      assert init[..j] == s[..j];
      PrefixSumLe(init, j);
    } else {
      assert s[..j] == s;
    }
  }

  /** Block `i` of a chunked axis ends no later than the axis. */
  lemma BlockEnd(s: seq<nat>, i: nat)
    requires i < |s|
    ensures Sum(s[..i]) + s[i] <= Sum(s)
  {
    assert s[..i + 1][..i] == s[..i];
    PrefixSumLe(s, i + 1);
  }

  /** Flat row-major positions, in a grid of `cols` columns, of the block with
      rows `r0 .. r0+h-1` and columns `c0 .. c0+w-1`, row by row. */
  function BlockIdx(cols: nat, r0: nat, h: nat, c0: nat, w: nat): (idx: seq<nat>)
    decreases h
  {
    if h == 0 then []
    else seq(w, b requires 0 <= b < w => r0 * cols + c0 + b) + BlockIdx(cols, r0 + 1, h - 1, c0, w)
  }

  lemma {:induction false} BlockIdxBound(rows: nat, cols: nat, r0: nat, h: nat, c0: nat, w: nat)
    requires r0 + h <= rows && c0 + w <= cols
    ensures forall k | 0 <= k < |BlockIdx(cols, r0, h, c0, w)| :: BlockIdx(cols, r0, h, c0, w)[k] < rows * cols
    decreases h
  {
    if h > 0 {
      BlockIdxBound(rows, cols, r0 + 1, h - 1, c0, w);
      var first := seq(w, b requires 0 <= b < w => r0 * cols + c0 + b);
      var rest := BlockIdx(cols, r0 + 1, h - 1, c0, w);
      assert BlockIdx(cols, r0, h, c0, w) == first + rest;
      MulLe(r0 + 1, rows, cols);
      var base, total := r0 * cols, rows * cols;
      assert base + cols <= total;
      assert forall b | 0 <= b < w :: first[b] < total;
    }
  }

  /** Block layout: cell `(i, j)` of an `h` by `w` block whose corner is at
      row `r0`, column `c0` is the block's element `i * w + j` and the grid's
      row-major position `(r0 + i) * cols + c0 + j`. */
  lemma {:induction false} BlockIdxAt(cols: nat, r0: nat, h: nat, c0: nat, w: nat, i: nat, j: nat)
    requires i < h && j < w
    ensures i * w + j < |BlockIdx(cols, r0, h, c0, w)|
    ensures BlockIdx(cols, r0, h, c0, w)[i * w + j] == (r0 + i) * cols + c0 + j
    decreases i
  {
    if i > 0 {
      BlockIdxAt(cols, r0 + 1, h - 1, c0, w, i - 1, j);
      assert i * w + j == w + ((i - 1) * w + j);
      assert r0 + 1 + (i - 1) == r0 + i;
    }
  }

  /** The chunk sizes of the translation grid along its two axes (dask chunks). */
  datatype Chunking = Chunking(rowChunks: seq<nat>, colChunks: seq<nat>)

  /** One row of `trans_blocks_extents`: the block's chunk indices and its
      azimuth and range extents. */
  datatype Extent = Extent(iy: int, ix: int, ymin: real, ymax: real, xmin: real, xmax: real)

  /** The translation table: its azimuth and range grids, chunked alike. */
  datatype TransTable = TransTable(azi: Grid<real>, rng: Grid<real>, chunks: Chunking)

  predicate ValidTable(t: TransTable) {
    t.azi.Shaped() && t.rng.Shaped() && SameShape(t.azi, t.rng) &&
    Sum(t.chunks.rowChunks) == t.azi.rows && Sum(t.chunks.colChunks) == t.azi.cols &&
    (forall i | 0 <= i < |t.chunks.rowChunks| :: t.chunks.rowChunks[i] > 0) &&
    (forall i | 0 <= i < |t.chunks.colChunks| :: t.chunks.colChunks[i] > 0)
  }

  /** The extent names an existing block (`.blocks[iy, ix]`). */
  predicate Names(t: TransTable, e: Extent) {
    0 <= e.iy < |t.chunks.rowChunks| && 0 <= e.ix < |t.chunks.colChunks|
  }

  predicate AllNamed(t: TransTable, exts: seq<Extent>) {
    forall i | 0 <= i < |exts| :: Names(t, exts[i])
  }

  /** Flat positions of block `(e.iy, e.ix)`. */
  function ExtentIdx(t: TransTable, e: Extent): (idx: seq<nat>)
    requires ValidTable(t) && Names(t, e)
    ensures forall k | 0 <= k < |idx| :: idx[k] < t.azi.rows * t.azi.cols
  {
    var ch := t.chunks;
    BlockEnd(ch.rowChunks, e.iy);
    BlockEnd(ch.colChunks, e.ix);
    BlockIdxBound(t.azi.rows, t.azi.cols, Sum(ch.rowChunks[..e.iy]), ch.rowChunks[e.iy],
                  Sum(ch.colChunks[..e.ix]), ch.colChunks[e.ix]);
    BlockIdx(t.azi.cols, Sum(ch.rowChunks[..e.iy]), ch.rowChunks[e.iy],
             Sum(ch.colChunks[..e.ix]), ch.colChunks[e.ix])
  }

  /** Flat positions of the selected blocks, block after block in order. */
  function CandidateIdx(t: TransTable, sel: seq<Extent>): (idx: seq<nat>)
    requires ValidTable(t) && AllNamed(t, sel)
    ensures forall k | 0 <= k < |idx| :: idx[k] < t.azi.rows * t.azi.cols
  {
    if sel == [] then []
    else CandidateIdx(t, sel[..|sel| - 1]) + ExtentIdx(t, sel[|sel| - 1])
  }

  /** The values of `g` at the positions `idx`: a block's `reshape(-1)`. */
  function Gather<T>(g: Grid<T>, idx: seq<nat>): (s: seq<T>)
    requires forall k | 0 <= k < |idx| :: idx[k] < |g.data|
    ensures |s| == |idx|
  {
    seq(|idx|, k requires 0 <= k < |idx| => g.data[idx[k]])
  }

  /** The candidate points `np.stack([blocks_azis, blocks_rngs], axis=1)`. */
  function CandidatePoints(t: TransTable, sel: seq<Extent>): (pts: seq<Point>)
    requires ValidTable(t) && AllNamed(t, sel)
    ensures |pts| == |CandidateIdx(t, sel)|
  {
    var idx := CandidateIdx(t, sel);
    var azis, rngs := Gather(t.azi, idx), Gather(t.rng, idx);
    seq(|idx|, k requires 0 <= k < |idx| => Point(azis[k], rngs[k]))
  }

  /** The candidate labels `blocks_idxs`. */
  function CandidateLabels(t: TransTable, sel: seq<Extent>): (labels: seq<U32>)
    requires ValidTable(t) && AllNamed(t, sel)
    ensures |labels| == |CandidateIdx(t, sel)|
  {
    Gather(Labels(t.azi.rows, t.azi.cols), CandidateIdx(t, sel))
  }

  /** A candidate's label is the position of the translation cell the
      candidate's azimuth and range were read from. */
  lemma LabelProvenance(t: TransTable, sel: seq<Extent>, j: nat)
    requires ValidTable(t) && AllNamed(t, sel)
    requires t.azi.rows * t.azi.cols <= U32Modulus
    requires j < |CandidateIdx(t, sel)|
    ensures CandidateLabels(t, sel)[j] < t.azi.rows * t.azi.cols
    ensures CandidatePoints(t, sel)[j] ==
            Point(t.azi.data[CandidateLabels(t, sel)[j]], t.rng.data[CandidateLabels(t, sel)[j]])
  {
  }

  // ---- Block selection -----------------------------------------------------

  /** The tile's extent: `azi.min(), azi.max(), rng.min(), rng.max()`. */
  datatype Bounds = Bounds(ymin: real, ymax: real, xmin: real, xmax: real)

  /** The block mask: extents meet the tile's bounds widened by 1. */
  predicate Overlaps(e: Extent, b: Bounds) {
    e.ymax >= b.ymin - 1.0 && e.ymin <= b.ymax + 1.0 &&
    e.xmax >= b.xmin - 1.0 && e.xmin <= b.xmax + 1.0
  }

  /** `a` is `b` with some elements dropped, the rest in order. */
  predicate Subsequence<T(==)>(a: seq<T>, b: seq<T>)
    decreases |b|
  {
    if a == [] then true
    else if b == [] then false
    else (a[0] == b[0] && Subsequence(a[1..], b[1..])) || Subsequence(a, b[1..])
  }

  /** `trans_blocks_extents[ymask & xmask]`. */
  function Select(exts: seq<Extent>, b: Bounds): (sel: seq<Extent>)
    ensures forall e :: e in sel <==> e in exts && Overlaps(e, b)
    ensures forall e :: multiset(sel)[e] == if Overlaps(e, b) then multiset(exts)[e] else 0
    ensures Subsequence(sel, exts)
    ensures |sel| <= |exts|
  {
    if exts == [] then []
    else
      assert exts == [exts[0]] + exts[1..];
      if Overlaps(exts[0], b) then [exts[0]] + Select(exts[1..], b)
      else Select(exts[1..], b)
  }

  lemma SelectAllNamed(t: TransTable, exts: seq<Extent>, b: Bounds)
    requires AllNamed(t, exts)
    ensures AllNamed(t, Select(exts, b))
  {
    var sel := Select(exts, b);
    forall i | 0 <= i < |sel|
      ensures Names(t, sel[i])
    {
      assert sel[i] in exts;
    }
  }

  function TileBounds(azi: Grid<real>, rng: Grid<real>): Bounds
    requires |azi.data| > 0 && |rng.data| > 0
  {
    Bounds(Min(azi.data), Max(azi.data), Min(rng.data), Max(rng.data))
  }

  /** The loop over the selected blocks: blocks' azimuths, ranges and labels
      flattened and appended in order (`np.concatenate` of the three lists). */
  method GatherCandidates(t: TransTable, sel: seq<Extent>) returns (azis: seq<real>, rngs: seq<real>, idxs: seq<U32>)
    requires ValidTable(t) && AllNamed(t, sel)
    ensures |azis| == |rngs| == |idxs| == |CandidateIdx(t, sel)|
    ensures idxs == CandidateLabels(t, sel)
    ensures forall k | 0 <= k < |azis| :: Point(azis[k], rngs[k]) == CandidatePoints(t, sel)[k]
  {
    var labels := Labels(t.azi.rows, t.azi.cols);
    azis, rngs, idxs := [], [], [];
    var i := 0;
    while i < |sel|
      invariant 0 <= i <= |sel|
      invariant azis == Gather(t.azi, CandidateIdx(t, sel[..i]))
      invariant rngs == Gather(t.rng, CandidateIdx(t, sel[..i]))
      invariant idxs == Gather(labels, CandidateIdx(t, sel[..i]))
    {
      assert sel[..i + 1][..i] == sel[..i];
      var block := ExtentIdx(t, sel[i]);
      azis := azis + Gather(t.azi, block);
      rngs := rngs + Gather(t.rng, block);
      idxs := idxs + Gather(labels, block);
      i := i + 1;
    }
    assert sel[..|sel|] == sel;
  }

  /** `blocks_idxs[inds]` for one query point: the label of a nearest candidate. */
  ghost predicate NearestLabel(t: TransTable, sel: seq<Extent>, p: Point, lab: U32)
    requires ValidTable(t) && AllNamed(t, sel)
  {
    exists j :: IsNearest(CandidatePoints(t, sel), p, j) && CandidateLabels(t, sel)[j] == lab
  }

  /** The query loop of `calc_intf_ll2ra_matrix`: every tile cell, in
      row-major order, takes the label of a nearest candidate. */
  method NearestLabels(azi: Grid<real>, rng: Grid<real>, t: TransTable, sel: seq<Extent>)
    returns (out: seq<U32>)
    requires |azi.data| == |rng.data|
    requires ValidTable(t) && AllNamed(t, sel) && sel != []
    ensures |out| == |azi.data|
    ensures forall k | 0 <= k < |azi.data| :: NearestLabel(t, sel, Point(azi.data[k], rng.data[k]), out[k])
  {
    var azis, rngs, idxs := GatherCandidates(t, sel);
    var cands := seq(|azis|, q requires 0 <= q < |azis| => Point(azis[q], rngs[q]));
    assert cands == CandidatePoints(t, sel);
    assert |cands| > 0 by {
      var e := sel[|sel| - 1];
      assert Names(t, e);
      assert t.chunks.rowChunks[e.iy] > 0 && t.chunks.colChunks[e.ix] > 0;
      assert |ExtentIdx(t, e)| > 0;
    }
    out := [];
    var k := 0;
    while k < |azi.data|
      invariant 0 <= k <= |azi.data| && |out| == k
      invariant forall q | 0 <= q < k :: NearestLabel(t, sel, Point(azi.data[q], rng.data[q]), out[q])
    {
      var j := Nearest(cands, Point(azi.data[k], rng.data[k]));
      out := out + [idxs[j]];
      k := k + 1;
    }
  }

  /** `calc_intf_ll2ra_matrix` on one tile of radar coordinates: `azi`, `rng`
      are the tile's azimuth and range grids, `t` the translation table,
      `exts` its block extents. */
  method TileLookup(azi: Grid<real>, rng: Grid<real>, t: TransTable, exts: seq<Extent>)
    returns (r: Result<Grid<U32>>)
    requires azi.Shaped() && rng.Shaped()
    requires ValidTable(t) && AllNamed(t, exts)
    ensures r == Err(AssertionError) <==> !SameShape(azi, rng)
    ensures r == Err(ValueError) <==>
              SameShape(azi, rng) && (|azi.data| == 0 || Select(exts, TileBounds(azi, rng)) == [])
    ensures r.Ok? <==> SameShape(azi, rng) && |azi.data| > 0 && Select(exts, TileBounds(azi, rng)) != []
    ensures r.Err? ==> r.error == AssertionError || r.error == ValueError
    ensures r.Ok? ==> SameShape(r.value, azi) && |r.value.data| == |azi.data| == |rng.data| > 0
    ensures r.Ok? ==> AllNamed(t, Select(exts, TileBounds(azi, rng)))
    ensures r.Ok? ==> forall k | 0 <= k < |azi.data| ::
              NearestLabel(t, Select(exts, TileBounds(azi, rng)), Point(azi.data[k], rng.data[k]), r.value.data[k])
  {
    if !SameShape(azi, rng) {
      return Err(AssertionError);
    }
    if |azi.data| == 0 {
      return Err(ValueError);
    }
    var sel := Select(exts, TileBounds(azi, rng));
    if sel == [] {
      return Err(ValueError);
    }
    SelectAllNamed(t, exts, TileBounds(azi, rng));
    var out := NearestLabels(azi, rng, t, sel);
    r := Ok(Grid(azi.rows, azi.cols, out));
  }

  /** What a tile label means: the translation cell it names lies inside the
      grid, is not the "no match" sentinel while the grid has fewer than
      2^32 - 1 cells, and is as close to the radar cell as every candidate. */
  lemma TileLabelMeaning(t: TransTable, sel: seq<Extent>, p: Point, lab: U32)
    requires ValidTable(t) && AllNamed(t, sel)
    requires t.azi.rows * t.azi.cols <= Sentinel
    requires NearestLabel(t, sel, p, lab)
    ensures lab < t.azi.rows * t.azi.cols && lab != Sentinel
    ensures forall j | 0 <= j < |CandidatePoints(t, sel)| ::
              Dist2(Point(t.azi.data[lab], t.rng.data[lab]), p) <= Dist2(CandidatePoints(t, sel)[j], p)
  {
    var j :| IsNearest(CandidatePoints(t, sel), p, j) && CandidateLabels(t, sel)[j] == lab;
    LabelProvenance(t, sel, j);
  }
}
