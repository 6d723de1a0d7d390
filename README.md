# Interferogram geocoding index arithmetic

This project models the index arithmetic under pygmtsar's interferogram geocoding (`SBAS_geocode.py`). The geocoding moves rasters between two grids:
- the radar grid, with axes `y` (azimuth) and `x` (range);
- the geographic grid of the translation table `trans.dat`, with axes `lat` and `lon`.

The movement goes through two stored index matrices. The model covers four pieces:

- **Forward matrix** (`intf_ra2ll_matrix`):
  - every translation-table point gets the row-major index of its nearest interferogram cell centre within a distance limit, or -1;
  - that vector is composed with the full-area `trans_ra2ll` matrix;
  - the result is checked against the interferogram size.
- **Forward gather** (`ra2ll` inside `intf_ra2ll`):
  - a radar layer is read through the forward matrix, and -1 gives NaN;
  - a stack is geocoded layer by layer, and its coordinates are copied over;
  - a raster that has an `x` but no `y` axis is returned unchanged.
- **Inverse matrix tile lookup** (`calc_intf_ll2ra_matrix` and the `arange` labels of `intf_ll2ra_matrix`):
  - the cells of the translation grid are labelled 0, 1, … in row-major order, as uint32;
  - a tile of radar coordinates selects the translation blocks whose extents meet its bounding box, widened by 1;
  - the selected blocks' azimuths, ranges and labels are concatenated in order;
  - every tile cell takes the label of a candidate with no strictly closer candidate.
- **Inverse gather** (`ll2ra` inside the second `intf_ll2ra`):
  - a geographic layer is read through the inverse matrix, and the uint32 sentinel 2^32 - 1 gives NaN;
  - a single layer is treated as a stack of one.

Modelling choices:
- **Grids:** grids are flattened row-major (`Common.Grid`), NaN is a cell value (`Common.Cell`), and the Python exceptions are error values (`Common.Error`, `Common.Result`).
- **Fancy indexing:** NumPy fancy indexing is modelled with its negative indices, and with its eager failure when any index is out of range (`Common.PyTake`).
- **Nearest search:**
  - a linear scan stands in for scipy's cKDTree;
  - distances are compared squared, against a squared limit given as a parameter;
  - "nearest" means that no candidate is strictly closer.
- **Corrected gathers:** the geocoders use the corrected `ra2ll` and `ll2ra` described under "## Findings"; the code as written is modelled beside them, with the inputs on which the two differ.
- **State-changing code:** the loops of the source are methods, each proved against a specification function:
  - the stack loop;
  - the coordinate-copy loop;
  - the block-gathering loop;
  - the nearest queries.

Layout:
- `common.dfy`: shared values.
- `nearest.dfy`: nearest-neighbour search and cell centres.
- `forward_matrix.dfy`: building the forward matrix.
- `forward_resampler.dfy`: `intf_ra2ll`.
- `inverse_matrix.dfy`: labels, blocks, selection and the tile lookup.
- `inverse_resampler.dfy`: the second `intf_ll2ra`.

## Model

| member | source | states |
|---|---|---|
| Common.PyTake | pygmtsar/pygmtsar/SBAS_geocode.py:45 | NumPy `s[idx]`. It succeeds exactly when every index is in `[-len, len)`. The result has one element per index, and a negative index counts from the end. |
| NearestNeighbour.Nearest | pygmtsar/pygmtsar/SBAS_geocode.py:267-271 | An unbounded query over a non-empty candidate set returns an index that no candidate beats strictly. |
| NearestNeighbour.NearestWithin | pygmtsar/pygmtsar/SBAS_geocode.py:101-109 | A bounded query returns -1 exactly when no candidate is strictly within the limit. Otherwise it returns a nearest candidate's index, and that candidate is within the limit. |
| NearestNeighbour.CoincidentMatch | pygmtsar/pygmtsar/SBAS_geocode.py:94-96 | A query point that coincides with one candidate, all others being apart, has that candidate as its only answer for any positive limit. |
| NearestNeighbour.Centres | pygmtsar/pygmtsar/SBAS_geocode.py:97-98 | The broadcast cell centres number `len(y) * len(x)`. |
| NearestNeighbour.CentreAt | pygmtsar/pygmtsar/SBAS_geocode.py:97-98 | Centre number `i * len(x) + j` is `(y[i], x[j])`, which is row-major order. |
| ForwardMatrix.TransPoints | pygmtsar/pygmtsar/SBAS_geocode.py:99 | The table gives one (azimuth, range) point per row. |
| ForwardMatrix.Intf2Trans | pygmtsar/pygmtsar/SBAS_geocode.py:101-109 | Every translation point gets an entry in `[-1, n)`: -1 exactly when no centre is within the limit, otherwise a nearest centre within it. |
| ForwardMatrix.Compose | pygmtsar/pygmtsar/SBAS_geocode.py:111-112 | `np.where(tr >= 0, v[tr], -1)` keeps the matrix's shape and gives -1 where `tr < 0`, else `v[tr]`. It raises IndexError exactly when some entry, negative ones included, lies outside `[-len(v), len(v))`. |
| ForwardMatrix.ReachesMax | pygmtsar/pygmtsar/SBAS_geocode.py:114-115 | Some entry reaches the grid size exactly when the maximum `.max()` does, so the assertion on the maximum is a statement about every entry. |
| ForwardMatrix.CheckMax | pygmtsar/pygmtsar/SBAS_geocode.py:114-115 | `.max()` of an empty matrix raises ValueError. Comparing the size with the computed maximum, the assertion fails exactly when some entry reaches the grid size, and when it passes, every entry is below the size. |
| ForwardMatrix.BuildForwardMatrix | pygmtsar/pygmtsar/SBAS_geocode.py:97-115 | The forward matrix has `trans_ra2ll`'s shape. Each cell is -1 where `trans_ra2ll < 0`, and otherwise the bounded nearest centre of the named table point. Every entry lies in `[-1, len(y) * len(x))`, so the assertion never fails. An empty table raises ValueError (line 88); otherwise an axis with fewer than two values (lines 103-104) or an entry outside `[-len(trans), len(trans))` raises IndexError, and an empty `trans_ra2ll` raises ValueError. No other error occurs. |
| ForwardMatrix.CoincidentTable | pygmtsar/pygmtsar/SBAS_geocode.py:94-112 | When the table lists exactly the cell centres and they are pairwise apart, the forward matrix reproduces `trans_ra2ll` on every non-negative cell and is -1 elsewhere. |
| ForwardResampler.Ra2llAsWritten | pygmtsar/pygmtsar/SBAS_geocode.py:39-47 | `ra2ll` as written keeps the matrix's shape. A negative entry gives NaN, an entry inside the layer gives that value, and an entry at or beyond the size gives the layer's last value. It raises exactly for an empty layer or an entry below `-size`. |
| ForwardResampler.Cropped | pygmtsar/pygmtsar/SBAS_geocode.py:44 | An entry beyond the layer becomes -1, and the cropped entry is a legal index exactly when the layer is non-empty and the entry is at least `-size`. |
| ForwardResampler.Ra2ll | pygmtsar/pygmtsar/SBAS_geocode.py:42-45 | Corrected `ra2ll`: an entry inside the layer gives that value, and every other entry gives NaN. It keeps the same shape and error condition. |
| ForwardResampler.AgreeWithinLayer | pygmtsar/pygmtsar/SBAS_geocode.py:42-45 | When no entry reaches the layer size, the code as written and the corrected one agree. |
| ForwardResampler.CropExample | pygmtsar/pygmtsar/SBAS_geocode.py:44-45 | Take a two-cell layer and a matrix entry 2. As written it yields the last value, and corrected it yields NaN. |
| ForwardResampler.Ra2llLayers | pygmtsar/pygmtsar/SBAS_geocode.py:58-60 | A stack maps to one layer per input layer, in order, and each is that layer's corrected `ra2ll`. It fails exactly when some layer fails. |
| ForwardResampler.GeocodeLayers | pygmtsar/pygmtsar/SBAS_geocode.py:58-60 | The stack loop computes exactly the layer-by-layer map. |
| ForwardResampler.PassengersStep | pygmtsar/pygmtsar/SBAS_geocode.py:63-66 | One step of the coordinate loop adds the coordinate unless it is `y` or `x`. |
| ForwardResampler.CopyPassengers | pygmtsar/pygmtsar/SBAS_geocode.py:62-66 | The coordinate loop yields the matrix's coordinates overwritten by every input coordinate except `y` and `x`. |
| ForwardResampler.IntfRa2ll | pygmtsar/pygmtsar/SBAS_geocode.py:24-68 | `intf_ra2ll` equals the value-level geocoding, built on the corrected `ra2ll`: passthrough, a single layer, or a stack, where an empty stack fails in the concatenation. |
| ForwardResampler.Passthrough | pygmtsar/pygmtsar/SBAS_geocode.py:24-27 | A raster with no `y` but an `x` dimension is returned unchanged. Any other successful result carries the matrix's dimensions, after the stack's leading one. |
| ForwardResampler.SkipExamples | pygmtsar/pygmtsar/SBAS_geocode.py:25 | With Python precedence, `(lat, lon)`, `(y, x)` and `(pair, y, x)` are geocoded, and `(pair, x)` is passed through. |
| ForwardResampler.StackLayerwise | pygmtsar/pygmtsar/SBAS_geocode.py:53-60 | Layer `i` of a geocoded stack equals the geocoded single layer `i`. |
| InverseMatrix.Labels | pygmtsar/pygmtsar/SBAS_geocode.py:216-217 | The label grid has the translation grid's shape. |
| InverseMatrix.LabelsRowMajor | pygmtsar/pygmtsar/SBAS_geocode.py:216-217 | When the grid has at most 2^32 cells, cell `(r, c)` is labelled `r * cols + c` and all labels are distinct. |
| InverseMatrix.LabelsWrap | pygmtsar/pygmtsar/SBAS_geocode.py:216 | Beyond 2^32 cells the uint32 labels wrap, and two cells share a label. |
| InverseMatrix.BlockIdxBound | pygmtsar/pygmtsar/SBAS_geocode.py:253-255 | Every position of a block lying inside the grid is a cell of the grid. |
| InverseMatrix.BlockIdxAt | pygmtsar/pygmtsar/SBAS_geocode.py:258-260 | A block's `reshape(-1)` lists its cells row by row: element `i * w + j` is grid position `(r0 + i) * cols + c0 + j`. |
| InverseMatrix.ExtentIdx | pygmtsar/pygmtsar/SBAS_geocode.py:253-255 | The block named by an extent has positions inside the grid, located through the dask chunk sizes. |
| InverseMatrix.CandidateIdx | pygmtsar/pygmtsar/SBAS_geocode.py:251-263 | The concatenated candidate positions, block after block, are all inside the grid. |
| InverseMatrix.Gather | pygmtsar/pygmtsar/SBAS_geocode.py:258-260 | A gather returns one value per position. |
| InverseMatrix.CandidatePoints | pygmtsar/pygmtsar/SBAS_geocode.py:266 | There is one candidate point per candidate position. |
| InverseMatrix.CandidateLabels | pygmtsar/pygmtsar/SBAS_geocode.py:260-263 | There is one candidate label per candidate position. |
| InverseMatrix.LabelProvenance | pygmtsar/pygmtsar/SBAS_geocode.py:251-263 | Each candidate's label is a translation cell, and the candidate's azimuth and range are that cell's. |
| InverseMatrix.Select | pygmtsar/pygmtsar/SBAS_geocode.py:243-245 | A block is selected exactly when its extent meets the tile bounds widened by 1, every copy of a selected row is kept, and none of an unselected one. The selection is a subsequence of the extents, in their order. |
| InverseMatrix.SelectAllNamed | pygmtsar/pygmtsar/SBAS_geocode.py:245 | The selected rows still name existing blocks. |
| Common.Min | pygmtsar/pygmtsar/SBAS_geocode.py:240 | `min()` is an element that is at most every element. |
| Common.Max | pygmtsar/pygmtsar/SBAS_geocode.py:240 | `max()`, also taken at line 114, is an element that is at least every element. |
| InverseMatrix.GatherCandidates | pygmtsar/pygmtsar/SBAS_geocode.py:248-263 | The block loop yields three arrays of equal length. They hold the labels and the (azimuth, range) points of the selected blocks, concatenated in order. |
| InverseMatrix.NearestLabels | pygmtsar/pygmtsar/SBAS_geocode.py:265-273 | Every tile cell, in row-major order, gets the label of a candidate that no candidate beats strictly. |
| InverseMatrix.TileLookup | pygmtsar/pygmtsar/SBAS_geocode.py:235-274 | Mismatched `azi` and `rng` shapes raise AssertionError. An empty tile or an empty selection raises ValueError. Otherwise the lookup succeeds: the tile's shape is kept and every cell holds a nearest candidate's label. No other error occurs. |
| InverseMatrix.TileLabelMeaning | pygmtsar/pygmtsar/SBAS_geocode.py:265-273 | A tile label is a translation cell and never the sentinel, and that cell is at least as close to the tile point as every candidate. |
| InverseResampler.Ll2raAsWritten | pygmtsar/pygmtsar/SBAS_geocode.py:342-348 | `ll2ra` as written indexes every entry, the sentinel included, before masking. It succeeds exactly when every entry is below the layer size, the sentinel gives NaN and any other entry gives that value. |
| InverseResampler.Ll2ra | pygmtsar/pygmtsar/SBAS_geocode.py:345-347 | Corrected `ll2ra`: the sentinel gives NaN and any other entry gives that value. It keeps the matrix's shape, and it fails exactly when a non-sentinel entry is outside the layer. |
| InverseResampler.SentinelRaisesAsWritten | pygmtsar/pygmtsar/SBAS_geocode.py:345-347 | As written, any sentinel entry makes the lookup raise IndexError for every layer below 2^32 - 1 cells. |
| InverseResampler.SentinelExample | pygmtsar/pygmtsar/SBAS_geocode.py:345-347 | A one-cell sentinel matrix over a one-cell layer raises as written and gives NaN corrected. |
| InverseResampler.AgreeWithoutSentinel | pygmtsar/pygmtsar/SBAS_geocode.py:345-347 | On matrices without the sentinel, the code as written and the corrected one agree. |
| InverseResampler.ValuesPreserved | pygmtsar/pygmtsar/SBAS_geocode.py:343-347 | Every output cell is NaN or a value of the layer, so mask values are kept. |
| InverseResampler.FirstLayerOnly | pygmtsar/pygmtsar/SBAS_geocode.py:342-348 | Given a block of layers flattened together, with entries below one layer's size, only the first layer is read. |
| InverseResampler.Ll2raLayers | pygmtsar/pygmtsar/SBAS_geocode.py:351-361 | A stack maps to one layer per input layer, in order, and each is that layer's corrected `ll2ra`. |
| InverseResampler.LoopDims | pygmtsar/pygmtsar/SBAS_geocode.py:354-355 | The loop dimensions are exactly the input dimensions other than `lat` and `lon`. |
| InverseResampler.DropGeographic | pygmtsar/pygmtsar/SBAS_geocode.py:355 | The `lat` and `lon` coordinates are dropped, and the others are kept unchanged. |
| InverseResampler.InverseShape | pygmtsar/pygmtsar/SBAS_geocode.py:331-363 | A missing `lat` raises NameError and a missing `lon` raises ValueError. Otherwise the result keeps the layer or stack form, ends with dimensions `y`, `x`, and gives every layer the matrix's shape. |
| InverseResampler.LayerIsStackOfOne | pygmtsar/pygmtsar/SBAS_geocode.py:353-363 | A single layer, expanded to a stack of one and unwrapped, gives exactly the single-layer `ll2ra` with dimensions `y`, `x`. |
| InverseResampler.InverseGatherMeaning | pygmtsar/pygmtsar/SBAS_geocode.py:342-347 | On a matrix of nearest-candidate labels, the lookup succeeds and agrees with the code as written. Each radar cell gets the value of a translation cell at least as close as every candidate. |

## Left out

- The xarray and dask plumbing is not modelled:
  - `reindex_like`, `interp_like(method='nearest')`, `broadcast`, `unify_chunks` and `apply_ufunc` tiling and assembly;
  - rasters enter the model already on the target grid, and blocks are given as chunk sizes.
- `apply_ufunc`'s transposition of `lat` and `lon` to the end is not modelled. A stack's layers are taken along its non-geographic dimension.
- The inverse matrix as a whole, assembled from tiles by `apply_ufunc`, is not modelled. Only one tile is.
- InverseMatrix.Labels: the label array is assumed to be chunked like the translation grid. The multiplication by `ones_like` at line 217 could rechunk it, and that is not modelled.
- InverseMatrix.ValidTable:
  - it asks for positive chunk sizes, which dask guarantees for a non-empty grid;
  - an empty candidate set, which only zero-sized chunks could produce, is therefore not modelled.
- `intf_grids.min('pair')` (lines 81 and 311) is floating-point compositing and is not modelled. Only the grid's shape matters here.
- cKDTree is replaced by a linear scan, and its tie-breaking is not reproduced: any nearest candidate is allowed.
- The distance limit formula with `sqrt` and the `1e-2` margin (line 105) is not modelled. The limit is a squared parameter, compared strictly.
- `workers` parallelism, the joblib and tqdm parallel map (line 58) and `tqdm_dask`/`dask.persist` (line 315) are left out. Stacks are mapped sequentially.
- File I/O is left out: NetCDF reading and writing, `os.remove`, `get_filenames`, and the `node_offset` attribute.
- Calls into code that is not part of this model are left out: `get_trans_dat`, `get_trans_dat_blocks_extents`, `open_grids`, `get_subswath`, `PRM`.
- `geocode_parallel` (lines 165-188) only sequences files and processes and is left out. So are the argument juggling at lines 18-23 and the `interactive` returns.
- Dead code is left out: the commented-out builders (lines 49-51 and 123-163) and the stub `intf_ll2ra` at line 194, which the definition at line 324 overrides.
- InverseMatrix.TileLookup: every extent row is assumed to name an existing block. The source reads `.blocks[iy, ix]` only for the selected rows (lines 251-255), so an unselected stray row is harmless there; this is an assumption about `get_trans_dat_blocks_extents`, which is not part of this model.
- The `print` notices at lines 26, 246 and 333 are output only and are left out.
- The float32 output type of the inverse gather is left out. Cell values are reals or NaN.
- Coordinates are a name-to-values map without their dimensions:
  - the forward stack keeps every input coordinate except `y` and `x`;
  - the inverse gather drops exactly `lat` and `lon`.
- `intf_ra2ll` on a raster that is neither two- nor three-dimensional is not representable.
- InverseResampler.InverseGeocode: each call of `ll2ra` is assumed to see one layer, that is, one chunk along the stack dimension. `FirstLayerOnly` shows what a call on several layers at once would read.

## Findings

| source | as written | input that shows it | evidently intended | confidence | as-written member | corrected member |
|---|---|---|---|---|---|---|
| pygmtsar/pygmtsar/SBAS_geocode.py:345-347 | `grid.reshape(-1)[matrix_ll2ra]` is evaluated for every entry before `np.where` masks the sentinel, so a sentinel raises IndexError | a 1×1 matrix holding 2^32 - 1 over a 1-cell layer | the sentinel cell becomes NaN | not executed; latent, because `intf_ll2ra_matrix` only writes labels below the grid size (`InverseGatherMeaning`) | InverseResampler.SentinelExample | InverseResampler.Ll2ra |
| pygmtsar/pygmtsar/SBAS_geocode.py:44-45 | entries at or beyond the layer size are cropped to -1, but the `>= 0` test reads the uncropped matrix, so they take the layer's last value | a 2-cell layer and a 1×1 matrix holding 2 | the cropped cells become NaN, as the comment at lines 42-43 says | not executed | ForwardResampler.CropExample | ForwardResampler.Ra2ll |
