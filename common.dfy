/** Values shared by the geocoding matrices and the resamplers: raster cells,
    row-major grids, the Python/NumPy error kinds and NumPy's fancy indexing. */
module Common {

  /** A raster cell: a number, or NumPy's not-a-number. */
  datatype Cell = NaN | Val(v: real)

  /** The exceptions the geocoding code can raise. */
  datatype Error = IndexError | ValueError | AssertionError | NameError

  datatype Result<T> = Ok(value: T) | Err(error: Error) {
    predicate IsFailure() { Err? }

    function PropagateFailure<U>(): Result<U>
      requires Err?
    {
      Err(error)
    }

    function Extract(): T
      requires Ok?
    {
      value
    }
  }

  /** Unsigned 32-bit integers, the storage type of the inverse matrix. */
  const U32Modulus: int := 0x1_0000_0000
  type U32 = x: int | 0 <= x < 0x1_0000_0000

  /** `np.uint32(-1)`, the "no match" value of the inverse matrix. */
  const Sentinel: U32 := 0xFFFF_FFFF

  /** A 2-D array flattened in row-major order (`values.reshape(-1)`). */
  datatype Grid<T> = Grid(rows: nat, cols: nat, data: seq<T>) {
    predicate Shaped() { |data| == rows * cols }
  }

  predicate SameShape<T, U>(a: Grid<T>, b: Grid<U>) {
    a.rows == b.rows && a.cols == b.cols
  }

  /** True when `i` is a legal NumPy index into a sequence of length `n`:
      negative indices count from the end. */
  predicate InPyRange(n: int, i: int) {
    -n <= i < n
  }

  /** NumPy fancy indexing `s[idx]`: the whole index array is evaluated at
      once, so a single out-of-range index raises IndexError. */
  function PyTake<T>(s: seq<T>, idx: seq<int>): (r: Result<seq<T>>)
    ensures r.Ok? <==> forall k | 0 <= k < |idx| :: InPyRange(|s|, idx[k])
    ensures r.Ok? ==> |r.value| == |idx|
    ensures r.Ok? ==> forall k | 0 <= k < |idx| ::
                        r.value[k] == s[if idx[k] < 0 then |s| + idx[k] else idx[k]]
  {
    if forall k | 0 <= k < |idx| :: InPyRange(|s|, idx[k]) then
      Ok(seq(|idx|, k requires 0 <= k < |idx| =>
               s[if idx[k] < 0 then |s| + idx[k] else idx[k]]))
    else
      Err(IndexError)
  }

  /** One value of a coordinate label (a number, or a text such as a pair name). */
  datatype CoordValue = Number(r: real) | Text(t: string)

  /** Coordinate labels of a raster, by name. */
  type Coords = map<string, seq<CoordValue>>

  /** A raster: one 2-D layer, or a stack of 2-D layers along a leading
      dimension. `dims` are the dimension names in order. */
  datatype Raster =
    | Layer(dims: seq<string>, coords: Coords, grid: Grid<Cell>)
    | Stack(dims: seq<string>, coords: Coords, layers: seq<Grid<Cell>>)

  /** A raster's dimensionality is its number of dimension names. */
  predicate WellFormed(r: Raster) {
    match r
    case Layer(dims, _, _) => |dims| == 2
    case Stack(dims, _, _) => |dims| == 3
  }

  /** An index matrix with the dimension names and coordinates it is stored with. */
  datatype Matrix<T> = Matrix(dims: seq<string>, coords: Coords, grid: Grid<T>)

  /** `min()` and `max()` of a non-empty array. */
  function Min(s: seq<real>): (m: real)
    requires |s| > 0
    ensures m in s && forall i | 0 <= i < |s| :: m <= s[i]
  {
    if |s| == 1 then s[0]
    else var r := Min(s[1..]); if s[0] <= r then s[0] else r
  }

  function Max(s: seq<real>): (m: real)
    requires |s| > 0
    ensures m in s && forall i | 0 <= i < |s| :: s[i] <= m
  {
    if |s| == 1 then s[0]
    else var r := Max(s[1..]); if r <= s[0] then s[0] else r
  }
}
