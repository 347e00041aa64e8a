/**
 * Reference data of a server `TactileObject`. A header file holds the grid
 * height and width and then one start offset per cell (counted in floats);
 * a data file holds the float32 samples of all cells back to back. Parsing
 * yields a height × width grid whose cells are resampled to a fixed length.
 * Samples are float32 bit patterns (they are only copied); file access is
 * replaced by the byte contents, or None for a missing file.
 */
module TactileObject {
  import opened Wrappers
  import opened Bytes
  import opened SeqUtil
  import opened Arith
  import Series

  /** Why loading failed: a missing file, a rejected header, or an exception. */
  datatype LoadError = Missing | Invalid | Thrown

  /** The interpolating branch of the resampler, left abstract: (raw, size, i) to sample i. */
  type Interpolation = (seq<float32>, nat, nat) -> float32

  // ---------------------------------------------------------------------
  // RawToFixedArray
  // ---------------------------------------------------------------------

  /** The sample a downsample of `len` samples to `size` takes for position i: ⌊i·len/size⌋. */
  function Pick(len: nat, size: nat, i: nat): (p: nat)
    requires i < size < len
    ensures i <= p < len
  {
    MulMonotone(i + 1, size, len);
    DivBelow(i * len, size, len);
    MulMonotone(size, len, i);
    DivAtLeast(i * len, size, i);
    i * len / size
  }

  /** `RawToFixedArray`: resamples a cell to exactly `size` samples. */
  function RawToFixed(raw: seq<float32>, size: nat, interpolate: Interpolation): (r: seq<float32>)
    ensures |r| == size
    ensures |raw| == size ==> r == raw
    ensures |raw| == 0 ==> r == Fill(size, 0)
    ensures |raw| == 1 ==> r == Fill(size, raw[0])
  {
    if |raw| == size then raw
    else if |raw| > size then seq(size, i requires 0 <= i < size => raw[Pick(|raw|, size, i)])
    else if |raw| == 0 then Fill(size, 0)
    // With one sample the step is 0, so every index floors to the last sample.
    else if |raw| == 1 then Fill(size, raw[0])
    else seq(size, i requires 0 <= i < size => interpolate(raw, size, i))
  }

  /** Downsampling picks strictly increasing source positions. */
  lemma {:induction false} PickIncreasing(len: nat, size: nat, i: nat, j: nat)
    requires i < j < size < len
    ensures Pick(len, size, i) < Pick(len, size, j)
    decreases j - i
  {
    var q := i * len / size;
    assert q * size <= i * len;
    assert (i + 1) * len == i * len + len;
    DivAtLeast((i + 1) * len, size, q + 1);
    if j > i + 1 {
      PickIncreasing(len, size, i + 1, j);
    }
  }

  /**
   * A downsampled cell is a selection of the raw samples in order, starting
   * with the first: entry i is raw[⌊i·len/size⌋] and no sample is taken twice.
   */
  lemma DownsampleSelects(raw: seq<float32>, size: nat, interpolate: Interpolation)
    requires |raw| > size > 0
    ensures var r := RawToFixed(raw, size, interpolate);
            r[0] == raw[0]
            && (forall i :: 0 <= i < size ==> r[i] == raw[Pick(|raw|, size, i)])
            && (forall i, j :: 0 <= i < j < size ==> Pick(|raw|, size, i) < Pick(|raw|, size, j))
  {
    forall i, j | 0 <= i < j < size
      ensures Pick(|raw|, size, i) < Pick(|raw|, size, j)
    {
      PickIncreasing(|raw|, size, i, j);
    }
  }

  // ---------------------------------------------------------------------
  // LoadReferenceData on byte arrays
  // ---------------------------------------------------------------------

  /** The int32 word k of a file (bytes [4k, 4k + 4)), as `BitConverter.ToInt32` reads it. */
  function IntAt(bs: seq<byte>, k: nat): int32
    requires 4 * k + 4 <= |bs|
  {
    Int32Of(bs[4 * k..4 * k + 4])
  }

  /** The float32 sample k of a file, as `BitConverter.ToSingle` reads it. */
  function FloatAt(bs: seq<byte>, k: nat): float32
    requires 4 * k + 4 <= |bs|
  {
    Float32Of(bs[4 * k..4 * k + 4])
  }

  /**
   * A header that passes the loader's checks: positive height and width, and
   * a length equal to (h·w + 2)·4 computed in C# `int`, which wraps.
   */
  predicate HeaderPasses(header: seq<byte>)
  {
    |header| >= 8 && IntAt(header, 0) > 0 && IntAt(header, 1) > 0
    && |header| == Wrap32((IntAt(header, 0) * IntAt(header, 1) + 2) * 4)
  }

  /**
   * A header the loader accepts: positive height and width, and exactly one
   * offset per cell.
   */
  predicate HeaderValid(header: seq<byte>)
  {
    |header| >= 8 && IntAt(header, 0) > 0 && IntAt(header, 1) > 0
    && |header| == (IntAt(header, 0) * IntAt(header, 1) + 2) * 4
  }

  function CellCount(header: seq<byte>): (n: nat)
    requires HeaderValid(header)
    ensures |header| == 4 * (n + 2)
  {
    IntAt(header, 0) * IntAt(header, 1)
  }

  /** Start offset of cell k; the extra entry n is the sentinel |data| / 4. */
  function Start(header: seq<byte>, data: seq<byte>, n: nat, k: nat): int
    requires k <= n && |header| == 4 * (n + 2)
  {
    if k < n then IntAt(header, k + 2) else |data| / 4
  }

  /**
   * Reads the samples [start, end) of the data file. A negative length throws
   * when the array is allocated; a non-empty range throws unless every sample
   * lies inside the file.
   */
  function ReadSamples(data: seq<byte>, start: int, end: int): (r: Result<seq<float32>, LoadError>)
    ensures r.Success? <==> start == end || (0 <= start < end && 4 * end <= |data|)
    ensures r.Failure? ==> r.error == Thrown
    ensures r.Success? ==> |r.value| == end - start
                           && forall k :: 0 <= k < |r.value| ==> r.value[k] == FloatAt(data, start + k)
  {
    if end - start < 0 then Failure(Thrown)
    else if end - start == 0 then Success([])
    else if start < 0 || 4 * end > |data| then Failure(Thrown)
    else
      var samples: seq<float32> := seq<float32>(end - start, k requires 0 <= k < end - start => FloatAt(data, start + k));
      Success(samples)
  }

  /** The raw samples of cell k. */
  function Cell(header: seq<byte>, data: seq<byte>, n: nat, k: nat): Result<seq<float32>, LoadError>
    requires k < n && |header| == 4 * (n + 2)
  {
    ReadSamples(data, Start(header, data, n, k), Start(header, data, n, k + 1))
  }

  /** Reads cells k..n-1 in row-major order, stopping at the first exception. */
  function ReadCells(header: seq<byte>, data: seq<byte>, n: nat, k: nat): (r: Result<seq<seq<float32>>, LoadError>)
    requires k <= n && |header| == 4 * (n + 2)
    ensures r.Success? <==> forall m :: k <= m < n ==> Cell(header, data, n, m).Success?
    ensures r.Failure? ==> r.error == Thrown
    ensures r.Success? ==> |r.value| == n - k
                           && forall m :: k <= m < n ==> r.value[m - k] == Cell(header, data, n, m).value
    decreases n - k
  {
    if k == n then Success([])
    else
      match Cell(header, data, n, k)
      case Failure(e) => Failure(e)
      case Success(c) =>
        match ReadCells(header, data, n, k + 1)
        case Failure(e) => Failure(e)
        case Success(cs) => Success([c] + cs)
  }

  /** `h` rows of `w` cells, in row-major order. */
  function Rows<T>(cells: seq<T>, h: nat, w: nat): (r: seq<seq<T>>)
    requires |cells| == h * w
    ensures |r| == h && Uniform(r, w) && FlattenRows(r) == cells
    decreases h
  {
    if h == 0 then []
    else
      assert |cells| == w + (h - 1) * w;
      var rest := Rows(cells[w..], h - 1, w);
      assert ([cells[..w]] + rest)[1..] == rest;
      assert cells[..w] + cells[w..] == cells;
      [cells[..w]] + rest
  }

  /** Element (i, j) of the grid is cell i·w + j. */
  lemma RowsAt<T>(cells: seq<T>, h: nat, w: nat, i: nat, j: nat)
    requires |cells| == h * w && i < h && j < w
    ensures i * w + j < |cells| && Rows(cells, h, w)[i][j] == cells[i * w + j]
  {
    FlattenRowsAt(Rows(cells, h, w), w, i, j);
  }

  function Resample(raw: seq<seq<float32>>, size: nat, interpolate: Interpolation): (r: seq<seq<float32>>)
    ensures |r| == |raw| && forall k :: 0 <= k < |raw| ==> r[k] == RawToFixed(raw[k], size, interpolate)
  {
    seq(|raw|, k requires 0 <= k < |raw| => RawToFixed(raw[k], size, interpolate))
  }

  datatype Reference = Reference(height: int, width: int, cells: seq<seq<seq<float32>>>)

  /** The byte-array part of `LoadReferenceData`. */
  function Parse(header: ByteArray, data: seq<byte>, size: nat, interpolate: Interpolation)
    : (r: Result<Reference, LoadError>)
    ensures |header| < 8 ==> r == Failure(Thrown)
    ensures r == Failure(Invalid) ==> |header| >= 8 && !HeaderValid(header)
    ensures r.Success? <==> HeaderValid(header)
                            && forall k :: 0 <= k < CellCount(header) ==> Cell(header, data, CellCount(header), k).Success?
    ensures r.Success? ==>
              r.value.height == IntAt(header, 0) && r.value.width == IntAt(header, 1)
              && |r.value.cells| == r.value.height && Uniform(r.value.cells, r.value.width)
              && forall i, j :: 0 <= i < r.value.height && 0 <= j < r.value.width ==> |r.value.cells[i][j]| == size
  {
    if |header| < 8 then Failure(Thrown)
    else if !HeaderPasses(header) then Failure(Invalid)
    else if !HeaderValid(header) then
      // The check passed only because the int32 product wrapped, so
      // (h·w + 2)·4 >= 2^31. Then `new int[h * w + 1]` gets a negative
      // length, or the offset loop reads past the header, or the h × w
      // reference array exceeds the runtime's array size limit: each throws.
      Failure(Thrown)
    else
      match ReadCells(header, data, CellCount(header), 0)
      case Failure(e) => Failure(e)
      case Success(raw) => Success(Grid(raw, size, interpolate, IntAt(header, 0), IntAt(header, 1)))
  }

  /** The resampled cells of a file, `h` rows of `w`. */
  function Grid(raw: seq<seq<float32>>, size: nat, interpolate: Interpolation, h: nat, w: nat): (r: Reference)
    requires |raw| == h * w
    ensures r.height == h && r.width == w && |r.cells| == h && Uniform(r.cells, w)
    ensures forall i, j :: 0 <= i < h && 0 <= j < w ==> |r.cells[i][j]| == size
  {
    var grid: seq<seq<seq<float32>>> := Rows(Resample(raw, size, interpolate), h, w);
    assert forall i, j :: 0 <= i < h && 0 <= j < w ==> |grid[i][j]| == size by {
      forall i, j | 0 <= i < h && 0 <= j < w
        ensures |grid[i][j]| == size
      {
        RowsAt(Resample(raw, size, interpolate), h, w, i, j);
      }
    }
    Reference(h, w, grid)
  }

  /** Grid cell (i, j) is raw cell i·w + j resampled. */
  lemma ParseCell(header: ByteArray, data: seq<byte>, size: nat, interpolate: Interpolation, i: nat, j: nat)
    requires Parse(header, data, size, interpolate).Success?
    requires i < IntAt(header, 0) && j < IntAt(header, 1)
    ensures HeaderValid(header)
            && var n, k := CellCount(header), i * IntAt(header, 1) + j;
               k < n && Cell(header, data, n, k).Success?
               && var cells := Parse(header, data, size, interpolate).value.cells;
                  i < |cells| && j < |cells[i]| && cells[i][j] == RawToFixed(Cell(header, data, n, k).value, size, interpolate)
  {
    var h, w := IntAt(header, 0), IntAt(header, 1);
    var raw := ParseGrid(header, data, size, interpolate);
    var cells := Resample(raw, size, interpolate);
    RowsAt(cells, h, w, i, j);
    var m := i * w + j;
    assert cells[m] == RawToFixed(raw[m], size, interpolate);
  }

  /** An accepted file pair is the raw cells, resampled and cut into rows of the header's width. */
  lemma ParseGrid(header: ByteArray, data: seq<byte>, size: nat, interpolate: Interpolation)
    returns (raw: seq<seq<float32>>)
    requires Parse(header, data, size, interpolate).Success?
    ensures HeaderValid(header) && |raw| == CellCount(header) == IntAt(header, 0) * IntAt(header, 1)
    ensures forall m :: 0 <= m < CellCount(header) ==>
              Cell(header, data, CellCount(header), m).Success? && raw[m] == Cell(header, data, CellCount(header), m).value
    ensures Parse(header, data, size, interpolate)
            == Success(Grid(raw, size, interpolate, IntAt(header, 0), IntAt(header, 1)))
  {
    var n := CellCount(header);
    var read := ReadCells(header, data, n, 0);
    assert read.Success?;
    raw := read.value;
  }

  /**
   * The header checks in int32: a header is rejected exactly when it fails
   * them, and one that passes them only because (h·w + 2)·4 wrapped throws.
   */
  lemma ParseRejects(header: ByteArray, data: seq<byte>, size: nat, interpolate: Interpolation)
    ensures Parse(header, data, size, interpolate) == Failure(Invalid) <==> |header| >= 8 && !HeaderPasses(header)
    ensures HeaderPasses(header) && !HeaderValid(header) ==> Parse(header, data, size, interpolate) == Failure(Thrown)
    ensures HeaderValid(header) ==> HeaderPasses(header)
  {
  }

  /**
   * A 3·2^30-cell header: (h·w + 2)·4 wraps to 8, so the eight-byte header
   * passes the length check, and then the loader throws.
   */
  lemma WrappedHeaderThrows(data: seq<byte>, size: nat, interpolate: Interpolation)
    ensures var header := Int32Bytes(98304) + Int32Bytes(32768);
            HeaderPasses(header) && !HeaderValid(header)
            && Parse(header, data, size, interpolate) == Failure(Thrown)
  {
    var header := Int32Bytes(98304) + Int32Bytes(32768);
    WrappedHeaderFields();
    WrapsToEight();
    ParseRejects(header, data, size, interpolate);
  }

  lemma WrappedHeaderFields()
    ensures var header := Int32Bytes(98304) + Int32Bytes(32768);
            |header| == 8 && IntAt(header, 0) == 98304 && IntAt(header, 1) == 32768
  {
    var header := Int32Bytes(98304) + Int32Bytes(32768);
    assert header[0..4] == Int32Bytes(98304) && header[4..8] == Int32Bytes(32768);
    Int32RoundTrip(98304);
    Int32RoundTrip(32768);
  }

  lemma WrapsToEight()
    ensures Wrap32((98304 * 32768 + 2) * 4) == 8
  {
  }

  /** An accepted file pair has non-decreasing offsets, ending at the sentinel. */
  lemma AcceptedOffsetsOrdered(header: ByteArray, data: seq<byte>, size: nat, interpolate: Interpolation, k: nat)
    requires Parse(header, data, size, interpolate).Success? && k < CellCount(header)
    ensures Start(header, data, CellCount(header), k) <= Start(header, data, CellCount(header), k + 1)
  {
    assert Cell(header, data, CellCount(header), k).Success?;
  }

  /** A `TactileObject`'s loaded state and its `_fixedSize`. */
  datatype TactileObject = TactileObject(reference: seq<seq<seq<float32>>>, height: int, width: int, fixedSize: nat)

  /**
   * `LoadReferenceData`: on success all three fields are replaced together
   * and the result is true; on a rejection or an exception nothing changes.
   */
  function Load(o: TactileObject, header: Option<ByteArray>, data: Option<seq<byte>>, interpolate: Interpolation)
    : (r: (TactileObject, Option<LoadError>))
    ensures header.None? || data.None? <==> r.1 == Some(Missing)
    ensures r.1.Some? ==> r.0 == o
    ensures r.1.None? <==> header.Some? && data.Some? && Parse(header.value, data.value, o.fixedSize, interpolate).Success?
    ensures r.1.None? ==>
              var p := Parse(header.value, data.value, o.fixedSize, interpolate).value;
              r.0 == o.(reference := p.cells, height := p.height, width := p.width)
  {
    if header.None? || data.None? then (o, Some(Missing))
    else
      match Parse(header.value, data.value, o.fixedSize, interpolate)
      case Failure(e) => (o, Some(e))
      case Success(p) => (o.(reference := p.cells, height := p.height, width := p.width), None)
  }

  // ---------------------------------------------------------------------
  // Building the files a grid is stored as
  // ---------------------------------------------------------------------

  /** Where cell k starts: the number of samples in the cells before it. */
  function Offset(cells: seq<seq<float32>>, k: nat): nat
    requires k <= |cells|
  {
    |FlattenRows(cells[..k])|
  }

  lemma OffsetStep(cells: seq<seq<float32>>, k: nat)
    requires k < |cells|
    ensures Offset(cells, k + 1) == Offset(cells, k) + |cells[k]|
  {
    assert cells[..k + 1] == cells[..k] + [cells[k]];
    FlattenRowsAppend(cells[..k], [cells[k]]);
    var one: seq<seq<float32>> := [cells[k]];
    assert one[1..] == [];
  }

  /** Offsets grow with k, up to the total number of samples. */
  lemma {:induction false} OffsetBounds(cells: seq<seq<float32>>, k: nat, m: nat)
    requires k <= m <= |cells|
    ensures Offset(cells, k) <= Offset(cells, m) <= |FlattenRows(cells)|
    decreases |cells| - k
  {
    assert cells[..|cells|] == cells;
    if k < |cells| {
      OffsetStep(cells, k);
      OffsetBounds(cells, k + 1, if m == k then k + 1 else m);
    }
  }

  /** Sample j of cell k sits at flat position Offset(k) + j. */
  lemma OffsetSample(cells: seq<seq<float32>>, k: nat, j: nat)
    requires k < |cells| && j < |cells[k]|
    ensures Offset(cells, k) + j < |FlattenRows(cells)|
            && FlattenRows(cells)[Offset(cells, k) + j] == cells[k][j]
  {
    assert cells == cells[..k] + cells[k..];
    FlattenRowsAppend(cells[..k], cells[k..]);
    assert FlattenRows(cells[k..]) == cells[k] + FlattenRows(cells[k + 1..]) by {
      assert cells[k..][1..] == cells[k + 1..];
    }
  }

  function IntWords(xs: seq<int32>): (r: seq<byte>)
    ensures |r| == 4 * |xs|
  {
    var ws := seq(|xs|, k requires 0 <= k < |xs| => Int32Bytes(xs[k]));
    Series.Flatten(ws)
  }

  lemma IntWordsAt(xs: seq<int32>, k: nat)
    requires k < |xs|
    ensures IntWords(xs)[4 * k..4 * k + 4] == Int32Bytes(xs[k])
  {
    Series.FlattenWord(seq(|xs|, k requires 0 <= k < |xs| => Int32Bytes(xs[k])), k);
  }

  function FloatWords(xs: seq<float32>): (r: seq<byte>)
    ensures |r| == 4 * |xs|
  {
    var ws := seq(|xs|, k requires 0 <= k < |xs| => Float32Bytes(xs[k]));
    Series.Flatten(ws)
  }

  lemma FloatWordsAt(xs: seq<float32>, k: nat)
    requires k < |xs|
    ensures 4 * k + 4 <= |FloatWords(xs)| && FloatAt(FloatWords(xs), k) == xs[k]
  {
    Series.FlattenWord(seq(|xs|, k requires 0 <= k < |xs| => Float32Bytes(xs[k])), k);
    Float32RoundTrip(xs[k]);
  }

  /** A grid whose files fit the loader's int32 header fields. */
  predicate Storable(h: nat, w: nat, cells: seq<seq<float32>>)
  {
    h > 0 && w > 0 && |cells| == h * w && h < Two31 && w < Two31 && |FlattenRows(cells)| < Two31
    && 4 * (|cells| + 2) < Two31
  }

  /** The header file of an h × w grid of raw cells. */
  function BuildHeader(h: nat, w: nat, cells: seq<seq<float32>>): (r: seq<byte>)
    requires Storable(h, w, cells)
    ensures |r| == 4 * (|cells| + 2)
  {
    var offsets: seq<int32> := seq<int32>(|cells|, k requires 0 <= k < |cells| =>
                         OffsetBounds(cells, k, |cells|);
                         Offset(cells, k) as int32);
    IntWords([h as int32, w as int32] + offsets)
  }

  /** The data file: every sample, row-major, cell after cell. */
  function BuildData(cells: seq<seq<float32>>): (r: seq<byte>)
    ensures |r| == 4 * |FlattenRows(cells)|
  {
    FloatWords(FlattenRows(cells))
  }

  /** The built header holds h, w and cell k's offset in words 0, 1 and k + 2. */
  lemma BuildHeaderFields(h: nat, w: nat, cells: seq<seq<float32>>)
    requires Storable(h, w, cells)
    ensures var header := BuildHeader(h, w, cells);
            IntAt(header, 0) == h && IntAt(header, 1) == w && HeaderValid(header) && |header| < Two31
            && CellCount(header) == |cells|
            && forall k :: 0 <= k <= |cells| ==>
                 Start(header, BuildData(cells), |cells|, k) == Offset(cells, k)
  {
    var header := BuildHeader(h, w, cells);
    var offsets: seq<int32> := seq<int32>(|cells|, k requires 0 <= k < |cells| =>
                         OffsetBounds(cells, k, |cells|);
                         Offset(cells, k) as int32);
    var xs: seq<int32> := [h as int32, w as int32] + offsets;
    IntWordsAt(xs, 0);
    Int32RoundTrip(h as int32);
    IntWordsAt(xs, 1);
    Int32RoundTrip(w as int32);
    forall k | 0 <= k <= |cells|
      ensures Start(header, BuildData(cells), |cells|, k) == Offset(cells, k)
    {
      if k < |cells| {
        IntWordsAt(xs, k + 2);
        OffsetBounds(cells, k, |cells|);
        Int32RoundTrip(Offset(cells, k) as int32);
      } else {
        assert cells[..|cells|] == cells;
      }
    }
  }

  /** Each built cell reads back as the raw cell that was stored. */
  lemma BuildCell(h: nat, w: nat, cells: seq<seq<float32>>, k: nat)
    requires Storable(h, w, cells) && k < |cells|
    ensures var header := BuildHeader(h, w, cells);
            |header| == 4 * (|cells| + 2)
            && Cell(header, BuildData(cells), |cells|, k) == Success(cells[k])
  {
    var header := BuildHeader(h, w, cells);
    var data := BuildData(cells);
    BuildHeaderFields(h, w, cells);
    OffsetStep(cells, k);
    OffsetBounds(cells, k + 1, |cells|);
    var r := Cell(header, data, |cells|, k);
    assert r.Success?;
    forall j | 0 <= j < |cells[k]|
      ensures r.value[j] == cells[k][j]
    {
      OffsetSample(cells, k, j);
      FloatWordsAt(FlattenRows(cells), Offset(cells, k) + j);
    }
    assert r.value == cells[k];
  }

  /**
   * Round trip: the header and data files built from an h × w grid of raw
   * cells load as that grid, every cell resampled to the fixed size.
   */
  lemma ParseBuilt(h: nat, w: nat, cells: seq<seq<float32>>, size: nat, interpolate: Interpolation)
    requires Storable(h, w, cells)
    ensures Parse(BuildHeader(h, w, cells), BuildData(cells), size, interpolate)
            == Success(Reference(h, w, Rows(Resample(cells, size, interpolate), h, w)))
  {
    var header := BuildHeader(h, w, cells);
    var data := BuildData(cells);
    BuildHeaderFields(h, w, cells);
    forall k | 0 <= k < |cells|
      ensures Cell(header, data, |cells|, k) == Success(cells[k])
    {
      BuildCell(h, w, cells, k);
    }
    var raw := ReadCells(header, data, |cells|, 0);
    assert raw.Success?;
    assert raw.value == cells;
  }
}
