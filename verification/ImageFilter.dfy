/**
 The image filter that the documentation specialises: a convolution with a square mask over a row-major
 image with interleaved channels. All indices are computed in 32-bit unsigned arithmetic.
 */
module ImageFilter {
  import opened Arithmetic

  type UChar = x: int | 0 <= x < 256
  type SChar = x: int | -128 <= x < 128

  const U32: nat := 0x1_0000_0000

  /** Conversion to an unsigned char. */
  function ToUChar(v: int): UChar { v % 256 }

  // ----- indexing -----

  function Index(cols: nat, channels: nat, row: nat, col: nat, ch: nat): nat {
    (row * cols + col) * channels + ch
  }

  /** The row, column and channel of a cell; an image without columns or channels has no cells. */
  function RowOf(cols: nat, channels: nat, x: nat): nat {
    if cols == 0 || channels == 0 then 0 else x / channels / cols
  }

  function ColOf(cols: nat, channels: nat, x: nat): nat {
    if cols == 0 || channels == 0 then 0 else x / channels % cols
  }

  function ChannelOf(channels: nat, x: nat): nat {
    if channels == 0 then 0 else x % channels
  }

  /** A cell's coordinates are recovered from its index, so distinct coordinates have distinct cells. */
  lemma {:induction false} IndexRoundTrip(cols: nat, channels: nat, row: nat, col: nat, ch: nat)
    requires col < cols && ch < channels
    ensures var x := Index(cols, channels, row, col, ch);
      RowOf(cols, channels, x) == row && ColOf(cols, channels, x) == col && ChannelOf(channels, x) == ch
  {
    UniqueDivision(Index(cols, channels, row, col, ch), row * cols + col, ch, channels);
    UniqueDivision(row * cols + col, row, col, cols);
  }

  /** And every cell is the cell of its coordinates. */
  lemma {:induction false} CellRoundTrip(cols: nat, channels: nat, x: nat)
    requires cols > 0 && channels > 0
    ensures Index(cols, channels, RowOf(cols, channels, x), ColOf(cols, channels, x), ChannelOf(channels, x)) == x
    ensures ColOf(cols, channels, x) < cols && ChannelOf(channels, x) < channels
  {
    var p := x / channels;
    assert x == p * channels + x % channels;
    assert p == (p / cols) * cols + p % cols;
  }

  /** Coordinates inside the image give a cell inside the buffer. */
  lemma {:induction false} IndexInBounds(rows: nat, cols: nat, channels: nat, row: nat, col: nat, ch: nat)
    requires row < rows && col < cols && ch < channels
    ensures row * cols + col < rows * cols
    ensures Index(cols, channels, row, col, ch) < rows * cols * channels
  {
    MulMono(row + 1, rows, cols);
    assert (row + 1) * cols == row * cols + cols;
    var p := row * cols + col;
    MulMono(p + 1, rows * cols, channels);
    assert (p + 1) * channels == p * channels + channels;
  }

  // ----- what a filtered cell holds -----

  function RowSum(mask: seq<SChar>, size: nat, image: seq<UChar>, cols: nat, channels: nat, i: nat, j: nat, ch: nat, ii: nat, jj: nat): int {
    if jj == 0 then 0
    else RowSum(mask, size, image, cols, channels, i, j, ch, ii, jj - 1) +
         Tap(mask, size, image, cols, channels, i, j, ch, ii, jj - 1)
  }

  /** One product of the convolution; zero where the mask or the image has no such element. */
  function Tap(mask: seq<SChar>, size: nat, image: seq<UChar>, cols: nat, channels: nat, i: nat, j: nat, ch: nat, ii: nat, jj: nat): int {
    var m, x := ii * size + jj, Index(cols, channels, i + ii, j + jj, ch);
    if m < |mask| && x < |image| then mask[m] * image[x] else 0
  }

  function Convolution(mask: seq<SChar>, size: nat, image: seq<UChar>, cols: nat, channels: nat, i: nat, j: nat, ch: nat, ii: nat): int {
    if ii == 0 then 0
    else Convolution(mask, size, image, cols, channels, i, j, ch, ii - 1) +
         RowSum(mask, size, image, cols, channels, i, j, ch, ii - 1, size)
  }

  datatype Filter = Filter(mask: seq<SChar>, size: nat, area: nat, image: seq<UChar>, rows: nat, cols: nat, channels: nat) {
    /** Distance of the mask's middle from its corner. */
    function Middle(): nat { size / 2 + 1 }

    /** What the source demands: a non-empty mask that fits the image, full buffers, and no index overflow. */
    ghost predicate Valid() {
      && size >= 1 && rows >= size && cols >= size && area > 0
      && |mask| == size * size && |image| == rows * cols * channels
      && rows * cols * channels < U32
    }

    function Value(i: nat, j: nat, ch: nat): UChar
      requires area > 0
    {
      ToUChar(TruncDiv(Convolution(mask, size, image, cols, channels, i, j, ch, size), area))
    }

    /** The cells the filter writes: the interior, shifted by the mask's middle. */
    predicate Written(x: nat) {
      && Middle() <= RowOf(cols, channels, x) < Middle() + (rows - size)
      && Middle() <= ColOf(cols, channels, x) < Middle() + (cols - size)
    }

    /** The cells written before position (i, j, ch) of the loops. */
    predicate Done(x: nat, i: nat, j: nat, ch: nat) {
      && Written(x)
      && var r, c, k := RowOf(cols, channels, x) - Middle(), ColOf(cols, channels, x) - Middle(), ChannelOf(channels, x);
         r < i || (r == i && (c < j || (c == j && k < ch)))
    }

    function CellValue(x: nat): UChar
      requires area > 0 && Written(x)
    {
      Value(RowOf(cols, channels, x) - Middle(), ColOf(cols, channels, x) - Middle(), ChannelOf(channels, x))
    }
  }

  /** Every image cell that the mask covers at (i, j, ch) is inside the buffer. */
  lemma {:induction false} ReadInBounds(f: Filter, i: nat, j: nat, ch: nat, ii: nat, jj: nat)
    requires f.Valid() && i < f.rows - f.size && j < f.cols - f.size && ch < f.channels && ii < f.size && jj < f.size
    ensures ii * f.size + jj < |f.mask|
    ensures Index(f.cols, f.channels, i + ii, j + jj, ch) < |f.image|
  {
    IndexInBounds(f.rows, f.cols, f.channels, i + ii, j + jj, ch);
    MulMono(ii + 1, f.size, f.size);
    assert (ii + 1) * f.size == ii * f.size + f.size;
  }

  /** The cell written at (i, j, ch): its index, as the source computes it, and where it lies. */
  lemma {:induction false} WriteInBounds(f: Filter, i: nat, j: nat, ch: nat)
    requires f.Valid() && i < f.rows - f.size && j < f.cols - f.size && ch < f.channels
    ensures var x := (i * f.cols + j + (f.cols + 1) * f.Middle()) * f.channels + ch;
      && x == Index(f.cols, f.channels, i + f.Middle(), j + f.Middle(), ch)
      && x < f.rows * f.cols * f.channels
      && RowOf(f.cols, f.channels, x) == i + f.Middle()
      && ColOf(f.cols, f.channels, x) == j + f.Middle()
      && ChannelOf(f.channels, x) == ch
  {
    var m := f.Middle();
    ShiftedIndex(i, j, f.cols, m);
    IndexInBounds(f.rows, f.cols, f.channels, i + m, j + m, ch);
    IndexRoundTrip(f.cols, f.channels, i + m, j + m, ch);
  }

  /** Adding the middle offset moves a cell down and right by the same amount. */
  lemma {:induction false} ShiftedIndex(i: nat, j: nat, cols: nat, m: nat)
    ensures i * cols + j + (cols + 1) * m == (i + m) * cols + (j + m)
  {
    assert (cols + 1) * m == m * cols + m;
    assert (i + m) * cols == i * cols + m * cols;
  }

  /** Unsigned 32-bit arithmetic is exact up to a multiple of two to the 32. */
  function Wrap(x: nat): nat { x % U32 }

  // ----- the kernel -----

  /** The two inner loops: the accumulated convolution at (i, j, ch). */
  method Accumulate(f: Filter, i: nat, j: nat, ch: nat) returns (outVal: int)
    requires f.Valid() && i < f.rows - f.size && j < f.cols - f.size && ch < f.channels
    ensures outVal == Convolution(f.mask, f.size, f.image, f.cols, f.channels, i, j, ch, f.size)
  {
    outVal := 0;
    for ii := 0 to f.size
      invariant outVal == Convolution(f.mask, f.size, f.image, f.cols, f.channels, i, j, ch, ii)
    {
      for jj := 0 to f.size
        invariant outVal == Convolution(f.mask, f.size, f.image, f.cols, f.channels, i, j, ch, ii)
                          + RowSum(f.mask, f.size, f.image, f.cols, f.channels, i, j, ch, ii, jj)
      {
        ReadInBounds(f, i, j, ch, ii, jj);
        var at := Wrap(((i + ii) * f.cols + j + jj) * f.channels + ch);
        assert ((i + ii) * f.cols + j + jj) * f.channels + ch == Index(f.cols, f.channels, i + ii, j + jj, ch);
        outVal := outVal + f.mask[ii * f.size + jj] * f.image[at];
      }
    }
  }

  /** Cells done so far hold their value, all others are as they were. */
  ghost predicate Progress(f: Filter, was: seq<UChar>, now: seq<UChar>, i: nat, j: nat, ch: nat)
    requires f.Valid()
  {
    |now| == |was| == f.rows * f.cols * f.channels &&
    forall x: nat :: x < |now| ==> now[x] == if f.Done(x, i, j, ch) then f.CellValue(x) else was[x]
  }

  lemma {:induction false} WriteStep(f: Filter, was: seq<UChar>, now: seq<UChar>, i: nat, j: nat, ch: nat)
    requires f.Valid() && i < f.rows - f.size && j < f.cols - f.size && ch < f.channels
    requires Progress(f, was, now, i, j, ch)
    ensures var x := Index(f.cols, f.channels, i + f.Middle(), j + f.Middle(), ch);
      x < |now| && Progress(f, was, now[x := f.Value(i, j, ch)], i, j, ch + 1)
  {
    WriteInBounds(f, i, j, ch);
    var at := Index(f.cols, f.channels, i + f.Middle(), j + f.Middle(), ch);
    forall x: nat | x < |now| && x != at ensures f.Done(x, i, j, ch + 1) <==> f.Done(x, i, j, ch) {
      CellRoundTrip(f.cols, f.channels, x);
    }
  }

  /** Finishing the channels of a pixel, and the pixels of a row. */
  lemma {:induction false} NextPixel(f: Filter, was: seq<UChar>, now: seq<UChar>, i: nat, j: nat)
    requires f.Valid() && Progress(f, was, now, i, j, f.channels)
    ensures Progress(f, was, now, i, j + 1, 0)
  {
    forall x: nat | x < |now| ensures f.Done(x, i, j + 1, 0) <==> f.Done(x, i, j, f.channels) {
      if f.channels > 0 { CellRoundTrip(f.cols, f.channels, x); }
    }
  }

  lemma {:induction false} NextRow(f: Filter, was: seq<UChar>, now: seq<UChar>, i: nat)
    requires f.Valid() && Progress(f, was, now, i, f.cols - f.size, 0)
    ensures Progress(f, was, now, i + 1, 0, 0)
  {
    var width := f.cols - f.size;
    assert forall x: nat :: f.Done(x, i, width, 0) ==> f.Done(x, i + 1, 0, 0);
    assert forall x: nat :: f.Done(x, i + 1, 0, 0) ==> f.Done(x, i, width, 0);
  }

  /** Every cell of the shifted interior gets its convolution value, every other cell keeps its contents. */
  method Kernel(f: Filter, out: array<UChar>)
    requires f.Valid() && out.Length == f.rows * f.cols * f.channels
    modifies out
    ensures forall x: nat :: x < out.Length ==> out[x] == if f.Written(x) then f.CellValue(x) else old(out[x])
  {
    var maskMiddle := f.size / 2 + 1;
    var middle := (f.cols + 1) * maskMiddle;
    ghost var was := out[..];
    var i := 0;
    while i != f.rows - f.size
      invariant 0 <= i <= f.rows - f.size
      invariant Progress(f, was, out[..], i, 0, 0)
    {
      FilterRow(f, out, i, middle, was);
      i := i + 1;
    }
    forall x: nat | x < out.Length ensures out[x] == if f.Written(x) then f.CellValue(x) else was[x] {
      assert out[..][x] == out[x];
    }
  }

  /** The loops over columns and channels. */
  method FilterRow(f: Filter, out: array<UChar>, i: nat, middle: nat, ghost was: seq<UChar>)
    requires f.Valid() && out.Length == f.rows * f.cols * f.channels && i < f.rows - f.size
    requires middle == (f.cols + 1) * f.Middle()
    requires Progress(f, was, out[..], i, 0, 0)
    modifies out
    ensures Progress(f, was, out[..], i + 1, 0, 0)
  {
    var j := 0;
    while j != f.cols - f.size
      invariant 0 <= j <= f.cols - f.size
      invariant Progress(f, was, out[..], i, j, 0)
    {
      FilterPixel(f, out, i, j, middle, was);
      j := j + 1;
    }
    NextRow(f, was, out[..], i);
  }

  method FilterPixel(f: Filter, out: array<UChar>, i: nat, j: nat, middle: nat, ghost was: seq<UChar>)
    requires f.Valid() && out.Length == f.rows * f.cols * f.channels && i < f.rows - f.size && j < f.cols - f.size
    requires middle == (f.cols + 1) * f.Middle()
    requires Progress(f, was, out[..], i, j, 0)
    modifies out
    ensures Progress(f, was, out[..], i, j + 1, 0)
  {
    var ch := 0;
    while ch != f.channels
      invariant 0 <= ch <= f.channels
      invariant Progress(f, was, out[..], i, j, ch)
    {
      var outVal := Accumulate(f, i, j, ch);
      WriteInBounds(f, i, j, ch);
      WriteStep(f, was, out[..], i, j, ch);
      var at := Wrap((i * f.cols + j + middle) * f.channels + ch);
      ghost var before := out[..];
      out[at] := ToUChar(TruncDiv(outVal, f.area));
      assert out[..] == before[at := f.Value(i, j, ch)];
      ch := ch + 1;
    }
    NextPixel(f, was, out[..], i, j);
  }

  /** What the kernel leaves for the pixel at (i, j): the sum divided by the area, toward zero, as an unsigned char. */
  lemma {:induction false} CellOfPixel(f: Filter, i: nat, j: nat, ch: nat)
    requires f.Valid() && i < f.rows - f.size && j < f.cols - f.size && ch < f.channels
    ensures var x := WriteIndex(f.cols, f.channels, f.size, i, j, ch);
      && f.Written(x)
      && f.CellValue(x) == ToUChar(TruncDiv(Convolution(f.mask, f.size, f.image, f.cols, f.channels, i, j, ch, f.size), f.area))
  {
    hide TruncDiv, ToUChar, Convolution, RowOf, ColOf, ChannelOf;
    WriteInBounds(f, i, j, ch);
  }

  // ----- what the convolution is -----

  /** An element of the mask other than the one at (r, c) contributes nothing if it is zero. */
  lemma {:induction false} DeltaTap(mask: seq<SChar>, size: nat, image: seq<UChar>, cols: nat, channels: nat, i: nat, j: nat, ch: nat,
                                    r: nat, c: nat, ii: nat, jj: nat)
    requires r < size && c < size && jj < size && (ii != r || jj != c)
    requires forall m :: 0 <= m < |mask| && m != r * size + c ==> mask[m] == 0
    ensures Tap(mask, size, image, cols, channels, i, j, ch, ii, jj) == 0
  {
    var m, x := ii * size + jj, Index(cols, channels, i + ii, j + jj, ch);
    if m == r * size + c {
      UniqueDivision(m, r, c, size);
      UniqueDivision(m, ii, jj, size);
    } else if m < |mask| && x < |image| {
      assert mask[m] == 0;
      ZeroTimes(image[x]);
    }
  }

  lemma {:induction false} ZeroTimes(x: int)
    ensures 0 * x == 0
  {
  }

  lemma {:induction false} DeltaRow(mask: seq<SChar>, size: nat, image: seq<UChar>, cols: nat, channels: nat, i: nat, j: nat, ch: nat,
                                    r: nat, c: nat, ii: nat, jj: nat)
    requires r < size && c < size && jj <= size
    requires forall m :: 0 <= m < |mask| && m != r * size + c ==> mask[m] == 0
    ensures RowSum(mask, size, image, cols, channels, i, j, ch, ii, jj) ==
      if ii == r && jj > c then Tap(mask, size, image, cols, channels, i, j, ch, r, c) else 0
  {
    if jj > 0 {
      hide Tap;
      DeltaRow(mask, size, image, cols, channels, i, j, ch, r, c, ii, jj - 1);
      if ii != r || jj - 1 != c {
        DeltaTap(mask, size, image, cols, channels, i, j, ch, r, c, ii, jj - 1);
      }
    }
  }

  lemma {:induction false} DeltaRows(mask: seq<SChar>, size: nat, image: seq<UChar>, cols: nat, channels: nat, i: nat, j: nat, ch: nat,
                                     r: nat, c: nat, ii: nat)
    requires r < size && c < size && ii <= size
    requires forall m :: 0 <= m < |mask| && m != r * size + c ==> mask[m] == 0
    ensures Convolution(mask, size, image, cols, channels, i, j, ch, ii) ==
      if ii > r then Tap(mask, size, image, cols, channels, i, j, ch, r, c) else 0
  {
    if ii > 0 {
      hide Tap, RowSum;
      DeltaRows(mask, size, image, cols, channels, i, j, ch, r, c, ii - 1);
      DeltaRow(mask, size, image, cols, channels, i, j, ch, r, c, ii - 1, size);
    }
  }

  /** A mask with a single element, in row r and column c, picks the pixel r rows below and c columns to the right. */
  lemma {:induction false} DeltaMask(f: Filter, i: nat, j: nat, ch: nat, r: nat, c: nat)
    requires f.Valid() && i < f.rows - f.size && j < f.cols - f.size && ch < f.channels && r < f.size && c < f.size
    requires forall k :: 0 <= k < |f.mask| && k != MaskIndex(f.size, r, c) ==> f.mask[k] == 0
    ensures var m, x := MaskIndex(f.size, r, c), Index(f.cols, f.channels, i + r, j + c, ch);
      && m < |f.mask| && x < |f.image|
      && Convolution(f.mask, f.size, f.image, f.cols, f.channels, i, j, ch, f.size) == f.mask[m] * f.image[x]
  {
    ReadInBounds(f, i, j, ch, r, c);
    DeltaRows(f.mask, f.size, f.image, f.cols, f.channels, i, j, ch, r, c, f.size);
  }

  /** Row by row. */
  function MaskIndex(size: nat, r: nat, c: nat): nat { r * size + c }

  /** Element by element. */
  predicate IsSum(a: seq<SChar>, b: seq<SChar>, sum: seq<SChar>) {
    |a| == |b| == |sum| && forall m :: 0 <= m < |sum| ==> sum[m] as int == (a[m] as int) + (b[m] as int)
  }

  lemma {:induction false} AdditiveRow(a: seq<SChar>, b: seq<SChar>, sum: seq<SChar>, size: nat, image: seq<UChar>, cols: nat, channels: nat,
                                       i: nat, j: nat, ch: nat, ii: nat, jj: nat)
    requires IsSum(a, b, sum)
    ensures RowSum(sum, size, image, cols, channels, i, j, ch, ii, jj) ==
      RowSum(a, size, image, cols, channels, i, j, ch, ii, jj) + RowSum(b, size, image, cols, channels, i, j, ch, ii, jj)
  {
    if jj > 0 {
      AdditiveRow(a, b, sum, size, image, cols, channels, i, j, ch, ii, jj - 1);
      var m, x := ii * size + (jj - 1), Index(cols, channels, i + ii, j + (jj - 1), ch);
      if m < |sum| && x < |image| {
        DistributeSum(a[m], b[m], image[x]);
      }
    }
  }

  lemma {:induction false} DistributeSum(a: int, b: int, x: int)
    ensures (a + b) * x == a * x + b * x
  {
  }

  /** The convolution is additive in the mask, so the single-element masks determine it. */
  lemma {:induction false} Additive(a: seq<SChar>, b: seq<SChar>, sum: seq<SChar>, size: nat, image: seq<UChar>, cols: nat, channels: nat,
                                    i: nat, j: nat, ch: nat, ii: nat)
    requires IsSum(a, b, sum)
    ensures Convolution(sum, size, image, cols, channels, i, j, ch, ii) ==
      Convolution(a, size, image, cols, channels, i, j, ch, ii) + Convolution(b, size, image, cols, channels, i, j, ch, ii)
  {
    if ii > 0 {
      Additive(a, b, sum, size, image, cols, channels, i, j, ch, ii - 1);
      AdditiveRow(a, b, sum, size, image, cols, channels, i, j, ch, ii - 1, size);
    }
  }

  /** Every cell that the loops write, as the source computes its index, is inside the output buffer. */
  ghost predicate WritesStayInside(rows: nat, cols: nat, channels: nat, size: nat) {
    forall i: nat, j: nat, ch: nat :: i + size < rows && j + size < cols && ch < channels ==>
      WriteIndex(cols, channels, size, i, j, ch) < rows * cols * channels
  }

  function WriteIndex(cols: nat, channels: nat, size: nat, i: nat, j: nat, ch: nat): nat {
    (i * cols + j + (cols + 1) * (size / 2 + 1)) * channels + ch
  }

  /** For an image at least as large as the mask: exactly when the mask is not empty, or the image has no cell at all. */
  lemma {:induction false} InsideIffMask(rows: nat, cols: nat, channels: nat, size: nat)
    requires rows >= size && cols >= size
    ensures WritesStayInside(rows, cols, channels, size) <==> size >= 1 || rows == 0 || cols == 0 || channels == 0
  {
    if size >= 1 {
      forall i: nat, j: nat, ch: nat | i + size < rows && j + size < cols && ch < channels
        ensures WriteIndex(cols, channels, size, i, j, ch) < rows * cols * channels
      {
        var m := size / 2 + 1;
        ShiftedIndex(i, j, cols, m);
        IndexInBounds(rows, cols, channels, i + m, j + m, ch);
      }
    } else if rows >= 1 && cols >= 1 && channels >= 1 {
      EmptyMaskOutside(rows, cols, channels);
    }
  }

  /** An empty mask has its middle one cell away: the last pixel is written one row below the image. */
  lemma {:induction false} EmptyMaskOutside(rows: nat, cols: nat, channels: nat)
    requires rows >= 1 && cols >= 1 && channels >= 1
    ensures WriteIndex(cols, channels, 0, rows - 1, cols - 1, 0) >= rows * cols * channels
  {
    ShiftedIndex(rows - 1, cols - 1, cols, 1);
    MulMono(rows * cols, rows * cols + cols, channels);
  }

  /** The smallest instance: one pixel, one channel. */
  lemma {:induction false} EmptyMaskCounterexample()
    ensures WriteIndex(1, 1, 0, 0, 0, 0) >= 1 * 1 * 1 && !WritesStayInside(1, 1, 1, 0)
  {
    InsideIffMask(1, 1, 1, 0);
  }
}
