/** Conversion of an RGBA8888 screenshot, whose rows may carry padding, to a packed RGB565 frame.
    All sizes and cursors are `uint32_t`, so their arithmetic is taken modulo 2^32. */
module ScreenFrame {

  const SIZE_PIXEL: nat := 4
  const SIZE_CONVERTED_PIXEL: nat := 2

  type U32 = x: int | 0 <= x < 0x1_0000_0000

  function Wrap(x: int): U32 { x % 0x1_0000_0000 }

  /** Sums and differences of two `uint32_t` leave the range by at most one turn. */
  function Add32(a: U32, b: U32): U32 {
    if a + b < 0x1_0000_0000 then a + b else a + b - 0x1_0000_0000
  }

  function Sub32(a: U32, b: U32): U32 {
    if a >= b then a - b else a - b + 0x1_0000_0000
  }

  function Mul32(a: U32, b: U32): U32 { Wrap(a * b) }

  /** What the screenshot client hands over: its row stride in pixels, and its bytes. */
  datatype Screenshot = Screenshot(stride: U32, bytes: seq<bv8>)

  /* ---------- one pixel ---------- */

  function Pack(red: bv8, green: bv8, blue: bv8): bv16 {
    var r := ((red as bv16 >> 3) & 0x001f) << 11;
    var g := ((green as bv16 >> 2) & 0x003f) << 5;
    var b := (blue as bv16 >> 3) & 0x001f;
    r | g | b
  }

  function LowByte(p: bv16): bv8 { (p & 0xff) as bv8 }

  function HighByte(p: bv16): bv8 { (p >> 8) as bv8 }

  /** A little-endian RGB565 pixel read back into its three fields. */
  datatype Colour565 = Colour565(red: bv16, green: bv16, blue: bv16)

  function Unpack(low: bv8, high: bv8): Colour565 {
    var p := (high as bv16 << 8) | (low as bv16);
    Colour565(p >> 11, (p >> 5) & 0x3f, p & 0x1f)
  }

  /** The two bytes in the frame: the first holds the lower green bits and blue, the second red and the
      upper green bits. */
  lemma PackBytes(red: bv8, green: bv8, blue: bv8)
    ensures LowByte(Pack(red, green, blue)) == ((green & 0x1c) << 3) | (blue >> 3)
    ensures HighByte(Pack(red, green, blue)) == (red & 0xf8) | (green >> 5)
  {
  }

  /** A packed pixel decodes to the upper five, six and five bits of its colours. */
  lemma PackThenUnpack(red: bv8, green: bv8, blue: bv8)
    ensures var p := Pack(red, green, blue);
            Unpack(LowByte(p), HighByte(p)) == Colour565((red >> 3) as bv16, (green >> 2) as bv16, (blue >> 3) as bv16)
  {
  }

  /** The two bytes, and the upper bits of the three colours, are functions of each other. */
  lemma ColourOfBytes(red: bv8, green: bv8, blue: bv8)
    ensures var low, high := ((green & 0x1c) << 3) | (blue >> 3), (red & 0xf8) | (green >> 5);
            && red >> 3 == high >> 3 && green >> 2 == ((high & 0x07) << 3) | (low >> 5) && blue >> 3 == low & 0x1f
            && low == (((green >> 2) & 0x07) << 5) | (blue >> 3) && high == ((red >> 3) << 3) | ((green >> 2) >> 3)
  {
  }

  /* ---------- the source cursor ---------- */

  /** The frame size in bytes, as the code computes it. */
  function FrameBytes(width: U32, height: U32): U32 {
    Wrap(2 * Mul32(width, height))
  }

  lemma FrameBytesAsWritten(width: U32, height: U32)
    ensures Mul32(Mul32(width, height), SIZE_CONVERTED_PIXEL) == FrameBytes(width, height)
  {
  }

  lemma DoubleModulo(x: nat)
    ensures Wrap(2 * Wrap(x)) == (2 * x) % 0x1_0000_0000
  {
    var q, r := x / 0x1_0000_0000, x % 0x1_0000_0000;
    assert 2 * x == 0x1_0000_0000 * (2 * q) + 2 * r;
    WrapTurns(2 * q + 2 * r / 0x1_0000_0000, 2 * r % 0x1_0000_0000);
  }

  /** Wrapping the intermediate product loses nothing. */
  lemma FrameBytesModulo(width: U32, height: U32)
    ensures FrameBytes(width, height) == (2 * (width * height)) % 0x1_0000_0000
  {
    DoubleModulo(width * height);
  }

  /** The size of one frame row in bytes, as the code computes it. */
  function RowBytes(width: U32): U32 {
    Wrap(2 * width)
  }

  /** The per-row skip, as the code computes it. */
  function RowSkip(width: U32, sourceStride: U32): U32 {
    Wrap(4 * Sub32(sourceStride, width))
  }

  /** The destination index is a whole number of rows. */
  predicate AtRowStart(index: nat, rowBytes: nat)
    requires rowBytes != 0
    decreases index
  {
    if index < rowBytes then index == 0 else AtRowStart(index - rowBytes, rowBytes)
  }

  lemma {:induction false} RowStartIsModulo(index: nat, rowBytes: nat)
    requires rowBytes != 0
    ensures AtRowStart(index, rowBytes) <==> index % rowBytes == 0
    decreases index
  {
    if index >= rowBytes {
      RowStartIsModulo(index - rowBytes, rowBytes);
      var q, r := (index - rowBytes) / rowBytes, (index - rowBytes) % rowBytes;
      assert index == (q + 1) * rowBytes + r;
      DivModUnique(q + 1, rowBytes, r);
    }
  }

  /** The conditional skip at the top of the loop body. */
  function SkipPadding(count: U32, rowStart: bool, skip: U32): U32 {
    if rowStart && count != 0 then Add32(count, skip) else count
  }

  /** The value of the incremental cursor when it reads pixel k. */
  function SourceCursor(rowBytes: U32, skip: U32, k: nat): U32
    requires rowBytes != 0
    decreases k
  {
    SkipPadding(if k == 0 then 0 else Add32(SourceCursor(rowBytes, skip, k - 1), SIZE_PIXEL),
                AtRowStart(2 * k, rowBytes), skip)
  }

  lemma SkipAligned(width: U32, sourceStride: U32)
    ensures RowSkip(width, sourceStride) % 4 == 0
  {
  }

  lemma MultipleOfFour(m: nat)
    ensures (4 * m) % 4 == 0
  {
  }

  lemma AddKeepsAlignment(a: U32, b: U32)
    requires a % 4 == 0 && b % 4 == 0
    ensures Add32(a, b) % 4 == 0
  {
    var m := a / 4 + b / 4;
    assert a + b == 4 * m;
    MultipleOfFour(if m < 0x4000_0000 then m else m - 0x4000_0000);
  }

  lemma SkipKeepsAlignment(count: U32, rowStart: bool, skip: U32)
    requires count % 4 == 0 && skip % 4 == 0
    ensures SkipPadding(Add32(count, 4), rowStart, skip) % 4 == 0 && SkipPadding(0, rowStart, skip) % 4 == 0
  {
    AddKeepsAlignment(count, 4);
    AddKeepsAlignment(Add32(count, 4), skip);
    AddKeepsAlignment(0, skip);
  }

  /** Every cursor is a multiple of four, so the reads of the other channels do not wrap around. */
  lemma {:induction false} ChannelsDoNotWrap(rowBytes: U32, skip: U32, k: nat)
    requires rowBytes != 0 && skip % 4 == 0
    ensures SourceCursor(rowBytes, skip, k) % 4 == 0 && SourceCursor(rowBytes, skip, k) + 3 < 0x1_0000_0000
    decreases k
  {
    if k == 0 {
      SkipKeepsAlignment(0, AtRowStart(0, rowBytes), skip);
    } else {
      ChannelsDoNotWrap(rowBytes, skip, k - 1);
      SkipKeepsAlignment(SourceCursor(rowBytes, skip, k - 1), AtRowStart(2 * k, rowBytes), skip);
    }
  }

  /** The byte address of the pixel in a given row and column of the screenshot. */
  function SourceAddress(sourceStride: nat, row: nat, column: nat): nat {
    4 * (row * sourceStride + column)
  }

  /** The frame's byte size and the address of its last source pixel are both below 2^32. */
  predicate Fits(width: U32, height: U32, sourceStride: U32)
    requires width > 0 && height > 0
  {
    && 2 * (width * height) < 0x1_0000_0000
    && SourceAddress(sourceStride, height - 1, width - 1) < 0x1_0000_0000
  }

  lemma QuotientUnique(q: nat, r: nat, q': nat, r': nat, d: nat)
    requires r < d && r' < d && q * d + r == q' * d + r'
    ensures q == q' && r == r'
  {
    if q < q' {
      AtMost(q + 1, q', d);
    } else if q' < q {
      AtMost(q' + 1, q, d);
    }
  }

  lemma DivModUnique(q: nat, d: nat, r: nat)
    requires r < d
    ensures (q * d + r) / d == q && (q * d + r) % d == r
  {
    var n := q * d + r;
    assert n == (n / d) * d + n % d;
    QuotientUnique(q, r, n / d, n % d, d);
  }

  lemma AtMost(a: nat, b: nat, c: nat)
    requires a <= b
    ensures a * c <= b * c
  {
  }

  lemma WidthFits(width: U32, height: U32)
    requires height > 0 && 2 * (width * height) < 0x1_0000_0000
    ensures width * height < 0x1_0000_0000 && 2 * width < 0x1_0000_0000
  {
    AtMost(1, height, width);
  }

  lemma AddressBound(width: nat, height: nat, sourceStride: nat, row: nat, column: nat)
    requires row < height && column < width
    ensures SourceAddress(sourceStride, row, column) <= SourceAddress(sourceStride, height - 1, width - 1)
  {
    AtMost(row, height - 1, sourceStride);
  }

  lemma IndexBound(width: nat, height: nat, row: nat, column: nat)
    requires row < height && column < width
    ensures row * width + column < width * height
  {
    AtMost(row, height - 1, width);
    assert (height - 1) * width + width == width * height;
  }

  /** n copies of x added up: the product without its non-linear arithmetic. */
  function Repeat(n: nat, x: nat): nat {
    if n == 0 then 0 else Repeat(n - 1, x) + x
  }

  lemma {:induction false} RepeatIsProduct(n: nat, x: nat)
    ensures Repeat(n, x) == n * x
    decreases n
  {
    if n > 0 {
      RepeatIsProduct(n - 1, x);
      assert n * x == (n - 1) * x + x;
    }
  }

  lemma {:induction false} RepeatZero(n: nat)
    ensures Repeat(n, 0) == 0
    decreases n
  {
    if n > 0 {
      RepeatZero(n - 1);
    }
  }

  /** The row test recognises exactly the row starts. */
  lemma {:induction false} RowStart(width: nat, row: nat, column: nat)
    requires column < width
    ensures AtRowStart(2 * (Repeat(row, width) + column), 2 * width) <==> column == 0
    decreases row
  {
    if row > 0 {
      RowStart(width, row - 1, column);
    }
  }

  lemma Add32Modulo(a: U32, b: U32)
    ensures Add32(a, b) == (a + b) % 0x1_0000_0000
  {
  }

  lemma AddSkipModulo(count: U32, width: U32, sourceStride: U32)
    ensures Add32(count, RowSkip(width, sourceStride)) == (count + 4 * (sourceStride - width)) % 0x1_0000_0000
  {
    var apart: int := Sub32(sourceStride, width);
    var turns: int := (4 * apart) / 0x1_0000_0000;
    var skip := RowSkip(width, sourceStride);
    assert 4 * apart == 0x1_0000_0000 * turns + skip;
    var extra: int := if count + skip < 0x1_0000_0000 then 0 else 1;
    WrapTurns((if sourceStride >= width then turns else turns - 4) + extra, Add32(count, skip));
  }

  /** The cursor in plain arithmetic modulo 2^32: it begins at zero, goes on by four bytes, and at every
      row start that it does not reach as zero goes past the padding. */
  lemma CursorRecurrence(width: U32, sourceStride: U32, rowBytes: U32, skip: U32, k: nat)
    requires rowBytes == (2 * width) % 0x1_0000_0000 != 0 && skip == RowSkip(width, sourceStride)
    ensures SourceCursor(rowBytes, skip, 0) == 0
    ensures var next := (SourceCursor(rowBytes, skip, k) + 4) % 0x1_0000_0000;
            SourceCursor(rowBytes, skip, k + 1) ==
            if (2 * (k + 1)) % rowBytes == 0 && next != 0 then (next + 4 * (sourceStride - width)) % 0x1_0000_0000 else next
  {
    var c := SourceCursor(rowBytes, skip, k);
    Add32Modulo(c, 4);
    RowStartIsModulo(2 * (k + 1), rowBytes);
    AddSkipModulo(Add32(c, 4), width, sourceStride);
  }

  lemma CursorNextColumn(rowBytes: U32, skip: U32, k: nat)
    requires rowBytes != 0 && k > 0 && !AtRowStart(2 * k, rowBytes)
    requires SourceCursor(rowBytes, skip, k - 1) + 4 < 0x1_0000_0000
    ensures SourceCursor(rowBytes, skip, k) == SourceCursor(rowBytes, skip, k - 1) + 4
  {
  }

  /** At the end of the row that starts at pixel offset `start`, the cursor has not wrapped to zero,
      and adding the skip modulo 2^32 reaches the next row. */
  lemma SkipReachesNextRow(width: U32, sourceStride: U32, skip: U32, start: nat)
    requires skip == RowSkip(width, sourceStride)
    requires 0 < width < 0x8000_0000 && (sourceStride == 0 ==> start == 0 && width < 0x4000_0000)
    requires 4 * (start + sourceStride + width - 1) < 0x1_0000_0000
    ensures SkipPadding(Add32(4 * (start + width - 1), 4), true, skip) == 4 * (start + sourceStride)
  {
    assert 4 * (start + width) < 0x1_0000_0000;
  }

  lemma CursorNextRow(width: U32, sourceStride: U32, rowBytes: U32, skip: U32, k: nat, start: nat)
    requires rowBytes != 0 && k > 0 && AtRowStart(2 * k, rowBytes)
    requires skip == RowSkip(width, sourceStride)
    requires 0 < width < 0x8000_0000 && (sourceStride == 0 ==> start == 0 && width < 0x4000_0000)
    requires 4 * (start + sourceStride + width - 1) < 0x1_0000_0000
    requires SourceCursor(rowBytes, skip, k - 1) == 4 * (start + width - 1)
    ensures SourceCursor(rowBytes, skip, k) == 4 * (start + sourceStride)
  {
    SkipReachesNextRow(width, sourceStride, skip, start);
  }

  lemma {:induction false} CursorAlongRow(width: U32, rowBytes: U32, skip: U32, row: nat, column: nat)
    requires rowBytes == 2 * width && column < width
    requires SourceCursor(rowBytes, skip, Repeat(row, width)) + 4 * column < 0x1_0000_0000
    ensures SourceCursor(rowBytes, skip, Repeat(row, width) + column)
            == SourceCursor(rowBytes, skip, Repeat(row, width)) + 4 * column
    decreases column
  {
    if column > 0 {
      CursorAlongRow(width, rowBytes, skip, row, column - 1);
      RowStart(width, row, column);
      CursorNextColumn(rowBytes, skip, Repeat(row, width) + column);
    }
  }

  lemma {:induction false} CursorAtRowStart(width: U32, sourceStride: U32, rowBytes: U32, skip: U32, row: nat)
    requires 0 < width && rowBytes == 2 * width && skip == RowSkip(width, sourceStride)
    requires 4 * (Repeat(row, sourceStride) + width - 1) < 0x1_0000_0000
    requires sourceStride == 0 && row > 0 ==> width < 0x4000_0000
    ensures SourceCursor(rowBytes, skip, Repeat(row, width)) == 4 * Repeat(row, sourceStride)
    decreases row
  {
    if row > 0 {
      if sourceStride == 0 {
        RepeatZero(row - 1);
      }
      CursorAtRowStart(width, sourceStride, rowBytes, skip, row - 1);
      CursorAlongRow(width, rowBytes, skip, row - 1, width - 1);
      RowStart(width, row, 0);
      CursorNextRow(width, sourceStride, rowBytes, skip, Repeat(row, width), Repeat(row - 1, sourceStride));
    }
  }

  lemma WrapInRange(x: nat)
    requires x < 0x1_0000_0000
    ensures Wrap(x) == x
  {
  }

  lemma SizesFit(width: U32, height: U32)
    requires height > 0 && 2 * (width * height) < 0x1_0000_0000
    ensures RowBytes(width) == 2 * width && FrameBytes(width, height) == 2 * (width * height)
  {
    WidthFits(width, height);
    WrapInRange(2 * width);
    WrapInRange(width * height);
    WrapInRange(2 * (width * height));
  }

  /** The incremental cursor reads the pixel at (column, row) from its two-dimensional address. */
  ghost predicate CursorAt(width: U32, sourceStride: U32, rowBytes: U32, skip: U32, row: nat, column: nat) {
    rowBytes != 0 && SourceCursor(rowBytes, skip, row * width + column) == SourceAddress(sourceStride, row, column)
  }

  lemma RowsFit(width: U32, height: U32, sourceStride: U32, row: nat, column: nat)
    requires column < width && row < height && Fits(width, height, sourceStride)
    ensures 4 * (Repeat(row, sourceStride) + width - 1) < 0x1_0000_0000
    ensures row > 0 ==> width < 0x4000_0000
    ensures Repeat(row, width) == row * width
    ensures 4 * (Repeat(row, sourceStride) + column) == SourceAddress(sourceStride, row, column)
  {
    AddressBound(width, height, sourceStride, row, width - 1);
    RepeatIsProduct(row, sourceStride);
    RepeatIsProduct(row, width);
    if row > 0 {
      AtMost(2, height, width);
    }
  }

  lemma CursorInRange(width: U32, height: U32, sourceStride: U32, rowBytes: U32, skip: U32, row: nat, column: nat)
    requires column < width && row < height && Fits(width, height, sourceStride)
    requires rowBytes == 2 * width && skip == RowSkip(width, sourceStride)
    ensures CursorAt(width, sourceStride, rowBytes, skip, row, column)
  {
    RowsFit(width, height, sourceStride, row, column);
    CursorAtRowStart(width, sourceStride, rowBytes, skip, row);
    CursorAlongRow(width, rowBytes, skip, row, column);
  }

  /** The loop covers the whole frame, and its cursor follows the two-dimensional layout. */
  ghost predicate CursorFollowsLayout(width: U32, height: U32, sourceStride: U32, pixels: U32, rowBytes: U32, skip: U32) {
    && pixels == 2 * (width * height)
    && forall row: nat, column: nat :: row < height && column < width ==>
         CursorAt(width, sourceStride, rowBytes, skip, row, column)
  }

  lemma FitsThenFollows(width: U32, height: U32, sourceStride: U32, pixels: U32, rowBytes: U32, skip: U32)
    requires width > 0 && height > 0 && Fits(width, height, sourceStride)
    requires pixels == FrameBytes(width, height) && rowBytes == RowBytes(width) && skip == RowSkip(width, sourceStride)
    ensures CursorFollowsLayout(width, height, sourceStride, pixels, rowBytes, skip)
  {
    SizesFit(width, height);
    forall row: nat, column: nat | row < height && column < width
      ensures CursorAt(width, sourceStride, rowBytes, skip, row, column)
    {
      CursorInRange(width, height, sourceStride, rowBytes, skip, row, column);
    }
  }

  lemma FollowsThenFits(width: U32, height: U32, sourceStride: U32, pixels: U32, rowBytes: U32, skip: U32)
    requires width > 0 && height > 0
    requires CursorFollowsLayout(width, height, sourceStride, pixels, rowBytes, skip)
    ensures Fits(width, height, sourceStride)
  {
    assert CursorAt(width, sourceStride, rowBytes, skip, height - 1, width - 1);
  }

  /** For every width, height and source stride, padded or not: the incremental form equals the
      two-dimensional one exactly when the last pixel and the frame size fit 32 bits. */
  lemma CursorFollowsLayoutIffFits(width: U32, height: U32, sourceStride: U32)
    requires width > 0 && height > 0
    ensures CursorFollowsLayout(width, height, sourceStride,
                                FrameBytes(width, height), RowBytes(width), RowSkip(width, sourceStride))
            <==> Fits(width, height, sourceStride)
  {
    var pixels, rowBytes, skip := FrameBytes(width, height), RowBytes(width), RowSkip(width, sourceStride);
    if Fits(width, height, sourceStride) {
      FitsThenFollows(width, height, sourceStride, pixels, rowBytes, skip);
    } else if CursorFollowsLayout(width, height, sourceStride, pixels, rowBytes, skip) {
      FollowsThenFits(width, height, sourceStride, pixels, rowBytes, skip);
    }
  }

  /** For a stride no smaller than the width, the last address alone decides. */
  lemma PaddedStrideFits(width: U32, height: U32, sourceStride: U32)
    requires width > 0 && height > 0 && sourceStride >= width
    ensures Fits(width, height, sourceStride) <==>
            SourceAddress(sourceStride, height - 1, width - 1) < 0x1_0000_0000
  {
    AtMost(width, sourceStride, height - 1);
    assert (height - 1) * sourceStride == sourceStride * (height - 1);
    assert width * height == width * (height - 1) + width;
  }

  lemma WrapTurns(turns: int, rest: nat)
    requires rest < 0x1_0000_0000
    ensures Wrap(0x1_0000_0000 * turns + rest) == rest
  {
    var x := 0x1_0000_0000 * turns + rest;
    assert x == 0x1_0000_0000 * (x / 0x1_0000_0000) + x % 0x1_0000_0000;
  }

  lemma HalfRangeRowsVanish(height: U32)
    ensures Wrap(2 * Wrap(0x8000_0000 * height)) == 0
  {
    var pairs, odd := height / 2, height % 2;
    WrapTurns(pairs, 0x8000_0000 * odd);
    WrapTurns(odd, 0);
    assert 0x8000_0000 * height == 0x1_0000_0000 * pairs + 0x8000_0000 * odd;
  }

  lemma WrapKeepsParity(x: int)
    ensures Wrap(2 * x) % 2 == 0
  {
  }

  /** The frame size is even, and whenever it is not zero the divisor of the modulo test is not zero. */
  lemma NoDivisionByZero(width: U32, height: U32)
    ensures FrameBytes(width, height) % 2 == 0
    ensures FrameBytes(width, height) > 0 ==> RowBytes(width) != 0
  {
    WrapKeepsParity(Mul32(width, height));
    if width == 0x8000_0000 {
      HalfRangeRowsVanish(height);
    } else if width == 0 {
      assert width * height == 0;
    }
  }

  /* ---------- the frame ---------- */

  /** Pixel k of the frame is the conversion of the red, green and blue bytes from `address` on. */
  ghost predicate PixelFrom(frame: seq<bv8>, k: nat, bytes: seq<bv8>, address: nat) {
    && 2 * k + 1 < |frame| && address + 2 < |bytes|
    && frame[2 * k] == ((bytes[address + 1] & 0x1c) << 3) | (bytes[address + 2] >> 3)
    && frame[2 * k + 1] == (bytes[address] & 0xf8) | (bytes[address + 1] >> 5)
  }

  /** The frame holds, at (column, row), the conversion of the screenshot's pixel there. */
  ghost predicate ShowsPixel(frame: seq<bv8>, width: nat, shot: Screenshot, row: nat, column: nat) {
    PixelFrom(frame, row * width + column, shot.bytes, 4 * (row * shot.stride + column))
  }

  ghost predicate IsConversion(frame: seq<bv8>, width: nat, height: nat, shot: Screenshot) {
    forall row: nat, column: nat :: row < height && column < width ==> ShowsPixel(frame, width, shot, row, column)
  }

  /** Exactly the two bytes at `index` were overwritten with the packed colour at `address`. */
  ghost predicate PixelWritten(before: seq<bv8>, after: seq<bv8>, index: nat, bytes: seq<bv8>, address: nat) {
    && index + 1 < |before| == |after| && address + 2 < |bytes|
    && (forall i :: 0 <= i < |before| && i != index && i != index + 1 ==> after[i] == before[i])
    && var p := Pack(bytes[address], bytes[address + 1], bytes[address + 2]);
       after[index] == LowByte(p) && after[index + 1] == HighByte(p)
  }

  /** The first n pixels of the frame are converted from where the incremental cursor points. */
  ghost predicate ConvertedByCursor(frame: seq<bv8>, n: nat, bytes: seq<bv8>, rowBytes: U32, skip: U32) {
    n > 0 ==> rowBytes != 0 && forall k: nat :: k < n ==> PixelFrom(frame, k, bytes, SourceCursor(rowBytes, skip, k))
  }

  /** The converted bytes are determined by the screenshot and the sizes alone, whether or not the sizes
      fit: nothing is left over from earlier frames. */
  lemma CursorDeterminesFrame(f: seq<bv8>, f': seq<bv8>, n: nat, bytes: seq<bv8>, rowBytes: U32, skip: U32)
    requires ConvertedByCursor(f, n, bytes, rowBytes, skip) && ConvertedByCursor(f', n, bytes, rowBytes, skip)
    requires 2 * n <= |f| && 2 * n <= |f'|
    ensures f[..2 * n] == f'[..2 * n]
  {
    forall i | 0 <= i < 2 * n
      ensures f[i] == f'[i]
    {
      var k := i / 2;
      assert i == 2 * k || i == 2 * k + 1;
      assert PixelFrom(f, k, bytes, SourceCursor(rowBytes, skip, k));
      assert PixelFrom(f', k, bytes, SourceCursor(rowBytes, skip, k));
    }
  }

  /** The screenshot holds every byte that a loop over n pixels reads. */
  ghost predicate Readable(bytes: seq<bv8>, n: nat, rowBytes: U32, skip: U32) {
    n > 0 ==> rowBytes != 0 && forall k: nat :: k < n ==> SourceCursor(rowBytes, skip, k) + 2 < |bytes|
  }

  /** A screenshot buffer that reaches the last pixel is enough. */
  lemma BufferSuffices(width: U32, height: U32, shot: Screenshot)
    requires width > 0 && height > 0 && Fits(width, height, shot.stride)
    requires SourceAddress(shot.stride, height - 1, width - 1) + 2 < |shot.bytes|
    ensures Readable(shot.bytes, FrameBytes(width, height) / 2, RowBytes(width), RowSkip(width, shot.stride))
  {
    var pixels, rowBytes, skip := FrameBytes(width, height), RowBytes(width), RowSkip(width, shot.stride);
    FitsThenFollows(width, height, shot.stride, pixels, rowBytes, skip);
    LayoutReadable(width, height, shot, pixels, rowBytes, skip);
  }

  lemma LayoutReadable(width: U32, height: U32, shot: Screenshot, pixels: U32, rowBytes: U32, skip: U32)
    requires width > 0 && height > 0
    requires CursorFollowsLayout(width, height, shot.stride, pixels, rowBytes, skip)
    requires SourceAddress(shot.stride, height - 1, width - 1) + 2 < |shot.bytes|
    ensures Readable(shot.bytes, pixels / 2, rowBytes, skip)
  {
    assert CursorAt(width, shot.stride, rowBytes, skip, 0, 0);
    forall k: nat | k < pixels / 2
      ensures SourceCursor(rowBytes, skip, k) + 2 < |shot.bytes|
    {
      var row, column := k / width, k % width;
      assert k == row * width + column;
      RowBelowHeight(k, width, height);
      assert CursorAt(width, shot.stride, rowBytes, skip, row, column);
      AddressBound(width, height, shot.stride, row, column);
    }
  }

  lemma RowBelowHeight(k: nat, width: nat, height: nat)
    requires width > 0 && k < width * height
    ensures k / width < height
  {
    var row := k / width;
    assert k == row * width + k % width;
    if row >= height {
      AtMost(height, row, width);
    }
  }

  /** The destination offsets of the first n pixels, in the order of the frame. */
  ghost function Offsets(n: nat): seq<int> {
    if n == 0 then [] else Offsets(n - 1) + [2 * n - 2, 2 * n - 1]
  }

  lemma OffsetsGrow(n: nat)
    ensures Offsets(n) + [2 * n, 2 * n + 1] == Offsets(n + 1)
  {
  }

  /** They are the bytes below 2 * n, each once. */
  lemma {:induction false} OffsetsCoverOnce(n: nat)
    ensures |Offsets(n)| == 2 * n && forall i :: 0 <= i < 2 * n ==> Offsets(n)[i] == i
  {
    if n > 0 {
      OffsetsCoverOnce(n - 1);
    }
  }

  /** `written` records the destination offset of every byte write of a frame. */
  class Screen {
    ghost var written: seq<int>
    var width: U32
    var height: U32
    var pixels: U32
    var index: U32
    var count: U32
    var stride: U32
    var r: bv16
    var g: bv16
    var b: bv16
    var rgb: bv16
    var bitmap: seq<bv8>

    predicate Valid()
      reads this
    {
      pixels == FrameBytes(width, height)
    }

    method InitDisplay(w: U32, h: U32, displayFound: bool) returns (err: int)
      modifies this`width, this`height, this`pixels
      ensures Valid() && width == w && height == h && pixels == (2 * (w * h)) % 0x1_0000_0000
      ensures err == if displayFound then 0 else 1
    {
      width := w;
      height := h;
      pixels := Mul32(Mul32(width, height), SIZE_CONVERTED_PIXEL);
      FrameBytesAsWritten(w, h);
      FrameBytesModulo(w, h);
      if !displayFound {
        return 1;
      }
      return 0;
    }

    /** The row test at the top of the conversion loop. */
    method SkipRowPadding()
      requires RowBytes(width) != 0
      modifies this`count
      ensures count == SkipPadding(old(count), AtRowStart(index, RowBytes(width)), stride)
    {
      RowStartIsModulo(index, RowBytes(width));
      if index % Mul32(width, SIZE_CONVERTED_PIXEL) == 0 && count != 0 {
        count := Add32(count, stride);
      }
    }

    /** The colour of the pixel under the cursor. */
    method PackColour()
      requires count + 2 < |bitmap| && count + 2 < 0x1_0000_0000
      modifies this`r, this`g, this`b, this`rgb
      ensures rgb == Pack(bitmap[count], bitmap[count + 1], bitmap[count + 2])
    {
      r := ((bitmap[count] as bv16 >> 3) & 0x001f) << 11;
      g := ((bitmap[Add32(count, 1)] as bv16 >> 2) & 0x003f) << 5;
      b := (bitmap[Add32(count, 2)] as bv16 >> 3) & 0x001f;
      rgb := r | g | b;
    }

    /** The body of the conversion loop between its cursor updates. */
    method ConvertPixel(frame: array<bv8>, ghost k: nat)
      requires count + 2 < |bitmap| && count + 2 < 0x1_0000_0000 && index + 1 < frame.Length
      requires index == 2 * k && written == Offsets(k)
      modifies this`r, this`g, this`b, this`rgb, this`written, frame
      ensures written == Offsets(k + 1)
      ensures PixelWritten(old(frame[..]), frame[..], index, bitmap, count)
    {
      PackColour();
      OffsetsGrow(k);
      frame[index] := LowByte(rgb);
      frame[index + 1] := HighByte(rgb);
      written := written + [index, index + 1];
    }

    /** The loop has finished k pixels: the cursors, and the writes so far. */
    ghost predicate AtPixel(k: nat, rowBytes: U32)
      reads this
    {
      && index == 2 * k && written == Offsets(k)
      && if k == 0 then count == 0
         else rowBytes != 0 && count == Add32(SourceCursor(rowBytes, stride, k - 1), SIZE_PIXEL)
    }

    /** One iteration of the conversion loop. */
    method ConvertNext(frame: array<bv8>, ghost k: nat, ghost rowBytes: U32)
      requires rowBytes == RowBytes(width) && rowBytes != 0 && stride % 4 == 0 && AtPixel(k, rowBytes)
      requires index + 2 <= pixels <= frame.Length
      requires SourceCursor(rowBytes, stride, k) + 2 < |bitmap|
      requires ConvertedByCursor(frame[..], k, bitmap, rowBytes, stride)
      modifies this`count, this`index, this`r, this`g, this`b, this`rgb, this`written, frame
      ensures AtPixel(k + 1, rowBytes) && ConvertedByCursor(frame[..], k + 1, bitmap, rowBytes, stride)
      ensures forall i :: pixels <= i < frame.Length ==> frame[i] == old(frame[i])
    {
      SkipRowPadding();
      assert count == SourceCursor(rowBytes, stride, k);
      ChannelsDoNotWrap(rowBytes, stride, k);
      ConvertPixel(frame, k);
      OneMorePixel(old(frame[..]), frame[..], k, bitmap, rowBytes, stride);

      count := Add32(count, SIZE_PIXEL);
      index := Add32(index, SIZE_CONVERTED_PIXEL);
    }

    /** The conversion loop. */
    method ConvertPixels(frame: array<bv8>, ghost rowBytes: U32, ghost n: nat)
      requires pixels == 2 * n <= frame.Length && rowBytes == RowBytes(width) && stride % 4 == 0
      requires Readable(bitmap, n, rowBytes, stride)
      modifies this`count, this`index, this`r, this`g, this`b, this`rgb, this`written, frame
      ensures index == pixels && written == Offsets(n)
      ensures ConvertedByCursor(frame[..], n, bitmap, rowBytes, stride)
      ensures forall i :: pixels <= i < frame.Length ==> frame[i] == old(frame[i])
    {
      count := 0;
      index := 0;
      written := [];
      ghost var k := 0;
      while index < pixels
        invariant k <= n && AtPixel(k, rowBytes)
        invariant ConvertedByCursor(frame[..], k, bitmap, rowBytes, stride)
        invariant forall i :: pixels <= i < frame.Length ==> frame[i] == old(frame[i])
        decreases n - k
      {
        ConvertNext(frame, k, rowBytes);
        k := k + 1;
      }
      assert k == n;
    }

    /** `updateErr` is the client's status. */
    method UpdateFrame(updateErr: int, shot: Screenshot, frame: array<bv8>) returns (err: int)
      requires Valid()
      requires updateErr == 0 ==> pixels <= frame.Length
      requires updateErr == 0 ==> Readable(shot.bytes, pixels / 2, RowBytes(width), RowSkip(width, shot.stride))
      modifies this, frame
      ensures err == updateErr
      ensures Valid() && width == old(width) && height == old(height)
      ensures err != 0 ==> unchanged(this) && unchanged(frame)
      ensures err == 0 ==> index == pixels && |written| == pixels && forall i :: 0 <= i < pixels ==> written[i] == i
      ensures err == 0 ==>
                ConvertedByCursor(frame[..], pixels / 2, shot.bytes, RowBytes(width), RowSkip(width, shot.stride))
      ensures err == 0 ==> frame[pixels..] == old(frame[pixels..])
      ensures err == 0 && 0 < width && 0 < height && 2 * (width * height) < 0x1_0000_0000
              && 4 * ((height - 1) * shot.stride + width - 1) < 0x1_0000_0000 ==>
                pixels == 2 * (width * height) && IsConversion(frame[..], width, height, shot)
    {
      if updateErr != 0 {
        return updateErr;
      }

      stride := Mul32(Sub32(shot.stride, width), SIZE_PIXEL);
      bitmap := shot.bytes;

      NoDivisionByZero(width, height);
      SkipAligned(width, shot.stride);
      ConvertPixels(frame, RowBytes(width), pixels / 2);
      OffsetsCoverOnce(pixels / 2);
      ConvertedWhenFits(frame[..], width, height, shot);
      return 0;
    }
  }

  /** Writing the two bytes of pixel k keeps the finished pixels and finishes this one. */
  lemma OneMorePixel(before: seq<bv8>, after: seq<bv8>, k: nat, bytes: seq<bv8>, rowBytes: U32, skip: U32)
    requires rowBytes != 0 && ConvertedByCursor(before, k, bytes, rowBytes, skip)
    requires PixelWritten(before, after, 2 * k, bytes, SourceCursor(rowBytes, skip, k))
    ensures ConvertedByCursor(after, k + 1, bytes, rowBytes, skip)
  {
    var c := SourceCursor(rowBytes, skip, k);
    PackBytes(bytes[c], bytes[c + 1], bytes[c + 2]);
    forall j: nat | j < k + 1
      ensures PixelFrom(after, j, bytes, SourceCursor(rowBytes, skip, j))
    {
      if j < k {
        assert PixelFrom(before, j, bytes, SourceCursor(rowBytes, skip, j));
      }
    }
  }

  lemma CursorGivesConversion(frame: seq<bv8>, width: U32, height: U32, shot: Screenshot,
                              pixels: U32, rowBytes: U32, skip: U32)
    requires CursorFollowsLayout(width, height, shot.stride, pixels, rowBytes, skip)
    requires ConvertedByCursor(frame, pixels / 2, shot.bytes, rowBytes, skip)
    ensures IsConversion(frame, width, height, shot)
  {
    forall row: nat, column: nat | row < height && column < width
      ensures ShowsPixel(frame, width, shot, row, column)
    {
      IndexBound(width, height, row, column);
      assert CursorAt(width, shot.stride, rowBytes, skip, row, column);
      CursorShowsPixel(frame, width, shot, pixels, rowBytes, skip, row, column, row * width + column);
    }
  }

  lemma CursorShowsPixel(frame: seq<bv8>, width: U32, shot: Screenshot, pixels: U32, rowBytes: U32, skip: U32,
                         row: nat, column: nat, k: nat)
    requires k == row * width + column && k < pixels / 2 && CursorAt(width, shot.stride, rowBytes, skip, row, column)
    requires ConvertedByCursor(frame, pixels / 2, shot.bytes, rowBytes, skip)
    ensures ShowsPixel(frame, width, shot, row, column)
  {
    assert PixelFrom(frame, k, shot.bytes, SourceCursor(rowBytes, skip, k));
  }

  lemma ConvertedWhenFits(frame: seq<bv8>, width: U32, height: U32, shot: Screenshot)
    requires ConvertedByCursor(frame, FrameBytes(width, height) / 2, shot.bytes, RowBytes(width), RowSkip(width, shot.stride))
    ensures 0 < width && 0 < height && Fits(width, height, shot.stride) ==>
              FrameBytes(width, height) == 2 * (width * height) && IsConversion(frame, width, height, shot)
  {
    if 0 < width && 0 < height && Fits(width, height, shot.stride) {
      var pixels, rowBytes, skip := FrameBytes(width, height), RowBytes(width), RowSkip(width, shot.stride);
      FitsThenFollows(width, height, shot.stride, pixels, rowBytes, skip);
      CursorGivesConversion(frame, width, height, shot, pixels, rowBytes, skip);
    }
  }

  /** The two screenshots show the same upper colour bits at every visible pixel. */
  ghost predicate SameVisibleColours(width: nat, height: nat, s: Screenshot, t: Screenshot) {
    forall row: nat, column: nat :: row < height && column < width ==>
      SameColourAt(s.bytes, SourceAddress(s.stride, row, column), t.bytes, SourceAddress(t.stride, row, column))
  }

  ghost predicate SameColourAt(s: seq<bv8>, a: nat, t: seq<bv8>, c: nat) {
    && a + 2 < |s| && c + 2 < |t|
    && s[a] >> 3 == t[c] >> 3 && s[a + 1] >> 2 == t[c + 1] >> 2 && s[a + 2] >> 3 == t[c + 2] >> 3
  }

  lemma SamePixelSameColour(f: seq<bv8>, f': seq<bv8>, k: nat, s: seq<bv8>, a: nat, t: seq<bv8>, c: nat)
    requires PixelFrom(f, k, s, a) && PixelFrom(f', k, t, c)
    ensures f[2 * k] == f'[2 * k] && f[2 * k + 1] == f'[2 * k + 1] <==> SameColourAt(s, a, t, c)
  {
    ColourOfBytes(s[a], s[a + 1], s[a + 2]);
    ColourOfBytes(t[c], t[c + 1], t[c + 2]);
  }

  /** Two conversions are equal exactly when the visible upper colour bits are: alpha bytes, row
      padding, strides and low colour bits never matter, and nothing visible is lost. */
  lemma FrameDependsOnVisibleColours(f: seq<bv8>, f': seq<bv8>, width: nat, height: nat, s: Screenshot, t: Screenshot)
    requires width > 0 && |f| == |f'| == 2 * (width * height)
    requires IsConversion(f, width, height, s) && IsConversion(f', width, height, t)
    ensures f == f' <==> SameVisibleColours(width, height, s, t)
  {
    if f == f' {
      forall row: nat, column: nat | row < height && column < width
        ensures SameColourAt(s.bytes, SourceAddress(s.stride, row, column), t.bytes, SourceAddress(t.stride, row, column))
      {
        assert ShowsPixel(f, width, s, row, column) && ShowsPixel(f', width, t, row, column);
        SamePixelSameColour(f, f', row * width + column, s.bytes, SourceAddress(s.stride, row, column),
                            t.bytes, SourceAddress(t.stride, row, column));
      }
    }
    if SameVisibleColours(width, height, s, t) {
      forall i | 0 <= i < |f|
        ensures f[i] == f'[i]
      {
        var k := i / 2;
        var row, column := k / width, k % width;
        RowBelowHeight(k, width, height);
        assert k == row * width + column;
        assert ShowsPixel(f, width, s, row, column) && ShowsPixel(f', width, t, row, column);
        SamePixelSameColour(f, f', k, s.bytes, SourceAddress(s.stride, row, column),
                            t.bytes, SourceAddress(t.stride, row, column));
      }
    }
  }
}
