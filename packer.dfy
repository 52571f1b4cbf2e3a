/** The "hybrid" bit packer of a 1-bit glyph bitmap (hybrid.py, `Bitmap.get_hybrid`).

    The bitmap is row-major: pixel (row, col) is `pixels[row * width + col]`.
    Rows are taken in bands of eight; bands are the outer loop and columns the
    inner one.  Each (band, column) pair gives one byte whose bit 7 holds the
    band's top row; rows past `height` leave their bit 0.  The byte is then
    complemented (`0xff ^ byte`) before it is emitted. */
module Packer {
  import opened Bits

  /** A glyph bitmap as the font loader hands it over. */
  datatype Bitmap = Bitmap(width: nat, height: nat, pixels: seq<Bit>)
  {
    /** Every pixel the packer reads exists: the exact condition under which
        `pixels[(row + i) * width + col]` never raises. */
    predicate Valid() {
      |pixels| >= width * height
    }
  }

  /** Number of 8-row bands: ceil(height / 8). */
  function Bands(height: nat): (n: nat)
    ensures 8 * n >= height && 8 * n < height + 8
  {
    (height + 7) / 8
  }

  lemma PixelIndexInRange(b: Bitmap, row: nat, col: nat)
    requires b.Valid() && row < b.height && col < b.width
    ensures 0 <= row * b.width + col < |b.pixels|
  {
    calc {
      row * b.width + col;
    <  row * b.width + b.width;
    == (row + 1) * b.width;
    <= { MulMonotone(row + 1, b.height, b.width); }
       b.height * b.width;
    }
  }

  lemma MulMonotone(x: nat, y: nat, z: nat)
    requires x <= y
    ensures x * z <= y * z
  {
  }

  lemma MulSucc(x: nat, z: nat)
    ensures (x + 1) * z == x * z + z
  {
  }

  /** Pixel (row, col), with the rows past `height` reading as 0. */
  function PixelAt(b: Bitmap, row: nat, col: nat): (p: Bit)
    requires b.Valid() && col < b.width
    ensures row >= b.height ==> p == 0
  {
    if row < b.height then
      PixelIndexInRange(b, row, col);
      b.pixels[row * b.width + col]
    else 0
  }

  /** How many rows of the band starting at `row` exist: the inner loop's
      steps before it reaches 8 or breaks at `height`. */
  function RowsInBand(height: nat, row: nat): (n: nat)
    ensures n <= 8
    ensures row < height ==> n > 0
  {
    if row >= height then 0 else if height - row < 8 then height - row else 8
  }

  /** The inner loop's step `i` reads a row of the band exactly while
      `i < RowsInBand(height, row)`. */
  lemma RowInBand(height: nat, row: nat, i: nat)
    requires i < 8
    ensures i < RowsInBand(height, row) <==> row + i < height
  {
  }

  /** The first `n` pixels of column `col` from row `row` down. */
  function ColumnPixels(b: Bitmap, row: nat, col: nat, n: nat): (ps: seq<Bit>)
    requires b.Valid() && col < b.width
    ensures |ps| == n
    ensures forall i :: 0 <= i < n ==> ps[i] == PixelAt(b, row + i, col)
  {
    if n == 0 then [] else ColumnPixels(b, row, col, n - 1) + [PixelAt(b, row + n - 1, col)]
  }

  /** Step `i` of the inner loop, when it does not break, reads the `i`-th
      element of the column. */
  lemma ColumnPixelRead(b: Bitmap, row: nat, col: nat, i: nat)
    requires b.Valid() && col < b.width && i < 8 && row + i < b.height
    ensures i < RowsInBand(b.height, row)
    ensures 0 <= (row + i) * b.width + col < |b.pixels|
    ensures ColumnPixels(b, row, col, RowsInBand(b.height, row))[i] == b.pixels[(row + i) * b.width + col]
  {
    RowInBand(b.height, row, i);
    PixelIndexInRange(b, row + i, col);
  }

  /** The byte accumulated for column `col` of the band starting at `row`,
      before the complement. */
  function RawColumn(b: Bitmap, row: nat, col: nat): bv8
    requires b.Valid() && col < b.width
  {
    PackBits(ColumnPixels(b, row, col, RowsInBand(b.height, row)))
  }

  /** The byte emitted for column `col` of the band starting at `row`. */
  function PackedColumn(b: Bitmap, row: nat, col: nat): bv8
    requires b.Valid() && col < b.width
  {
    0xFF ^ RawColumn(b, row, col)
  }

  /** The bytes of one band, left to right. */
  function BandBytes(b: Bitmap, row: nat): (r: seq<bv8>)
    requires b.Valid()
    ensures |r| == b.width
  {
    seq(b.width, col requires 0 <= col < b.width => PackedColumn(b, row, col))
  }

  /** The bytes of the bands starting at `row`, `row + 8`, ... below `height`. */
  function PackFrom(b: Bitmap, row: nat): seq<bv8>
    requires b.Valid()
    decreases b.height - row
  {
    if row >= b.height then [] else BandBytes(b, row) + PackFrom(b, row + 8)
  }

  /** Everything `get_hybrid` yields for `b`. */
  function Hybrid(b: Bitmap): seq<bv8>
    requires b.Valid()
  {
    PackFrom(b, 0)
  }

  // ---------------------------------------------------------------------
  // What a packed byte holds

  /** The pixel that bit `k` of column `col`'s byte stands for: row
      `row + (7 - k)`, so bit 7 is the band's top row. */
  function RowBit(b: Bitmap, row: nat, col: nat, k: nat): (p: Bit)
    requires b.Valid() && col < b.width && k < 8
  {
    PixelAt(b, row + (7 - k), col)
  }

  /** `x` holds column `col` of the band starting at `row`, top row in bit 7,
      with a 0 bit for every row past `height`. */
  ghost predicate HoldsColumn(x: bv8, b: Bitmap, row: nat, col: nat)
    requires b.Valid() && col < b.width
  {
    forall k :: 0 <= k < 8 ==> BitAt(x, k) == RowBit(b, row, col, k)
  }

  /** Before the complement, bit 7 - i of a byte is the pixel of row `row + i`
      when that row exists and 0 otherwise. */
  lemma RawColumnBits(b: Bitmap, row: nat, col: nat)
    requires b.Valid() && col < b.width
    ensures HoldsColumn(RawColumn(b, row, col), b, row, col)
  {
    forall k | 0 <= k < 8 ensures BitAt(RawColumn(b, row, col), k) == RowBit(b, row, col, k) {
      PackBitsAt(ColumnPixels(b, row, col, RowsInBand(b.height, row)), k);
    }
  }

  /** The bit description pins the accumulated byte down: a byte equals it
      exactly when its bits are the column's pixels (no other bit is set). */
  lemma RawColumnCharacterised(x: bv8, b: Bitmap, row: nat, col: nat)
    requires b.Valid() && col < b.width
    ensures x == RawColumn(b, row, col) <==> HoldsColumn(x, b, row, col)
  {
    RawColumnBits(b, row, col);
    if HoldsColumn(x, b, row, col) {
      BitsDetermine(x, RawColumn(b, row, col));
    }
  }

  /** After the complement, bit 7 - i is clear exactly where row `row + i`
      has a set pixel; padding rows past `height` come out as 1 bits. */
  lemma PackedColumnBits(b: Bitmap, row: nat, col: nat)
    requires b.Valid() && col < b.width
    ensures forall k :: 0 <= k < 8 ==> BitAt(PackedColumn(b, row, col), k) == 1 - RowBit(b, row, col, k)
    ensures forall k :: 0 <= k < 8 && row + (7 - k) >= b.height ==> BitAt(PackedColumn(b, row, col), k) == 1
  {
    RawColumnBits(b, row, col);
    forall k | 0 <= k < 8 ensures BitAt(PackedColumn(b, row, col), k) == 1 - RowBit(b, row, col, k) {
      ComplementBit(RawColumn(b, row, col), k);
    }
  }

  // ---------------------------------------------------------------------
  // Length and order of the output

  lemma {:induction false} PackFromLength(b: Bitmap, row: nat)
    requires b.Valid()
    ensures |PackFrom(b, row)| == if row >= b.height then 0 else b.width * Bands(b.height - row)
    decreases b.height - row
  {
    if row < b.height {
      PackFromLength(b, row + 8);
      if row + 8 < b.height {
        assert Bands(b.height - row) == 1 + Bands(b.height - (row + 8));
        calc {
          b.width * Bands(b.height - row);
        == b.width * (1 + Bands(b.height - (row + 8)));
        == b.width + b.width * Bands(b.height - (row + 8));
        }
      } else {
        assert Bands(b.height - row) == 1;
      }
    }
  }

  /** One byte per (band, column) pair: `width * ceil(height / 8)` bytes. */
  lemma HybridLength(b: Bitmap)
    requires b.Valid()
    ensures |Hybrid(b)| == b.width * Bands(b.height)
  {
    PackFromLength(b, 0);
  }

  lemma {:induction false} PackFromAt(b: Bitmap, row: nat, band: nat, col: nat)
    requires b.Valid() && col < b.width && row + 8 * band < b.height
    ensures band * b.width + col < |PackFrom(b, row)|
    ensures PackFrom(b, row)[band * b.width + col] == PackedColumn(b, row + 8 * band, col)
    decreases band
  {
    assert PackFrom(b, row) == BandBytes(b, row) + PackFrom(b, row + 8);
    if band > 0 {
      var rest, j := PackFrom(b, row + 8), (band - 1) * b.width + col;
      PackFromAt(b, row + 8, band - 1, col);
      MulSucc(band - 1, b.width);
      assert band * b.width + col == b.width + j;
      assert (BandBytes(b, row) + rest)[b.width + j] == rest[j];
      assert row + 8 + 8 * (band - 1) == row + 8 * band;
    }
  }

  /** Bands outer, columns inner: byte `band * width + col` is column `col`
      of the band starting at row `8 * band`. */
  lemma HybridAt(b: Bitmap, band: nat, col: nat)
    requires b.Valid() && band < Bands(b.height) && col < b.width
    ensures band * b.width + col < |Hybrid(b)|
    ensures Hybrid(b)[band * b.width + col] == PackedColumn(b, 8 * band, col)
  {
    PackFromAt(b, 0, band, col);
  }

  // ---------------------------------------------------------------------
  // Polarity

  /** An all-blank bitmap packs to all 0xFF bytes. */
  lemma BlankPacksToFF(b: Bitmap)
    requires b.Valid()
    requires forall k :: 0 <= k < |b.pixels| ==> b.pixels[k] == 0
    ensures forall k :: 0 <= k < |Hybrid(b)| ==> Hybrid(b)[k] == 0xFF
  {
    PackFromAllEqual(b, 0, 0, 0xFF);
  }

  /** An all-set bitmap whose height is a whole number of bands packs to all
      0x00 bytes. */
  lemma FullBandsPackToZero(b: Bitmap)
    requires b.Valid() && b.height % 8 == 0
    requires forall k :: 0 <= k < |b.pixels| ==> b.pixels[k] == 1
    ensures forall k :: 0 <= k < |Hybrid(b)| ==> Hybrid(b)[k] == 0x00
  {
    PackFromAllEqual(b, 0, 1, 0x00);
  }

  /** When column `col` of the band starting at `row` is `p` in every row
      that exists, and the band has all eight rows (or `p` is 0), the packed
      byte is the complement of eight copies of `p`: a blank column gives
      0xFF, a full column of set pixels 0x00. */
  lemma UniformColumn(b: Bitmap, row: nat, col: nat, p: Bit, x: bv8)
    requires b.Valid() && col < b.width
    requires forall k :: 0 <= k < 8 && row + (7 - k) < b.height ==> RowBit(b, row, col, k) == p
    requires p == 1 ==> row + 8 <= b.height
    requires x == (if p == 0 then 0xFF else 0x00)
    ensures PackedColumn(b, row, col) == x
  {
    PackedColumnBits(b, row, col);
    forall i | 0 <= i < 8 ensures BitAt(PackedColumn(b, row, col), i) == BitAt(x, i) {
      if row + (7 - i) < b.height {
        assert RowBit(b, row, col, i) == p;
      } else {
        assert p == 0;
      }
    }
    BitsDetermine(PackedColumn(b, row, col), x);
  }

  /** In a bitmap whose pixels are all `p`, every existing row of a column is `p`. */
  lemma UniformBitmapColumn(b: Bitmap, row: nat, col: nat, p: Bit)
    requires b.Valid() && col < b.width
    requires forall k :: 0 <= k < |b.pixels| ==> b.pixels[k] == p
    ensures forall k :: 0 <= k < 8 && row + (7 - k) < b.height ==> RowBit(b, row, col, k) == p
  {
    forall k | 0 <= k < 8 && row + (7 - k) < b.height ensures RowBit(b, row, col, k) == p {
      PixelIndexInRange(b, row + (7 - k), col);
    }
  }

  lemma {:induction false} PackFromAllEqual(b: Bitmap, row: nat, p: Bit, x: bv8)
    requires b.Valid() && row % 8 == 0
    requires forall k :: 0 <= k < |b.pixels| ==> b.pixels[k] == p
    requires p == 1 ==> b.height % 8 == 0
    requires x == (if p == 0 then 0xFF else 0x00)
    ensures forall k :: 0 <= k < |PackFrom(b, row)| ==> PackFrom(b, row)[k] == x
    decreases b.height - row
  {
    if row < b.height {
      assert p == 1 ==> row + 8 <= b.height;
      forall col | 0 <= col < b.width ensures BandBytes(b, row)[col] == x {
        UniformBitmapColumn(b, row, col, p);
        UniformColumn(b, row, col, p, x);
      }
      PackFromAllEqual(b, row + 8, p, x);
    }
  }

  /** A 1-wide, 10-high all-set glyph: one full band (0x00), then a band with
      two set rows and six padding rows (0b0011_1111). */
  lemma PaddedBandExample()
    ensures Bitmap(1, 10, seq(10, _ => 1)).Valid()
    ensures Hybrid(Bitmap(1, 10, seq(10, _ => 1))) == [0x00, 0x3F]
  {
    var b := Bitmap(1, 10, seq(10, _ => 1));
    HybridLength(b);
    HybridAt(b, 0, 0);
    HybridAt(b, 1, 0);
    PackedColumnBits(b, 0, 0);
    forall i | 0 <= i < 8 ensures BitAt(PackedColumn(b, 0, 0), i) == BitAt(0x00, i) {
      PixelIndexInRange(b, 7 - i, 0);
    }
    BitsDetermine(PackedColumn(b, 0, 0), 0x00);
    PackedColumnBits(b, 8, 0);
    forall i | 0 <= i < 8 ensures BitAt(PackedColumn(b, 8, 0), i) == BitAt(0x3F, i) {
      if 8 + (7 - i) < 10 {
        PixelIndexInRange(b, 8 + (7 - i), 0);
      }
    }
    BitsDetermine(PackedColumn(b, 8, 0), 0x3F);
  }

  // ---------------------------------------------------------------------
  // The generator, as loops: one method per loop of `get_hybrid`

  /** The innermost loop of `get_hybrid` and its `yield`: accumulate column
      `col` of the band starting at `row`, top row into bit 7, stopping at
      the first row past `height`, then complement. */
  method PackColumn(b: Bitmap, row: nat, col: nat) returns (out: bv8)
    requires b.Valid() && col < b.width
    ensures out == PackedColumn(b, row, col)
    ensures forall k :: 0 <= k < 8 ==> BitAt(out, k) == 1 - RowBit(b, row, col, k)
  {
    var byte: bv8 := 0x00;
    ghost var ps := ColumnPixels(b, row, col, RowsInBand(b.height, row));
    var i := 0;
    while i < 8
      invariant i <= |ps|
      invariant Accumulate(ps, i, byte) == PackBits(ps)
    {
      if row + i >= b.height {
        break;
      }
      ColumnPixelRead(b, row, col, i);
      var pixel := b.pixels[(row + i) * b.width + col];
      byte := byte | Placed(pixel, 7 - i);
      i := i + 1;
    }
    ColumnLoopDone(b, row, col, i, byte);
    out := 0xFF ^ byte;
    PackedColumnBits(b, row, col);
  }

  /** When the row loop stops, the accumulated byte is the raw column byte. */
  lemma ColumnLoopDone(b: Bitmap, row: nat, col: nat, i: nat, byte: bv8)
    requires b.Valid() && col < b.width
    requires i <= |ColumnPixels(b, row, col, RowsInBand(b.height, row))| && i <= 8
    requires i < 8 ==> row + i >= b.height
    requires Accumulate(ColumnPixels(b, row, col, RowsInBand(b.height, row)), i, byte)
             == RawColumn(b, row, col)
    ensures byte == RawColumn(b, row, col)
  {
    if i < 8 {
      RowInBand(b.height, row, i);
    }
  }

  /** The column loop of `get_hybrid`: the bytes of the band starting at
      `row`, left to right. */
  method PackBand(b: Bitmap, row: nat) returns (out: seq<bv8>)
    requires b.Valid()
    ensures out == BandBytes(b, row)
    ensures |out| == b.width
  {
    out := [];
    var col := 0;
    while col < b.width
      invariant col <= b.width
      invariant out == BandBytes(b, row)[..col]
    {
      var byte := PackColumn(b, row, col);
      assert BandBytes(b, row)[..col + 1] == BandBytes(b, row)[..col] + [byte];
      out := out + [byte];
      col := col + 1;
    }
  }

  /** `get_hybrid`: the band loop, collecting everything the generator
      yields. */
  method GetHybrid(b: Bitmap) returns (out: seq<bv8>)
    requires b.Valid()
    ensures out == Hybrid(b)
    ensures |out| == b.width * Bands(b.height)
  {
    out := [];
    var row := 0;
    while row < b.height
      invariant out + PackFrom(b, row) == Hybrid(b)
    {
      var band := PackBand(b, row);
      assert PackFrom(b, row) == band + PackFrom(b, row + 8);
      out := out + band;
      row := row + 8;
    }
    HybridLength(b);
  }
}
