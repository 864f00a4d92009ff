/** One video frame: how nexus-core/src/encoder.rs and streaming.rs draw a payload as 4x4 blocks of
    one luminance each, and how nexus-core/src/decoder.rs reads the blocks back. */
module Frame {
  import opened Bytes
  import opened BitPacking

  const BLOCK_SIZE: nat := 4

  datatype Mode = Base | High

  function Width(mode: Mode): nat { if mode == Base then 1280 else 3840 }
  function Height(mode: Mode): nat { if mode == Base then 720 else 2160 }
  function Cols(mode: Mode): nat { Width(mode) / BLOCK_SIZE }
  function Rows(mode: Mode): nat { Height(mode) / BLOCK_SIZE }
  function BitsPerBlock(mode: Mode): nat { if mode == Base then 1 else 3 }
  function BytesPerFrame(mode: Mode): nat { Cols(mode) * Rows(mode) * BitsPerBlock(mode) / 8 }

  /** The payload bits of a frame fill its blocks exactly, in both modes. */
  lemma GeometryExact(mode: Mode)
    ensures Cols(mode) > 0 && Rows(mode) > 0
    ensures Width(mode) == 4 * Cols(mode) && Height(mode) == 4 * Rows(mode)
    ensures 8 * BytesPerFrame(mode) == BitsPerBlock(mode) * (Cols(mode) * Rows(mode))
    ensures BytesPerFrame(mode) == if mode == Base then 7200 else 194400
  {
  }

  // ------------------------------------------------------------------ luminance levels

  function LevelOf(mode: Mode, symbol: nat): byte
    requires symbol < Pow2(BitsPerBlock(mode))
  {
    assert Pow2(3) == 8;
    if mode == Base then (if symbol == 1 then 255 else 0)
    else (if symbol * 36 > 240 then 255 else symbol * 36)
  }

  function SymbolOf(mode: Mode, threshold: byte, lum: byte): (s: nat)
    ensures s < Pow2(BitsPerBlock(mode))
  {
    assert Pow2(3) == 8;
    if mode == Base then (if lum > threshold then 1 else 0)
    else if lum > 235 then 7
    else if (lum + 18) / 36 > 7 then 7 else (lum + 18) / 36
  }

  /** How far a pixel may move: 17 grey levels in High mode; in Base mode black must stay at or
      below the threshold and white above it. */
  ghost predicate PixelSurvives(mode: Mode, threshold: byte, sent: byte, received: byte) {
    match mode
    case High => -17 <= received - sent <= 17
    case Base => (sent == 0 ==> received <= threshold) && (sent == 255 ==> received > threshold)
  }

  lemma SymbolSurvives(mode: Mode, threshold: byte, symbol: nat, lum: byte)
    requires symbol < Pow2(BitsPerBlock(mode))
    requires PixelSurvives(mode, threshold, LevelOf(mode, symbol), lum)
    ensures SymbolOf(mode, threshold, lum) == symbol
  {
    assert Pow2(3) == 8;
  }

  /** 17 is the widest margin: every level decodes to its symbol after any move of at most m
      exactly when m is at most 17. */
  lemma NoiseMarginExact(m: nat)
    ensures (forall symbol: nat, lum: byte :: symbol < 8 && Within(m, lum, HighLevel(symbol)) ==> SymbolOf(High, 0, lum) == symbol)
       <==> m <= 17
  {
    if m <= 17 {
      forall symbol: nat, lum: byte | symbol < 8 && Within(m, lum, HighLevel(symbol))
        ensures SymbolOf(High, 0, lum) == symbol
      {
        assert Pow2(3) == 8;
        SymbolSurvives(High, 0, symbol, lum);
      }
    } else {
      var lum: byte := 18;
      assert Within(m, lum, HighLevel(0)) && SymbolOf(High, 0, lum) == 1;
    }
  }

  predicate Within(m: nat, a: nat, b: nat) { a <= b + m && b <= a + m }

  function HighLevel(symbol: nat): byte
    requires symbol < 8
  {
    assert Pow2(3) == 8;
    LevelOf(High, symbol)
  }

  // ------------------------------------------------------------------ what a frame shows

  /** The picture as rows of pixels; on the wire the rows follow each other. */
  type Raster = seq<seq<byte>>

  ghost predicate HasSize(r: Raster, w: nat, h: nat) {
    |r| == h && forall y :: 0 <= y < h ==> |r[y]| == w
  }

  function LevelAt(levels: seq<byte>, k: nat): byte {
    if k < |levels| then levels[k] else 0
  }

  /** Block number k, counted in reading order, shows levels[k]; the remaining blocks stay black. */
  function Render(levels: seq<byte>, cols: nat, rows: nat): (r: Raster)
    ensures HasSize(r, 4 * cols, 4 * rows)
  {
    seq(4 * rows, y requires 0 <= y => seq(4 * cols, x requires 0 <= x => LevelAt(levels, BlockIndex(cols, x, y))))
  }

  /** The number of the block that pixel (x, y) belongs to. */
  function BlockIndex(cols: nat, x: nat, y: nat): nat {
    BlockNumber(cols, x / 4, y / 4)
  }

  /** Blocks are numbered in reading order. */
  function BlockNumber(cols: nat, col: nat, row: nat): nat {
    row * cols + col
  }

  function LevelsOf(mode: Mode, symbols: seq<nat>): (r: seq<byte>)
    requires Below(Pow2(BitsPerBlock(mode)), symbols)
    ensures |r| == |symbols|
  {
    seq(|symbols|, i requires 0 <= i < |symbols| => LevelOf(mode, symbols[i]))
  }

  /** The blocks that carry a payload; only encoder.rs flushes an incomplete last symbol. */
  function Symbols(mode: Mode, payload: seq<byte>, flush: bool): (r: seq<nat>)
    ensures Below(Pow2(BitsPerBlock(mode)), r)
  {
    var k, bits := BitsPerBlock(mode), Bits(8, payload);
    BitsOfDigits(k, bits);
    LowBitsOfValue(Rest(k, bits));
    Pow2Grows(|Rest(k, bits)|, k);
    Pack(k, bits, flush)
  }

  lemma Pow2Grows(j: nat, k: nat)
    requires j <= k
    ensures Pow2(j) <= Pow2(k)
  {
    if j < k { Pow2Grows(j, k - 1); }
  }

  /** The raw pixels of the frame that carries a payload. */
  function EncodeFrame(mode: Mode, payload: seq<byte>, flush: bool): seq<byte> {
    Flatten(Render(LevelsOf(mode, Symbols(mode, payload, flush)), Cols(mode), Rows(mode)))
  }

  // ------------------------------------------------------------------ what is read back

  function Min(a: nat, b: nat): nat { if a < b then a else b }

  function Average(a: byte, b: byte, c: byte, d: byte, e: byte): byte {
    (a + b + c + d + e) / 5
  }

  /** The floored mean of the block centre and its four neighbours, with the source's clamping. */
  function Sample(r: Raster, w: nat, h: nat, col: nat, row: nat): byte
    requires HasSize(r, w, h) && col < w / 4 && row < h / 4
  {
    var cx, cy := 4 * col + 2, 4 * row + 2;
    Average(
      r[Min(cy, h - 1)][Min(cx, w - 1)],
      r[Min(cy, h - 1)][Min(cx - 1, w - 1)],
      r[Min(cy, h - 1)][Min(cx + 1, w - 1)],
      r[Min(cy - 1, h - 1)][Min(cx, w - 1)],
      r[Min(cy + 1, h - 1)][Min(cx, w - 1)])
  }

  /** The five pixels of a block that are sampled, added up. */
  function PointSum(r: Raster, w: nat, h: nat, col: nat, row: nat): nat
    requires HasSize(r, w, h) && col < w / 4 && row < h / 4
  {
    Sum(r[4 * row + 2][4 * col + 2], r[4 * row + 2][4 * col + 1], r[4 * row + 2][4 * col + 3],
        r[4 * row + 1][4 * col + 2], r[4 * row + 3][4 * col + 2])
  }

  function Sum(a: nat, b: nat, c: nat, d: nat, e: nat): nat {
    a + b + c + d + e
  }

  /** The sums that stand for a symbol: in High mode those within 90 of five times its level, and
      everything above for the brightest; in Base mode those above or up to five times the threshold. */
  predicate SumReads(mode: Mode, threshold: byte, symbol: nat, sum: nat) {
    match mode
    case Base => sum >= 5 * threshold + 5 <==> symbol == 1
    case High => 180 * symbol <= sum + 90 && (symbol < 7 ==> sum < 180 * symbol + 90)
  }

  /** A block is read as a symbol exactly if its five points add up to a sum of that symbol: the
      points are averaged, whatever each of them is. */
  lemma SampleExact(mode: Mode, threshold: byte, r: Raster, w: nat, h: nat, col: nat, row: nat, symbol: nat)
    requires HasSize(r, w, h) && col < w / 4 && row < h / 4 && symbol < Pow2(BitsPerBlock(mode))
    ensures SymbolOf(mode, threshold, Sample(r, w, h, col, row)) == symbol
       <==> SumReads(mode, threshold, symbol, PointSum(r, w, h, col, row))
  {
    assert Pow2(3) == 8 && Pow2(1) == 2;
    var sum := PointSum(r, w, h, col, row);
    assert Sample(r, w, h, col, row) == sum / 5;
    hide Sample, PointSum;
    MeanReads(mode, threshold, sum, symbol);
  }

  lemma MeanReads(mode: Mode, threshold: byte, sum: nat, symbol: nat)
    requires sum / 5 < 256 && symbol < (if mode == Base then 2 else 8)
    ensures SymbolOf(mode, threshold, sum / 5) == symbol <==> SumReads(mode, threshold, symbol, sum)
  {
  }

  function RowSymbols(mode: Mode, threshold: byte, r: Raster, w: nat, h: nat, row: nat): (s: seq<nat>)
    requires HasSize(r, w, h) && row < h / 4
    ensures |s| == w / 4
  {
    seq(w / 4, col requires 0 <= col < w / 4 => SymbolOf(mode, threshold, Sample(r, w, h, col, row)))
  }

  /** The symbols of all blocks in reading order. */
  function ReadSymbols(mode: Mode, threshold: byte, r: Raster, w: nat, h: nat, rows: nat): seq<nat>
    requires HasSize(r, w, h) && rows <= h / 4
  {
    if rows == 0 then []
    else ReadSymbols(mode, threshold, r, w, h, rows - 1) + RowSymbols(mode, threshold, r, w, h, rows - 1)
  }

  function BytesOf(bits: seq<bool>, flush: bool): (r: seq<byte>) {
    BitsOfDigits(8, bits);
    LowBitsOfValue(Rest(8, bits));
    Pow2Bytes(1);
    Pow2Grows(|Rest(8, bits)|, 8);
    assert Below(256, Pack(8, bits, flush));
    assert forall x :: x in Pack(8, bits, flush) ==> 0 <= x < 256;
    Pack(8, bits, flush)
  }

  /** A decoded picture: Base mode completes a last partial byte, High mode drops it. */
  function DecodeRaster(mode: Mode, threshold: byte, r: Raster, w: nat, h: nat): seq<byte>
    requires HasSize(r, w, h)
  {
    BytesOf(Bits(BitsPerBlock(mode), ReadSymbols(mode, threshold, r, w, h, h / 4)), mode == Base)
  }

  /** decode_frame on raw pixels, with its fixed threshold of 128. */
  function DecodeFrame(mode: Mode, raw: seq<byte>): seq<byte>
    requires |raw| == Width(mode) * Height(mode)
  {
    RasterOf(raw, Width(mode), Height(mode));
    DecodeRaster(mode, 128, FullChunks(Width(mode), raw), Width(mode), Height(mode))
  }

  lemma {:induction false} RasterOf(raw: seq<byte>, w: nat, h: nat)
    requires w > 0 && |raw| == w * h
    ensures HasSize(FullChunks(w, raw), w, h)
    decreases h
  {
    if h > 0 {
      assert |raw| == w + w * (h - 1);
      RasterOf(raw[w..], w, h - 1);
    }
  }
}
