/** When a frame decodes to the payload it carries, exactly: if in every block the five sampled
    pixels still add up to a sum of its symbol, whatever each of them became. */
module FrameTheorems {
  import opened Bytes
  import opened BitPacking
  import opened Frame

  function SymbolAt(symbols: seq<nat>, k: nat): nat {
    if k < |symbols| then symbols[k] else 0
  }

  // ------------------------------------------------------------------ what the blocks read as

  /** Every block still shows its symbol; blocks behind the last symbol show 0. */
  ghost predicate BlocksRead(mode: Mode, threshold: byte, symbols: seq<nat>, r: Raster, cols: nat, rows: nat)
    requires HasSize(r, 4 * cols, 4 * rows)
  {
    forall col, row :: 0 <= col < cols && 0 <= row < rows ==>
      BlockReads(mode, threshold, symbols, r, cols, rows, col, row)
  }

  ghost predicate BlockReads(mode: Mode, threshold: byte, symbols: seq<nat>, r: Raster, cols: nat, rows: nat, col: nat, row: nat)
    requires HasSize(r, 4 * cols, 4 * rows) && col < cols && row < rows
  {
    SumReads(mode, threshold, SymbolAt(symbols, BlockNumber(cols, col, row)), PointSum(r, 4 * cols, 4 * rows, col, row))
  }

  function AllSymbols(symbols: seq<nat>, blocks: nat): (r: seq<nat>)
    ensures |r| == blocks
  {
    seq(blocks, k requires 0 <= k => SymbolAt(symbols, k))
  }

  lemma RowReads(mode: Mode, threshold: byte, symbols: seq<nat>, r: Raster, cols: nat, rows: nat, row: nat)
    requires Below(Pow2(BitsPerBlock(mode)), symbols) && HasSize(r, 4 * cols, 4 * rows) && row < rows
    ensures (forall col: nat :: col < cols ==> BlockReads(mode, threshold, symbols, r, cols, rows, col, row))
       <==> RowSymbols(mode, threshold, r, 4 * cols, 4 * rows, row)
            == seq(cols, col requires 0 <= col => SymbolAt(symbols, BlockNumber(cols, col, row)))
  {
    var read := RowSymbols(mode, threshold, r, 4 * cols, 4 * rows, row);
    var sent := seq(cols, col requires 0 <= col => SymbolAt(symbols, BlockNumber(cols, col, row)));
    forall col: nat | col < cols
      ensures BlockReads(mode, threshold, symbols, r, cols, rows, col, row) <==> read[col] == sent[col]
    {
      hide PointSum, SumReads, SymbolOf, Sample;
      SampleExact(mode, threshold, r, 4 * cols, 4 * rows, col, row, SymbolAt(symbols, BlockNumber(cols, col, row)));
    }
  }

  lemma {:induction false} SymbolsRead(mode: Mode, threshold: byte, symbols: seq<nat>, r: Raster, cols: nat, rows: nat, n: nat)
    requires Below(Pow2(BitsPerBlock(mode)), symbols) && HasSize(r, 4 * cols, 4 * rows) && n <= rows
    ensures |ReadSymbols(mode, threshold, r, 4 * cols, 4 * rows, n)| == n * cols
    ensures (forall col, row :: 0 <= col < cols && 0 <= row < n ==>
               BlockReads(mode, threshold, symbols, r, cols, rows, col, row))
       <==> ReadSymbols(mode, threshold, r, 4 * cols, 4 * rows, n) == AllSymbols(symbols, n * cols)
  {
    hide RowSymbols, BlockReads, AllSymbols, Below;
    if n == 0 {
      assert 0 * cols == 0;
    } else {
      SymbolsRead(mode, threshold, symbols, r, cols, rows, n - 1);
      RowReads(mode, threshold, symbols, r, cols, rows, n - 1);
      JoinRows(symbols, ReadSymbols(mode, threshold, r, 4 * cols, 4 * rows, n - 1), n - 1, cols,
               RowSymbols(mode, threshold, r, 4 * cols, 4 * rows, n - 1));
    }
  }

  lemma JoinRows(symbols: seq<nat>, before: seq<nat>, n: nat, cols: nat, row: seq<nat>)
    requires |before| == n * cols && |row| == cols
    ensures n * cols + cols == (n + 1) * cols
    ensures before + row == AllSymbols(symbols, (n + 1) * cols)
       <==> before == AllSymbols(symbols, n * cols)
            && row == seq(cols, col requires 0 <= col => SymbolAt(symbols, BlockNumber(cols, col, n)))
  {
    var all := AllSymbols(symbols, (n + 1) * cols);
    assert (n + 1) * cols == n * cols + cols;
    assert all[..n * cols] == AllSymbols(symbols, n * cols);
    assert all[n * cols..] == seq(cols, col requires 0 <= col => SymbolAt(symbols, BlockNumber(cols, col, n)));
    assert (before + row)[..n * cols] == before && (before + row)[n * cols..] == row;
    assert all == all[..n * cols] + all[n * cols..];
  }

  /** A picture decodes to the payload, followed by the zero bytes of the blocks the payload does not
      reach, if and only if every block still shows its symbol. */
  lemma FrameRoundTrip(mode: Mode, threshold: byte, payload: seq<byte>, flush: bool, r: Raster)
    requires |payload| <= BytesPerFrame(mode)
    requires flush || |payload| == BytesPerFrame(mode)
    requires HasSize(r, Width(mode), Height(mode)) && HasSize(r, 4 * Cols(mode), 4 * Rows(mode))
    ensures DecodeRaster(mode, threshold, r, Width(mode), Height(mode)) == payload + Zeros(BytesPerFrame(mode) - |payload|)
       <==> BlocksRead(mode, threshold, Symbols(mode, payload, flush), r, Cols(mode), Rows(mode))
  {
    hide BlockReads, ReadSymbols;
    GeometryExact(mode);
    var k, cols, rows := BitsPerBlock(mode), Cols(mode), Rows(mode);
    var blocks, bits := cols * rows, Bits(8, payload);
    var symbols := Symbols(mode, payload, flush);
    BitsLength(8, payload);
    SymbolsFit(k, bits, flush, blocks);
    SymbolsRead(mode, threshold, symbols, r, cols, rows, rows);
    assert rows * cols == blocks;
    var zeros := seq(blocks - |symbols|, _ => 0);
    SymbolsThenZeros(symbols, blocks);
    SymbolsDecode(k, payload, flush, zeros, BytesPerFrame(mode), mode == Base);
    var read := ReadSymbols(mode, threshold, r, Width(mode), Height(mode), Height(mode) / 4);
    ReadBelow(mode, threshold, r, Width(mode), Height(mode), Height(mode) / 4);
    if Pack(8, Bits(k, read), mode == Base) == Pack(8, Bits(k, symbols + zeros), mode == Base) {
      SymbolsUnique(k, read, symbols + zeros, BytesPerFrame(mode), mode == Base);
    }
  }

  lemma {:induction false} ReadBelow(mode: Mode, threshold: byte, r: Raster, w: nat, h: nat, rows: nat)
    requires HasSize(r, w, h) && rows <= h / 4
    ensures Below(Pow2(BitsPerBlock(mode)), ReadSymbols(mode, threshold, r, w, h, rows))
  {
    hide SymbolOf, Sample;
    if rows > 0 {
      ReadBelow(mode, threshold, r, w, h, rows - 1);
    }
  }

  // Symbols that fill whole bytes are determined by the bytes.
  lemma SymbolsUnique(k: nat, a: seq<nat>, b: seq<nat>, size: nat, complete: bool)
    requires k > 0 && Below(Pow2(k), a) && Below(Pow2(k), b)
    requires k * |a| == 8 * size && k * |b| == 8 * size
    requires Pack(8, Bits(k, a), complete) == Pack(8, Bits(k, b), complete)
    ensures a == b
  {
    hide Bits, Digits, Pack, Pow2;
    BitsLength(k, a);
    BitsLength(k, b);
    BitsFromBytes(Bits(k, a), size, complete);
    BitsFromBytes(Bits(k, b), size, complete);
    DigitsFromBits(k, a);
    DigitsFromBits(k, b);
  }

  lemma BitsFromBytes(bits: seq<bool>, size: nat, complete: bool)
    requires |bits| == 8 * size
    ensures Bits(8, Pack(8, bits, complete)) == bits
  {
    hide Bits, Digits, Rest;
    SymbolsFit(8, bits, complete, size);
    BitsOfDigits(8, bits);
    assert Digits(8, bits) + [] == Digits(8, bits);
    assert Bits(8, Digits(8, bits)) + [] == Bits(8, Digits(8, bits));
  }

  lemma DigitsFromBits(k: nat, digits: seq<nat>)
    requires k > 0 && Below(Pow2(k), digits)
    ensures Digits(k, Bits(k, digits)) == digits
  {
    hide Bits, Digits;
    DigitsUnique(k, digits, []);
    assert Bits(k, digits) + [] == Bits(k, digits);
  }

  lemma SymbolsThenZeros(symbols: seq<nat>, blocks: nat)
    requires |symbols| <= blocks
    ensures AllSymbols(symbols, blocks) == symbols + seq(blocks - |symbols|, _ => 0)
  {
  }

  // Symbols that fill a frame of `size` bytes to the last bit are read back as `size` bytes.
  lemma SymbolsDecode(k: nat, payload: seq<byte>, flush: bool, zeros: seq<nat>, size: nat, complete: bool)
    requires k > 0 && |payload| <= size && (flush || Rest(k, Bits(8, payload)) == [])
    requires forall i :: 0 <= i < |zeros| ==> zeros[i] == 0
    requires k * |Pack(k, Bits(8, payload), flush) + zeros| == 8 * size
    ensures Pack(8, Bits(k, Pack(k, Bits(8, payload), flush) + zeros), complete) == payload + Zeros(size - |payload|)
  {
    var read := Pack(k, Bits(8, payload), flush) + zeros;
    var extra := RepackRoundTrip(k, payload, flush, zeros);
    hide Bits;
    BitsLength(k, read);
    ChunksHaveLength(8, Bits(k, read));
    ValuesLength(FullChunks(8, Bits(k, read)));
    assert |payload + Zeros(extra)| == size;
  }

  lemma {:induction false} ValuesLength(chunks: seq<seq<bool>>)
    ensures |Values(chunks)| == |chunks|
  {
    if chunks != [] { ValuesLength(chunks[1..]); }
  }

  // Symbols of k bits for at most k * blocks bits number at most `blocks`; with no bit left over
  // when the bits fill the blocks.
  lemma SymbolsFit(k: nat, bits: seq<bool>, flush: bool, blocks: nat)
    requires k > 0 && |bits| <= k * blocks
    ensures |Pack(k, bits, flush)| <= blocks
    ensures |bits| == k * blocks ==> Rest(k, bits) == []
  {
    hide FullChunks, Rest, Values;
    var n, rest := |FullChunks(k, bits)|, |Rest(k, bits)|;
    ChunksHaveLength(k, bits);
    ValuesLength(FullChunks(k, bits));
    assert |bits| == k * n + rest;
    if n > blocks || (n == blocks && rest > 0) {
      MulMono(k, blocks, n);
    }
    if |bits| == k * blocks && rest > 0 {
      if n < blocks {
        MulMono(k, n + 1, blocks);
      }
    }
  }

  // ------------------------------------------------------------------ raw pixels

  function RowsOf(mode: Mode, raw: seq<byte>): (r: Raster)
    requires |raw| == Width(mode) * Height(mode)
    ensures HasSize(r, Width(mode), Height(mode)) && HasSize(r, 4 * Cols(mode), 4 * Rows(mode))
  {
    GeometryExact(mode);
    RasterOf(raw, Width(mode), Height(mode));
    FullChunks(Width(mode), raw)
  }

  /** In every block the five sampled pixels of the picture received add up to a sum of the symbol
      that the block sent stands for. The other eleven pixels may be anything. */
  ghost predicate FrameSurvives(mode: Mode, threshold: byte, sent: seq<byte>, received: seq<byte>) {
    && |sent| == Width(mode) * Height(mode) == |received|
    && forall col, row :: 0 <= col < Cols(mode) && 0 <= row < Rows(mode) ==>
      BlockSurvives(mode, threshold, RowsOf(mode, sent), RowsOf(mode, received), col, row)
  }

  ghost predicate BlockSurvives(mode: Mode, threshold: byte, sent: Raster, received: Raster, col: nat, row: nat)
    requires HasSize(sent, Width(mode), Height(mode)) && HasSize(received, Width(mode), Height(mode))
    requires col < Cols(mode) && row < Rows(mode)
  {
    SumReads(mode, threshold, SymbolOf(mode, 127, sent[4 * row + 2][4 * col + 2]),
             PointSum(received, Width(mode), Height(mode), col, row))
  }

  lemma EncodedSize(mode: Mode, payload: seq<byte>, flush: bool)
    ensures |EncodeFrame(mode, payload, flush)| == Width(mode) * Height(mode)
    ensures RowsOf(mode, EncodeFrame(mode, payload, flush))
         == Render(LevelsOf(mode, Symbols(mode, payload, flush)), Cols(mode), Rows(mode))
  {
    GeometryExact(mode);
    var sent := Render(LevelsOf(mode, Symbols(mode, payload, flush)), Cols(mode), Rows(mode));
    FlattenLength(sent, Width(mode));
    ChunksExact(Width(mode), sent, []);
    assert Flatten(sent) + [] == Flatten(sent);
  }

  // Every pixel of a block has the level of its symbol.
  lemma BlockShows(mode: Mode, symbols: seq<nat>, cols: nat, rows: nat, x: nat, y: nat)
    requires Below(Pow2(BitsPerBlock(mode)), symbols) && x < 4 * cols && y < 4 * rows
    ensures SymbolAt(symbols, BlockNumber(cols, x / 4, y / 4)) < Pow2(BitsPerBlock(mode))
    ensures Render(LevelsOf(mode, symbols), cols, rows)[y][x]
         == LevelOf(mode, SymbolAt(symbols, BlockNumber(cols, x / 4, y / 4)))
  {
  }

  lemma CentreShows(mode: Mode, symbols: seq<nat>, cols: nat, rows: nat, col: nat, row: nat)
    requires Below(Pow2(BitsPerBlock(mode)), symbols) && col < cols && row < rows
    ensures SymbolOf(mode, 127, Render(LevelsOf(mode, symbols), cols, rows)[4 * row + 2][4 * col + 2])
         == SymbolAt(symbols, BlockNumber(cols, col, row))
  {
    BlockShows(mode, symbols, cols, rows, 4 * col + 2, 4 * row + 2);
    hide Render, LevelsOf, SymbolAt, BlockNumber;
    SymbolSurvives(mode, 127, SymbolAt(symbols, BlockNumber(cols, col, row)),
                   Render(LevelsOf(mode, symbols), cols, rows)[4 * row + 2][4 * col + 2]);
  }

  // For a drawn frame the blocks that survive are those that show their symbols.
  lemma SurvivesReads(mode: Mode, threshold: byte, payload: seq<byte>, flush: bool, received: seq<byte>)
    requires |received| == Width(mode) * Height(mode)
    ensures FrameSurvives(mode, threshold, EncodeFrame(mode, payload, flush), received)
       <==> BlocksRead(mode, threshold, Symbols(mode, payload, flush), RowsOf(mode, received), Cols(mode), Rows(mode))
  {
    hide Render, LevelsOf, EncodeFrame, SumReads, PointSum, SymbolOf, Symbols, RowsOf;
    GeometryExact(mode);
    EncodedSize(mode, payload, flush);
    var symbols, cols, rows, r := Symbols(mode, payload, flush), Cols(mode), Rows(mode), RowsOf(mode, received);
    forall col, row | 0 <= col < cols && 0 <= row < rows
      ensures BlockSurvives(mode, threshold, RowsOf(mode, EncodeFrame(mode, payload, flush)), r, col, row)
         <==> BlockReads(mode, threshold, symbols, r, cols, rows, col, row)
    {
      CentreShows(mode, symbols, cols, rows, col, row);
    }
  }

  /** A full frame of the streaming encoder, as it arrives, decodes to exactly the bytes drawn if and
      only if it survived the channel. */
  lemma FullFrameSurvives(mode: Mode, payload: seq<byte>, received: seq<byte>)
    requires |payload| == BytesPerFrame(mode) && |received| == Width(mode) * Height(mode)
    ensures DecodeFrame(mode, received) == payload
       <==> FrameSurvives(mode, 128, EncodeFrame(mode, payload, false), received)
  {
    hide FrameSurvives, BlocksRead, DecodeRaster, EncodeFrame, Symbols;
    SurvivesReads(mode, 128, payload, false, received);
    FrameRoundTrip(mode, 128, payload, false, RowsOf(mode, received));
    assert payload + Zeros(0) == payload;
  }

  lemma SurvivorSize(mode: Mode, sent: seq<byte>, received: seq<byte>)
    requires FrameSurvives(mode, 128, sent, received)
    ensures |received| == Width(mode) * Height(mode)
  {
  }

  // ------------------------------------------------------------------ what frames survive

  ghost predicate PixelsSurvive(mode: Mode, threshold: byte, sent: seq<byte>, received: seq<byte>) {
    && |sent| == |received|
    && forall i :: 0 <= i < |sent| ==> PixelSurvives(mode, threshold, sent[i], received[i])
  }

  ghost predicate RasterSurvives(mode: Mode, threshold: byte, sent: Raster, received: Raster, w: nat, h: nat)
    requires HasSize(sent, w, h) && HasSize(received, w, h)
  {
    forall y, x :: 0 <= y < h && 0 <= x < w ==> PixelSurvives(mode, threshold, sent[y][x], received[y][x])
  }

  lemma {:induction false} ChunksSurvive(mode: Mode, threshold: byte, sent: seq<byte>, received: seq<byte>, w: nat, h: nat)
    requires w > 0 && |sent| == w * h && PixelsSurvive(mode, threshold, sent, received)
    ensures HasSize(FullChunks(w, sent), w, h) && HasSize(FullChunks(w, received), w, h)
    ensures RasterSurvives(mode, threshold, FullChunks(w, sent), FullChunks(w, received), w, h)
    decreases h
  {
    RasterOf(sent, w, h);
    RasterOf(received, w, h);
    if h > 0 {
      assert |sent| == w + w * (h - 1);
      ChunksSurvive(mode, threshold, sent[w..], received[w..], w, h - 1);
      var s, r := FullChunks(w, sent), FullChunks(w, received);
      assert s == [sent[..w]] + FullChunks(w, sent[w..]) && r == [received[..w]] + FullChunks(w, received[w..]);
      forall y, x | 0 <= y < h && 0 <= x < w ensures PixelSurvives(mode, threshold, s[y][x], r[y][x]) {
        if y > 0 {
          assert s[y] == FullChunks(w, sent[w..])[y - 1] && r[y] == FullChunks(w, received[w..])[y - 1];
        }
      }
    }
  }

  lemma PointsSurvive(mode: Mode, threshold: byte, symbol: nat, a: byte, b: byte, c: byte, d: byte, e: byte)
    requires symbol < Pow2(BitsPerBlock(mode))
    requires PixelSurvives(mode, threshold, LevelOf(mode, symbol), a) && PixelSurvives(mode, threshold, LevelOf(mode, symbol), b)
    requires PixelSurvives(mode, threshold, LevelOf(mode, symbol), c) && PixelSurvives(mode, threshold, LevelOf(mode, symbol), d)
    requires PixelSurvives(mode, threshold, LevelOf(mode, symbol), e)
    ensures SumReads(mode, threshold, symbol, Sum(a, b, c, d, e))
  {
    assert Pow2(3) == 8 && Pow2(1) == 2;
  }

  /** A drawn frame survives if no pixel moved further than the margin of its mode. */
  lemma PixelwiseSurvives(mode: Mode, threshold: byte, payload: seq<byte>, flush: bool, received: seq<byte>)
    requires PixelsSurvive(mode, threshold, EncodeFrame(mode, payload, flush), received)
    ensures FrameSurvives(mode, threshold, EncodeFrame(mode, payload, flush), received)
  {
    hide Render, LevelsOf, EncodeFrame, SumReads, PixelSurvives, SymbolAt, Symbols, LevelOf, SymbolOf;
    GeometryExact(mode);
    EncodedSize(mode, payload, flush);
    ChunksSurvive(mode, threshold, EncodeFrame(mode, payload, flush), received, Width(mode), Height(mode));
    var symbols, cols, rows := Symbols(mode, payload, flush), Cols(mode), Rows(mode);
    var sent, r := RowsOf(mode, EncodeFrame(mode, payload, flush)), RowsOf(mode, received);
    forall col, row | 0 <= col < cols && 0 <= row < rows ensures BlockSurvives(mode, threshold, sent, r, col, row) {
      CentreShows(mode, symbols, cols, rows, col, row);
      forall x: nat, y: nat | 4 * col <= x < 4 * col + 4 && 4 * row <= y < 4 * row + 4
        ensures var symbol := SymbolAt(symbols, BlockNumber(cols, col, row));
          symbol < Pow2(BitsPerBlock(mode)) && PixelSurvives(mode, threshold, LevelOf(mode, symbol), r[y][x])
      {
        assert x / 4 == col && y / 4 == row;
        BlockShows(mode, symbols, cols, rows, x, y);
      }
      var cx, cy := 4 * col + 2, 4 * row + 2;
      PointsSurvive(mode, threshold, SymbolAt(symbols, BlockNumber(cols, col, row)),
                    r[cy][cx], r[cy][cx - 1], r[cy][cx + 1], r[cy - 1][cx], r[cy + 1][cx]);
    }
  }

  /** In particular an undisturbed frame survives. */
  lemma Undisturbed(mode: Mode, threshold: byte, payload: seq<byte>, flush: bool)
    requires threshold < 255
    ensures FrameSurvives(mode, threshold, EncodeFrame(mode, payload, flush), EncodeFrame(mode, payload, flush))
  {
    hide FrameSurvives, EncodeFrame;
    PixelwiseSurvives(mode, threshold, payload, flush, EncodeFrame(mode, payload, flush));
  }

  /** The five sampled pixels of a block. */
  function Points(r: Raster, w: nat, h: nat, col: nat, row: nat): (points: seq<byte>)
    requires HasSize(r, w, h) && col < w / 4 && row < h / 4
    ensures |points| == 5
  {
    [r[4 * row + 2][4 * col + 2], r[4 * row + 2][4 * col + 1], r[4 * row + 2][4 * col + 3],
     r[4 * row + 1][4 * col + 2], r[4 * row + 3][4 * col + 2]]
  }

  /** All points are as sent but one, which in High mode may be off by at most 85. */
  ghost predicate OneSpeck(mode: Mode, level: byte, points: seq<byte>) {
    && |points| == 5
    && exists i :: (0 <= i < 5
                    && (forall j :: 0 <= j < 5 && j != i ==> points[j] == level)
                    && (mode == High ==> Within(85, points[i], level)))
  }

  /** One speck in every block is harmless, of any brightness in Base mode, although a single pixel
      that far off would not be read as what was sent. */
  lemma SpecksHarmless(mode: Mode, threshold: byte, payload: seq<byte>, flush: bool, received: seq<byte>)
    requires |received| == Width(mode) * Height(mode) && (mode == Base ==> 51 <= threshold <= 203)
    requires |EncodeFrame(mode, payload, flush)| == Width(mode) * Height(mode)
    requires forall col, row :: 0 <= col < Cols(mode) && 0 <= row < Rows(mode) ==>
      OneSpeck(mode, RowsOf(mode, EncodeFrame(mode, payload, flush))[4 * row + 2][4 * col + 2],
               Points(RowsOf(mode, received), Width(mode), Height(mode), col, row))
    ensures FrameSurvives(mode, threshold, EncodeFrame(mode, payload, flush), received)
  {
    hide Render, LevelsOf, EncodeFrame, Symbols, SumReads, SymbolAt, OneSpeck, SymbolOf;
    GeometryExact(mode);
    EncodedSize(mode, payload, flush);
    var symbols, cols, rows := Symbols(mode, payload, flush), Cols(mode), Rows(mode);
    var sent, r := RowsOf(mode, EncodeFrame(mode, payload, flush)), RowsOf(mode, received);
    forall col, row | 0 <= col < cols && 0 <= row < rows ensures BlockSurvives(mode, threshold, sent, r, col, row) {
      BlockShows(mode, symbols, cols, rows, 4 * col + 2, 4 * row + 2);
      CentreShows(mode, symbols, cols, rows, col, row);
      SpeckReads(mode, threshold, SymbolAt(symbols, BlockNumber(cols, col, row)), Points(r, Width(mode), Height(mode), col, row));
    }
  }

  lemma SpeckReads(mode: Mode, threshold: byte, symbol: nat, points: seq<byte>)
    requires symbol < Pow2(BitsPerBlock(mode)) && (mode == Base ==> 51 <= threshold <= 203)
    requires OneSpeck(mode, LevelOf(mode, symbol), points)
    ensures SumReads(mode, threshold, symbol, Sum(points[0], points[1], points[2], points[3], points[4]))
  {
    assert Pow2(3) == 8 && Pow2(1) == 2;
  }
}
