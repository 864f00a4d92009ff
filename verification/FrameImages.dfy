/** The pixel loops of encoder.rs, streaming.rs and decoder.rs on a mutable image, proved against
    the frame layout of module Frame. Pixel (x, y) is img[y, x]. */
module FrameImages {
  import opened Bytes
  import opened BitPacking
  import opened Frame

  ghost function Contents(img: array2<byte>): (r: Raster)
    reads img
    ensures HasSize(r, img.Length1, img.Length0)
    ensures forall y, x :: 0 <= y < img.Length0 && 0 <= x < img.Length1 ==> r[y][x] == img[y, x]
  {
    seq(img.Length0, y requires 0 <= y < img.Length0 reads img =>
      seq(img.Length1, x requires 0 <= x < img.Length1 reads img => img[y, x]))
  }

  /** The image shows `levels` in its first blocks and is black elsewhere. */
  ghost predicate Shows(img: array2<byte>, levels: seq<byte>, cols: nat, rows: nat)
    reads img
  {
    && img.Length1 == 4 * cols && img.Length0 == 4 * rows
    && forall y: nat, x: nat :: y < img.Length0 && x < img.Length1 ==> img[y, x] == LevelAt(levels, BlockIndex(cols, x, y))
  }

  lemma ShowsRender(img: array2<byte>, levels: seq<byte>, cols: nat, rows: nat)
    requires Shows(img, levels, cols, rows)
    ensures Contents(img) == Render(levels, cols, rows)
  {
    var a, b := Contents(img), Render(levels, cols, rows);
    forall y: nat | y < 4 * rows ensures a[y] == b[y] {
    }
  }

  // ------------------------------------------------------------------ drawing

  method FillBlock(img: array2<byte>, col: nat, row: nat, level: byte)
    requires 4 * col + 4 <= img.Length1 && 4 * row + 4 <= img.Length0
    modifies img
    ensures forall y: nat, x: nat :: y < img.Length0 && x < img.Length1 ==>
      img[y, x] == if x / 4 == col && y / 4 == row then level else old(img[y, x])
  {
    var px, py := col * BLOCK_SIZE, row * BLOCK_SIZE;
    for dy := 0 to BLOCK_SIZE
      invariant forall y: nat, x: nat :: y < img.Length0 && x < img.Length1 ==>
        img[y, x] == if px <= x < px + 4 && py <= y < py + dy then level else old(img[y, x])
    {
      for dx := 0 to BLOCK_SIZE
        invariant forall y: nat, x: nat :: y < img.Length0 && x < img.Length1 ==>
          img[y, x] == if px <= x < px + 4 && (py <= y < py + dy || (y == py + dy && x < px + dx)) then level else old(img[y, x])
      {
        img[py + dy, px + dx] := level;
      }
    }
  }

  lemma {:induction false} BlockNumberInverse(cols: nat, col: nat, row: nat, k: nat)
    requires col < cols
    ensures BlockNumber(cols, col, row) == k <==> col == k % cols && row == k / cols
  {
    var q, r := k / cols, k % cols;
    assert k == q * cols + r;
    if row < q {
      RowGap(cols, row, q);
    } else if row > q {
      RowGap(cols, q, row);
    }
  }

  lemma {:induction false} RowGap(cols: nat, a: nat, b: nat)
    requires a < b
    ensures a * cols + cols <= b * cols
    decreases b
  {
    if a + 1 < b {
      RowGap(cols, a, b - 1);
      assert b * cols == (b - 1) * cols + cols;
    } else {
      assert b * cols == a * cols + cols;
    }
  }

  /** Draws the next block in reading order, if the image still has a row for it. */
  method DrawNext(img: array2<byte>, cols: nat, rows: nat, index: nat, level: byte, ghost levels: seq<byte>)
    requires cols > 0 && |levels| == index && Shows(img, levels, cols, rows)
    modifies img
    ensures Shows(img, levels + [level], cols, rows)
  {
    var col, row := index % cols, index / cols;
    ghost var shown := levels + [level];
    forall y: nat, x: nat | y < img.Length0 && x < img.Length1
      ensures LevelAt(shown, BlockIndex(cols, x, y))
           == if x / 4 == col && y / 4 == row then level else LevelAt(levels, BlockIndex(cols, x, y))
    {
      BlockNumberInverse(cols, x / 4, y / 4, index);
    }
    if row < rows {
      FillBlock(img, col, row, level);
    }
  }

  /** byte >> n */
  function ShiftRight(value: nat, n: nat): nat {
    if n == 0 then value else ShiftRight(value / 2, n - 1)
  }

  lemma {:induction false} ShiftedBit(value: nat, k: nat, n: nat)
    requires n < k
    ensures LowBits(value, k)[n] == (ShiftRight(value, n) % 2 == 1)
  {
    if n > 0 { ShiftedBit(value / 2, k - 1, n - 1); }
  }

  method FillBaseFrame(img: array2<byte>, payload: seq<byte>, cols: nat, rows: nat)
    requires cols > 0 && Shows(img, [], cols, rows)
    modifies img
    ensures Shows(img, LevelsOf(Base, Symbols(Base, payload, false)), cols, rows)
  {
    assert Pow2(1) == 2;
    ghost var drawn: seq<nat> := [];
    var bitIdx := 0;
    for i := 0 to |payload|
      invariant bitIdx == |drawn| && Below(2, drawn) && Bits(1, drawn) == Bits(8, payload[..i])
      invariant Shows(img, LevelsOf(Base, drawn), cols, rows)
    {
      var value := payload[i];
      for bitPos := 0 to 8
        invariant bitIdx == |drawn| && Below(2, drawn)
        invariant Bits(1, drawn) == Bits(8, payload[..i]) + LowBits(value, 8)[..bitPos]
        invariant Shows(img, LevelsOf(Base, drawn), cols, rows)
      {
        var bit := ShiftRight(value, bitPos) % 2;
        var level := if bit == 1 then 255 else 0;
        DrawNext(img, cols, rows, bitIdx, level, LevelsOf(Base, drawn));
        BaseBitDrawn(drawn, payload[..i], value, bitPos, bit);
        drawn := drawn + [bit];
        bitIdx := bitIdx + 1;
      }
      BytesSnoc(payload, i);
    }
    assert payload[..|payload|] == payload;
    SymbolsAre(Base, payload, false, drawn, []);
  }

  lemma BaseBitDrawn(drawn: seq<nat>, done: seq<byte>, value: byte, bitPos: nat, bit: nat)
    requires bitPos < 8 && bit == ShiftRight(value, bitPos) % 2 && Below(2, drawn)
    requires Bits(1, drawn) == Bits(8, done) + LowBits(value, 8)[..bitPos]
    ensures Pow2(1) == 2 && Below(2, drawn + [bit])
    ensures Bits(1, drawn + [bit]) == Bits(8, done) + LowBits(value, 8)[..bitPos + 1]
    ensures LevelsOf(Base, drawn + [bit]) == LevelsOf(Base, drawn) + [if bit == 1 then 255 else 0]
  {
    ShiftedBit(value, 8, bitPos);
    BitsSnoc(1, drawn, bit);
    OneBit(bit);
    assert Pow2(1) == 2;
    var v := LowBits(value, 8);
    hide LowBits, Bits, Pow2, ShiftRight;
    assert v[..bitPos + 1] == v[..bitPos] + [v[bitPos]];
    Assoc(Bits(8, done), v[..bitPos], [v[bitPos]]);
  }

  lemma BytesSnoc(payload: seq<byte>, i: nat)
    requires i < |payload|
    ensures Bits(8, payload[..i + 1]) == Bits(8, payload[..i]) + LowBits(payload[i], 8)
  {
    assert payload[..i + 1] == payload[..i] + [payload[i]];
    BitsSnoc(8, payload[..i], payload[i]);
  }

  // Symbols drawn one by one that spell the payload bits up to an incomplete rest are the
  // symbols of the payload.
  lemma SymbolsAre(mode: Mode, payload: seq<byte>, flush: bool, drawn: seq<nat>, rest: seq<bool>)
    requires Below(Pow2(BitsPerBlock(mode)), drawn) && |rest| < BitsPerBlock(mode)
    requires Bits(8, payload) == Bits(BitsPerBlock(mode), drawn) + rest
    ensures Symbols(mode, payload, flush) == drawn + if flush && rest != [] then [Value(rest)] else []
  {
    DigitsUnique(BitsPerBlock(mode), drawn, rest);
  }

  /** The loop of fill_high_frame and write_high_frame. */
  method DrawHighSymbols(img: array2<byte>, payload: seq<byte>, cols: nat, rows: nat)
    returns (bitBuf: nat, bitsInBuf: nat, symIdx: nat, ghost drawn: seq<nat>)
    requires cols > 0 && Shows(img, [], cols, rows)
    modifies img
    ensures bitsInBuf < 3 && Drawn(img, cols, rows, bitBuf, bitsInBuf, symIdx, drawn, Bits(8, payload))
  {
    NothingDrawn(img, cols, rows, payload);
    hide Drawn, LowBits, Bits;
    drawn := [];
    bitBuf, bitsInBuf, symIdx := 0, 0, 0;
    for i := 0 to |payload|
      invariant bitsInBuf < 3 && Drawn(img, cols, rows, bitBuf, bitsInBuf, symIdx, drawn, Bits(8, payload[..i]))
    {
      BytesSnoc(payload, i);
      bitBuf, bitsInBuf, symIdx, drawn :=
        DrawHighByte(img, payload[i], cols, rows, bitBuf, bitsInBuf, symIdx, drawn, Bits(8, payload[..i]));
    }
    assert payload[..|payload|] == payload;
  }

  lemma NothingDrawn(img: array2<byte>, cols: nat, rows: nat, payload: seq<byte>)
    requires Shows(img, [], cols, rows)
    ensures Drawn(img, cols, rows, 0, 0, 0, [], Bits(8, payload[..0]))
  {
    hide Shows;
    assert LowBits(0, 0) == [] && Bits(3, []) == [] && Bits(8, payload[..0]) == [];
    assert Pow2(0) == 1 && LevelsOf(High, []) == [];
  }

  /** The symbols drawn so far and the bits in the buffer are the bits `taken` out of the payload. */
  ghost predicate Drawn(img: array2<byte>, cols: nat, rows: nat, bitBuf: nat, bitsInBuf: nat, symIdx: nat,
                        drawn: seq<nat>, taken: seq<bool>)
    reads img
  {
    && symIdx == |drawn| && bitBuf < Pow2(bitsInBuf) && Below(Pow2(3), drawn)
    && Bits(3, drawn) + LowBits(bitBuf, bitsInBuf) == taken
    && Shows(img, LevelsOf(High, drawn), cols, rows)
  }

  /** One complete symbol leaves the bit buffer. */
  method DrawSymbol(img: array2<byte>, cols: nat, rows: nat, bitBuf: nat, ghost bitsInBuf: nat, symIdx: nat,
                    ghost drawn: seq<nat>, ghost taken: seq<bool>)
    requires cols > 0 && bitsInBuf >= 3 && Drawn(img, cols, rows, bitBuf, bitsInBuf, symIdx, drawn, taken)
    modifies img
    ensures Drawn(img, cols, rows, bitBuf / 8, bitsInBuf - 3, symIdx + 1, drawn + [bitBuf % 8], taken)
  {
    var symbol := bitBuf % 8;
    var level := if symbol * 36 > 240 then 255 else symbol * 36;
    HighSymbolDrawn(drawn, bitBuf, bitsInBuf);
    hide Shows, LevelsOf, LowBits, Bits, Pow2;
    DrawNext(img, cols, rows, symIdx, level, LevelsOf(High, drawn));
  }

  /** One byte enters the bit buffer and complete symbols leave it; it never holds more than 10 bits. */
  method DrawHighByte(img: array2<byte>, value: byte, cols: nat, rows: nat,
                      bitBuf0: nat, bitsInBuf0: nat, symIdx0: nat, ghost drawn0: seq<nat>, ghost taken: seq<bool>)
    returns (bitBuf: nat, bitsInBuf: nat, symIdx: nat, ghost drawn: seq<nat>)
    requires cols > 0 && bitsInBuf0 < 3 && Drawn(img, cols, rows, bitBuf0, bitsInBuf0, symIdx0, drawn0, taken)
    modifies img
    ensures bitsInBuf < 3 && Drawn(img, cols, rows, bitBuf, bitsInBuf, symIdx, drawn, taken + LowBits(value, 8))
  {
    hide LowBits, BitOr, Drawn;
    ByteTaken(img, cols, rows, bitBuf0, bitsInBuf0, symIdx0, drawn0, taken, value);
    bitBuf, bitsInBuf, symIdx, drawn := BitOr(bitBuf0, value * Pow2(bitsInBuf0)), bitsInBuf0 + 8, symIdx0, drawn0;
    while bitsInBuf >= 3
      invariant bitsInBuf <= 10
      invariant Drawn(img, cols, rows, bitBuf, bitsInBuf, symIdx, drawn, taken + LowBits(value, 8))
    {
      DrawSymbol(img, cols, rows, bitBuf, bitsInBuf, symIdx, drawn, taken + LowBits(value, 8));
      drawn := drawn + [bitBuf % 8];
      bitBuf, bitsInBuf, symIdx := bitBuf / 8, bitsInBuf - 3, symIdx + 1;
    }
  }

  lemma ByteTaken(img: array2<byte>, cols: nat, rows: nat, bitBuf: nat, bitsInBuf: nat, symIdx: nat,
                  drawn: seq<nat>, taken: seq<bool>, value: byte)
    requires Drawn(img, cols, rows, bitBuf, bitsInBuf, symIdx, drawn, taken)
    ensures Drawn(img, cols, rows, BitOr(bitBuf, value * Pow2(bitsInBuf)), bitsInBuf + 8, symIdx, drawn, taken + LowBits(value, 8))
  {
    Pow2Bytes(1);
    hide LowBits, BitOr, Bits, Pow2, Shows, Below;
    LowBitsAppend(bitBuf, bitsInBuf, value, 8);
    Assoc(Bits(3, drawn), LowBits(bitBuf, bitsInBuf), LowBits(value, 8));
  }

  lemma HighSymbolDrawn(drawn: seq<nat>, bitBuf: nat, bitsInBuf: nat)
    requires bitsInBuf >= 3 && bitBuf < Pow2(bitsInBuf) && Below(Pow2(3), drawn)
    ensures Pow2(3) == 8 && Below(8, drawn + [bitBuf % 8])
    ensures Bits(3, drawn + [bitBuf % 8]) + LowBits(bitBuf / 8, bitsInBuf - 3) == Bits(3, drawn) + LowBits(bitBuf, bitsInBuf)
    ensures bitBuf / 8 < Pow2(bitsInBuf - 3)
  {
    assert Pow2(3) == 8;
    var symbol, rest := bitBuf % 8, bitBuf / 8;
    LowBitsTake(bitBuf, 3, bitsInBuf - 3, rest, symbol);
    BitsSnoc(3, drawn, symbol);
    Assoc(Bits(3, drawn), LowBits(symbol, 3), LowBits(rest, bitsInBuf - 3));
  }

  lemma ShowsBeyond(img: array2<byte>, levels: seq<byte>, level: byte, cols: nat, rows: nat)
    requires cols > 0 && Shows(img, levels, cols, rows) && |levels| >= cols * rows
    ensures Shows(img, levels + [level], cols, rows)
  {
    forall y: nat, x: nat | y < img.Length0 && x < img.Length1
      ensures LevelAt(levels + [level], BlockIndex(cols, x, y)) == LevelAt(levels, BlockIndex(cols, x, y))
    {
      RowGap(cols, y / 4, rows);
    }
  }

  /** streaming.rs: no flush. */
  method FillHighFrame(img: array2<byte>, payload: seq<byte>, cols: nat, rows: nat)
    requires cols > 0 && Shows(img, [], cols, rows)
    modifies img
    ensures Shows(img, LevelsOf(High, Symbols(High, payload, false)), cols, rows)
  {
    var bitBuf, bitsInBuf, symIdx, drawn := DrawHighSymbols(img, payload, cols, rows);
    SymbolsAre(High, payload, false, drawn, LowBits(bitBuf, bitsInBuf));
    assert Symbols(High, payload, false) == drawn;
  }

  /** encoder.rs: remaining bits are flushed as one more symbol. */
  method WriteHighFrame(img: array2<byte>, payload: seq<byte>, cols: nat, rows: nat)
    requires cols > 0 && Shows(img, [], cols, rows)
    modifies img
    ensures Shows(img, LevelsOf(High, Symbols(High, payload, true)), cols, rows)
  {
    hide Shows, LowBits, Bits, LevelsOf, Symbols, Pow2, Below;
    var bitBuf, bitsInBuf, symIdx, drawn := DrawHighSymbols(img, payload, cols, rows);
    FlushedSymbols(payload, bitBuf, bitsInBuf, drawn);
    if bitsInBuf > 0 {
      FlushSymbol(img, cols, rows, bitBuf, symIdx, drawn);
    }
  }

  lemma FlushedSymbols(payload: seq<byte>, bitBuf: nat, bitsInBuf: nat, drawn: seq<nat>)
    requires bitsInBuf < 3 && bitBuf < Pow2(bitsInBuf) && Below(Pow2(3), drawn)
    requires Bits(8, payload) == Bits(3, drawn) + LowBits(bitBuf, bitsInBuf)
    ensures bitsInBuf > 0 ==> bitBuf < 8
    ensures Symbols(High, payload, true) == if bitsInBuf > 0 then drawn + [bitBuf] else drawn
  {
    assert Pow2(1) == 2 && Pow2(2) == 4;
    hide Bits, LowBits, Symbols;
    SymbolsAre(High, payload, true, drawn, LowBits(bitBuf, bitsInBuf));
    ValueOfLowBits(bitBuf, bitsInBuf);
  }

  method FlushSymbol(img: array2<byte>, cols: nat, rows: nat, bitBuf: nat, symIdx: nat, ghost drawn: seq<nat>)
    requires cols > 0 && bitBuf < 8 && symIdx == |drawn| && Below(Pow2(3), drawn) && Below(Pow2(3), drawn + [bitBuf])
    requires Shows(img, LevelsOf(High, drawn), cols, rows)
    modifies img
    ensures Shows(img, LevelsOf(High, drawn + [bitBuf]), cols, rows)
  {
    var symbol := bitBuf % 8;
    var level := if symbol * 36 > 240 then 255 else symbol * 36;
    assert LevelsOf(High, drawn + [bitBuf]) == LevelsOf(High, drawn) + [level] by { assert Pow2(3) == 8; }
    hide Shows, LevelsOf;
    if symIdx < cols * rows {
      DrawNext(img, cols, rows, symIdx, level, LevelsOf(High, drawn));
    } else {
      ShowsBeyond(img, LevelsOf(High, drawn), level, cols, rows);
    }
  }

  // ------------------------------------------------------------------ raw pixels

  method IntoRaw(img: array2<byte>) returns (raw: seq<byte>)
    ensures raw == Flatten(Contents(img))
  {
    raw := [];
    ghost var rows := Contents(img);
    for y := 0 to img.Length0
      invariant raw == Flatten(rows[..y])
    {
      var line := [];
      for x := 0 to img.Length1
        invariant line == rows[y][..x]
      {
        line := line + [img[y, x]];
      }
      assert rows[y][..img.Length1] == rows[y];
      FlattenSnoc(rows[..y], line);
      assert rows[..y + 1] == rows[..y] + [line];
      raw := raw + line;
    }
    assert rows[..img.Length0] == rows;
  }

  /** generate_frame: a fresh black image, filled and turned into raw pixels. */
  method GenerateFrame(mode: Mode, payload: seq<byte>) returns (raw: seq<byte>)
    ensures raw == EncodeFrame(mode, payload, false)
  {
    GeometryExact(mode);
    hide LevelsOf, Symbols, Render;
    var img := new byte[Height(mode), Width(mode)]((_, _) => 0);
    match mode {
      case Base => FillBaseFrame(img, payload, Cols(mode), Rows(mode));
      case High => FillHighFrame(img, payload, Cols(mode), Rows(mode));
    }
    ShowsRender(img, LevelsOf(mode, Symbols(mode, payload, false)), Cols(mode), Rows(mode));
    raw := IntoRaw(img);
  }

  // ------------------------------------------------------------------ reading

  function SampleBlock(img: array2<byte>, col: nat, row: nat): (lum: byte)
    requires col < img.Length1 / 4 && row < img.Length0 / 4
    reads img
    ensures lum == Sample(Contents(img), img.Length1, img.Length0, col, row)
    ensures 5 * lum <= PointSum(Contents(img), img.Length1, img.Length0, col, row) < 5 * lum + 5
  {
    var w, h := img.Length1, img.Length0;
    var cx, cy := col * BLOCK_SIZE + BLOCK_SIZE / 2, row * BLOCK_SIZE + BLOCK_SIZE / 2;
    Average(
      img[Min(cy, h - 1), Min(cx, w - 1)],
      img[Min(cy, h - 1), Min(cx - 1, w - 1)],
      img[Min(cy, h - 1), Min(cx + 1, w - 1)],
      img[Min(cy - 1, h - 1), Min(cx, w - 1)],
      img[Min(cy + 1, h - 1), Min(cx, w - 1)])
  }

  /** One byte per 8 bits, and one more for an incomplete last group. */
  method BitsToBytes(bits: seq<bool>) returns (bytes: seq<byte>)
    ensures bytes == BytesOf(bits, true)
  {
    bytes := [];
    var rest := bits;
    assert BytesOf(bits, true) == [] + BytesOf(rest, true);
    while rest != []
      invariant BytesOf(bits, true) == bytes + BytesOf(rest, true)
      decreases |rest|
    {
      var n := Min(8, |rest|);
      var value := 0;
      for i := 0 to n
        invariant value == Value(rest[..i]) && value < Pow2(i)
      {
        ValueSnoc(rest[..i], rest[i]);
        assert rest[..i + 1] == rest[..i] + [rest[i]];
        value := BitOr(value, (if rest[i] then 1 else 0) * Pow2(i));
      }
      Pow2Grows(n, 8);
      Pow2Bytes(1);
      NextByte(rest, n);
      Assoc(bytes, [value], BytesOf(rest[n..], true));
      bytes := bytes + [value];
      rest := rest[n..];
    }
    assert BytesOf([], true) == [];
    assert bytes + [] == bytes;
  }

  lemma {:induction false} ValueSnocAux(bits: seq<bool>, bit: bool)
    ensures Value(bits + [bit]) == Value(bits) + (if bit then Pow2(|bits|) else 0)
  {
    if bits != [] {
      assert (bits + [bit])[1..] == bits[1..] + [bit];
      ValueSnocAux(bits[1..], bit);
    }
  }

  lemma ValueSnoc(bits: seq<bool>, bit: bool)
    ensures Value(bits + [bit]) == BitOr(Value(bits), (if bit then 1 else 0) * Pow2(|bits|))
    ensures Value(bits + [bit]) < Pow2(|bits| + 1)
  {
    ValueSnocAux(bits, bit);
    LowBitsOfValue(bits);
    LowBitsOfValue(bits + [bit]);
    BitOrDisjoint(Value(bits), |bits|, if bit then 1 else 0);
  }

  lemma NextByte(rest: seq<bool>, n: nat)
    requires rest != [] && n == Min(8, |rest|)
    ensures BytesOf(rest, true) == [Value(rest[..n])] + BytesOf(rest[n..], true)
  {
    if |rest| >= 8 {
      assert FullChunks(8, rest) == [rest[..8]] + FullChunks(8, rest[8..]);
      assert Digits(8, rest) == [Value(rest[..8])] + Digits(8, rest[8..]);
    } else {
      assert rest[..n] == rest && rest[n..] == [];
      assert BytesOf([], true) == [];
    }
  }

  method SampleHigh(img: array2<byte>, col: nat, row: nat, ghost threshold: byte) returns (symbol: nat)
    requires col < img.Length1 / 4 && row < img.Length0 / 4
    ensures symbol == SymbolOf(High, threshold, Sample(Contents(img), img.Length1, img.Length0, col, row))
    ensures symbol < Pow2(3)
  {
    var lum := SampleBlock(img, col, row);
    assert Pow2(3) == 8;
    symbol := Min(if lum > 235 then 7 else (lum + 18) / 36, 7);
  }

  /** The body of decode_high_image's loops: takes one symbol into the bit buffer and moves
      complete bytes out. The buffer never holds more than 10 bits. */
  method AcceptSymbol(bytes: seq<byte>, bitBuf: nat, bitsInBuf: nat, symbol: nat, ghost read: seq<nat>)
    returns (bytes': seq<byte>, bitBuf': nat, bitsInBuf': nat)
    requires bitsInBuf < 8 && bitBuf < Pow2(bitsInBuf) && symbol < Pow2(3)
    requires Bits(8, bytes) + LowBits(bitBuf, bitsInBuf) == Bits(3, read)
    ensures bitsInBuf' < 8 && bitBuf' < Pow2(bitsInBuf')
    ensures Bits(8, bytes') + LowBits(bitBuf', bitsInBuf') == Bits(3, read + [symbol])
  {
    hide Pow2, LowBits, Bits, BitOr;
    LowBitsAppend(bitBuf, bitsInBuf, symbol, 3);
    BitsSnoc(3, read, symbol);
    Assoc(Bits(8, bytes), LowBits(bitBuf, bitsInBuf), LowBits(symbol, 3));
    bytes', bitBuf', bitsInBuf' := bytes, BitOr(bitBuf, symbol * Pow2(bitsInBuf)), bitsInBuf + 3;
    while bitsInBuf' >= 8
      invariant bitsInBuf' <= 10 && bitBuf' < Pow2(bitsInBuf')
      invariant Bits(8, bytes') + LowBits(bitBuf', bitsInBuf') == Bits(3, read + [symbol])
    {
      ByteComplete(bytes', bitBuf', bitsInBuf');
      bytes' := bytes' + [bitBuf' % 256];
      bitBuf' := bitBuf' / 256;
      bitsInBuf' := bitsInBuf' - 8;
    }
  }

  // The symbol of a block in the row being read.
  lemma RowSymbolAt(mode: Mode, threshold: byte, r: Raster, w: nat, h: nat, col: nat, row: nat)
    requires HasSize(r, w, h) && col < w / 4 && row < h / 4
    ensures RowSymbols(mode, threshold, r, w, h, row)[col] == SymbolOf(mode, threshold, Sample(r, w, h, col, row))
  {
  }

  method DecodeHighRow(img: array2<byte>, row: nat, ghost threshold: byte,
                       bytes: seq<byte>, bitBuf: nat, bitsInBuf: nat, ghost read: seq<nat>)
    returns (bytes': seq<byte>, bitBuf': nat, bitsInBuf': nat)
    requires row < img.Length0 / 4
    requires bitsInBuf < 8 && bitBuf < Pow2(bitsInBuf)
    requires Bits(8, bytes) + LowBits(bitBuf, bitsInBuf) == Bits(3, read)
    ensures bitsInBuf' < 8 && bitBuf' < Pow2(bitsInBuf')
    ensures Bits(8, bytes') + LowBits(bitBuf', bitsInBuf')
         == Bits(3, read + RowSymbols(High, threshold, Contents(img), img.Length1, img.Length0, row))
  {
    hide Pow2, LowBits, Bits, Sample, Contents, SymbolOf, RowSymbols;
    bytes', bitBuf', bitsInBuf' := bytes, bitBuf, bitsInBuf;
    ghost var line := RowSymbols(High, threshold, Contents(img), img.Length1, img.Length0, row);
    assert read + line[..0] == read;
    for col := 0 to img.Length1 / BLOCK_SIZE
      invariant bitsInBuf' < 8 && bitBuf' < Pow2(bitsInBuf')
      invariant Bits(8, bytes') + LowBits(bitBuf', bitsInBuf') == Bits(3, read + line[..col])
    {
      var symbol := SampleHigh(img, col, row, threshold);
      RowSymbolAt(High, threshold, Contents(img), img.Length1, img.Length0, col, row);
      bytes', bitBuf', bitsInBuf' := AcceptSymbol(bytes', bitBuf', bitsInBuf', symbol, read + line[..col]);
      assert read + line[..col] + [symbol] == read + line[..col + 1];
    }
    assert line[..|line|] == line;
  }

  lemma HighBytes(threshold: byte, r: Raster, w: nat, h: nat, bytes: seq<byte>, bitBuf: nat, bitsInBuf: nat)
    requires HasSize(r, w, h) && bitsInBuf < 8 && bitBuf < Pow2(bitsInBuf)
    requires Bits(8, bytes) + LowBits(bitBuf, bitsInBuf) == Bits(3, ReadSymbols(High, threshold, r, w, h, h / 4))
    ensures bytes == DecodeRaster(High, threshold, r, w, h)
  {
    hide ReadSymbols, Bits, LowBits;
    Pow2Bytes(1);
    DigitsUnique(8, bytes, LowBits(bitBuf, bitsInBuf));
  }

  /** decode_high_image */
  method DecodeHighImage(img: array2<byte>, ghost threshold: byte) returns (bytes: seq<byte>)
    ensures bytes == DecodeRaster(High, threshold, Contents(img), img.Length1, img.Length0)
  {
    var bitBuf: nat, bitsInBuf: nat := 0, 0;
    bytes := [];
    assert LowBits(0, 0) == [] && Bits(8, []) == [] && Bits(3, []) == [] && Pow2(0) == 1;
    hide Pow2, LowBits, Bits, Contents, DecodeRaster, RowSymbols;
    ghost var r := Contents(img);
    for row := 0 to img.Length0 / BLOCK_SIZE
      invariant bitsInBuf < 8 && bitBuf < Pow2(bitsInBuf)
      invariant Bits(8, bytes) + LowBits(bitBuf, bitsInBuf) == Bits(3, ReadSymbols(High, threshold, r, img.Length1, img.Length0, row))
    {
      ghost var read := ReadSymbols(High, threshold, r, img.Length1, img.Length0, row);
      bytes, bitBuf, bitsInBuf := DecodeHighRow(img, row, threshold, bytes, bitBuf, bitsInBuf, read);
    }
    HighBytes(threshold, r, img.Length1, img.Length0, bytes, bitBuf, bitsInBuf);
  }

  lemma ByteComplete(bytes: seq<byte>, bitBuf: nat, bitsInBuf: nat)
    requires bitsInBuf >= 8 && bitBuf < Pow2(bitsInBuf)
    ensures Bits(8, bytes + [bitBuf % 256]) + LowBits(bitBuf / 256, bitsInBuf - 8) == Bits(8, bytes) + LowBits(bitBuf, bitsInBuf)
    ensures bitBuf / 256 < Pow2(bitsInBuf - 8)
  {
    assert Pow2(8) == 256 by { Pow2Bytes(1); }
    hide LowBits, Bits, Pow2;
    var value, rest := bitBuf % 256, bitBuf / 256;
    LowBitsTake(bitBuf, 8, bitsInBuf - 8, rest, value);
    BitsSnoc(8, bytes, value);
    Assoc(Bits(8, bytes), LowBits(value, 8), LowBits(rest, bitsInBuf - 8));
  }

  method DecodeBaseRow(img: array2<byte>, row: nat, threshold: byte) returns (bits: seq<bool>)
    requires row < img.Length0 / 4
    ensures bits == Bits(1, RowSymbols(Base, threshold, Contents(img), img.Length1, img.Length0, row))
  {
    hide LowBits, Bits, Sample, Contents, RowSymbols;
    bits := [];
    ghost var line := RowSymbols(Base, threshold, Contents(img), img.Length1, img.Length0, row);
    NoBits();
    for col := 0 to img.Length1 / BLOCK_SIZE
      invariant bits == Bits(1, line[..col])
    {
      var lum := SampleBlock(img, col, row);
      RowSymbolAt(Base, threshold, Contents(img), img.Length1, img.Length0, col, row);
      BitsSnoc(1, line[..col], line[col]);
      OneBit(line[col]);
      assert line[..col + 1] == line[..col] + [line[col]];
      bits := bits + [lum > threshold];
    }
    assert line[..|line|] == line;
  }

  lemma NoBits()
    ensures Bits(1, []) == []
  {
  }

  lemma OneBit(symbol: nat)
    requires symbol < 2
    ensures LowBits(symbol, 1) == [symbol == 1]
  {
  }

  /** decode_base_image */
  method DecodeBaseImage(img: array2<byte>, threshold: byte) returns (bytes: seq<byte>)
    ensures bytes == DecodeRaster(Base, threshold, Contents(img), img.Length1, img.Length0)
  {
    var bits := [];
    ghost var r := Contents(img);
    NoBits();
    hide Contents, Bits, RowSymbols;
    for row := 0 to img.Length0 / BLOCK_SIZE
      invariant bits == Bits(1, ReadSymbols(Base, threshold, r, img.Length1, img.Length0, row))
    {
      var line := DecodeBaseRow(img, row, threshold);
      BitsAppend(1, ReadSymbols(Base, threshold, r, img.Length1, img.Length0, row),
                 RowSymbols(Base, threshold, r, img.Length1, img.Length0, row));
      bits := bits + line;
    }
    bytes := BitsToBytes(bits);
  }

  lemma SomeChunk(w: nat, rest: seq<byte>)
    requires w > 0 && FullChunks(w, rest) != []
    ensures |rest| >= w
  {
  }

  method FromRaw(raw: seq<byte>, w: nat, h: nat) returns (img: array2<byte>)
    requires w > 0 && |raw| == w * h
    ensures fresh(img) && img.Length1 == w && img.Length0 == h
    ensures Contents(img) == FullChunks(w, raw)
  {
    img := new byte[h, w];
    ghost var rows := FullChunks(w, raw);
    RasterOf(raw, w, h);
    var rest := raw;
    for y := 0 to h
      invariant rows[y..] == FullChunks(w, rest)
      invariant forall j: nat, i: nat :: j < y && i < w ==> img[j, i] == rows[j][i]
    {
      SomeChunk(w, rest);
      assert FullChunks(w, rest)[0] == rest[..w];
      var line := rest[..w];
      for x := 0 to w
        invariant forall j: nat, i: nat :: (j < y && i < w) || (j == y && i < x) ==> img[j, i] == rows[j][i]
      {
        img[y, x] := line[x];
      }
      rest := rest[w..];
      assert rows[y + 1..] == rows[y..][1..];
    }
    SameRaster(Contents(img), rows, w, h);
  }

  lemma SameRaster(a: Raster, b: Raster, w: nat, h: nat)
    requires HasSize(a, w, h) && HasSize(b, w, h)
    requires forall y: nat, x: nat :: y < h && x < w ==> a[y][x] == b[y][x]
    ensures a == b
  {
    forall y: nat | y < h ensures a[y] == b[y] {
    }
  }

  method DecodeRaw(mode: Mode, raw: seq<byte>) returns (bytes: seq<byte>)
    requires |raw| == Width(mode) * Height(mode)
    ensures bytes == DecodeFrame(mode, raw)
  {
    var img := FromRaw(raw, Width(mode), Height(mode));
    match mode {
      case Base => bytes := DecodeBaseImage(img, 128);
      case High => bytes := DecodeHighImage(img, 128);
    }
  }
}
