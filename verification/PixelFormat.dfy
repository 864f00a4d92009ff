/** The pixels of a drawn frame, one by one (nexus-core/src/encoder.rs, streaming.rs): which bits of
    the payload each of them shows, and how bright it is. */
module PixelFormat {
  import opened Bytes
  import opened BitPacking
  import opened Frame
  import opened FrameTheorems
  import FrameImages

  /** Bit i of the payload, the least significant of each byte first; there are none behind the end. */
  function BitOf(payload: seq<byte>, i: nat): (bit: nat)
    ensures bit < 2
  {
    if i < 8 * |payload| then payload[i / 8] / [1, 2, 4, 8, 16, 32, 64, 128][i % 8] % 2 else 0
  }

  /** The brightness of a pixel in block number k. */
  function Brightness(mode: Mode, payload: seq<byte>, flush: bool, k: nat): nat {
    match mode
    case Base => if BitOf(payload, k) == 1 then 255 else 0
    case High =>
      var symbol :=
        if flush || 3 * k + 3 <= 8 * |payload|
        then BitOf(payload, 3 * k) + 2 * BitOf(payload, 3 * k + 1) + 4 * BitOf(payload, 3 * k + 2)
        else 0;
      if symbol == 7 then 255 else 36 * symbol
  }

  lemma HalfThen(value: nat, j: nat)
    requires 0 < j < 8
    ensures value / 2 / [1, 2, 4, 8, 16, 32, 64, 128][j - 1] == value / [1, 2, 4, 8, 16, 32, 64, 128][j]
  {
  }

  lemma {:induction false} ShiftDivides(value: nat, j: nat)
    requires j < 8
    ensures FrameImages.ShiftRight(value, j) == value / [1, 2, 4, 8, 16, 32, 64, 128][j]
  {
    if j > 0 {
      ShiftDivides(value / 2, j - 1);
      HalfThen(value, j);
    }
  }

  lemma BitOfByte(value: byte, j: nat)
    requires j < 8
    ensures LowBits(value, 8)[j] <==> value / [1, 2, 4, 8, 16, 32, 64, 128][j] % 2 == 1
  {
    hide LowBits;
    FrameImages.ShiftedBit(value, 8, j);
    ShiftDivides(value, j);
  }

  lemma PayloadBit(payload: seq<byte>, i: nat)
    requires i < 8 * |payload|
    ensures |Bits(8, payload)| == 8 * |payload|
    ensures Bits(8, payload)[i] <==> BitOf(payload, i) == 1
  {
    hide LowBits, Bits, Times;
    var j, at := i / 8, i % 8;
    assert i == 8 * j + at;
    BitsLength(8, payload);
    TimesValue(j);
    DigitBits(8, payload, j);
    var bits := Bits(8, payload);
    assert bits[i] == bits[8 * j..8 * j + 8][at];
    BitOfByte(payload[j], at);
  }

  /** j times k, one k after the other. */
  function Times(k: nat, j: nat): nat {
    if j == 0 then 0 else k + Times(k, j - 1)
  }

  lemma {:induction false} TimesValue(j: nat)
    ensures Times(1, j) == j && Times(3, j) == 3 * j && Times(8, j) == 8 * j
  {
    if j > 0 {
      TimesValue(j - 1);
    }
  }

  lemma {:induction false} DigitAt(k: nat, bits: seq<bool>, j: nat)
    requires k > 0 && Times(k, j) + k <= |bits|
    ensures j < |Digits(k, bits)| && Digits(k, bits)[j] == Value(bits[Times(k, j)..Times(k, j) + k])
    decreases j
  {
    hide Digits, Value;
    DigitsUnfold(k, bits);
    var at := Times(k, j);
    if j > 0 {
      DigitAt(k, bits[k..], j - 1);
      assert bits[k..][at - k..at] == bits[at..at + k];
    } else {
      assert bits[at..at + k] == bits[..k];
    }
  }

  lemma {:induction false} RestFrom(k: nat, bits: seq<bool>, n: nat)
    requires k > 0 && n == |Digits(k, bits)|
    ensures k * n <= |bits| < k * n + k && Rest(k, bits) == bits[k * n..]
  {
    ValuesLength(FullChunks(k, bits));
    ChunksHaveLength(k, bits);
    ChunksConserve(k, bits);
    FlattenLength(FullChunks(k, bits), k);
  }

  lemma ThreeBits(bits: seq<bool>)
    requires |bits| <= 3
    ensures Value(bits) == (if |bits| > 0 && bits[0] then 1 else 0) + (if |bits| > 1 && bits[1] then 2 else 0)
                         + (if |bits| > 2 && bits[2] then 4 else 0)
  {
    if |bits| > 0 {
      var later := bits[1..];
      if |later| > 0 {
        assert |later[1..]| > 0 ==> later[1..][1..] == [];
      }
    }
  }

  lemma BaseSymbol(payload: seq<byte>, flush: bool, k: nat)
    ensures SymbolAt(Symbols(Base, payload, flush), k) == BitOf(payload, k)
  {
    var bits := Bits(8, payload);
    BitsLength(8, payload);
    RestFrom(1, bits, |Digits(1, bits)|);
    if k < |bits| {
      TimesValue(k);
      DigitAt(1, bits, k);
      PayloadBit(payload, k);
      ThreeBits(bits[k..k + 1]);
    }
  }

  lemma HighDigit(bits: seq<bool>, flush: bool, k: nat)
    ensures SymbolAt(Pack(3, bits, flush), k)
         == if 3 * k + 3 <= |bits| then Value(bits[3 * k..3 * k + 3])
            else if flush && 3 * k < |bits| then Value(bits[3 * k..])
            else 0
  {
    hide Digits, Rest, Value;
    RestFrom(3, bits, |Digits(3, bits)|);
    if 3 * k + 3 <= |bits| {
      TimesValue(k);
      DigitAt(3, bits, k);
    }
  }

  lemma HighSymbol(payload: seq<byte>, flush: bool, k: nat)
    ensures SymbolAt(Symbols(High, payload, flush), k)
         == if flush || 3 * k + 3 <= 8 * |payload|
            then BitOf(payload, 3 * k) + 2 * BitOf(payload, 3 * k + 1) + 4 * BitOf(payload, 3 * k + 2)
            else 0
  {
    hide Bits, Pack, BitOf, SymbolAt, Value;
    var bits := Bits(8, payload);
    BitsLength(8, payload);
    forall i: nat | i < |bits| ensures bits[i] <==> BitOf(payload, i) == 1 {
      PayloadBit(payload, i);
    }
    NoBitsBehind(payload);
    HighDigit(bits, flush, k);
    if 3 * k + 3 <= |bits| {
      ThreeBits(bits[3 * k..3 * k + 3]);
    } else if 3 * k < |bits| {
      ThreeBits(bits[3 * k..]);
    }
  }

  lemma NoBitsBehind(payload: seq<byte>)
    ensures forall i: nat :: i >= 8 * |payload| ==> BitOf(payload, i) == 0
  {
  }

  /** Blocks are 4 by 4 pixels and numbered in reading order. */
  lemma DrawnPixel(mode: Mode, payload: seq<byte>, flush: bool, x: nat, y: nat)
    requires x < Width(mode) && y < Height(mode)
    ensures |EncodeFrame(mode, payload, flush)| == Width(mode) * Height(mode)
    ensures RowsOf(mode, EncodeFrame(mode, payload, flush))[y][x]
         == Brightness(mode, payload, flush, y / 4 * (Width(mode) / 4) + x / 4)
  {
    hide EncodeFrame, Symbols, Render, LevelsOf, BitOf;
    GeometryExact(mode);
    EncodedSize(mode, payload, flush);
    BlockShows(mode, Symbols(mode, payload, flush), Cols(mode), Rows(mode), x, y);
    var k := BlockNumber(Cols(mode), x / 4, y / 4);
    assert Pow2(3) == 8 && Pow2(1) == 2;
    if mode == Base {
      BaseSymbol(payload, flush, k);
    } else {
      HighSymbol(payload, flush, k);
    }
  }

  // ------------------------------------------------------------------ reading any picture

  lemma {:induction false} ReadAtBlock(mode: Mode, threshold: byte, r: Raster, w: nat, h: nat, n: nat, col: nat, row: nat)
    requires HasSize(r, w, h) && col < w / 4 && row < n <= h / 4
    ensures |ReadSymbols(mode, threshold, r, w, h, n)| == n * (w / 4)
    ensures BlockNumber(w / 4, col, row) < n * (w / 4)
    ensures ReadSymbols(mode, threshold, r, w, h, n)[BlockNumber(w / 4, col, row)]
         == SymbolOf(mode, threshold, Sample(r, w, h, col, row))
    decreases n
  {
    hide SymbolOf, Sample;
    var cols := w / 4;
    ReadLength(mode, threshold, r, w, h, n - 1);
    assert n * cols == (n - 1) * cols + cols;
    if row < n - 1 {
      ReadAtBlock(mode, threshold, r, w, h, n - 1, col, row);
    }
  }

  lemma {:induction false} ReadLength(mode: Mode, threshold: byte, r: Raster, w: nat, h: nat, n: nat)
    requires HasSize(r, w, h) && n <= h / 4
    ensures |ReadSymbols(mode, threshold, r, w, h, n)| == n * (w / 4)
  {
    hide SymbolOf, Sample;
    if n > 0 {
      ReadLength(mode, threshold, r, w, h, n - 1);
      assert n * (w / 4) == (n - 1) * (w / 4) + w / 4;
    } else {
      assert 0 * (w / 4) == 0;
    }
  }

  // The bytes of a bit string hold its bits; an incomplete last byte is completed or dropped.
  lemma BytesSpell(bits: seq<bool>, complete: bool)
    ensures |BytesOf(bits, complete)| == (if complete then |bits| + 7 else |bits|) / 8
    ensures if complete then bits <= Bits(8, BytesOf(bits, complete)) else Bits(8, BytesOf(bits, complete)) <= bits
  {
    hide Bits, Digits, Rest, Value;
    RestFrom(8, bits, |Digits(8, bits)|);
    if complete {
      var pad := PackedBits(8, bits, true);
    } else {
      BitsOfDigits(8, bits);
      assert Digits(8, bits) + [] == Digits(8, bits);
    }
  }

  lemma BytesHold(bits: seq<bool>, complete: bool)
    ensures |BytesOf(bits, complete)| == (if complete then |bits| + 7 else |bits|) / 8
    ensures forall i: nat :: i < |bits| && i < 8 * |BytesOf(bits, complete)| ==>
      (bits[i] <==> BitOf(BytesOf(bits, complete), i) == 1)
  {
    hide Bits, BytesOf, BitOf;
    var bytes := BytesOf(bits, complete);
    BytesSpell(bits, complete);
    forall i: nat | i < |bits| && i < 8 * |bytes| ensures bits[i] <==> BitOf(bytes, i) == 1 {
      PayloadBit(bytes, i);
    }
  }

  lemma {:induction false} BitsTimes(k: nat, digits: seq<nat>)
    ensures |Bits(k, digits)| == Times(k, |digits|)
  {
    if digits != [] {
      BitsTimes(k, digits[1..]);
    }
  }

  lemma MiddleSlice(a: seq<bool>, b: seq<bool>, c: seq<bool>)
    ensures (a + (b + c))[|a|..|a| + |b|] == b
  {
  }

  lemma DigitBits(k: nat, digits: seq<nat>, j: nat)
    requires j < |digits|
    ensures Times(k, j) + k <= |Bits(k, digits)|
    ensures Bits(k, digits)[Times(k, j)..Times(k, j) + k] == LowBits(digits[j], k)
  {
    hide LowBits, Bits, Times;
    var before, behind := digits[..j], digits[j + 1..];
    assert digits == before + ([digits[j]] + behind);
    BitsAppend(k, before, [digits[j]] + behind);
    BitsUnfold(k, digits[j], behind);
    BitsTimes(k, before);
    MiddleSlice(Bits(k, before), LowBits(digits[j], k), Bits(k, behind));
  }

  // Every bit is a symbol of its own.
  lemma BaseBits(read: seq<nat>, k: nat)
    requires k < |read| && read[k] < 2
    ensures var bytes := BytesOf(Bits(1, read), true);
      |bytes| == (|read| + 7) / 8 && BitOf(bytes, k) == read[k]
  {
    hide BitOf, BytesOf, Bits;
    BitsLength(1, read);
    BytesHold(Bits(1, read), true);
    TimesValue(k);
    DigitBits(1, read, k);
    OneLowBit(read[k]);
    assert Bits(1, read)[k] == Bits(1, read)[k..k + 1][0];
  }

  lemma OneLowBit(n: nat)
    requires n < 2
    ensures LowBits(n, 1) == [n == 1]
  {
  }

  /** The number that bits 3 k to 3 k + 2 spell. */
  function SymbolBits(bytes: seq<byte>, k: nat): nat {
    BitOf(bytes, 3 * k) + 2 * BitOf(bytes, 3 * k + 1) + 4 * BitOf(bytes, 3 * k + 2)
  }

  lemma HighBits(read: seq<nat>, k: nat)
    requires k < |read| && read[k] < 8
    ensures var bytes := BytesOf(Bits(3, read), false);
      |bytes| == 3 * |read| / 8 && (3 * k + 3 <= 8 * |bytes| ==> SymbolBits(bytes, k) == read[k])
  {
    hide BitOf, BytesOf, Bits;
    var bits := Bits(3, read);
    BitsLength(3, read);
    BytesHold(bits, false);
    TimesValue(k);
    DigitBits(3, read, k);
    ThreeLowBits(read[k]);
    var three := bits[3 * k..3 * k + 3];
    assert three[0] == bits[3 * k] && three[1] == bits[3 * k + 1] && three[2] == bits[3 * k + 2];
  }

  lemma ThreeLowBits(n: nat)
    requires n < 8
    ensures var bits := LowBits(n, 3);
      n == (if bits[0] then 1 else 0) + (if bits[1] then 2 else 0) + (if bits[2] then 4 else 0)
  {
    assert Pow2(3) == 8;
    ValueOfLowBits(n, 3);
    ThreeBits(LowBits(n, 3));
  }

  /** How many blocks a picture has. */
  function BlockCount(w: nat, h: nat): nat {
    h / 4 * (w / 4)
  }

  /** A picture of any size in Base mode: bit k of what is decoded is set exactly if the five points
      of block k add up to more than five times the threshold; the last byte is completed. */
  lemma DecodedBase(threshold: byte, r: Raster, w: nat, h: nat, col: nat, row: nat)
    requires HasSize(r, w, h) && col < w / 4 && row < h / 4
    ensures |DecodeRaster(Base, threshold, r, w, h)| == (BlockCount(w, h) + 7) / 8
    ensures BitOf(DecodeRaster(Base, threshold, r, w, h), BlockNumber(w / 4, col, row)) == 1
       <==> PointSum(r, w, h, col, row) >= 5 * threshold + 5
  {
    hide BitOf, PointSum, Sample, SymbolOf, ReadSymbols, BytesOf, Bits, BlockNumber;
    ReadAtBlock(Base, threshold, r, w, h, h / 4, col, row);
    assert Pow2(1) == 2;
    SampleExact(Base, threshold, r, w, h, col, row, 1);
    BaseBits(ReadSymbols(Base, threshold, r, w, h, h / 4), BlockNumber(w / 4, col, row));
  }

  /** In High mode three bits of what is decoded tell within which range of sums the five points
      are; an incomplete last byte is dropped. */
  lemma DecodedHigh(threshold: byte, r: Raster, w: nat, h: nat, col: nat, row: nat)
    requires HasSize(r, w, h) && col < w / 4 && row < h / 4
    ensures |DecodeRaster(High, threshold, r, w, h)| == 3 * BlockCount(w, h) / 8
    ensures 3 * BlockNumber(w / 4, col, row) + 3 <= 8 * |DecodeRaster(High, threshold, r, w, h)| ==>
      SumReads(High, threshold, SymbolBits(DecodeRaster(High, threshold, r, w, h), BlockNumber(w / 4, col, row)),
               PointSum(r, w, h, col, row))
  {
    hide BitOf, PointSum, Sample, SymbolOf, ReadSymbols, BytesOf, Bits, BlockNumber, SumReads, SymbolBits;
    ReadAtBlock(High, threshold, r, w, h, h / 4, col, row);
    var read, k := ReadSymbols(High, threshold, r, w, h, h / 4), BlockNumber(w / 4, col, row);
    assert Pow2(3) == 8;
    SampleExact(High, threshold, r, w, h, col, row, read[k]);
    HighBits(read, k);
  }
}
