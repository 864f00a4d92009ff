/** The repeats of the last frame that fill a short video up (nexus-daemon/queue.go): what the decoder
    of nexus-core/src/streaming.rs makes of them. */
module VideoPadding {
  import opened Bytes
  import opened Fec
  import F = Frame
  import T = FrameTheorems
  import E = StreamEncoder
  import D = StreamDecoder
  import opened BlockIds
  import opened Delivery
  import opened Shards

  // ------------------------------------------------------------------ bytes that hold no symbol

  ghost predicate NoMarker(s: seq<byte>) {
    forall i: nat :: !D.MarkerAt(s, i)
  }

  /** No marker, nor the beginning of one. */
  ghost predicate Quiet(s: seq<byte>) {
    NoMarker(s) && (s == [] || s[|s| - 1] == 0)
  }

  lemma NoMarkerJoin(a: seq<byte>, b: seq<byte>)
    requires NoMarker(a) && NoMarker(b)
    requires a == [] || b == [] || a[|a| - 1] != MAGIC_N || b[0] != MAGIC_X
    ensures NoMarker(a + b)
  {
    forall i: nat ensures !D.MarkerAt(a + b, i) {
      assert !D.MarkerAt(a, i);
      if i >= |a| {
        assert !D.MarkerAt(b, i - |a|);
      }
    }
  }

  /** Bytes without a marker are skipped, and the symbols behind them are found. */
  lemma ScanBehind(skipped: seq<byte>, symbols: seq<seq<byte>>, padding: nat)
    requires NoMarker(skipped) && SymbolSized(symbols)
    ensures D.Scan(skipped + (Flatten(symbols) + Zeros(padding)))
         == if symbols == [] then D.Scanned([], skipped + Zeros(padding)) else D.Scanned(symbols, Zeros(padding))
  {
    hide D.Scan;
    var behind := Flatten(symbols) + Zeros(padding);
    if symbols == [] {
      assert behind == Zeros(padding);
      NoMarkerJoin(skipped, Zeros(padding));
      D.ScanNoMarker(skipped + Zeros(padding));
    } else {
      assert D.WellFormed(symbols[0]);
      D.ScanAligned(symbols, padding);
      SkipToMarker(skipped, behind);
    }
  }

  lemma SkipToMarker(skipped: seq<byte>, behind: seq<byte>)
    requires NoMarker(skipped) && D.MarkerAt(behind, 0) && |behind| >= FULL_SYMBOL_SIZE
    ensures D.Scan(skipped + behind) == D.Scan(behind)
  {
    hide D.FindMagic;
    var s := skipped + behind;
    forall i: nat | i < |skipped| ensures !D.MarkerAt(s, i) {
      assert !D.MarkerAt(skipped, i);
    }
    D.FindUnique(s, |skipped|);
    D.FindUnique(behind, 0);
    assert s[|skipped|..] == behind && behind[0..] == behind;
  }

  // A frame that starts quietly and repeats symbols of a finished block changes nothing.
  lemma RepeatIgnored(code: Code, st: D.State, piece: seq<byte>, symbols: seq<seq<byte>>, padding: nat)
    requires Quiet(st.raw) && NoMarker(piece) && SymbolSized(symbols) && Sized(symbols)
    requires symbols == [] ==> padding > 0
    requires D.AcceptAll(code, st.table, symbols) == st.table
    ensures var next := D.FeedStep(code, st, piece + (Flatten(symbols) + Zeros(padding)));
      next.table == st.table && Quiet(next.raw)
  {
    hide D.Scan, D.AcceptAll;
    var behind := Flatten(symbols) + Zeros(padding);
    Assoc(st.raw, piece, behind);
    NoMarkerJoin(st.raw, piece);
    NoMarkerJoin(st.raw + piece, Zeros(padding));
    ScanBehind(st.raw + piece, symbols, padding);
    AcceptNone(code, st.table);
  }

  lemma {:induction false} RepeatsIgnored(code: Code, st: D.State, piece: seq<byte>, symbols: seq<seq<byte>>, padding: nat, n: nat)
    requires Quiet(st.raw) && NoMarker(piece) && SymbolSized(symbols) && Sized(symbols)
    requires symbols == [] ==> padding > 0
    requires D.AcceptAll(code, st.table, symbols) == st.table
    ensures var next := D.FeedStep(code, st, Flatten(seq(n, _ => piece + (Flatten(symbols) + Zeros(padding)))));
      next.table == st.table && Quiet(next.raw)
  {
    hide D.FeedStep, D.AcceptAll, Quiet, NoMarker;
    var frame := piece + (Flatten(symbols) + Zeros(padding));
    if n == 0 {
      FeedQuiet(code, st);
    } else {
      var before := seq(n - 1, _ => frame);
      RepeatsIgnored(code, st, piece, symbols, padding, n - 1);
      assert seq(n, _ => frame) == before + [frame];
      FlattenSnoc(before, frame);
      D.FeedMerges(code, st, Flatten(before), frame);
      RepeatIgnored(code, D.FeedStep(code, st, Flatten(before)), piece, symbols, padding);
    }
  }

  lemma FeedQuiet(code: Code, st: D.State)
    requires Quiet(st.raw)
    ensures D.FeedStep(code, st, []) == st
  {
    assert st.raw + [] == st.raw;
    D.ScanNoMarker(st.raw);
  }

  // ------------------------------------------------------------------ the newest block

  /** After a whole number of blocks all tracked blocks are decoded, the newest among them. */
  lemma {:induction false} NewestTracked(code: Code, blocks: seq<seq<byte>>, n: nat)
    requires ValidCode(code) && Blocks(blocks) && n <= |blocks|
    ensures SymbolSized(StreamSymbols(code, 0, blocks[..n]))
    ensures var t := TableAfter(code, blocks, n);
      AllDecoded(t) && (n > 0 ==> IdOf(n - 1) in t.blocks)
  {
    hide ValidCode, StreamSymbols, SymbolSized, TableAfter, IdOf;
    StreamWellFormed(code, 0, blocks[..n]);
    if n == 0 {
      EmptyTable(code, blocks);
    } else {
      NewestTracked(code, blocks, n - 1);
      TableStep(code, blocks, n - 1);
    }
  }

  lemma {:induction false} FinishedIgnored(code: Code, t: D.Table, b: u32, symbols: seq<seq<byte>>)
    requires AllDecoded(t) && b in t.blocks && Sized(symbols)
    requires forall i :: 0 <= i < |symbols| ==> SymbolBlock(symbols[i]) == b
    ensures D.AcceptAll(code, t, symbols) == t
  {
    hide AllDecoded, SymbolBlock, SymbolPacket, D.Accept;
    if symbols != [] {
      DecodedStays(code, t, b, SymbolPacket(symbols[0]));
      FinishedIgnored(code, t, b, symbols[1..]);
    }
  }

  // Less than a block before its end, a stream holds symbols of the newest block only.
  lemma NewestSymbols(code: Code, blocks: seq<seq<byte>>, j: nat)
    requires ValidCode(code) && Blocks(blocks) && blocks != []
    requires j <= |StreamSymbols(code, 0, blocks)| <= j + FEC_SYMBOLS
    ensures SymbolSized(StreamSymbols(code, 0, blocks)) && Sized(StreamSymbols(code, 0, blocks))
    ensures var symbols := StreamSymbols(code, 0, blocks);
      var t := D.AcceptAll(code, D.Table(map[], []), symbols);
      Sized(symbols[j..]) && D.AcceptAll(code, t, symbols[j..]) == t
  {
    hide ValidCode, StreamSymbols, BlockSymbols, D.AcceptAll, SymbolBlock, IdOf, D.WellFormed, AllDecoded;
    var n, symbols := |blocks|, StreamSymbols(code, 0, blocks);
    assert blocks[..n] == blocks && blocks[..n - 1 + 1] == blocks;
    NewestTracked(code, blocks, n);
    SizedWhenWellFormed(symbols);
    StreamSnoc(code, blocks, n - 1);
    SymbolsWellFormed(code, IdOf(n - 1), blocks[n - 1]);
    var before, last := StreamSymbols(code, 0, blocks[..n - 1]), BlockSymbols(code, IdOf(n - 1), blocks[n - 1]);
    assert symbols == before + last;
    assert symbols[j..] == last[j - |before|..];
    FinishedIgnored(code, TableAfter(code, blocks, n), IdOf(n - 1), symbols[j..]);
  }

  // ------------------------------------------------------------------ the last frame

  /** Where the last frame of a stream begins, counted in bytes of the stream. */
  function LastStart(mode: F.Mode, stream: seq<byte>): (start: nat)
    requires stream != []
    ensures start < |stream|
    ensures start + E.Capacity(mode) == |Padded(E.Capacity(mode), stream)|
  {
    var n := E.Capacity(mode);
    hide FullChunks, Rest, E.Capacity;
    PaddedChunks(n, stream);
    ChunksHaveLength(n, Padded(n, stream));
    ChunksHaveLength(n, stream);
    AtLeastOneChunk(n, stream);
    |Padded(n, stream)| - n
  }

  lemma AtLeastOneChunk(n: nat, s: seq<byte>)
    requires n > 0 && s != []
    ensures |Padded(n, s)| >= n && |Padded(n, s)| < |s| + n
  {
  }

  /** The rest of a symbol with which the last frame begins. */
  function CutPiece(mode: F.Mode, stream: seq<byte>): seq<byte>
    requires stream != []
  {
    var start := LastStart(mode, stream);
    stream[start..F.Min(NextSymbol(start), |stream|)]
  }

  function NextSymbol(start: nat): (next: nat)
    ensures start <= next < start + FULL_SYMBOL_SIZE && next % FULL_SYMBOL_SIZE == 0
  {
    start + (FULL_SYMBOL_SIZE - start % FULL_SYMBOL_SIZE) % FULL_SYMBOL_SIZE
  }

  // The last of several chunks.
  lemma LastChunk(n: nat, s: seq<byte>)
    requires n > 0 && |s| >= n && Rest(n, s) == []
    ensures FullChunks(n, s) != [] && FullChunks(n, s)[|FullChunks(n, s)| - 1] == s[|s| - n..]
  {
    var chunks := FullChunks(n, s);
    hide FullChunks, Rest;
    ChunksConserve(n, s);
    ChunksHaveLength(n, s);
    if chunks != [] {
      var before, last := chunks[..|chunks| - 1], chunks[|chunks| - 1];
      assert chunks == before + [last];
      FlattenSnoc(before, last);
      assert s == Flatten(before) + last;
    }
  }

  /** The last frame of a stream of symbols carries a piece of one, whole ones, and zeros. */
  lemma LastPayload(mode: F.Mode, symbols: seq<seq<byte>>) returns (j: nat)
    requires SymbolSized(symbols) && symbols != []
    ensures Flatten(symbols) != []
    ensures j <= |symbols| <= j + FEC_SYMBOLS
    ensures
      var n, stream := E.Capacity(mode), Flatten(symbols);
      var payloads := FullChunks(n, Padded(n, stream));
      && payloads != []
      && payloads[|payloads| - 1] == CutPiece(mode, stream) + (Flatten(symbols[j..]) + Zeros(Padding(n, stream)))
      && (symbols[j..] == [] ==> Padding(n, stream) > 0)
  {
    hide E.Capacity, FullChunks, Padding, CutPiece, LastStart, SymbolSized;
    var n, stream := E.Capacity(mode), Flatten(symbols);
    CapacityRange(mode);
    SymbolsLength(symbols);
    var start := LastStart(mode, stream);
    j := SymbolsBefore(start, n, |symbols|, Padding(n, stream));
    PieceIs(mode, stream, j);
    LastFrom(mode, stream);
    CutAtSymbol(symbols, start, j, Zeros(Padding(n, stream)));
  }

  lemma PieceIs(mode: F.Mode, stream: seq<byte>, j: nat)
    requires stream != [] && NextSymbol(LastStart(mode, stream)) == FULL_SYMBOL_SIZE * j <= |stream|
    ensures CutPiece(mode, stream) == stream[LastStart(mode, stream)..FULL_SYMBOL_SIZE * j]
  {
  }

  lemma LastFrom(mode: F.Mode, stream: seq<byte>)
    requires stream != []
    ensures
      var n := E.Capacity(mode);
      var payloads := FullChunks(n, Padded(n, stream));
      payloads != [] && payloads[|payloads| - 1] == (stream + Zeros(Padding(n, stream)))[LastStart(mode, stream)..]
  {
    hide E.Capacity, FullChunks, Rest, Padding;
    var n, start := E.Capacity(mode), LastStart(mode, stream);
    PaddedChunks(n, stream);
    LastChunk(n, Padded(n, stream));
    assert |Padded(n, stream)| - n == start;
  }

  lemma SymbolsBefore(start: nat, n: nat, count: nat, padding: nat) returns (j: nat)
    requires start + n == FULL_SYMBOL_SIZE * count + padding && start < FULL_SYMBOL_SIZE * count
    requires FULL_SYMBOL_SIZE < n <= FEC_SYMBOLS * FULL_SYMBOL_SIZE
    ensures NextSymbol(start) == FULL_SYMBOL_SIZE * j && j <= count <= j + FEC_SYMBOLS
    ensures j == count ==> padding > 0
  {
    j := NextSymbol(start) / FULL_SYMBOL_SIZE;
  }

  lemma SymbolsLength(symbols: seq<seq<byte>>)
    requires SymbolSized(symbols)
    ensures |Flatten(symbols)| == FULL_SYMBOL_SIZE * |symbols|
  {
    FlattenLength(symbols, FULL_SYMBOL_SIZE);
  }

  lemma CutAtSymbol(symbols: seq<seq<byte>>, start: nat, j: nat, behind: seq<byte>)
    requires SymbolSized(symbols) && j <= |symbols| && start <= FULL_SYMBOL_SIZE * j
    ensures |Flatten(symbols)| >= FULL_SYMBOL_SIZE * j
    ensures (Flatten(symbols) + behind)[start..]
         == Flatten(symbols)[start..FULL_SYMBOL_SIZE * j] + (Flatten(symbols[j..]) + behind)
  {
    hide D.WellFormed;
    assert symbols == symbols[..j] + symbols[j..];
    FlattenAppend(symbols[..j], symbols[j..]);
    SymbolsLength(symbols[..j]);
  }

  lemma CapacityRange(mode: F.Mode)
    ensures FULL_SYMBOL_SIZE < E.Capacity(mode) <= FEC_SYMBOLS * FULL_SYMBOL_SIZE
  {
    F.GeometryExact(mode);
  }

  // ------------------------------------------------------------------ padded videos

  /** The stream's last frame begins with no marker before its first whole symbol. */
  ghost predicate StartsQuietly(code: Code, mode: F.Mode, data: seq<byte>) {
    var stream := SymbolStream(code, data);
    stream != [] ==> NoMarker(CutPiece(mode, stream))
  }

  /** Feeding the last frame again any number of times changes no more than the bytes kept for the
      next symbol. */
  lemma LastFrameRepeated(code: Code, mode: F.Mode, data: seq<byte>, n: nat)
    requires ValidCode(code) && SourceBlocks(data) != [] && StartsQuietly(code, mode, data)
    ensures var payloads := Payloads(code, mode, data);
      && payloads != []
      && var once := D.FeedStep(code, D.FRESH, Flatten(payloads));
         D.FeedStep(code, once, Flatten(seq(n, _ => payloads[|payloads| - 1]))).table == once.table
  {
    hide ValidCode, StreamSymbols, FullChunks, Rest, E.Capacity, D.AcceptAll, D.FeedStep, NoMarker, Padding, D.WellFormed, CutPiece;
    var blocks, payloads := SourceBlocks(data), Payloads(code, mode, data);
    var symbols := StreamSymbols(code, 0, blocks);
    BlocksOf(data);
    assert blocks[..|blocks|] == blocks;
    NewestTracked(code, blocks, |blocks|);
    SomeSymbols(code, blocks);
    var j := LastPayload(mode, symbols);
    NewestSymbols(code, blocks, j);
    var padding := Padding(E.Capacity(mode), SymbolStream(code, data));
    var once := D.FeedStep(code, D.FRESH, Flatten(payloads));
    FedOnce(code, mode, data);
    RepeatsIgnored(code, once, CutPiece(mode, SymbolStream(code, data)), symbols[j..], padding, n);
  }

  lemma BlocksOf(data: seq<byte>)
    ensures Blocks(SourceBlocks(data))
  {
    ChunksHaveLength(FEC_BLOCK_SIZE, Padded(FEC_BLOCK_SIZE, data));
  }

  lemma SomeSymbols(code: Code, blocks: seq<seq<byte>>)
    requires ValidCode(code) && Blocks(blocks) && blocks != []
    ensures StreamSymbols(code, 0, blocks) != []
  {
    hide ValidCode, BlockSymbols;
    SymbolsWellFormed(code, 0, blocks[0]);
  }

  // All frames once: the symbols have been taken, and the zeros behind them wait.
  lemma FedOnce(code: Code, mode: F.Mode, data: seq<byte>)
    requires ValidCode(code)
    ensures SymbolSized(StreamSymbols(code, 0, SourceBlocks(data))) && Sized(StreamSymbols(code, 0, SourceBlocks(data)))
    ensures var once := D.FeedStep(code, D.FRESH, Flatten(Payloads(code, mode, data)));
      && Quiet(once.raw)
      && once.table == D.AcceptAll(code, D.Table(map[], []), StreamSymbols(code, 0, SourceBlocks(data)))
  {
    hide ValidCode, StreamSymbols, FullChunks, Rest, E.Capacity, D.AcceptAll, D.Scan, Padding, D.WellFormed;
    var blocks, stream, n := SourceBlocks(data), SymbolStream(code, data), E.Capacity(mode);
    BlocksOf(data);
    StreamWellFormed(code, 0, blocks);
    SizedWhenWellFormed(StreamSymbols(code, 0, blocks));
    PaddedChunks(n, stream);
    D.ScanAligned(StreamSymbols(code, 0, blocks), Padding(n, stream));
    assert [] + Padded(n, stream) == Padded(n, stream);
  }

  /** A short video, filled up with repeats of its last frame and disturbed within what frames survive,
      decodes to exactly the padded data, up to the block limit, if its last frame starts quietly. */
  lemma PaddedVideoDecodes(code: Code, mode: F.Mode, data: seq<byte>, received: seq<seq<byte>>)
    requires ValidCode(code) && StartsQuietly(code, mode, data)
    requires Arrived(mode, PadFrames(SentFrames(code, mode, data)), received)
    requires |received| == |PadFrames(SentFrames(code, mode, data))|
    ensures FeedAll(code, mode, received).table.output == Padded(FEC_BLOCK_SIZE, data)
       <==> |SourceBlocks(data)| <= MAX_BLOCKS
  {
    hide ValidCode, StartsQuietly, SentFrames, FeedAll, PadFrames, SourceBlocks, Padded;
    var sent := SentFrames(code, mode, data);
    PadKeeps(mode, sent, received);
    PadsExactly(sent);
    RepeatsAddNothing(code, mode, data, received);
    Delivered(code, mode, data, received[..|sent|]);
  }

  lemma RepeatsAddNothing(code: Code, mode: F.Mode, data: seq<byte>, received: seq<seq<byte>>)
    requires ValidCode(code) && StartsQuietly(code, mode, data)
    requires Arrived(mode, PadFrames(SentFrames(code, mode, data)), received)
    requires |received| == |PadFrames(SentFrames(code, mode, data))|
    ensures |SentFrames(code, mode, data)| <= |received|
    ensures FeedAll(code, mode, received).table == FeedAll(code, mode, received[..|SentFrames(code, mode, data)|]).table
  {
    hide ValidCode, StartsQuietly, FeedAll, T.FrameSurvives, F.EncodeFrame, FullChunks, Rest, E.Capacity, Payloads, D.FeedStep;
    var payloads := Payloads(code, mode, data);
    if payloads == [] || |payloads| >= MIN_FRAMES {
      assert received[..|payloads|] == received;
    } else {
      var k, n := |payloads|, MIN_FRAMES - |payloads|;
      var repeats := seq(n, _ => payloads[k - 1]);
      var once := D.FeedStep(code, D.FRESH, Flatten(payloads));
      PayloadSizes(code, mode, data);
      assert E.Draw(mode, payloads + repeats) == PadFrames(E.Draw(mode, payloads));
      FeedsPayloads(code, mode, payloads + repeats, received);
      FeedsPayloads(code, mode, payloads, received[..k]);
      FlattenAppend(payloads, repeats);
      D.FeedMerges(code, D.FRESH, Flatten(payloads), Flatten(repeats));
      LastFrameRepeated(code, mode, data, n);
    }
  }

  lemma PayloadSizes(code: Code, mode: F.Mode, data: seq<byte>)
    ensures forall i :: 0 <= i < |Payloads(code, mode, data)| ==> |Payloads(code, mode, data)[i]| == E.Capacity(mode)
    ensures Payloads(code, mode, data) != [] ==> SourceBlocks(data) != []
  {
    hide E.Capacity, SourceBlocks;
    var n, stream := E.Capacity(mode), SymbolStream(code, data);
    ChunksHaveLength(n, Padded(n, stream));
    if SourceBlocks(data) == [] {
      assert stream == [];
    }
  }
}
