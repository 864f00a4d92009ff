/** Loss on the wire: what a StreamingDecoder makes of bytes from which whole symbols are missing,
    and when a download with lost symbols still recovers the plaintext. */
module Loss {
  import opened Bytes
  import opened Fec
  import F = Frame
  import C = CryptoStream
  import ST = StreamTheorems
  import D = StreamDecoder
  import P = Pipeline
  import opened BlockIds
  import opened DecoderTheorems
  import opened Delivery

  // ------------------------------------------------------------------ symbols as arrivals

  function Arrivals(symbols: seq<seq<byte>>): (r: seq<Arrival>)
    requires forall i :: 0 <= i < |symbols| ==> |symbols[i]| == FULL_SYMBOL_SIZE
    ensures |r| == |symbols|
  {
    seq(|symbols|, i requires 0 <= i < |symbols| => Arrival(SymbolBlock(symbols[i]), SymbolPacket(symbols[i])))
  }

  lemma {:induction false} AcceptAllIsRun(code: Code, symbols: seq<seq<byte>>)
    requires forall i :: 0 <= i < |symbols| ==> |symbols[i]| == FULL_SYMBOL_SIZE
    ensures D.AcceptAll(code, D.Table(map[], []), symbols) == Run(code, Arrivals(symbols))
    decreases |symbols|
  {
    hide D.Accept, SymbolBlock, SymbolPacket;
    if symbols != [] {
      var n := |symbols| - 1;
      var before, last := symbols[..n], [symbols[n]];
      assert symbols == before + last;
      AcceptAllIsRun(code, before);
      D.AcceptAppend(code, D.Table(map[], []), before, last);
      var t := D.AcceptAll(code, D.Table(map[], []), before);
      assert D.AcceptAll(code, t, last) == D.Accept(code, t, SymbolBlock(symbols[n]), SymbolPacket(symbols[n])) by {
        var t' := D.Accept(code, t, SymbolBlock(symbols[n]), SymbolPacket(symbols[n]));
        assert last[1..] == [];
        assert D.AcceptAll(code, t', []) == t';
      }
      assert Arrivals(symbols)[..n] == Arrivals(before);
    }
  }

  ghost predicate AllWellFormed(symbols: seq<seq<byte>>) {
    forall i :: 0 <= i < |symbols| ==> D.WellFormed(symbols[i])
  }

  /** Whole symbols with zero padding behind them reach the block table as they are. */
  lemma BytesArrive(code: Code, symbols: seq<seq<byte>>, padding: nat)
    requires AllWellFormed(symbols)
    ensures D.FeedStep(code, D.FRESH, Flatten(symbols) + Zeros(padding)).table == Run(code, Arrivals(symbols))
  {
    hide Run, D.AcceptAll, D.Scan;
    var bytes := Flatten(symbols) + Zeros(padding);
    assert [] + bytes == bytes;
    D.ScanAligned(symbols, padding);
    AcceptAllIsRun(code, symbols);
  }

  /** For any loss, repetition and reordering of genuine symbols in which none comes far behind a
      decoded block, the bytes put out are the contents of distinct blocks, those that are decodable. */
  lemma BytesPutOutOnce(code: Code, content: u32 -> seq<byte>, symbols: seq<seq<byte>>, padding: nat) returns (blocks: seq<u32>)
    requires ValidCode(code) && AllWellFormed(symbols)
    requires GenuineArrivals(code, content, Arrivals(symbols)) && SafeOrder(code, Arrivals(symbols))
    ensures D.FeedStep(code, D.FRESH, Flatten(symbols) + Zeros(padding)).table.output == Contents(content, blocks)
    ensures Distinct(blocks)
    ensures forall b: u32 :: b in blocks <==> code.decodable(Ids(History(Arrivals(symbols), b)))
  {
    hide ValidCode, GenuineArrivals, SafeOrder, History, D.FeedStep, Arrivals;
    BytesArrive(code, symbols, padding);
    blocks := PutOutOnce(code, content, Arrivals(symbols));
  }

  /** Symbols of blocks that have been put out add nothing when they arrive again. */
  lemma ReplayedBytes(code: Code, content: u32 -> seq<byte>, symbols: seq<seq<byte>>, replay: seq<seq<byte>>, padding: nat)
    requires ValidCode(code) && AllWellFormed(symbols) && AllWellFormed(replay)
    requires GenuineArrivals(code, content, Arrivals(symbols) + Arrivals(replay))
    requires SafeOrder(code, Arrivals(symbols) + Arrivals(replay))
    requires forall a :: a in Arrivals(replay) ==> code.decodable(Ids(History(Arrivals(symbols), a.block)))
    ensures D.FeedStep(code, D.FRESH, Flatten(symbols + replay) + Zeros(padding)).table.output
         == D.FeedStep(code, D.FRESH, Flatten(symbols) + Zeros(padding)).table.output
  {
    hide ValidCode, GenuineArrivals, SafeOrder, History, D.FeedStep, Run;
    ArrivalsAppend(symbols, replay);
    BytesArrive(code, symbols, padding);
    BytesArrive(code, symbols + replay, padding);
    forall a | a in Arrivals(replay) ensures a.block in Emitted(code, Arrivals(symbols)) {
      EmittedExactly(code, Arrivals(symbols), a.block);
    }
    ReplayAddsNothing(code, content, Arrivals(symbols), Arrivals(replay));
  }

  lemma ArrivalsAppend(a: seq<seq<byte>>, b: seq<seq<byte>>)
    requires AllWellFormed(a) && AllWellFormed(b)
    ensures AllWellFormed(a + b) && Arrivals(a + b) == Arrivals(a) + Arrivals(b)
  {
    hide SymbolBlock, SymbolPacket;
  }

  /** In order, the first n blocks come out whole if and only if the symbols kept of each suffice;
      otherwise at least one is missing. */
  lemma LossyBytes(code: Code, content: u32 -> seq<byte>, kept: seq<seq<byte>>, padding: nat, n: nat)
    requires ValidCode(code) && AllWellFormed(kept) && n <= IDS
    requires GenuineArrivals(code, content, Arrivals(kept)) && InOrder(Arrivals(kept))
    requires forall a :: a in Arrivals(kept) ==> a.block < n
    ensures var output := D.FeedStep(code, D.FRESH, Flatten(kept) + Zeros(padding)).table.output;
      && (output == Contents(content, FirstBlocks(n)) <==> AllDecodable(code, Arrivals(kept), n))
      && (!AllDecodable(code, Arrivals(kept), n) ==> |output| <= FEC_BLOCK_SIZE * (n - 1))
  {
    hide ValidCode, GenuineArrivals, InOrder, AllDecodable, D.FeedStep;
    BytesArrive(code, kept, padding);
    LossyInOrder(code, content, Arrivals(kept), n);
  }

  /** While those symbols are scanned, with every block that arrives decodable, the decoder never
      tracks more than eleven blocks. */
  lemma LossyMemory(code: Code, content: u32 -> seq<byte>, kept: seq<seq<byte>>, k: nat)
    requires ValidCode(code) && AllWellFormed(kept) && k <= |kept|
    requires GenuineArrivals(code, content, Arrivals(kept)) && InOrder(Arrivals(kept))
    requires forall a :: a in Arrivals(kept) ==> code.decodable(Ids(History(Arrivals(kept), a.block)))
    ensures |D.FeedStep(code, D.FRESH, Flatten(kept[..k])).table.blocks| <= 11
  {
    hide ValidCode, GenuineArrivals, InOrder, History, D.FeedStep;
    AtMostElevenTracked(code, content, Arrivals(kept), k);
    assert Arrivals(kept)[..k] == Arrivals(kept[..k]);
    assert Flatten(kept[..k]) + Zeros(0) == Flatten(kept[..k]);
    BytesArrive(code, kept[..k], 0);
  }

  // ------------------------------------------------------------------ dropping symbols of a stream

  function ContentOf(blocks: seq<seq<byte>>): u32 -> seq<byte> {
    (b: u32) => if b < |blocks| then blocks[b] else Zeros(FEC_BLOCK_SIZE)
  }

  /** A genuine symbol of one of the blocks numbered from `start` on. */
  ghost predicate FromBlocks(code: Code, start: nat, blocks: seq<seq<byte>>, symbol: seq<byte>) {
    && D.WellFormed(symbol)
    && start <= SymbolBlock(symbol) < start + |blocks|
    && Genuine(code, blocks[SymbolBlock(symbol) - start], SymbolPacket(symbol))
  }

  ghost predicate AllFrom(code: Code, start: nat, blocks: seq<seq<byte>>, symbols: seq<seq<byte>>) {
    forall i :: 0 <= i < |symbols| ==> FromBlocks(code, start, blocks, symbols[i])
  }

  ghost predicate Ordered(symbols: seq<seq<byte>>)
    requires AllWellFormed(symbols)
  {
    forall i, j :: 0 <= i < j < |symbols| ==> SymbolBlock(symbols[i]) <= SymbolBlock(symbols[j])
  }

  /** The symbols whose flag is set; symbols without a flag are lost too. */
  function Keep(symbols: seq<seq<byte>>, flags: seq<bool>): seq<seq<byte>> {
    if symbols == [] || flags == [] then []
    else (if flags[0] then [symbols[0]] else []) + Keep(symbols[1..], flags[1..])
  }

  lemma {:induction false} KeepSubset(code: Code, start: nat, blocks: seq<seq<byte>>, symbols: seq<seq<byte>>, flags: seq<bool>)
    requires AllFrom(code, start, blocks, symbols)
    ensures AllFrom(code, start, blocks, Keep(symbols, flags))
  {
    hide FromBlocks;
    if symbols != [] && flags != [] {
      KeepSubset(code, start, blocks, symbols[1..], flags[1..]);
    }
  }

  // No kept symbol belongs to an earlier block than `low`.
  lemma {:induction false} KeepOrdered(symbols: seq<seq<byte>>, flags: seq<bool>, low: nat)
    requires AllWellFormed(symbols) && Ordered(symbols)
    requires forall i :: 0 <= i < |symbols| ==> low <= SymbolBlock(symbols[i])
    ensures AllWellFormed(Keep(symbols, flags)) && Ordered(Keep(symbols, flags))
    ensures forall i :: 0 <= i < |Keep(symbols, flags)| ==> low <= SymbolBlock(Keep(symbols, flags)[i])
  {
    hide SymbolBlock;
    if symbols != [] && flags != [] {
      var first := SymbolBlock(symbols[0]);
      KeepOrdered(symbols[1..], flags[1..], first);
    }
  }

  lemma BlockFrom(code: Code, start: u32, block: seq<byte>)
    requires ValidCode(code) && |block| == FEC_BLOCK_SIZE
    ensures var symbols := BlockSymbols(code, start, block);
      && AllFrom(code, start, [block], symbols) && AllWellFormed(symbols) && Ordered(symbols)
      && forall i :: 0 <= i < |symbols| ==> SymbolBlock(symbols[i]) == start
  {
    SymbolsWellFormed(code, start, block);
    hide ValidCode, BlockSymbols, SymbolBlock, SymbolPacket, D.WellFormed;
  }

  lemma JoinFrom(code: Code, start: u32, block: seq<byte>, later: seq<seq<byte>>, x: seq<seq<byte>>, y: seq<seq<byte>>)
    requires AllFrom(code, start, [block], x) && AllFrom(code, start + 1, later, y)
    requires AllWellFormed(x) && AllWellFormed(y) && Ordered(y)
    requires forall i :: 0 <= i < |x| ==> SymbolBlock(x[i]) == start
    ensures AllFrom(code, start, [block] + later, x + y) && AllWellFormed(x + y) && Ordered(x + y)
  {
    hide SymbolBlock, SymbolPacket, Genuine;
    forall i | 0 <= i < |x + y| ensures FromBlocks(code, start, [block] + later, (x + y)[i]) {
      if i < |x| {
        assert FromBlocks(code, start, [block], x[i]);
      } else {
        assert FromBlocks(code, start + 1, later, y[i - |x|]);
      }
    }
    forall i | 0 <= i < |y| ensures start < SymbolBlock(y[i]) {
      assert FromBlocks(code, start + 1, later, y[i]);
    }
  }

  lemma {:induction false} StreamFrom(code: Code, start: nat, blocks: seq<seq<byte>>)
    requires ValidCode(code) && Blocks(blocks) && start < IDS && start + |blocks| <= IDS
    ensures var symbols := StreamSymbols(code, start, blocks);
      AllFrom(code, start, blocks, symbols) && AllWellFormed(symbols) && Ordered(symbols)
    decreases |blocks|
  {
    hide ValidCode, BlockSymbols, AllFrom, AllWellFormed, Ordered;
    if blocks == [] {
      NoSymbols(code, start);
    } else if |blocks| == 1 {
      BlockFrom(code, start, blocks[0]);
      LastBlockSymbols(code, start, blocks[0]);
      assert blocks == [blocks[0]];
    } else {
      BlockFrom(code, start, blocks[0]);
      StreamFrom(code, start + 1, blocks[1..]);
      assert blocks == [blocks[0]] + blocks[1..];
      JoinFrom(code, start, blocks[0], blocks[1..], BlockSymbols(code, start, blocks[0]), StreamSymbols(code, start + 1, blocks[1..]));
    }
  }

  lemma NoSymbols(code: Code, start: nat)
    ensures AllFrom(code, start, [], []) && AllWellFormed([]) && Ordered([])
  {
  }

  // Kept symbols as arrivals.
  lemma KeptArrive(code: Code, blocks: seq<seq<byte>>, kept: seq<seq<byte>>)
    requires Blocks(blocks) && AllFrom(code, 0, blocks, kept) && AllWellFormed(kept) && Ordered(kept)
    ensures GenuineArrivals(code, ContentOf(blocks), Arrivals(kept)) && InOrder(Arrivals(kept))
    ensures forall a :: a in Arrivals(kept) ==> a.block < |blocks|
  {
    hide SymbolBlock, SymbolPacket, Genuine;
    var arrivals := Arrivals(kept);
    forall b: u32 ensures |ContentOf(blocks)(b)| == FEC_BLOCK_SIZE {
      assert b < |blocks| ==> ContentOf(blocks)(b) == blocks[b];
      assert b >= |blocks| ==> ContentOf(blocks)(b) == Zeros(FEC_BLOCK_SIZE);
    }
    forall a | a in arrivals ensures a.block < |blocks| && Genuine(code, ContentOf(blocks)(a.block), a.packet) {
      var i :| 0 <= i < |arrivals| && arrivals[i] == a;
      assert FromBlocks(code, 0, blocks, kept[i]);
    }
  }

  lemma {:induction false} ContentFlatten(blocks: seq<seq<byte>>, n: nat)
    requires n <= |blocks| <= IDS
    ensures Contents(ContentOf(blocks), FirstBlocks(n)) == Flatten(blocks[..n])
  {
    if n > 0 {
      ContentFlatten(blocks, n - 1);
      assert FirstBlocks(n)[..n - 1] == FirstBlocks(n - 1);
      assert blocks[..n] == blocks[..n - 1] + [blocks[n - 1]];
      FlattenSnoc(blocks[..n - 1], blocks[n - 1]);
    }
  }

  /** Of a stream of blocks any symbols may be lost: all blocks come out, in order, if and only if
      what is kept of each suffices. */
  lemma LossyStream(code: Code, blocks: seq<seq<byte>>, flags: seq<bool>, padding: nat)
    requires ValidCode(code) && Blocks(blocks) && |blocks| <= IDS
    ensures var kept := Keep(StreamSymbols(code, 0, blocks), flags);
      && AllWellFormed(kept)
      && var output := D.FeedStep(code, D.FRESH, Flatten(kept) + Zeros(padding)).table.output;
         && (output == Flatten(blocks) <==> AllDecodable(code, Arrivals(kept), |blocks|))
         && (!AllDecodable(code, Arrivals(kept), |blocks|) ==> |output| <= FEC_BLOCK_SIZE * (|blocks| - 1))
  {
    hide ValidCode, StreamSymbols, SymbolBlock, SymbolPacket, D.WellFormed, AllFrom, GenuineArrivals, InOrder, AllDecodable, D.FeedStep;
    var symbols := StreamSymbols(code, 0, blocks);
    var kept := Keep(symbols, flags);
    StreamFrom(code, 0, blocks);
    KeepSubset(code, 0, blocks, symbols, flags);
    KeepOrdered(symbols, flags, 0);
    KeptArrive(code, blocks, kept);
    LossyBytes(code, ContentOf(blocks), kept, padding, |blocks|);
    ContentFlatten(blocks, |blocks|);
    assert blocks[..|blocks|] == blocks;
  }

  // ------------------------------------------------------------------ a download with lost symbols

  ghost predicate FrameSized(mode: F.Mode, frames: seq<seq<byte>>) {
    forall i :: 0 <= i < |frames| ==> |frames[i]| == F.Width(mode) * F.Height(mode)
  }

  /** The decoder's state depends only on the bytes its frames carry. */
  lemma {:induction false} FramesAreBytes(code: Code, mode: F.Mode, frames: seq<seq<byte>>)
    requires FrameSized(mode, frames)
    ensures FeedAll(code, mode, frames) == D.FeedStep(code, D.FRESH, Flatten(DecodeAll(mode, frames)))
    decreases |frames|
  {
    hide F.DecodeFrame, D.FeedStep;
    if frames == [] {
      FeedNothing(code);
    } else {
      var n := |frames| - 1;
      FramesAreBytes(code, mode, frames[..n]);
      assert DecodeAll(mode, frames) == DecodeAll(mode, frames[..n]) + [F.DecodeFrame(mode, frames[n])];
      FlattenSnoc(DecodeAll(mode, frames[..n]), F.DecodeFrame(mode, frames[n]));
      D.FeedMerges(code, D.FRESH, Flatten(DecodeAll(mode, frames[..n])), F.DecodeFrame(mode, frames[n]));
    }
  }

  /** The whole pipeline with loss: if the frames that arrive carry the upload's symbols without
      some of them, the download recovers the plaintext if and only if the symbols kept of every
      block are decodable. */
  lemma LossyDownload(a: C.Aead, code: Code, mode: F.Mode, prefix: seq<byte>, written: seq<byte>,
                      flags: seq<bool>, padding: nat, received: seq<seq<byte>>)
    requires |ST.Messages(written, [])| <= C.TWO_63 && ST.IdealAead(a, prefix, ST.Messages(written, []))
    requires ValidCode(code) && |prefix| == C.STREAM_PREFIX_LEN
    requires |SourceBlocks(P.Upload(a, prefix, written))| <= IDS
    requires FrameSized(mode, received)
    requires
      var kept := Keep(StreamSymbols(code, 0, SourceBlocks(P.Upload(a, prefix, written))), flags);
      AllWellFormed(kept) && Flatten(DecodeAll(mode, received)) == Flatten(kept) + Zeros(padding)
    ensures
      var blocks := SourceBlocks(P.Upload(a, prefix, written));
      P.DownloadSpec(a, FeedAll(code, mode, received).table.output) == P.Recovered(written)
      <==> AllDecodable(code, Arrivals(Keep(StreamSymbols(code, 0, blocks), flags)), |blocks|)
  {
    hide ST.IdealAead, ValidCode, StreamSymbols, Keep, AllDecodable, FeedAll, D.FeedStep, DecodeAll, P.Upload, SourceBlocks, ST.Messages;
    hide P.DownloadSpec, AllWellFormed, FullChunks, Rest;
    var data := P.Upload(a, prefix, written);
    var blocks := SourceBlocks(data);
    SourceBlocksAre(data);
    LossyStream(code, blocks, flags, padding);
    FramesAreBytes(code, mode, received);
    P.DownloadNeedsAll(a, prefix, written, FeedAll(code, mode, received).table.output);
  }

  lemma SourceBlocksAre(data: seq<byte>)
    ensures Blocks(SourceBlocks(data)) && Flatten(SourceBlocks(data)) == Padded(FEC_BLOCK_SIZE, data)
  {
    PaddedChunks(FEC_BLOCK_SIZE, data);
    ChunksHaveLength(FEC_BLOCK_SIZE, Padded(FEC_BLOCK_SIZE, data));
  }
}
