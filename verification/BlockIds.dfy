/** How far the 32-bit block id of nexus-core/src/streaming.rs carries: the decoder's table over a
    complete stream, before and after the id wraps around. */
module BlockIds {
  import opened Bytes
  import opened Fec
  import D = StreamDecoder

  const IDS: nat := 0x1_0000_0000

  /** 2^33 - 6 blocks: the six ids in the table when the id first wraps are never forgotten. */
  const MAX_BLOCKS: nat := 0x1_FFFF_FFFA

  ghost predicate Blocks(blocks: seq<seq<byte>>) {
    forall i :: 0 <= i < |blocks| ==> |blocks[i]| == FEC_BLOCK_SIZE
  }

  ghost predicate AllDecoded(t: D.Table) {
    forall b :: b in t.blocks ==> t.blocks[b].isDecoded
  }

  // ------------------------------------------------------------------ one block

  /** The ids tracked after block b has been decoded. */
  function KeysAfter(keys: set<u32>, b: u32): set<u32> {
    var all := keys + {b};
    if |all| > D.MAX_TRACKED then set x | x in all && x >= D.SaturatingSub(b, 5) else all
  }

  function Packets(code: Code, block: seq<byte>, n: nat): (r: seq<Packet>)
    requires n <= |code.symbols(block)|
    ensures |r| == n
  {
    seq(n, i requires 0 <= i < n => Packet(i, code.symbols(block)[i]))
  }

  lemma SymbolsWellFormed(code: Code, b: u32, block: seq<byte>)
    requires ValidCode(code) && |block| == FEC_BLOCK_SIZE
    ensures |BlockSymbols(code, b, block)| == FEC_SYMBOLS
    ensures forall i :: 0 <= i < FEC_SYMBOLS ==> D.WellFormed(BlockSymbols(code, b, block)[i])
    ensures forall i :: 0 <= i < FEC_SYMBOLS ==>
      && |BlockSymbols(code, b, block)[i]| == FULL_SYMBOL_SIZE
      && SymbolBlock(BlockSymbols(code, b, block)[i]) == b
      && SymbolPacket(BlockSymbols(code, b, block)[i]) == Packet(i, code.symbols(block)[i])
  {
    hide WrapSymbol, SymbolBlock, SymbolPacket;
    assert Encodes(code, block);
    forall i | 0 <= i < FEC_SYMBOLS
      ensures D.WellFormed(BlockSymbols(code, b, block)[i])
      ensures |BlockSymbols(code, b, block)[i]| == FULL_SYMBOL_SIZE
      ensures SymbolBlock(BlockSymbols(code, b, block)[i]) == b
      ensures SymbolPacket(BlockSymbols(code, b, block)[i]) == Packet(i, code.symbols(block)[i])
    {
      WrapUnwrap(b, i, code.symbols(block)[i]);
    }
  }

  // The table after the first n symbols of a block, taken one symbol at a time.
  function Fed(code: Code, t: D.Table, b: u32, block: seq<byte>, n: nat): D.Table
    requires n <= |code.symbols(block)|
  {
    if n == 0 then t else D.Accept(code, Fed(code, t, b, block, n - 1), b, Packet(n - 1, code.symbols(block)[n - 1]))
  }

  ghost predicate Sized(symbols: seq<seq<byte>>) {
    forall i :: 0 <= i < |symbols| ==> |symbols[i]| == FULL_SYMBOL_SIZE
  }

  // The same for any symbols.
  ghost function Taken(code: Code, t: D.Table, symbols: seq<seq<byte>>, n: nat): D.Table
    requires Sized(symbols) && n <= |symbols|
  {
    if n == 0 then t
    else D.Accept(code, Taken(code, t, symbols, n - 1), SymbolBlock(symbols[n - 1]), SymbolPacket(symbols[n - 1]))
  }

  lemma {:induction false} TakenIsAcceptAll(code: Code, t: D.Table, symbols: seq<seq<byte>>, n: nat)
    requires Sized(symbols) && n <= |symbols|
    ensures D.AcceptAll(code, t, symbols[..n]) == Taken(code, t, symbols, n)
  {
    hide D.Accept, D.AcceptAll, SymbolBlock, SymbolPacket;
    if n == 0 {
      AcceptNone(code, t);
    } else {
      TakenIsAcceptAll(code, t, symbols, n - 1);
      assert symbols[..n] == symbols[..n - 1] + [symbols[n - 1]];
      D.AcceptAppend(code, t, symbols[..n - 1], [symbols[n - 1]]);
      AcceptOne(code, Taken(code, t, symbols, n - 1), symbols[n - 1]);
    }
  }

  lemma {:induction false} FedIsTaken(code: Code, t: D.Table, b: u32, block: seq<byte>, n: nat)
    requires n <= |BlockSymbols(code, b, block)| && Sized(BlockSymbols(code, b, block))
    requires forall i :: 0 <= i < n ==>
      && SymbolBlock(BlockSymbols(code, b, block)[i]) == b
      && SymbolPacket(BlockSymbols(code, b, block)[i]) == Packet(i, code.symbols(block)[i])
    ensures Fed(code, t, b, block, n) == Taken(code, t, BlockSymbols(code, b, block), n)
  {
    hide BlockSymbols, D.Accept, SymbolBlock, SymbolPacket, Sized;
    if n > 0 {
      FedIsTaken(code, t, b, block, n - 1);
    }
  }

  lemma AcceptNone(code: Code, t: D.Table)
    ensures D.AcceptAll(code, t, []) == t
  {
  }

  lemma AcceptOne(code: Code, t: D.Table, symbol: seq<byte>)
    requires |symbol| == FULL_SYMBOL_SIZE
    ensures D.AcceptAll(code, t, [symbol]) == D.Accept(code, t, SymbolBlock(symbol), SymbolPacket(symbol))
  {
    hide D.Accept;
    assert [symbol][1..] == [];
  }

  /** A tracked block is done with: its symbols change nothing. */
  lemma {:induction false} TrackedIgnored(code: Code, t: D.Table, b: u32, block: seq<byte>, n: nat)
    requires AllDecoded(t) && b in t.blocks && n <= |code.symbols(block)|
    ensures Fed(code, t, b, block, n) == t
  {
    if n > 0 {
      TrackedIgnored(code, t, b, block, n - 1);
      assert t.blocks[b := t.blocks[b]] == t.blocks;
    }
  }

  /** The table has not seen enough of a new block, or has put it out once and evicted. */
  ghost predicate Progress(code: Code, t: D.Table, b: u32, block: seq<byte>, n: nat, t': D.Table)
    requires n <= |code.symbols(block)|
  {
    var received := Packets(code, block, n);
    if code.decodable(Ids(received)) then
      && t'.output == t.output + block && AllDecoded(t')
      && b in t'.blocks && t'.blocks.Keys == KeysAfter(t.blocks.Keys, b)
    else
      && t'.output == t.output
      && t'.blocks == if n == 0 then t.blocks else t.blocks[b := D.FecBlock(received, false)]
  }

  lemma {:induction false} NewBlockProgress(code: Code, t: D.Table, b: u32, block: seq<byte>, n: nat)
    requires ValidCode(code) && |block| == FEC_BLOCK_SIZE && n <= FEC_SYMBOLS == |code.symbols(block)|
    requires AllDecoded(t) && b !in t.blocks
    ensures Progress(code, t, b, block, n, Fed(code, t, b, block, n))
  {
    hide ValidCode, Progress, Ids, Packets, D.Accept, AllDecoded;
    if n == 0 {
      NoPackets(code, t, b, block);
    } else {
      NewBlockProgress(code, t, b, block, n - 1);
      Recovers(code, block, n);
      MoreDecodable(code, block, n);
      ProgressStep(code, t, b, block, n, Fed(code, t, b, block, n - 1));
    }
  }

  lemma NoPackets(code: Code, t: D.Table, b: u32, block: seq<byte>)
    requires ValidCode(code)
    ensures Progress(code, t, b, block, 0, t)
  {
    assert Ids(Packets(code, block, 0)) == {};
  }

  lemma MoreDecodable(code: Code, block: seq<byte>, n: nat)
    requires ValidCode(code) && 0 < n <= |code.symbols(block)|
    ensures code.decodable(Ids(Packets(code, block, n - 1))) ==> code.decodable(Ids(Packets(code, block, n)))
  {
    var before, received := Packets(code, block, n - 1), Packets(code, block, n);
    assert received == before + [received[n - 1]];
    assert Ids(before) <= Ids(received);
  }

  lemma Recovers(code: Code, block: seq<byte>, n: nat)
    requires ValidCode(code) && |block| == FEC_BLOCK_SIZE && n <= |code.symbols(block)|
    ensures code.recover(Packets(code, block, n)) == if code.decodable(Ids(Packets(code, block, n))) then Some(block) else None
  {
    assert AllGenuine(code, block, Packets(code, block, n));
  }

  lemma ProgressStep(code: Code, t: D.Table, b: u32, block: seq<byte>, n: nat, t': D.Table)
    requires 0 < n <= |code.symbols(block)| && AllDecoded(t) && b !in t.blocks
    requires Progress(code, t, b, block, n - 1, t')
    requires code.recover(Packets(code, block, n)) == if code.decodable(Ids(Packets(code, block, n))) then Some(block) else None
    requires code.decodable(Ids(Packets(code, block, n - 1))) ==> code.decodable(Ids(Packets(code, block, n)))
    ensures Progress(code, t, b, block, n, D.Accept(code, t', b, Packet(n - 1, code.symbols(block)[n - 1])))
  {
    hide Ids, KeysAfter, AllDecoded;
    var before, received, p := Packets(code, block, n - 1), Packets(code, block, n), Packet(n - 1, code.symbols(block)[n - 1]);
    assert received == before + [p];
    if code.decodable(Ids(before)) {
      DecodedStays(code, t', b, p);
    } else {
      assert D.Tracked(t'.blocks, b) == D.FecBlock(before, false) by {
        assert n == 1 ==> before == [];
      }
      Decodes(code, t, t', b, received, p);
      assert t'.blocks[b := D.FecBlock(received, false)] == t.blocks[b := D.FecBlock(received, false)];
    }
  }

  lemma DecodedStays(code: Code, t: D.Table, b: u32, p: Packet)
    requires AllDecoded(t) && b in t.blocks
    ensures D.Accept(code, t, b, p) == t
  {
    assert t.blocks[b := t.blocks[b]] == t.blocks;
  }

  // A new block's next symbol: either the block is put out, or it waits with one symbol more.
  lemma Decodes(code: Code, t: D.Table, t': D.Table, b: u32, received: seq<Packet>, p: Packet)
    requires AllDecoded(t) && b !in t.blocks
    requires received != [] && D.Tracked(t'.blocks, b) == D.FecBlock(received[..|received| - 1], false)
    requires received == received[..|received| - 1] + [p]
    requires t'.blocks == t.blocks || t'.blocks == t.blocks[b := D.FecBlock(received[..|received| - 1], false)]
    ensures var after := D.Accept(code, t', b, p);
      match code.recover(received)
      case None => after == t'.(blocks := t'.blocks[b := D.FecBlock(received, false)])
      case Some(data) =>
        && after.output == t'.output + data && AllDecoded(after)
        && b in after.blocks && after.blocks.Keys == KeysAfter(t.blocks.Keys, b)
  {
    var grown := t'.blocks[b := D.FecBlock(received, true)];
    assert grown.Keys == t.blocks.Keys + {b};
  }

  /** All symbols of one block arrive: a tracked block changes nothing, a new one is put out. */
  lemma BlockStep(code: Code, t: D.Table, b: u32, block: seq<byte>)
    requires ValidCode(code) && |block| == FEC_BLOCK_SIZE && AllDecoded(t)
    ensures forall i :: 0 <= i < |BlockSymbols(code, b, block)| ==> |BlockSymbols(code, b, block)[i]| == FULL_SYMBOL_SIZE
    ensures var t' := D.AcceptAll(code, t, BlockSymbols(code, b, block));
      && AllDecoded(t')
      && (b in t.blocks ==> t' == t)
      && (b !in t.blocks ==> t'.output == t.output + block && t'.blocks.Keys == KeysAfter(t.blocks.Keys, b))
  {
    assert Encodes(code, block);
    SymbolsWellFormed(code, b, block);
    hide Fed, Taken, KeysAfter, AllDecoded, BlockSymbols, D.AcceptAll;
    var all := BlockSymbols(code, b, block);
    assert all[..FEC_SYMBOLS] == all;
    FedIsTaken(code, t, b, block, FEC_SYMBOLS);
    TakenIsAcceptAll(code, t, all, FEC_SYMBOLS);
    if b in t.blocks {
      TrackedIgnored(code, t, b, block, FEC_SYMBOLS);
    } else {
      NewBlockProgress(code, t, b, block, FEC_SYMBOLS);
      AllSources(code, block);
    }
  }

  lemma AllSources(code: Code, block: seq<byte>)
    requires ValidCode(code) && |code.symbols(block)| == FEC_SYMBOLS
    ensures code.decodable(Ids(Packets(code, block, FEC_SYMBOLS)))
  {
    var packets := Packets(code, block, FEC_SYMBOLS);
    forall i: nat | i < FEC_SOURCE_SYMBOLS ensures i in Ids(packets) {
      assert packets[i] in packets && packets[i].id == i;
    }
    assert HasSources(Ids(packets));
  }

  // ------------------------------------------------------------------ which ids are tracked

  /** The id of block number n. */
  function IdOf(n: nat): u32 {
    n % IDS
  }

  lemma SkipToZero(n: nat)
    requires n == IDS
    ensures SkipBlocks(0, n) == 0
  {
    SkipValue(0, n - 1);
    SkipAdd(0, n - 1, 1);
    var last: u32 := n - 1;
    assert SkipBlocks(last, 1) == SkipBlocks(NextBlock(last), 0) == 0;
  }

  lemma {:induction false} SkipIsModulo(n: nat)
    ensures SkipBlocks(0, n) == IdOf(n)
    decreases n
  {
    if n < IDS {
      SkipValue(0, n);
    } else {
      var m := n - IDS;
      SkipIsModulo(m);
      SkipAdd(0, IDS, m);
      SkipToZero(IDS);
    }
  }

  /** How many ids are tracked after n blocks of the first pass: six up to ten, in turn. */
  function TrackedCount(n: nat): (size: nat)
    ensures size <= n && size <= D.MAX_TRACKED
  {
    if n <= 10 then n else 6 + (n - 1) % 5
  }

  ghost predicate Newest(n: nat, size: nat, keys: set<u32>) {
    |keys| == size && forall x: u32 :: x in keys <==> n - size <= x < n
  }

  /** In the first pass the newest ids; after the wrap the six last ids of the first pass stay. */
  ghost predicate KeysAre(n: nat, keys: set<u32>) {
    if n <= IDS then Newest(n, TrackedCount(n), keys)
    else
      && (forall x :: x in keys ==> x < n - IDS || x >= IDS - 6)
      && (forall x: u32 :: x >= IDS - 6 ==> x in keys)
  }

  lemma SixIds(b: u32, keys: set<u32>)
    requires b >= 5 && forall x: u32 :: x in keys <==> b - 5 <= x <= b
    ensures |keys| == 6
  {
    var p, q, r, s, t: u32 := b - 5, b - 4, b - 3, b - 2, b - 1;
    assert keys == {p, q, r, s, t, b};
  }

  lemma NewestStep(n: nat, size: nat, keys: set<u32>)
    requires n < IDS && size <= n && size <= D.MAX_TRACKED && Newest(n, size, keys)
    ensures var b: u32 := n;
      b !in keys && Newest(n + 1, if size == D.MAX_TRACKED then 6 else size + 1, KeysAfter(keys, b))
  {
    var b: u32 := n;
    if size == D.MAX_TRACKED {
      SixIds(b, KeysAfter(keys, b));
    }
  }

  lemma CountStep(n: nat)
    ensures TrackedCount(n + 1) == if TrackedCount(n) == D.MAX_TRACKED then 6 else TrackedCount(n) + 1
  {
  }

  lemma FirstPass(n: nat, keys: set<u32>)
    requires n < IDS && KeysAre(n, keys)
    ensures IdOf(n) !in keys && KeysAre(n + 1, KeysAfter(keys, IdOf(n)))
  {
    hide Newest, TrackedCount, KeysAfter;
    NewestStep(n, TrackedCount(n), keys);
    CountStep(n);
  }

  lemma AfterWrap(keys: set<u32>)
    requires KeysAre(IDS, keys)
    ensures forall x: u32 :: x in keys <==> x >= IDS - 6
  {
    assert TrackedCount(IDS) == 6;
  }

  lemma SecondPass(n: nat, keys: set<u32>)
    requires IDS <= n < MAX_BLOCKS && KeysAre(n, keys)
    ensures IdOf(n) !in keys && KeysAre(n + 1, KeysAfter(keys, IdOf(n)))
  {
    if n == IDS {
      AfterWrap(keys);
    }
    hide TrackedCount, Newest;
    WrappedId(n);
    StepAfterWrap(n - IDS, keys);
  }

  lemma WrappedId(n: nat)
    requires IDS <= n < 2 * IDS
    ensures IdOf(n) == n - IDS
  {
  }

  lemma StepAfterWrap(b: u32, keys: set<u32>)
    requires b < IDS - 6
    requires forall x :: x in keys ==> x < b || x >= IDS - 6
    requires forall x: u32 :: x >= IDS - 6 ==> x in keys
    ensures b !in keys
    ensures forall x :: x in KeysAfter(keys, b) ==> x < b + 1 || x >= IDS - 6
    ensures forall x: u32 :: x >= IDS - 6 ==> x in KeysAfter(keys, b)
  {
  }

  // ------------------------------------------------------------------ whole streams

  lemma StreamSnoc(code: Code, blocks: seq<seq<byte>>, n: nat)
    requires n < |blocks|
    ensures StreamSymbols(code, 0, blocks[..n + 1])
         == StreamSymbols(code, 0, blocks[..n]) + BlockSymbols(code, IdOf(n), blocks[n])
  {
    hide BlockSymbols;
    SkipIsModulo(n);
    assert blocks[..n + 1] == blocks[..n] + [blocks[n]];
    StreamSymbolsAppend(code, 0, blocks[..n], [blocks[n]]);
    LastBlockSymbols(code, IdOf(n), blocks[n]);
  }

  lemma LastBlockSymbols(code: Code, b: u32, block: seq<byte>)
    ensures StreamSymbols(code, b, [block]) == BlockSymbols(code, b, block)
  {
    hide BlockSymbols;
    var one: seq<seq<byte>> := [block];
    assert one[1..] == [];
    assert StreamSymbols(code, NextBlock(b), []) == [];
  }

  ghost predicate SymbolSized(symbols: seq<seq<byte>>) {
    forall i :: 0 <= i < |symbols| ==> D.WellFormed(symbols[i])
  }

  lemma {:induction false} StreamWellFormed(code: Code, b: u32, blocks: seq<seq<byte>>)
    requires ValidCode(code) && Blocks(blocks)
    ensures SymbolSized(StreamSymbols(code, b, blocks))
    decreases |blocks|
  {
    hide ValidCode, D.WellFormed, BlockSymbols, NextBlock;
    if blocks != [] {
      SymbolsWellFormed(code, b, blocks[0]);
      StreamWellFormed(code, NextBlock(b), blocks[1..]);
    }
  }

  /** The table after the symbols of the first n blocks. */
  function TableAfter(code: Code, blocks: seq<seq<byte>>, n: nat): D.Table
    requires n <= |blocks| && SymbolSized(StreamSymbols(code, 0, blocks[..n]))
  {
    D.AcceptAll(code, D.Table(map[], []), StreamSymbols(code, 0, blocks[..n]))
  }

  lemma TableStep(code: Code, blocks: seq<seq<byte>>, n: nat)
    requires ValidCode(code) && Blocks(blocks) && n < |blocks|
    requires SymbolSized(StreamSymbols(code, 0, blocks[..n])) && SymbolSized(StreamSymbols(code, 0, blocks[..n + 1]))
    requires AllDecoded(TableAfter(code, blocks, n))
    ensures var t, t', b := TableAfter(code, blocks, n), TableAfter(code, blocks, n + 1), IdOf(n);
      && AllDecoded(t')
      && (b in t.blocks ==> t' == t)
      && (b !in t.blocks ==> t'.output == t.output + blocks[n] && t'.blocks.Keys == KeysAfter(t.blocks.Keys, b))
  {
    hide ValidCode, StreamSymbols, BlockSymbols, KeysAfter, AllDecoded, D.AcceptAll;
    StreamSnoc(code, blocks, n);
    BlockStep(code, TableAfter(code, blocks, n), IdOf(n), blocks[n]);
    D.AcceptAppend(code, D.Table(map[], []), StreamSymbols(code, 0, blocks[..n]), BlockSymbols(code, IdOf(n), blocks[n]));
  }

  /** Up to 2^33 - 6 blocks every block finds its id untracked and is put out in turn. */
  lemma {:induction false} EveryBlockPutOut(code: Code, blocks: seq<seq<byte>>, n: nat)
    requires ValidCode(code) && Blocks(blocks) && n <= |blocks| && n <= MAX_BLOCKS
    ensures SymbolSized(StreamSymbols(code, 0, blocks[..n]))
    ensures var t := TableAfter(code, blocks, n);
      AllDecoded(t) && KeysAre(n, t.blocks.Keys) && t.output == Flatten(blocks[..n])
  {
    hide ValidCode, StreamSymbols, KeysAre, KeysAfter, SymbolSized, TableAfter;
    StreamWellFormed(code, 0, blocks[..n]);
    if n == 0 {
      EmptyTable(code, blocks);
    } else {
      EveryBlockPutOut(code, blocks, n - 1);
      var keys := TableAfter(code, blocks, n - 1).blocks.Keys;
      if n - 1 < IDS {
        FirstPass(n - 1, keys);
      } else {
        SecondPass(n - 1, keys);
      }
      TableStep(code, blocks, n - 1);
      assert blocks[..n] == blocks[..n - 1] + [blocks[n - 1]];
      FlattenSnoc(blocks[..n - 1], blocks[n - 1]);
    }
  }

  lemma EmptyTable(code: Code, blocks: seq<seq<byte>>)
    ensures SymbolSized(StreamSymbols(code, 0, blocks[..0]))
    ensures TableAfter(code, blocks, 0) == D.Table(map[], [])
    ensures KeysAre(0, D.Table(map[], []).blocks.Keys) && AllDecoded(D.Table(map[], []))
  {
    assert blocks[..0] == [];
    assert StreamSymbols(code, 0, blocks[..0]) == [];
  }

  /** From then on at least one block is missing from the output. */
  lemma {:induction false} BlockLost(code: Code, blocks: seq<seq<byte>>, n: nat)
    requires ValidCode(code) && Blocks(blocks) && MAX_BLOCKS < n <= |blocks|
    ensures SymbolSized(StreamSymbols(code, 0, blocks[..n]))
    ensures var t := TableAfter(code, blocks, n); AllDecoded(t) && |t.output| <= FEC_BLOCK_SIZE * (n - 1)
  {
    hide ValidCode, StreamSymbols, KeysAfter, SymbolSized, TableAfter, AllDecoded;
    StreamWellFormed(code, 0, blocks[..n]);
    StreamWellFormed(code, 0, blocks[..n - 1]);
    if n - 1 == MAX_BLOCKS {
      EveryBlockPutOut(code, blocks, n - 1);
      FlattenLength(blocks[..n - 1], FEC_BLOCK_SIZE);
      assert IdOf(n - 1) == IDS - 6;
      TableStep(code, blocks, n - 1);
    } else {
      BlockLost(code, blocks, n - 1);
      TableStep(code, blocks, n - 1);
    }
  }

  /** All symbols of consecutive blocks, in order: the table puts out exactly the blocks if and
      only if there are at most 2^33 - 6 of them. Beyond that a block is taken for an old one. */
  lemma WholeStreamDecodes(code: Code, blocks: seq<seq<byte>>)
    requires ValidCode(code) && Blocks(blocks)
    ensures SymbolSized(StreamSymbols(code, 0, blocks))
    ensures var output := D.AcceptAll(code, D.Table(map[], []), StreamSymbols(code, 0, blocks)).output;
      && (output == Flatten(blocks) <==> |blocks| <= MAX_BLOCKS)
      && (|blocks| > MAX_BLOCKS ==> |output| <= FEC_BLOCK_SIZE * (|blocks| - 1))
  {
    hide ValidCode, StreamSymbols, SymbolSized, D.AcceptAll, AllDecoded, KeysAre;
    var n := |blocks|;
    assert blocks[..n] == blocks;
    FlattenLength(blocks, FEC_BLOCK_SIZE);
    if n <= MAX_BLOCKS {
      EveryBlockPutOut(code, blocks, n);
    } else {
      BlockLost(code, blocks, n);
    }
  }

  /** When a block of a complete stream arrives once more, it is put out a second time exactly if
      the decoder has forgotten it: if it is not among the newest six to ten. */
  lemma ReplayedBlock(code: Code, blocks: seq<seq<byte>>, b: u32)
    requires ValidCode(code) && Blocks(blocks) && b < |blocks| <= IDS
    ensures SymbolSized(StreamSymbols(code, 0, blocks) + BlockSymbols(code, b, blocks[b]))
    ensures D.AcceptAll(code, D.Table(map[], []), StreamSymbols(code, 0, blocks) + BlockSymbols(code, b, blocks[b])).output
         == Flatten(blocks) + if b < |blocks| - TrackedCount(|blocks|) then blocks[b] else []
  {
    hide ValidCode, StreamSymbols, BlockSymbols, KeysAfter, AllDecoded, D.AcceptAll, TrackedCount, D.WellFormed;
    var n := |blocks|;
    assert blocks[..n] == blocks;
    EveryBlockPutOut(code, blocks, n);
    SymbolsWellFormed(code, b, blocks[b]);
    BlockStep(code, TableAfter(code, blocks, n), b, blocks[b]);
    SizedWhenWellFormed(StreamSymbols(code, 0, blocks));
    D.AcceptAppend(code, D.Table(map[], []), StreamSymbols(code, 0, blocks), BlockSymbols(code, b, blocks[b]));
    assert Flatten(blocks) + [] == Flatten(blocks);
  }

  lemma SizedWhenWellFormed(symbols: seq<seq<byte>>)
    requires SymbolSized(symbols)
    ensures Sized(symbols)
  {
  }
}
