/** Forward error correction as the pipeline uses it: blocks of 180 source symbols, 20 repair
    symbols, and the header every symbol carries on the wire. */
module Fec {
  import opened Bytes

  const FEC_SYMBOL_SIZE: nat := 1024
  const FEC_SOURCE_SYMBOLS: nat := 180
  const FEC_REPAIR_SYMBOLS: nat := 20
  const FEC_SYMBOL_HEADER_SIZE: nat := 8
  const FULL_SYMBOL_SIZE: nat := FEC_SYMBOL_SIZE + FEC_SYMBOL_HEADER_SIZE
  const FEC_BLOCK_SIZE: nat := FEC_SOURCE_SYMBOLS * FEC_SYMBOL_SIZE
  const FEC_SYMBOLS: nat := FEC_SOURCE_SYMBOLS + FEC_REPAIR_SYMBOLS

  type u32 = i: int | 0 <= i < 0x1_0000_0000

  /** One encoding symbol as the code sees it. */
  datatype Packet = Packet(id: nat, payload: seq<byte>)

  /** RaptorQ for one block size, as a parameter (systematic encoding: section 5.3 of RFC 6330).
      `symbols` lists the payloads of a block by encoding symbol id; `recover` is what a decoder
      answers after it has been fed a sequence of packets. */
  datatype Code = Code(
    symbols: seq<byte> -> seq<seq<byte>>,
    decodable: set<nat> -> bool,
    recover: seq<Packet> -> Option<seq<byte>>)

  ghost function Ids(history: seq<Packet>): set<nat> {
    set p | p in history :: p.id
  }

  ghost predicate Genuine(code: Code, block: seq<byte>, p: Packet) {
    p.id < |code.symbols(block)| && p.payload == code.symbols(block)[p.id]
  }

  ghost predicate AllGenuine(code: Code, block: seq<byte>, history: seq<Packet>) {
    forall p :: p in history ==> Genuine(code, block, p)
  }

  ghost predicate Encodes(code: Code, block: seq<byte>)
    requires |block| == FEC_BLOCK_SIZE
  {
    var symbols := code.symbols(block);
    && |symbols| == FEC_SYMBOLS
    && (forall i :: 0 <= i < |symbols| ==> |symbols[i]| == FEC_SYMBOL_SIZE)
    && (forall i :: 0 <= i < FEC_SOURCE_SYMBOLS ==> symbols[i] == block[i * FEC_SYMBOL_SIZE..(i + 1) * FEC_SYMBOL_SIZE])
  }

  ghost predicate HasSources(ids: set<nat>) {
    forall i: nat :: i < FEC_SOURCE_SYMBOLS ==> i in ids
  }

  ghost predicate ValidCode(code: Code) {
    && (forall block: seq<byte> :: |block| == FEC_BLOCK_SIZE ==> Encodes(code, block))
    && (forall s: set<nat>, t: set<nat> :: s <= t && code.decodable(s) ==> code.decodable(t))
    && (forall s: set<nat> :: HasSources(s) ==> code.decodable(s))
    && !code.decodable({})
    && (forall block: seq<byte>, history: seq<Packet> :: |block| == FEC_BLOCK_SIZE && AllGenuine(code, block, history) ==>
          code.recover(history) == if code.decodable(Ids(history)) then Some(block) else None)
  }

  // ------------------------------------------------------------------ such a code exists

  function Slice(block: seq<byte>, i: nat): (r: seq<byte>)
    requires |block| == FEC_BLOCK_SIZE && i < FEC_SOURCE_SYMBOLS
    ensures |r| == FEC_SYMBOL_SIZE
  {
    block[i * FEC_SYMBOL_SIZE..(i + 1) * FEC_SYMBOL_SIZE]
  }

  /** The source symbols followed by repair symbols that say nothing. */
  function Systematic(block: seq<byte>): (r: seq<seq<byte>>)
    ensures |r| == FEC_SYMBOLS
  {
    seq(FEC_SYMBOLS, i requires 0 <= i =>
      if |block| == FEC_BLOCK_SIZE && i < FEC_SOURCE_SYMBOLS then Slice(block, i) else Zeros(FEC_SYMBOL_SIZE))
  }

  ghost predicate Explains(code: Code, block: seq<byte>, history: seq<Packet>) {
    |block| == FEC_BLOCK_SIZE && AllGenuine(code, block, history)
  }

  ghost function Explanation(code: Code, history: seq<Packet>): Option<seq<byte>> {
    if exists block :: Explains(code, block, history)
    then var block :| Explains(code, block, history); Some(block)
    else None
  }

  lemma SourcesDetermine(code: Code, a: seq<byte>, b: seq<byte>, history: seq<Packet>)
    requires forall block: seq<byte> :: code.symbols(block) == Systematic(block)
    requires HasSources(Ids(history)) && Explains(code, a, history) && Explains(code, b, history)
    ensures a == b
  {
    forall k | 0 <= k < FEC_BLOCK_SIZE ensures a[k] == b[k] {
      var i := k / FEC_SYMBOL_SIZE;
      assert i in Ids(history);
      var p :| p in history && p.id == i;
      assert Genuine(code, a, p) && Genuine(code, b, p);
      assert Slice(a, i) == Slice(b, i);
      assert a[k] == Slice(a, i)[k % FEC_SYMBOL_SIZE] && b[k] == Slice(b, i)[k % FEC_SYMBOL_SIZE];
    }
  }

  /** The properties asked of a code do not contradict each other. */
  lemma ValidCodeExists() returns (code: Code)
    ensures ValidCode(code)
  {
    var base := Code((block: seq<byte>) => Systematic(block), ids => HasSources(ids), _ => None);
    code := base.(recover := history => if HasSources(Ids(history)) then Explanation(base, history) else None);
    forall block: seq<byte> | |block| == FEC_BLOCK_SIZE ensures Encodes(code, block) {
    }
    forall block: seq<byte>, history: seq<Packet> | |block| == FEC_BLOCK_SIZE && AllGenuine(code, block, history)
      ensures code.recover(history) == if code.decodable(Ids(history)) then Some(block) else None
    {
      if HasSources(Ids(history)) {
        assert forall p: Packet :: Genuine(code, block, p) == Genuine(base, block, p);
        assert Explains(base, block, history);
        SourcesDetermine(base, block, Explanation(base, history).value, history);
      }
    }
    var none: set<nat> := {};
    var first: nat := 0;
    assert first !in none;
  }

  // ------------------------------------------------------------------ symbols on the wire

  const MAGIC_N: byte := 0x4E
  const MAGIC_X: byte := 0x58

  function WrapSymbol(blockId: u32, symbolId: nat, payload: seq<byte>): seq<byte> {
    [MAGIC_N, MAGIC_X] + ToLe(blockId, 4) + ToLe(symbolId, 2) + payload
  }

  function BlockSymbols(code: Code, blockId: u32, block: seq<byte>): (r: seq<seq<byte>>)
    ensures |r| == |code.symbols(block)|
  {
    seq(|code.symbols(block)|, i requires 0 <= i < |code.symbols(block)| => WrapSymbol(blockId, i, code.symbols(block)[i]))
  }

  /** wrapping_add(1) on the block id. */
  function NextBlock(blockId: u32): u32 {
    if blockId + 1 == 0x1_0000_0000 then 0 else blockId + 1
  }

  function SkipBlocks(blockId: u32, n: nat): u32
    decreases n
  {
    if n == 0 then blockId else SkipBlocks(NextBlock(blockId), n - 1)
  }

  /** All symbols of consecutive blocks, in the order they are packed into frames. */
  function StreamSymbols(code: Code, blockId: u32, blocks: seq<seq<byte>>): seq<seq<byte>>
    decreases |blocks|
  {
    if blocks == [] then []
    else BlockSymbols(code, blockId, blocks[0]) + StreamSymbols(code, NextBlock(blockId), blocks[1..])
  }

  function SymbolBlock(symbol: seq<byte>): u32
    requires |symbol| == FULL_SYMBOL_SIZE
  {
    FromLeBound(symbol[2..6]);
    Pow256Values();
    FromLe(symbol[2..6])
  }

  function SymbolPacket(symbol: seq<byte>): Packet
    requires |symbol| == FULL_SYMBOL_SIZE
  {
    Packet(FromLe(symbol[6..8]), symbol[8..])
  }

  lemma WrapUnwrap(blockId: u32, symbolId: nat, payload: seq<byte>)
    requires |payload| == FEC_SYMBOL_SIZE && symbolId < 0x1_0000
    ensures var s := WrapSymbol(blockId, symbolId, payload);
      && |s| == FULL_SYMBOL_SIZE
      && s[0] == MAGIC_N && s[1] == MAGIC_X
      && SymbolBlock(s) == blockId && SymbolPacket(s) == Packet(symbolId, payload)
  {
    hide ToLe, FromLe;
    var s := WrapSymbol(blockId, symbolId, payload);
    Pow256Values();
    LeRoundTrip(blockId, 4);
    LeRoundTrip(symbolId, 2);
    assert s[2..6] == ToLe(blockId, 4);
    assert s[6..8] == ToLe(symbolId, 2);
    assert s[8..] == payload;
  }

  lemma {:induction false} StreamSymbolsAppend(code: Code, blockId: u32, a: seq<seq<byte>>, b: seq<seq<byte>>)
    ensures StreamSymbols(code, blockId, a + b)
         == StreamSymbols(code, blockId, a) + StreamSymbols(code, SkipBlocks(blockId, |a|), b)
    decreases |a|
  {
    hide BlockSymbols, NextBlock;
    if a == [] {
      assert a + b == b;
    } else {
      assert (a + b)[0] == a[0] && (a + b)[1..] == a[1..] + b;
      StreamSymbolsAppend(code, NextBlock(blockId), a[1..], b);
      Assoc(BlockSymbols(code, blockId, a[0]), StreamSymbols(code, NextBlock(blockId), a[1..]),
            StreamSymbols(code, SkipBlocks(blockId, |a|), b));
    }
  }

  lemma {:induction false} SkipAdd(blockId: u32, m: nat, n: nat)
    ensures SkipBlocks(blockId, m + n) == SkipBlocks(SkipBlocks(blockId, m), n)
    decreases m
  {
    if m > 0 { SkipAdd(NextBlock(blockId), m - 1, n); }
  }

  lemma {:induction false} SkipValue(blockId: u32, n: nat)
    requires blockId + n < 0x1_0000_0000
    ensures SkipBlocks(blockId, n) == blockId + n
    decreases n
  {
    if n > 0 { SkipValue(blockId + 1, n - 1); }
  }
}
