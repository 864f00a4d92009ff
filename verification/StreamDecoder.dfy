/** StreamingDecoder of nexus-core/src/streaming.rs: the marker scan, the table of FEC blocks and
    its eviction. */
module StreamDecoder {
  import opened Bytes
  import opened Fec
  import F = Frame
  import FrameImages

  // ------------------------------------------------------------------ marker scan

  predicate MarkerAt(s: seq<byte>, i: nat) {
    i + 2 <= |s| && s[i] == MAGIC_N && s[i + 1] == MAGIC_X
  }

  /** Position of the first marker. */
  function FindMagic(s: seq<byte>): (r: Option<nat>)
    ensures r.Some? ==> MarkerAt(s, r.value) && forall i: nat :: i < r.value ==> !MarkerAt(s, i)
    ensures r.None? ==> forall i: nat :: !MarkerAt(s, i)
  {
    if |s| < 2 then None
    else if MarkerAt(s, 0) then Some(0)
    else
      var later := FindMagic(s[1..]);
      assert forall i: nat :: MarkerAt(s, i) ==> i > 0 && MarkerAt(s[1..], i - 1);
      match later
      case None => None
      case Some(i) =>
        assert MarkerAt(s, i + 1);
        Some(i + 1)
  }

  datatype Scanned = Scanned(symbols: seq<seq<byte>>, rest: seq<byte>)

  /** All symbols the processing loop takes out of a buffer, and what it leaves there. */
  function Scan(raw: seq<byte>): (r: Scanned)
    ensures forall i :: 0 <= i < |r.symbols| ==> |r.symbols[i]| == FULL_SYMBOL_SIZE
    decreases |raw|
  {
    match FindMagic(raw)
    case None => Scanned([], raw)
    case Some(pos) =>
      var aligned := raw[pos..];
      if |aligned| < FULL_SYMBOL_SIZE then Scanned([], aligned)
      else
        var more := Scan(aligned[FULL_SYMBOL_SIZE..]);
        Scanned([aligned[..FULL_SYMBOL_SIZE]] + more.symbols, more.rest)
  }

  lemma FindUnique(s: seq<byte>, pos: nat)
    requires MarkerAt(s, pos) && forall i: nat :: i < pos ==> !MarkerAt(s, i)
    ensures FindMagic(s) == Some(pos)
  {
  }

  lemma FindNone(s: seq<byte>)
    requires forall i: nat :: !MarkerAt(s, i)
    ensures FindMagic(s) == None
  {
  }

  /** The scan is incremental for arbitrary bytes, garbage included: scanning a, keeping the rest
      and appending b takes out the same symbols as one scan over a + b. */
  lemma {:induction false} ScanIncremental(a: seq<byte>, b: seq<byte>)
    ensures var s := Scan(a);
      var t := Scan(s.rest + b);
      Scan(a + b) == Scanned(s.symbols + t.symbols, t.rest)
    decreases |a|
  {
    hide FindMagic;
    match FindMagic(a)
    case None =>
      assert forall t: Scanned :: [] + t.symbols == t.symbols;
    case Some(pos) =>
      var aligned := a[pos..];
      SuffixFound(a, b, pos);
      assert (a + b)[pos..] == aligned + b;
      if |aligned| < FULL_SYMBOL_SIZE {
        AlignedFound(aligned + b);
        assert (aligned + b)[0..] == aligned + b;
        assert [] + Scan(aligned + b).symbols == Scan(aligned + b).symbols;
      } else {
        ScanIncremental(aligned[FULL_SYMBOL_SIZE..], b);
        assert (aligned + b)[..FULL_SYMBOL_SIZE] == aligned[..FULL_SYMBOL_SIZE];
        assert (aligned + b)[FULL_SYMBOL_SIZE..] == aligned[FULL_SYMBOL_SIZE..] + b;
        var s := Scan(aligned[FULL_SYMBOL_SIZE..]);
        Assoc([aligned[..FULL_SYMBOL_SIZE]], s.symbols, Scan(s.rest + b).symbols);
      }
  }

  lemma SuffixFound(a: seq<byte>, b: seq<byte>, pos: nat)
    requires FindMagic(a) == Some(pos)
    ensures FindMagic(a + b) == Some(pos)
    ensures MarkerAt(a[pos..], 0)
    ensures MarkerAt(a[pos..] + b, 0)
  {
    assert forall i: nat :: i < pos && MarkerAt(a + b, i) ==> MarkerAt(a, i);
    assert MarkerAt(a + b, pos);
    FindUnique(a + b, pos);
  }

  lemma AlignedFound(s: seq<byte>)
    requires MarkerAt(s, 0)
    ensures FindMagic(s) == Some(0)
  {
    FindUnique(s, 0);
  }

  ghost predicate WellFormed(symbol: seq<byte>) {
    |symbol| == FULL_SYMBOL_SIZE && MarkerAt(symbol, 0)
  }

  // A buffer that starts with a symbol.
  lemma ScanSymbol(symbol: seq<byte>, later: seq<byte>)
    requires WellFormed(symbol)
    ensures Scan(symbol + later) == (var more := Scan(later); Scanned([symbol] + more.symbols, more.rest))
  {
    hide FindMagic;
    var s := symbol + later;
    AlignedFound(s);
    assert s[0..] == s && s[..FULL_SYMBOL_SIZE] == symbol && s[FULL_SYMBOL_SIZE..] == later;
  }

  lemma ScanNoMarker(s: seq<byte>)
    requires forall i: nat :: !MarkerAt(s, i)
    ensures Scan(s) == Scanned([], s)
  {
    hide FindMagic;
    FindNone(s);
  }

  /** An undamaged symbol stream with zero padding is cut exactly at its symbols, whatever their
      payloads contain: the scan never loses alignment. */
  lemma {:induction false} ScanAligned(symbols: seq<seq<byte>>, padding: nat)
    requires forall i :: 0 <= i < |symbols| ==> WellFormed(symbols[i])
    ensures Scan(Flatten(symbols) + Zeros(padding)) == Scanned(symbols, Zeros(padding))
  {
    hide WellFormed, Scan;
    if symbols == [] {
      assert Flatten(symbols) + Zeros(padding) == Zeros(padding);
      ScanNoMarker(Zeros(padding));
    } else {
      assert WellFormed(symbols[0]);
      Assoc(symbols[0], Flatten(symbols[1..]), Zeros(padding));
      ScanSymbol(symbols[0], Flatten(symbols[1..]) + Zeros(padding));
      ScanAligned(symbols[1..], padding);
    }
  }

  // ------------------------------------------------------------------ block table

  datatype FecBlock = FecBlock(received: seq<Packet>, isDecoded: bool)
  datatype Table = Table(blocks: map<u32, FecBlock>, output: seq<byte>)

  const MAX_TRACKED: nat := 10

  function SaturatingSub(a: nat, b: nat): nat { if a < b then 0 else a - b }

  /** Forgets the blocks more than five ids behind the block that was just decoded. */
  function Evict(blocks: map<u32, FecBlock>, blockId: u32): map<u32, FecBlock> {
    map id | id in blocks && id >= SaturatingSub(blockId, 5) :: blocks[id]
  }

  function Tracked(blocks: map<u32, FecBlock>, blockId: u32): FecBlock {
    if blockId in blocks then blocks[blockId] else FecBlock([], false)
  }

  /** One symbol arrives. */
  function Accept(code: Code, t: Table, blockId: u32, p: Packet): Table {
    var block := Tracked(t.blocks, blockId);
    if block.isDecoded then t.(blocks := t.blocks[blockId := block])
    else
      var received := block.received + [p];
      match code.recover(received)
      case None => t.(blocks := t.blocks[blockId := FecBlock(received, false)])
      case Some(data) =>
        var blocks := t.blocks[blockId := FecBlock(received, true)];
        Table(if |blocks| > MAX_TRACKED then Evict(blocks, blockId) else blocks, t.output + data)
  }

  function AcceptAll(code: Code, t: Table, symbols: seq<seq<byte>>): Table
    requires forall i :: 0 <= i < |symbols| ==> |symbols[i]| == FULL_SYMBOL_SIZE
    decreases |symbols|
  {
    if symbols == [] then t
    else AcceptAll(code, Accept(code, t, SymbolBlock(symbols[0]), SymbolPacket(symbols[0])), symbols[1..])
  }

  lemma {:induction false} AcceptAppend(code: Code, t: Table, a: seq<seq<byte>>, b: seq<seq<byte>>)
    requires forall i :: 0 <= i < |a| ==> |a[i]| == FULL_SYMBOL_SIZE
    requires forall i :: 0 <= i < |b| ==> |b[i]| == FULL_SYMBOL_SIZE
    ensures AcceptAll(code, t, a + b) == AcceptAll(code, AcceptAll(code, t, a), b)
    decreases |a|
  {
    hide Accept;
    if a == [] {
      assert a + b == b;
    } else {
      assert (a + b)[0] == a[0] && (a + b)[1..] == a[1..] + b;
      AcceptAppend(code, Accept(code, t, SymbolBlock(a[0]), SymbolPacket(a[0])), a[1..], b);
    }
  }

  /** Whatever arrives, output is only ever appended to. */
  lemma {:induction false} OutputGrows(code: Code, t: Table, symbols: seq<seq<byte>>)
    requires forall i :: 0 <= i < |symbols| ==> |symbols[i]| == FULL_SYMBOL_SIZE
    ensures t.output <= AcceptAll(code, t, symbols).output
    decreases |symbols|
  {
    if symbols != [] {
      OutputGrows(code, Accept(code, t, SymbolBlock(symbols[0]), SymbolPacket(symbols[0])), symbols[1..]);
    }
  }

  // ------------------------------------------------------------------ the decoder's steps

  datatype State = State(raw: seq<byte>, table: Table)

  const FRESH := State([], Table(map[], []))

  /** Bytes of one frame are appended and everything complete is processed. */
  function FeedStep(code: Code, st: State, bytes: seq<byte>): State {
    var s := Scan(st.raw + bytes);
    State(s.rest, AcceptAll(code, st.table, s.symbols))
  }

  /** Feeding x and then y is feeding x + y. */
  lemma FeedMerges(code: Code, st: State, x: seq<byte>, y: seq<byte>)
    ensures FeedStep(code, FeedStep(code, st, x), y) == FeedStep(code, st, x + y)
  {
    hide Scan, AcceptAll;
    Assoc(st.raw, x, y);
    ScanIncremental(st.raw + x, y);
    var s := Scan(st.raw + x);
    AcceptAppend(code, st.table, s.symbols, Scan(s.rest + y).symbols);
  }

  // ------------------------------------------------------------------ the stateful object

  class StreamingDecoder {
    const code: Code
    const mode: F.Mode
    var rawBuffer: seq<byte>
    var blocks: map<u32, FecBlock>
    var outputBuffer: seq<byte>

    ghost function Abstract(): State
      reads this
    {
      State(rawBuffer, Table(blocks, outputBuffer))
    }

    constructor (code: Code, mode: F.Mode)
      ensures this.code == code && this.mode == mode && Abstract() == FRESH
    {
      this.code, this.mode := code, mode;
      rawBuffer, blocks, outputBuffer := [], map[], [];
    }

    /** A frame of the wrong size is refused and changes nothing. */
    method PushFrame(frameData: seq<byte>) returns (ok: bool)
      modifies this
      ensures ok <==> |frameData| == F.Width(mode) * F.Height(mode)
      ensures Abstract() == if ok then FeedStep(code, old(Abstract()), F.DecodeFrame(mode, frameData)) else old(Abstract())
    {
      if |frameData| != F.Width(mode) * F.Height(mode) {
        return false;
      }
      var decodedChunk := FrameImages.DecodeRaw(mode, frameData);
      rawBuffer := rawBuffer + decodedChunk;
      ProcessRawBuffer();
      return true;
    }

    method PopData() returns (data: seq<byte>)
      modifies this`outputBuffer
      ensures data == old(outputBuffer) && outputBuffer == []
    {
      data := outputBuffer;
      outputBuffer := [];
    }

    method ProcessRawBuffer()
      modifies this
      ensures Abstract() == (var s := Scan(old(rawBuffer)); State(s.rest, AcceptAll(code, old(Abstract()).table, s.symbols)))
    {
      hide Accept, FindMagic, SymbolBlock, SymbolPacket;
      ghost var whole, table := Scan(rawBuffer), Abstract().table;
      while true
        invariant Scan(rawBuffer).rest == whole.rest
        invariant AcceptAll(code, Abstract().table, Scan(rawBuffer).symbols) == AcceptAll(code, table, whole.symbols)
        decreases |rawBuffer|
      {
        var found := FindMagicPosition();
        if found == None {
          break;
        }
        ghost var before := rawBuffer;
        if found.value > 0 {
          rawBuffer := rawBuffer[found.value..];
        }
        assert rawBuffer == before[found.value..];
        if |rawBuffer| < FULL_SYMBOL_SIZE {
          DroppedGarbage(before, found.value);
          break;
        }
        var symbolData := rawBuffer[..FULL_SYMBOL_SIZE];
        rawBuffer := rawBuffer[FULL_SYMBOL_SIZE..];
        assert Scan(before).symbols[0] == symbolData && Scan(before).symbols[1..] == Scan(rawBuffer).symbols;
        AcceptSymbol(symbolData);
      }
    }

    method AcceptSymbol(symbolData: seq<byte>)
      requires |symbolData| == FULL_SYMBOL_SIZE
      modifies this`blocks, this`outputBuffer
      ensures Abstract().table == Accept(code, old(Abstract()).table, SymbolBlock(symbolData), SymbolPacket(symbolData))
    {
      var blockId, packet := SymbolBlock(symbolData), SymbolPacket(symbolData);
      if blockId !in blocks {
        blocks := blocks[blockId := FecBlock([], false)];
      }
      var block := blocks[blockId];
      if !block.isDecoded {
        var received := block.received + [packet];
        blocks := blocks[blockId := FecBlock(received, false)];
        var decoded := code.recover(received);
        if decoded.Some? {
          outputBuffer := outputBuffer + decoded.value;
          blocks := blocks[blockId := FecBlock(received, true)];
          if |blocks| > MAX_TRACKED {
            EvictBefore(blockId);
          }
        }
      }
      ghost var t, b := old(Abstract()).table, Tracked(old(blocks), blockId);
      assert old(blocks)[blockId := b][blockId := FecBlock(b.received + [packet], false)]
          == old(blocks)[blockId := FecBlock(b.received + [packet], false)];
      assert old(blocks)[blockId := b][blockId := FecBlock(b.received + [packet], false)][blockId := FecBlock(b.received + [packet], true)]
          == old(blocks)[blockId := FecBlock(b.received + [packet], true)];
      assert blockId in old(blocks) ==> old(blocks)[blockId := b] == old(blocks);
    }

    method EvictBefore(blockId: u32)
      modifies this`blocks
      ensures blocks == Evict(old(blocks), blockId)
    {
      var toRemove := set id | id in blocks && id < SaturatingSub(blockId, 5);
      ghost var gone: set<u32> := {};
      while toRemove != {}
        invariant toRemove !! gone
        invariant forall id :: id in toRemove + gone <==> id in old(blocks) && id < SaturatingSub(blockId, 5)
        invariant blocks == map id | id in old(blocks) && id !in gone :: old(blocks)[id]
        decreases toRemove
      {
        var id :| id in toRemove;
        blocks := map other | other in blocks && other != id :: blocks[other];
        toRemove, gone := toRemove - {id}, gone + {id};
      }
    }

    method FindMagicPosition() returns (pos: Option<nat>)
      ensures pos == FindMagic(rawBuffer)
    {
      var i := 0;
      while i + 2 <= |rawBuffer|
        invariant i <= |rawBuffer|
        invariant forall j: nat :: j < i ==> !MarkerAt(rawBuffer, j)
      {
        if MarkerAt(rawBuffer, i) {
          FindUnique(rawBuffer, i);
          return Some(i);
        }
        i := i + 1;
      }
      FindNone(rawBuffer);
      return None;
    }
  }

  lemma DroppedGarbage(raw: seq<byte>, pos: nat)
    requires FindMagic(raw) == Some(pos) && |raw[pos..]| < FULL_SYMBOL_SIZE
    ensures Scan(raw[pos..]) == Scan(raw) == Scanned([], raw[pos..])
  {
    AlignedFound(raw[pos..]);
    assert raw[pos..][0..] == raw[pos..];
  }
}
