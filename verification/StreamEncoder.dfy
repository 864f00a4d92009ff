/** StreamingEncoder of nexus-core/src/streaming.rs: data into FEC blocks, blocks into symbols,
    symbols into frames. */
module StreamEncoder {
  import opened Bytes
  import opened Fec
  import F = Frame
  import FrameImages

  /** The encoder between calls: the partial block, the id of the next block, the partial frame,
      and the frames waiting to be popped. */
  datatype State = State(fecBuffer: seq<byte>, blockId: u32, buffer: seq<byte>, queue: seq<seq<byte>>)

  const FRESH := State([], 0, [], [])

  function Capacity(mode: F.Mode): (n: nat)
    ensures n > 0
  {
    F.GeometryExact(mode);
    F.BytesPerFrame(mode)
  }

  ghost predicate Consistent(mode: F.Mode, st: State) {
    |st.fecBuffer| < FEC_BLOCK_SIZE && |st.buffer| < Capacity(mode)
  }

  function Draw(mode: F.Mode, payloads: seq<seq<byte>>): (r: seq<seq<byte>>)
    ensures |r| == |payloads|
  {
    seq(|payloads|, i requires 0 <= i < |payloads| => F.EncodeFrame(mode, payloads[i], false))
  }

  /** Packing bytes into frames: full frames are drawn and queued, the rest stays in the buffer. */
  function PackStep(mode: F.Mode, st: State, bytes: seq<byte>): State {
    var n := Capacity(mode);
    st.(buffer := Rest(n, st.buffer + bytes), queue := st.queue + Draw(mode, FullChunks(n, st.buffer + bytes)))
  }

  function PushStep(code: Code, mode: F.Mode, st: State, data: seq<byte>): State {
    var blocks := FullChunks(FEC_BLOCK_SIZE, st.fecBuffer + data);
    PackStep(mode, st, Flatten(StreamSymbols(code, st.blockId, blocks)))
      .(fecBuffer := Rest(FEC_BLOCK_SIZE, st.fecBuffer + data), blockId := SkipBlocks(st.blockId, |blocks|))
  }

  /** Zero-pads the partial block, then the partial frame. */
  function FinalizeStep(code: Code, mode: F.Mode, st: State): State
    requires Consistent(mode, st)
  {
    PadLastFrame(mode, PadLastBlock(code, mode, st))
  }

  function PadLastBlock(code: Code, mode: F.Mode, st: State): State
    requires Consistent(mode, st)
  {
    if st.fecBuffer == [] then st else PushStep(code, mode, st, Zeros(FEC_BLOCK_SIZE - |st.fecBuffer|))
  }

  function PadLastFrame(mode: F.Mode, st: State): State
    requires |st.buffer| <= Capacity(mode)
  {
    if st.buffer == [] then st else PackStep(mode, st, Zeros(Capacity(mode) - |st.buffer|))
  }

  // ------------------------------------------------------------------ incremental behaviour

  lemma DrawAppend(mode: F.Mode, a: seq<seq<byte>>, b: seq<seq<byte>>)
    ensures Draw(mode, a + b) == Draw(mode, a) + Draw(mode, b)
  {
  }

  lemma PackMerges(mode: F.Mode, st: State, x: seq<byte>, y: seq<byte>)
    ensures PackStep(mode, PackStep(mode, st, x), y) == PackStep(mode, st, x + y)
  {
    hide FullChunks, Rest, Draw, Capacity;
    var n := Capacity(mode);
    ChunksIncremental(n, st.buffer + x, y);
    Assoc(st.buffer, x, y);
    var cx, cy := FullChunks(n, st.buffer + x), FullChunks(n, Rest(n, st.buffer + x) + y);
    DrawAppend(mode, cx, cy);
    Assoc(st.queue, Draw(mode, cx), Draw(mode, cy));
  }

  /** Pushing a and then b leaves exactly the state that pushing a + b leaves. */
  lemma PushMerges(code: Code, mode: F.Mode, st: State, a: seq<byte>, b: seq<byte>)
    ensures PushStep(code, mode, PushStep(code, mode, st, a), b) == PushStep(code, mode, st, a + b)
  {
    hide FullChunks, Rest, Draw, Capacity, StreamSymbols, Flatten;
    var n := FEC_BLOCK_SIZE;
    ChunksIncremental(n, st.fecBuffer + a, b);
    Assoc(st.fecBuffer, a, b);
    var ca, cb := FullChunks(n, st.fecBuffer + a), FullChunks(n, Rest(n, st.fecBuffer + a) + b);
    var mid := SkipBlocks(st.blockId, |ca|);
    SkipAdd(st.blockId, |ca|, |cb|);
    StreamSymbolsAppend(code, st.blockId, ca, cb);
    FlattenAppend(StreamSymbols(code, st.blockId, ca), StreamSymbols(code, mid, cb));
    PackMerges(mode, st, Flatten(StreamSymbols(code, st.blockId, ca)), Flatten(StreamSymbols(code, mid, cb)));
  }

  lemma StepsConsistent(code: Code, mode: F.Mode, st: State, data: seq<byte>)
    requires Consistent(mode, st)
    ensures Consistent(mode, PushStep(code, mode, st, data))
    ensures var f := FinalizeStep(code, mode, st); f.fecBuffer == [] && f.buffer == []
  {
    hide Draw, StreamSymbols, Flatten, Capacity, Zeros;
    if st.fecBuffer != [] {
      ChunksExact(FEC_BLOCK_SIZE, [st.fecBuffer + Zeros(FEC_BLOCK_SIZE - |st.fecBuffer|)], []);
      OnlyChunk(FEC_BLOCK_SIZE, st.fecBuffer + Zeros(FEC_BLOCK_SIZE - |st.fecBuffer|));
    }
    var padded := if st.fecBuffer == [] then st else PushStep(code, mode, st, Zeros(FEC_BLOCK_SIZE - |st.fecBuffer|));
    if padded.buffer != [] {
      OnlyChunk(Capacity(mode), padded.buffer + Zeros(Capacity(mode) - |padded.buffer|));
    }
  }

  lemma OnlyChunk(n: nat, s: seq<byte>)
    requires n > 0 && |s| == n
    ensures FullChunks(n, s) == [s] && Rest(n, s) == []
  {
    assert s[..n] == s && s[n..] == [];
  }

  /** A second finalize adds nothing. */
  lemma FinalizeTwice(code: Code, mode: F.Mode, st: State)
    requires Consistent(mode, st)
    ensures Consistent(mode, FinalizeStep(code, mode, st))
    ensures FinalizeStep(code, mode, FinalizeStep(code, mode, st)) == FinalizeStep(code, mode, st)
  {
    StepsConsistent(code, mode, st, []);
  }

  lemma PackNothing(mode: F.Mode, st: State)
    requires |st.buffer| < Capacity(mode)
    ensures PackStep(mode, st, []) == st
  {
    assert st.buffer + [] == st.buffer;
    assert st.queue + Draw(mode, []) == st.queue;
  }

  // One turn of pack_symbol_to_frames.
  lemma PackSome(mode: F.Mode, st: State, remaining: seq<byte>, toCopy: nat)
    requires |st.buffer| < Capacity(mode) && toCopy == F.Min(|remaining|, Capacity(mode) - |st.buffer|)
    ensures
      var filled := st.buffer + remaining[..toCopy];
      var next := if |filled| == Capacity(mode)
                  then st.(buffer := [], queue := st.queue + [F.EncodeFrame(mode, filled, false)])
                  else st.(buffer := filled);
      PackStep(mode, next, remaining[toCopy..]) == PackStep(mode, st, remaining)
  {
    var filled := st.buffer + remaining[..toCopy];
    assert remaining[..toCopy] + remaining[toCopy..] == remaining;
    PackMerges(mode, st, remaining[..toCopy], remaining[toCopy..]);
    hide F.EncodeFrame;
    if |filled| == Capacity(mode) {
      OnlyChunk(Capacity(mode), filled);
      assert Draw(mode, [filled]) == [F.EncodeFrame(mode, filled, false)];
    } else {
      assert st.queue + Draw(mode, []) == st.queue;
    }
  }

  // One turn of push_data.
  lemma PushSome(code: Code, mode: F.Mode, st: State, remaining: seq<byte>, toCopy: nat)
    requires Consistent(mode, st) && toCopy == F.Min(|remaining|, FEC_BLOCK_SIZE - |st.fecBuffer|)
    ensures
      var filled := st.fecBuffer + remaining[..toCopy];
      var next := if |filled| == FEC_BLOCK_SIZE
                  then PackStep(mode, st, Flatten(BlockSymbols(code, st.blockId, filled)))
                         .(blockId := NextBlock(st.blockId), fecBuffer := [])
                  else st.(fecBuffer := filled);
      PushStep(code, mode, next, remaining[toCopy..]) == PushStep(code, mode, st, remaining)
  {
    hide BlockSymbols, NextBlock, Capacity;
    var filled := st.fecBuffer + remaining[..toCopy];
    assert remaining[..toCopy] + remaining[toCopy..] == remaining;
    PushMerges(code, mode, st, remaining[..toCopy], remaining[toCopy..]);
    if |filled| == FEC_BLOCK_SIZE {
      PushBlock(code, mode, st, remaining[..toCopy]);
    } else {
      assert StreamSymbols(code, st.blockId, []) == [] && SkipBlocks(st.blockId, 0) == st.blockId;
      PackNothing(mode, st);
    }
  }

  lemma PushBlock(code: Code, mode: F.Mode, st: State, data: seq<byte>)
    requires |st.fecBuffer + data| == FEC_BLOCK_SIZE
    ensures PushStep(code, mode, st, data)
         == PackStep(mode, st, Flatten(BlockSymbols(code, st.blockId, st.fecBuffer + data)))
              .(blockId := NextBlock(st.blockId), fecBuffer := [])
  {
    hide BlockSymbols, NextBlock, PackStep;
    var filled := st.fecBuffer + data;
    OnlyChunk(FEC_BLOCK_SIZE, filled);
    assert StreamSymbols(code, st.blockId, [filled]) == BlockSymbols(code, st.blockId, filled) by {
      var one: seq<seq<byte>> := [filled];
      assert one[1..] == [];
      assert StreamSymbols(code, NextBlock(st.blockId), []) == [];
    }
    assert SkipBlocks(st.blockId, 1) == SkipBlocks(NextBlock(st.blockId), 0);
  }

  // Packing neither reads nor writes the block buffer and the block id.
  lemma PackKeeps(mode: F.Mode, st: State, blockId: u32, bytes: seq<byte>)
    ensures PackStep(mode, st.(blockId := blockId), bytes) == PackStep(mode, st, bytes).(blockId := blockId)
  {
  }

  lemma PackIgnoresBlock(mode: F.Mode, st: State, fecBuffer: seq<byte>, bytes: seq<byte>)
    ensures PackStep(mode, st.(fecBuffer := fecBuffer), bytes) == PackStep(mode, st, bytes).(fecBuffer := fecBuffer)
  {
  }

  lemma PushNothing(code: Code, mode: F.Mode, st: State)
    requires Consistent(mode, st)
    ensures PushStep(code, mode, st, []) == st
  {
    assert st.fecBuffer + [] == st.fecBuffer;
    assert StreamSymbols(code, st.blockId, []) == [] && SkipBlocks(st.blockId, 0) == st.blockId;
    PackNothing(mode, st);
  }

  lemma PadFrame(mode: F.Mode, st: State)
    requires 0 < |st.buffer| < Capacity(mode)
    ensures var filled := st.buffer + Zeros(Capacity(mode) - |st.buffer|);
      PackStep(mode, st, Zeros(Capacity(mode) - |st.buffer|))
        == st.(buffer := [], queue := st.queue + [F.EncodeFrame(mode, filled, false)])
  {
    hide F.EncodeFrame;
    var filled := st.buffer + Zeros(Capacity(mode) - |st.buffer|);
    OnlyChunk(Capacity(mode), filled);
    assert Draw(mode, [filled]) == [F.EncodeFrame(mode, filled, false)];
  }

  /** Popped frames stay in front of what is queued later. */
  lemma QueueAppends(code: Code, mode: F.Mode, st: State, popped: seq<seq<byte>>, data: seq<byte>)
    ensures PushStep(code, mode, st.(queue := popped + st.queue), data)
         == var t := PushStep(code, mode, st, data); t.(queue := popped + t.queue)
  {
    var bytes := Flatten(StreamSymbols(code, st.blockId, FullChunks(FEC_BLOCK_SIZE, st.fecBuffer + data)));
    PackAppends(mode, st, popped, bytes);
  }

  lemma PackAppends(mode: F.Mode, st: State, popped: seq<seq<byte>>, bytes: seq<byte>)
    ensures PackStep(mode, st.(queue := popped + st.queue), bytes)
         == var t := PackStep(mode, st, bytes); t.(queue := popped + t.queue)
  {
    hide FullChunks, Rest, Draw, Capacity;
    Assoc(popped, st.queue, Draw(mode, FullChunks(Capacity(mode), st.buffer + bytes)));
  }

  lemma FinalizeAppends(code: Code, mode: F.Mode, st: State, popped: seq<seq<byte>>)
    requires Consistent(mode, st)
    ensures FinalizeStep(code, mode, st.(queue := popped + st.queue))
         == var t := FinalizeStep(code, mode, st); t.(queue := popped + t.queue)
  {
    hide PushStep, PackStep, Capacity;
    var padded := if st.fecBuffer == [] then st else PushStep(code, mode, st, Zeros(FEC_BLOCK_SIZE - |st.fecBuffer|));
    if st.fecBuffer != [] {
      QueueAppends(code, mode, st, popped, Zeros(FEC_BLOCK_SIZE - |st.fecBuffer|));
    }
    if padded.buffer != [] {
      StepsConsistent(code, mode, st, if st.fecBuffer == [] then [] else Zeros(FEC_BLOCK_SIZE - |st.fecBuffer|));
      PackAppends(mode, padded, popped, Zeros(Capacity(mode) - |padded.buffer|));
    }
  }

  // ------------------------------------------------------------------ the stateful object

  class StreamingEncoder {
    const code: Code
    const mode: F.Mode
    const bytesPerFrame: nat
    var fecBuffer: seq<byte>
    var currentBlockId: u32
    var buffer: seq<byte>
    var frameCount: nat
    var frameQueue: seq<seq<byte>>

    ghost function Abstract(): State
      reads this
    {
      State(fecBuffer, currentBlockId, buffer, frameQueue)
    }

    ghost predicate Valid()
      reads this
    {
      bytesPerFrame == Capacity(mode) && Consistent(mode, Abstract())
    }

    constructor (code: Code, mode: F.Mode)
      ensures Valid() && this.code == code && this.mode == mode && Abstract() == FRESH && frameCount == 0
    {
      this.code, this.mode, bytesPerFrame := code, mode, Capacity(mode);
      fecBuffer, currentBlockId, buffer, frameCount, frameQueue := [], 0, [], 0, [];
    }

    method GenerateFrame() returns (frame: seq<byte>)
      modifies this`frameCount
      ensures frame == F.EncodeFrame(mode, buffer, false) && frameCount == old(frameCount) + 1
    {
      frame := FrameImages.GenerateFrame(mode, buffer);
      frameCount := frameCount + 1;
    }

    method PackSymbolToFrames(symbol: seq<byte>) returns (framesAdded: nat)
      requires bytesPerFrame == Capacity(mode) && |buffer| < bytesPerFrame
      modifies this`buffer, this`frameCount, this`frameQueue
      ensures |buffer| < bytesPerFrame && Abstract() == PackStep(mode, old(Abstract()), symbol)
      ensures framesAdded == |frameQueue| - |old(frameQueue)| == frameCount - old(frameCount)
    {
      hide PackStep, F.EncodeFrame;
      framesAdded := 0;
      var remaining := symbol;
      while remaining != []
        invariant |buffer| < bytesPerFrame
        invariant framesAdded == |frameQueue| - |old(frameQueue)| == frameCount - old(frameCount)
        invariant PackStep(mode, Abstract(), remaining) == PackStep(mode, old(Abstract()), symbol)
        decreases |remaining|
      {
        var space := bytesPerFrame - |buffer|;
        var toCopy := F.Min(|remaining|, space);
        PackSome(mode, Abstract(), remaining, toCopy);
        buffer := buffer + remaining[..toCopy];
        remaining := remaining[toCopy..];
        if |buffer| == bytesPerFrame {
          var frame := GenerateFrame();
          frameQueue := frameQueue + [frame];
          buffer := [];
          framesAdded := framesAdded + 1;
        }
      }
      PackNothing(mode, Abstract());
    }

    method EncodeFecBlock() returns (framesAdded: nat)
      requires bytesPerFrame == Capacity(mode) && |buffer| < bytesPerFrame
      modifies this`currentBlockId, this`buffer, this`frameCount, this`frameQueue
      ensures |buffer| < bytesPerFrame
      ensures Abstract() == PackStep(mode, old(Abstract()), Flatten(BlockSymbols(code, old(currentBlockId), fecBuffer)))
                              .(blockId := NextBlock(old(currentBlockId)))
      ensures framesAdded == |frameQueue| - |old(frameQueue)| == frameCount - old(frameCount)
    {
      hide PackStep, NextBlock, WrapSymbol;
      var blockId := currentBlockId;
      currentBlockId := NextBlock(currentBlockId);
      var symbols := BlockSymbols(code, blockId, fecBuffer);
      framesAdded := 0;
      ghost var start := Abstract();
      PackNothing(mode, start);
      assert symbols[..0] == [];
      for i := 0 to |symbols|
        invariant |buffer| < bytesPerFrame
        invariant framesAdded == |frameQueue| - |old(frameQueue)| == frameCount - old(frameCount)
        invariant Abstract() == PackStep(mode, start, Flatten(symbols[..i]))
      {
        PackMerges(mode, start, Flatten(symbols[..i]), symbols[i]);
        FlattenSnoc(symbols[..i], symbols[i]);
        assert symbols[..i + 1] == symbols[..i] + [symbols[i]];
        var n := PackSymbolToFrames(symbols[i]);
        framesAdded := framesAdded + n;
      }
      assert symbols[..|symbols|] == symbols;
      PackKeeps(mode, old(Abstract()), NextBlock(blockId), Flatten(symbols));
    }

    /** Returns the number of frames it queued. */
    method PushData(data: seq<byte>) returns (framesAdded: nat)
      requires Valid()
      modifies this`fecBuffer, this`currentBlockId, this`buffer, this`frameCount, this`frameQueue
      ensures Valid() && Abstract() == PushStep(code, mode, old(Abstract()), data)
      ensures framesAdded == |frameQueue| - |old(frameQueue)| == frameCount - old(frameCount)
    {
      hide PushStep, PackStep, BlockSymbols, NextBlock;
      framesAdded := 0;
      var remaining := data;
      while remaining != []
        invariant Valid() && framesAdded == |frameQueue| - |old(frameQueue)| == frameCount - old(frameCount)
        invariant PushStep(code, mode, Abstract(), remaining) == PushStep(code, mode, old(Abstract()), data)
        decreases |remaining|
      {
        var space := FEC_BLOCK_SIZE - |fecBuffer|;
        var toCopy := F.Min(|remaining|, space);
        PushSome(code, mode, Abstract(), remaining, toCopy);
        ghost var before := Abstract();
        fecBuffer := fecBuffer + remaining[..toCopy];
        remaining := remaining[toCopy..];
        if |fecBuffer| == FEC_BLOCK_SIZE {
          PackIgnoresBlock(mode, before, fecBuffer, Flatten(BlockSymbols(code, currentBlockId, fecBuffer)));
          var n := EncodeFecBlock();
          framesAdded := framesAdded + n;
          fecBuffer := [];
        }
      }
      PushNothing(code, mode, Abstract());
    }

    method PopFrame() returns (frame: Option<seq<byte>>)
      requires Valid()
      modifies this`frameQueue
      ensures Valid()
      ensures old(frameQueue) == [] ==> frame == None && frameQueue == []
      ensures old(frameQueue) != [] ==> frame.Some? && [frame.value] + frameQueue == old(frameQueue)
    {
      if frameQueue == [] {
        return None;
      }
      frame := Some(frameQueue[0]);
      frameQueue := frameQueue[1..];
    }

    method Finalize()
      requires Valid()
      modifies this`fecBuffer, this`currentBlockId, this`buffer, this`frameCount, this`frameQueue
      ensures Valid() && Abstract() == FinalizeStep(code, mode, old(Abstract()))
    {
      hide PadLastBlock, PadLastFrame;
      FinishBlock();
      FinishFrame();
    }

    method FinishBlock()
      requires Valid()
      modifies this`fecBuffer, this`currentBlockId, this`buffer, this`frameCount, this`frameQueue
      ensures Valid() && Abstract() == PadLastBlock(code, mode, old(Abstract()))
    {
      hide PushStep, PackStep, BlockSymbols, NextBlock;
      if fecBuffer != [] {
        ghost var start := Abstract();
        ghost var pad := Zeros(FEC_BLOCK_SIZE - |fecBuffer|);
        fecBuffer := fecBuffer + Zeros(FEC_BLOCK_SIZE - |fecBuffer|);
        PushBlock(code, mode, start, pad);
        PackIgnoresBlock(mode, start, fecBuffer, Flatten(BlockSymbols(code, currentBlockId, fecBuffer)));
        var _ := EncodeFecBlock();
        fecBuffer := [];
      }
    }

    method FinishFrame()
      requires Valid()
      modifies this`buffer, this`frameCount, this`frameQueue
      ensures Valid() && Abstract() == PadLastFrame(mode, old(Abstract()))
    {
      hide PackStep;
      if buffer != [] {
        PadFrame(mode, Abstract());
        buffer := buffer + Zeros(bytesPerFrame - |buffer|);
        var frame := GenerateFrame();
        frameQueue := frameQueue + [frame];
        buffer := [];
      }
    }
  }
}
