/** Encoder and decoder together: what is pushed into a StreamingEncoder comes out of a
    StreamingDecoder that is fed the drawn frames, disturbed within what they survive. */
module Delivery {
  import opened Bytes
  import opened Fec
  import F = Frame
  import T = FrameTheorems
  import E = StreamEncoder
  import D = StreamDecoder
  import opened BlockIds

  // ------------------------------------------------------------------ padding

  /** Zeros needed to complete the last n-byte unit. */
  function Padding(n: nat, s: seq<byte>): nat
    requires n > 0
  {
    if Rest(n, s) == [] then 0 else n - |Rest(n, s)|
  }

  function Padded(n: nat, s: seq<byte>): seq<byte>
    requires n > 0
  {
    s + Zeros(Padding(n, s))
  }

  lemma PaddedChunks(n: nat, s: seq<byte>)
    requires n > 0
    ensures Rest(n, Padded(n, s)) == []
    ensures Flatten(FullChunks(n, Padded(n, s))) == Padded(n, s)
  {
    hide FullChunks, Rest, Zeros;
    var rest := Rest(n, s);
    if rest == [] {
      assert Padded(n, s) == s;
    } else {
      ChunksIncremental(n, s, Zeros(Padding(n, s)));
      E.OnlyChunk(n, rest + Zeros(Padding(n, s)));
    }
    ChunksConserve(n, Padded(n, s));
    assert Flatten(FullChunks(n, Padded(n, s))) + [] == Flatten(FullChunks(n, Padded(n, s)));
  }

  // ------------------------------------------------------------------ what the encoder queues

  function SourceBlocks(data: seq<byte>): seq<seq<byte>> {
    FullChunks(FEC_BLOCK_SIZE, Padded(FEC_BLOCK_SIZE, data))
  }

  /** The byte stream the frames of a finalized encoder carry, before the last frame is padded. */
  function SymbolStream(code: Code, data: seq<byte>): seq<byte> {
    Flatten(StreamSymbols(code, 0, SourceBlocks(data)))
  }

  function Payloads(code: Code, mode: F.Mode, data: seq<byte>): seq<seq<byte>> {
    FullChunks(E.Capacity(mode), Padded(E.Capacity(mode), SymbolStream(code, data)))
  }

  /** All frames of an encoder that was pushed `data` and finalized. */
  function SentFrames(code: Code, mode: F.Mode, data: seq<byte>): seq<seq<byte>> {
    E.Draw(mode, Payloads(code, mode, data))
  }

  /** Conservation: whatever was pushed, in whatever pieces, the frames queued by then carry the
      symbols of the complete blocks up to the partial frame, and the partial block holds the rest. */
  lemma EncoderConserves(code: Code, mode: F.Mode, data: seq<byte>)
    ensures var st := E.PushStep(code, mode, E.FRESH, data);
      var blocks := FullChunks(FEC_BLOCK_SIZE, data);
      && Flatten(blocks) + st.fecBuffer == data
      && (forall i :: 0 <= i < |st.queue| ==> |st.queue[i]| == F.Width(mode) * F.Height(mode))
      && Flatten(DecodeAll(mode, st.queue)) + st.buffer == Flatten(StreamSymbols(code, 0, blocks))
  {
    hide F.EncodeFrame, F.DecodeFrame, FullChunks, Rest, StreamSymbols;
    var st := E.PushStep(code, mode, E.FRESH, data);
    var n, stream := E.Capacity(mode), Flatten(StreamSymbols(code, 0, FullChunks(FEC_BLOCK_SIZE, data)));
    F.GeometryExact(mode);
    assert [] + data == data && [] + stream == stream;
    ChunksConserve(FEC_BLOCK_SIZE, data);
    ChunksConserve(n, stream);
    ChunksHaveLength(n, stream);
    assert st.queue == E.Draw(mode, FullChunks(n, stream));
    forall i | 0 <= i < |st.queue|
      ensures |st.queue[i]| == F.Width(mode) * F.Height(mode) && F.DecodeFrame(mode, st.queue[i]) == FullChunks(n, stream)[i]
    {
      T.Undisturbed(mode, 128, FullChunks(n, stream)[i], false);
      T.SurvivorSize(mode, st.queue[i], st.queue[i]);
      T.FullFrameSurvives(mode, FullChunks(n, stream)[i], st.queue[i]);
    }
    assert DecodeAll(mode, st.queue) == FullChunks(n, stream);
  }

  function DecodeAll(mode: F.Mode, frames: seq<seq<byte>>): (r: seq<seq<byte>>)
    requires forall i :: 0 <= i < |frames| ==> |frames[i]| == F.Width(mode) * F.Height(mode)
    ensures |r| == |frames|
  {
    seq(|frames|, i requires 0 <= i < |frames| => F.DecodeFrame(mode, frames[i]))
  }

  lemma FinalFrames(code: Code, mode: F.Mode, data: seq<byte>)
    ensures E.Consistent(mode, E.PushStep(code, mode, E.FRESH, data))
    ensures E.FinalizeStep(code, mode, E.PushStep(code, mode, E.FRESH, data)).queue == SentFrames(code, mode, data)
  {
    hide FullChunks, Rest, E.Draw, StreamSymbols, Zeros, F.BytesPerFrame;
    var n, b := E.Capacity(mode), FEC_BLOCK_SIZE;
    var st := E.PushStep(code, mode, E.FRESH, data);
    E.StepsConsistent(code, mode, E.FRESH, data);
    assert [] + data == data;
    var all := Padded(b, data);
    var padded := E.PushStep(code, mode, E.FRESH, all);
    assert [] + all == all;
    if st.fecBuffer == [] {
      assert all == data + [] == data;
      assert padded == st;
    } else {
      E.PushMerges(code, mode, E.FRESH, data, Zeros(Padding(b, data)));
    }
    var stream := SymbolStream(code, data);
    assert [] + stream == stream;
    assert padded.buffer == Rest(n, stream) && padded.queue == [] + E.Draw(mode, FullChunks(n, stream));
    if padded.buffer == [] {
      assert Padded(n, stream) == stream;
    } else {
      var zeros := Zeros(Padding(n, stream));
      E.PackMerges(mode, E.FRESH, stream, zeros);
      assert [] + (stream + zeros) == stream + zeros;
      E.PackKeeps(mode, E.PackStep(mode, E.FRESH, stream), padded.blockId, zeros);
      E.PackIgnoresBlock(mode, E.PackStep(mode, E.FRESH, stream), padded.fecBuffer, zeros);
    }
  }

  // ------------------------------------------------------------------ what the decoder makes of frames

  /** push_frame on every frame in turn; frames of the wrong size are refused. */
  function FeedAll(code: Code, mode: F.Mode, frames: seq<seq<byte>>): D.State
    decreases |frames|
  {
    if frames == [] then D.FRESH
    else
      var n := |frames| - 1;
      var st := FeedAll(code, mode, frames[..n]);
      if |frames[n]| == F.Width(mode) * F.Height(mode) then D.FeedStep(code, st, F.DecodeFrame(mode, frames[n])) else st
  }

  /** Frame by frame, what arrived is what was sent, disturbed within what a frame survives. */
  ghost predicate Arrived(mode: F.Mode, sent: seq<seq<byte>>, received: seq<seq<byte>>) {
    && |sent| <= |received|
    && forall i :: 0 <= i < |sent| ==> T.FrameSurvives(mode, 128, sent[i], received[i])
  }

  lemma {:induction false} FeedsPayloads(code: Code, mode: F.Mode, payloads: seq<seq<byte>>, received: seq<seq<byte>>)
    requires |received| == |payloads| && Arrived(mode, E.Draw(mode, payloads), received)
    requires forall i :: 0 <= i < |payloads| ==> |payloads[i]| == E.Capacity(mode)
    ensures FeedAll(code, mode, received) == D.FeedStep(code, D.FRESH, Flatten(payloads))
    decreases |payloads|
  {
    hide F.EncodeFrame, F.DecodeFrame, T.FrameSurvives, D.FeedStep, F.BytesPerFrame;
    if payloads == [] {
      FeedNothing(code);
    } else {
      var n := |payloads| - 1;
      var before := payloads[..n];
      assert E.Draw(mode, before) == E.Draw(mode, payloads)[..n];
      FeedsPayloads(code, mode, before, received[..n]);
      assert E.Draw(mode, payloads)[n] == F.EncodeFrame(mode, payloads[n], false);
      T.SurvivorSize(mode, F.EncodeFrame(mode, payloads[n], false), received[n]);
      T.FullFrameSurvives(mode, payloads[n], received[n]);
      D.FeedMerges(code, D.FRESH, Flatten(before), payloads[n]);
      FlattenSnoc(before, payloads[n]);
      assert payloads == before + [payloads[n]];
    }
  }

  lemma FeedNothing(code: Code)
    ensures D.FeedStep(code, D.FRESH, []) == D.FRESH
  {
    assert D.Scan([]) == D.Scanned([], []);
  }

  lemma {:induction false} FeedMore(code: Code, mode: F.Mode, frames: seq<seq<byte>>, n: nat)
    requires n <= |frames|
    ensures FeedAll(code, mode, frames[..n]).table.output <= FeedAll(code, mode, frames).table.output
    decreases |frames|
  {
    hide F.DecodeFrame, D.Scan;
    if n == |frames| {
      assert frames[..n] == frames;
    } else {
      var m := |frames| - 1;
      FeedMore(code, mode, frames[..m], n);
      assert frames[..m][..n] == frames[..n];
      if |frames[m]| == F.Width(mode) * F.Height(mode) {
        var st := FeedAll(code, mode, frames[..m]);
        D.OutputGrows(code, st.table, D.Scan(st.raw + F.DecodeFrame(mode, frames[m])).symbols);
      }
    }
  }

  /** Delivery: the encoder's frames, disturbed within what they survive and followed by any other
      frames, decode to the pushed data and its zero padding, and then possibly more. Without
      further frames the output is exactly the padded data, if and only if there are at most
      2^33 - 6 blocks; otherwise at least one block is missing. */
  lemma Delivered(code: Code, mode: F.Mode, data: seq<byte>, received: seq<seq<byte>>)
    requires ValidCode(code) && Arrived(mode, SentFrames(code, mode, data), received)
    ensures var output := FeedAll(code, mode, received).table.output;
      && (|SourceBlocks(data)| <= MAX_BLOCKS ==> Padded(FEC_BLOCK_SIZE, data) <= output)
      && (|received| == |SentFrames(code, mode, data)| ==>
            && (output == Padded(FEC_BLOCK_SIZE, data) <==> |SourceBlocks(data)| <= MAX_BLOCKS)
            && (|SourceBlocks(data)| > MAX_BLOCKS ==> |output| <= FEC_BLOCK_SIZE * (|SourceBlocks(data)| - 1)))
  {
    hide ValidCode, FullChunks, Rest, StreamSymbols, Zeros, F.BytesPerFrame, F.EncodeFrame, F.DecodeFrame, T.FrameSurvives;
    hide D.Scan, D.AcceptAll, Flatten;
    var payloads, blocks := Payloads(code, mode, data), SourceBlocks(data);
    var n, stream := E.Capacity(mode), SymbolStream(code, data);
    PaddedChunks(FEC_BLOCK_SIZE, data);
    ChunksHaveLength(FEC_BLOCK_SIZE, Padded(FEC_BLOCK_SIZE, data));
    WholeStreamDecodes(code, blocks);
    PaddedChunks(n, stream);
    ChunksHaveLength(n, Padded(n, stream));
    var genuine := received[..|payloads|];
    FeedsPayloads(code, mode, payloads, genuine);
    var symbols := StreamSymbols(code, 0, blocks);
    forall i | 0 <= i < |symbols| ensures D.WellFormed(symbols[i]) {
    }
    D.ScanAligned(symbols, Padding(n, stream));
    assert [] + Padded(n, stream) == Padded(n, stream);
    FeedMore(code, mode, received, |payloads|);
    if |received| == |payloads| {
      assert genuine == received;
    }
  }
}
