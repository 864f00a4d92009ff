/** The glue of nexus-daemon: StreamingNexusWriter (pipeline.go) on the sending side, the streaming
    branch of the download (queue.go) on the receiving side, and the theorem that joins them. */
module Pipeline {
  import opened Bytes
  import opened Fec
  import C = CryptoStream
  import ST = StreamTheorems
  import F = Frame
  import E = StreamEncoder
  import D = StreamDecoder
  import opened BlockIds
  import opened Delivery

  /** Everything the writer pushes into the encoder: the nonce prefix, then the encrypted stream. */
  function Upload(a: C.Aead, prefix: seq<byte>, written: seq<byte>): seq<byte> {
    prefix + ST.EncryptedStream(a, prefix, written, [])
  }

  // ------------------------------------------------------------------ sending

  /** What the encoder has been given while the writer is open. */
  ghost function PushedSoFar(a: C.Aead, prefix: seq<byte>, written: seq<byte>): seq<byte> {
    prefix + C.EncryptStep(a, prefix, C.FRESH, written).result.bytes
  }

  /** The cipher has sealed, and the encoder has been pushed, what `written` demands; the frames
      handled and those still queued are all frames made so far. */
  ghost predicate Sent(a: C.Aead, prefix: seq<byte>, code: Code, mode: F.Mode, written: seq<byte>,
                       cipher: C.State, encoder: E.State, handled: seq<seq<byte>>)
  {
    && cipher == C.EncryptStep(a, prefix, C.FRESH, written).state
    && encoder.(queue := handled + encoder.queue) == E.PushStep(code, mode, E.FRESH, PushedSoFar(a, prefix, written))
  }

  /** No call of the frame handler from number `from` up to `to` failed. */
  predicate NoneFails(fails: nat -> bool, from: nat, to: int) {
    forall k: nat :: from <= k < to ==> !fails(k)
  }

  class StreamingNexusWriter {
    const crypto: C.StreamingContext
    const encoder: E.StreamingEncoder
    var closed: bool
    var handled: seq<seq<byte>>     // frames given to the frame handler, in order
    ghost var written: seq<byte>    // everything passed to Write while open

    ghost predicate Valid()
      reads this, crypto, encoder
    {
      && crypto.Valid() && crypto.mode == C.Encrypt && encoder.Valid()
      && (!closed ==>
            Sent(crypto.aead, crypto.noncePrefix, encoder.code, encoder.mode, written,
                 crypto.Abstract(), encoder.Abstract(), handled))
      && (closed ==>
            handled + encoder.frameQueue
            == SentFrames(encoder.code, encoder.mode, Upload(crypto.aead, crypto.noncePrefix, written)))
    }

    constructor (aead: C.Aead, prefix: seq<byte>, code: Code, mode: F.Mode)
      requires |prefix| == C.STREAM_PREFIX_LEN
      ensures Valid() && !closed && written == []
      ensures crypto.aead == aead && crypto.noncePrefix == prefix && encoder.code == code && encoder.mode == mode
      ensures fresh(crypto) && fresh(encoder)
    {
      var ctx := new C.StreamingContext.NewEncrypt(aead, prefix);
      var enc := new E.StreamingEncoder(code, mode);
      var _ := enc.PushData(prefix);
      crypto, encoder := ctx, enc;
      closed, handled, written := false, [], [];
      new;
      NoFrameYet(code, mode, prefix);
      assert FullChunks<byte>(C.STREAM_CHUNK_SIZE, []) == [];
      assert prefix + [] == prefix;
    }

    /** Encrypts and encodes p. Below the C interface an empty push is refused, so the call reports
        an error, although p is buffered, when p completes no chunk; and it does when the frame
        handler fails (`fails` tells by the number of the call). */
    method Write(p: seq<byte>, fails: nat -> bool) returns (n: nat, ok: bool)
      requires Valid()
      modifies this, crypto, encoder
      ensures Valid() && closed == old(closed) && old(handled) <= handled
      ensures old(closed) ==> !ok && n == 0 && written == old(written) && handled == old(handled)
      ensures !old(closed) ==>
        && written == old(written) + p
        && (ok <==> |old(crypto.buffer)| + |p| >= C.STREAM_CHUNK_SIZE && NoneFails(fails, |old(handled)|, |handled|))
        && (ok ==> encoder.frameQueue == [])
        && n == if ok then |p| else 0
      ensures NoneFails(fails, |old(handled)|, |handled| - 1)
    {
      if closed {
        return 0, false;
      }
      hide C.EncryptStep, E.PushStep, Sent, PushedSoFar, SentFrames, Upload, NoneFails, C.StreamingContext.Valid, E.StreamingEncoder.Valid;
      ghost var cipher, enc, before := crypto.Abstract(), encoder.Abstract(), handled;
      WriteKeeps(crypto.aead, crypto.noncePrefix, encoder.code, encoder.mode, written, cipher, enc, before, p);
      var r := crypto.EncryptUpdate(p);
      written := written + p;
      if r.bytes == [] {
        return 0, false;
      }
      ghost var next := E.PushStep(encoder.code, encoder.mode, enc, r.bytes);
      ok := PushAndHandle(r.bytes, fails);
      SentMoves(crypto.aead, crypto.noncePrefix, encoder.code, encoder.mode, written, crypto.Abstract(),
                next, before, encoder.Abstract(), handled);
      n := if ok then |p| else 0;
    }

    method PushAndHandle(sealed: seq<byte>, fails: nat -> bool) returns (ok: bool)
      requires encoder.Valid()
      modifies this`handled, encoder
      ensures encoder.Valid() && old(handled) <= handled
      ensures ok <==> NoneFails(fails, |old(handled)|, |handled|)
      ensures ok ==> encoder.frameQueue == []
      ensures NoneFails(fails, |old(handled)|, |handled| - 1)
      ensures
        var next := E.PushStep(encoder.code, encoder.mode, old(encoder.Abstract()), sealed);
        && handled + encoder.frameQueue == old(handled) + next.queue
        && encoder.Abstract() == next.(queue := encoder.frameQueue)
    {
      hide E.PushStep, NoneFails, E.Consistent, E.Capacity;
      var _ := encoder.PushData(sealed);
      ok := HandleFrames(fails);
    }

    /** Pops frames and gives them to the handler until none is ready or the handler fails; only the
        last call can fail, and its frame is gone. */
    method HandleFrames(fails: nat -> bool) returns (ok: bool)
      requires encoder.Valid()
      modifies this`handled, encoder`frameQueue
      ensures encoder.Valid() && old(handled) <= handled
      ensures handled + encoder.frameQueue == old(handled + encoder.frameQueue)
      ensures ok <==> NoneFails(fails, |old(handled)|, |handled|)
      ensures ok ==> encoder.frameQueue == []
      ensures NoneFails(fails, |old(handled)|, |handled| - 1)
    {
      while true
        invariant encoder.Valid() && old(handled) <= handled
        invariant handled + encoder.frameQueue == old(handled + encoder.frameQueue)
        invariant NoneFails(fails, |old(handled)|, |handled|)
        decreases |encoder.frameQueue|
      {
        ghost var before, queue := handled, encoder.frameQueue;
        var frame := encoder.PopFrame();
        if frame == None {
          break;
        }
        handled := handled + [frame.value];
        assert handled + encoder.frameQueue == before + queue;
        if fails(|handled| - 1) {
          return false;
        }
      }
      ok := true;
    }

    /** Afterwards the frames handled, and those dropped because the handler failed, are those of
        everything written; without a failure all of them have been handled. */
    method Close(fails: nat -> bool) returns (ok: bool)
      requires Valid()
      modifies this, crypto, encoder
      ensures Valid() && closed && written == old(written) && old(handled) <= handled
      ensures ok <==> NoneFails(fails, |old(handled)|, |handled|)
      ensures old(closed) ==> handled == old(handled)
      ensures NoneFails(fails, |old(handled)|, |handled| - 1)
      ensures !old(closed) ==>
        handled <= SentFrames(encoder.code, encoder.mode, Upload(crypto.aead, crypto.noncePrefix, written))
      ensures ok && !old(closed) ==>
        handled == SentFrames(encoder.code, encoder.mode, Upload(crypto.aead, crypto.noncePrefix, written))
    {
      if closed {
        return true;
      }
      hide C.EncryptStep, C.FinalEncryptStep, E.PushStep, E.FinalizeStep, Sent, SentFrames, Upload, NoneFails, C.StreamingContext.Valid, E.StreamingEncoder.Valid;
      closed := true;
      ghost var cipher, enc, before := crypto.Abstract(), encoder.Abstract(), handled;
      CloseKeeps(crypto.aead, crypto.noncePrefix, encoder.code, encoder.mode, written, cipher, enc, before);
      var last := crypto.FinalizeEncrypt([]);
      if |last.bytes| > 0 {
        var _ := encoder.PushData(last.bytes);
      }
      encoder.Finalize();
      ok := HandleFrames(fails);
      HandledFirst(handled, encoder.frameQueue);
    }
  }

  lemma HandledFirst(handled: seq<seq<byte>>, queue: seq<seq<byte>>)
    ensures handled <= handled + queue && (queue == [] ==> handled + queue == handled)
  {
  }

  // Handling frames moves them and changes nothing else.
  lemma SentMoves(a: C.Aead, prefix: seq<byte>, code: Code, mode: F.Mode, written: seq<byte>, cipher: C.State,
                  encoder: E.State, handled: seq<seq<byte>>, encoder': E.State, handled': seq<seq<byte>>)
    requires Sent(a, prefix, code, mode, written, cipher, encoder, handled)
    requires encoder' == encoder.(queue := encoder'.queue) && handled' + encoder'.queue == handled + encoder.queue
    ensures Sent(a, prefix, code, mode, written, cipher, encoder', handled')
  {
    hide C.EncryptStep, E.PushStep, PushedSoFar;
  }

  // What Write needs to know about one more piece.
  lemma WriteKeeps(a: C.Aead, prefix: seq<byte>, code: Code, mode: F.Mode, written: seq<byte>,
                   cipher: C.State, encoder: E.State, handled: seq<seq<byte>>, p: seq<byte>)
    requires Sent(a, prefix, code, mode, written, cipher, encoder, handled)
    ensures var t := C.EncryptStep(a, prefix, cipher, p);
      && t.result.Ok? && !cipher.finalized
      && (t.result.bytes == [] <==> |cipher.buffer| + |p| < C.STREAM_CHUNK_SIZE)
      && (t.result.bytes == [] ==> Sent(a, prefix, code, mode, written + p, t.state, encoder, handled))
      && Sent(a, prefix, code, mode, written + p, t.state, E.PushStep(code, mode, encoder, t.result.bytes), handled)
  {
    hide C.EncryptStep, E.PushStep, PushedSoFar;
    WriteStep(a, prefix, written, p);
    var t := C.EncryptStep(a, prefix, cipher, p);
    var pushed := PushedSoFar(a, prefix, written);
    if t.result.bytes == [] {
      assert pushed + [] == pushed;
    }
    E.PushMerges(code, mode, E.FRESH, pushed, t.result.bytes);
    E.QueueAppends(code, mode, encoder, handled, t.result.bytes);
  }

  // What Close needs to know about the final chunk.
  lemma CloseKeeps(a: C.Aead, prefix: seq<byte>, code: Code, mode: F.Mode, written: seq<byte>,
                   cipher: C.State, encoder: E.State, handled: seq<seq<byte>>)
    requires Sent(a, prefix, code, mode, written, cipher, encoder, handled)
    ensures var f := C.FinalEncryptStep(a, prefix, cipher, []);
      && f.result.Ok? && f.result.bytes != []
      && handled + E.FinalizeStep(code, mode, E.PushStep(code, mode, encoder, f.result.bytes)).queue
         == SentFrames(code, mode, Upload(a, prefix, written))
  {
    hide C.EncryptStep, C.FinalEncryptStep, E.PushStep, E.FinalizeStep, PushedSoFar, SentFrames, Upload;
    CloseStep(a, prefix, written);
    var last := C.FinalEncryptStep(a, prefix, cipher, []).result.bytes;
    var pushed := PushedSoFar(a, prefix, written);
    E.PushMerges(code, mode, E.FRESH, pushed, last);
    FinalFrames(code, mode, pushed + last);
    E.QueueAppends(code, mode, encoder, handled, last);
    var st := E.PushStep(code, mode, encoder, last);
    assert E.Consistent(mode, st.(queue := handled + st.queue));
    E.FinalizeAppends(code, mode, st, handled);
  }

  lemma NoFrameYet(code: Code, mode: F.Mode, prefix: seq<byte>)
    requires |prefix| == C.STREAM_PREFIX_LEN
    ensures E.PushStep(code, mode, E.FRESH, prefix) == E.State(prefix, 0, [], [])
  {
    assert [] + prefix == prefix;
    assert StreamSymbols(code, 0, []) == [] && SkipBlocks(0, 0) == 0;
    E.PackNothing(mode, E.FRESH);
  }

  // Writing p after `written` does to the cipher state what one write of both does; some bytes
  // come out exactly when a chunk is completed.
  lemma WriteStep(a: C.Aead, prefix: seq<byte>, written: seq<byte>, p: seq<byte>)
    ensures var s := C.EncryptStep(a, prefix, C.FRESH, written);
      var t := C.EncryptStep(a, prefix, s.state, p);
      && s.result.Ok? && t.result.Ok?
      && C.EncryptStep(a, prefix, C.FRESH, written + p).result.Ok?
      && C.EncryptStep(a, prefix, C.FRESH, written + p).state == t.state
      && PushedSoFar(a, prefix, written + p) == PushedSoFar(a, prefix, written) + t.result.bytes
      && (t.result.bytes == [] <==> |s.state.buffer| + |p| < C.STREAM_CHUNK_SIZE)
      && !s.state.finalized
  {
    hide C.Header, C.Nonce;
    ST.EncryptStepsMerge(a, prefix, C.FRESH, written, p);
    var s := C.EncryptStep(a, prefix, C.FRESH, written);
    var t := C.EncryptStep(a, prefix, s.state, p);
    assert prefix + (s.result.bytes + t.result.bytes) == prefix + s.result.bytes + t.result.bytes;
    if |s.state.buffer| + |p| < C.STREAM_CHUNK_SIZE {
      assert FullChunks(C.STREAM_CHUNK_SIZE, s.state.buffer + p) == [];
    } else {
      assert FullChunks(C.STREAM_CHUNK_SIZE, s.state.buffer + p) != [];
    }
  }

  lemma CloseStep(a: C.Aead, prefix: seq<byte>, written: seq<byte>)
    ensures var s := C.EncryptStep(a, prefix, C.FRESH, written);
      var f := C.FinalEncryptStep(a, prefix, s.state, []);
      && s.result.Ok? && f.result.Ok? && f.result.bytes != []
      && Upload(a, prefix, written) == PushedSoFar(a, prefix, written) + f.result.bytes
  {
    hide C.Header, C.Nonce;
    ST.EncryptionIgnoresSplits(a, prefix, [written], []);
    assert Flatten([written]) == written by { ST.FlattenSingle([written]); }
    ST.EncryptRunMerges(a, prefix, C.FRESH, [written]);
    var s := C.EncryptStep(a, prefix, C.FRESH, written);
    var f := C.FinalEncryptStep(a, prefix, s.state, []);
    assert prefix + (s.result.bytes + f.result.bytes) == prefix + s.result.bytes + f.result.bytes;
  }

  // ------------------------------------------------------------------ receiving

  datatype DownloadResult = Recovered(plain: seq<byte>) | NoData | TooShort | DecryptionFailed

  /** The streaming branch of the download: decode all frames, take the first 16 bytes as nonce
      prefix, decrypt the rest and finalize. The fallbacks for older formats are not modelled. */
  method Download(a: C.Aead, code: Code, mode: F.Mode, frames: seq<seq<byte>>) returns (r: DownloadResult)
    ensures r == DownloadSpec(a, FeedAll(code, mode, frames).table.output)
    ensures r.NoData? <==> FeedAll(code, mode, frames).table.output == []
    ensures r.TooShort? <==> 0 < |FeedAll(code, mode, frames).table.output| < 16
  {
    var decoder := new D.StreamingDecoder(code, mode);
    assert frames[..0] == [];
    hide FeedAll, D.FeedStep, F.DecodeFrame, C.FinalDecryptStep;
    assert FeedAll(code, mode, []) == D.FRESH by { FeedAllEmpty(code, mode); }
    for i := 0 to |frames|
      invariant decoder.code == code && decoder.mode == mode
      invariant decoder.Abstract() == FeedAll(code, mode, frames[..i])
    {
      var _ := decoder.PushFrame(frames[i]);
      FeedAllSnoc(code, mode, frames, i);
    }
    assert frames[..|frames|] == frames;
    var rawData := decoder.PopData();
    if rawData == [] {
      return NoData;
    }
    if |rawData| < 16 {
      return TooShort;
    }
    var ctx := new C.StreamingContext.NewDecrypt(a, rawData[..16]);
    var decrypted := ctx.FinalizeDecrypt(rawData[16..]);
    return if decrypted.Ok? then Recovered(decrypted.bytes) else DecryptionFailed;
  }

  function DownloadSpec(a: C.Aead, rawData: seq<byte>): DownloadResult {
    if rawData == [] then NoData
    else if |rawData| < 16 then TooShort
    else
      var r := C.FinalDecryptStep(a, rawData[..16], C.FRESH, rawData[16..]).result;
      if r.Ok? then Recovered(r.bytes) else DecryptionFailed
  }

  lemma FeedAllEmpty(code: Code, mode: F.Mode)
    ensures FeedAll(code, mode, []) == D.FRESH
  {
  }

  lemma FeedAllSnoc(code: Code, mode: F.Mode, frames: seq<seq<byte>>, i: nat)
    requires i < |frames|
    ensures FeedAll(code, mode, frames[..i + 1])
         == (var st := FeedAll(code, mode, frames[..i]);
             if |frames[i]| == F.Width(mode) * F.Height(mode) then D.FeedStep(code, st, F.DecodeFrame(mode, frames[i])) else st)
  {
    hide D.FeedStep, F.DecodeFrame;
    assert frames[..i + 1][..i] == frames[..i];
  }

  // ------------------------------------------------------------------ end to end

  /** The last chunk the writer seals is shorter than a full one, so its length field never
      overflows, and it is sealed whatever was written. */
  lemma WriterFinalChunkFits(written: seq<byte>)
    ensures |Rest(C.STREAM_CHUNK_SIZE, written) + []| + C.CHUNK_TAG_LEN < C.FINAL_FLAG
  {
  }

  /** For every plaintext, code, mode and noise that frames survive, and whatever frames follow the
      genuine ones (such as repeats of the last), the download recovers the plaintext. */
  lemma EndToEnd(a: C.Aead, code: Code, mode: F.Mode, prefix: seq<byte>, written: seq<byte>, received: seq<seq<byte>>)
    requires C.ValidAead(a) && ValidCode(code) && |prefix| == C.STREAM_PREFIX_LEN
    requires |SourceBlocks(Upload(a, prefix, written))| <= MAX_BLOCKS
    requires Arrived(mode, SentFrames(code, mode, Upload(a, prefix, written)), received)
    ensures DownloadSpec(a, FeedAll(code, mode, received).table.output) == Recovered(written)
  {
    hide C.ValidAead, ValidCode, SentFrames, FeedAll, Arrived, SourceBlocks, ST.EncryptedStream;
    var data, raw := Upload(a, prefix, written), FeedAll(code, mode, received).table.output;
    var sealed := ST.EncryptedStream(a, prefix, written, []);
    Delivered(code, mode, data, received);
    var junk := raw[|data|..];
    assert data <= raw;
    assert raw == data + junk;
    assert raw[..16] == prefix && raw[16..] == sealed + junk;
    WriterFinalChunkFits(written);
    ST.StreamOpens(a, prefix, written, [], junk);
    assert written + [] == written;
  }

  /** From what a decoder puts out, the plaintext is recovered if the output starts with the upload,
      and not if it is shorter. */
  lemma DownloadNeedsAll(a: C.Aead, prefix: seq<byte>, written: seq<byte>, raw: seq<byte>)
    requires |ST.Messages(written, [])| <= C.TWO_63 && ST.IdealAead(a, prefix, ST.Messages(written, []))
    requires |prefix| == C.STREAM_PREFIX_LEN
    ensures Upload(a, prefix, written) <= raw ==> DownloadSpec(a, raw) == Recovered(written)
    ensures |raw| < |Upload(a, prefix, written)| ==> !DownloadSpec(a, raw).Recovered?
    ensures |raw| <= FEC_BLOCK_SIZE * (|SourceBlocks(Upload(a, prefix, written))| - 1) ==> !DownloadSpec(a, raw).Recovered?
    ensures raw == Padded(FEC_BLOCK_SIZE, Upload(a, prefix, written)) ==> DownloadSpec(a, raw) == Recovered(written)
  {
    hide ST.IdealAead, SourceBlocks, ST.EncryptedStream, C.FinalDecryptStep, ST.Messages, Padding;
    var data, sealed := Upload(a, prefix, written), ST.EncryptedStream(a, prefix, written, []);
    if data <= raw {
      var junk := raw[|data|..];
      assert raw == data + junk;
      assert raw[..16] == prefix && raw[16..] == sealed + junk;
      WriterFinalChunkFits(written);
      ST.IdealStreamOpens(a, prefix, written, [], junk);
      assert written + [] == written;
    } else if 16 <= |raw| < |data| {
      ST.ShortStreamRefused(a, prefix, written, [], raw[..16], raw[16..]);
    }
    LastBlockNeeded(data);
  }

  /** With an ideal cipher the limit is exact: when exactly the sent frames arrive, the download
      recovers the plaintext if and only if the upload fills at most 2^33 - 6 FEC blocks. */
  lemma EndToEndExact(a: C.Aead, code: Code, mode: F.Mode, prefix: seq<byte>, written: seq<byte>, received: seq<seq<byte>>)
    requires |ST.Messages(written, [])| <= C.TWO_63 && ST.IdealAead(a, prefix, ST.Messages(written, []))
    requires ValidCode(code) && |prefix| == C.STREAM_PREFIX_LEN
    requires Arrived(mode, SentFrames(code, mode, Upload(a, prefix, written)), received)
    requires |received| == |SentFrames(code, mode, Upload(a, prefix, written))|
    ensures DownloadSpec(a, FeedAll(code, mode, received).table.output) == Recovered(written)
       <==> |SourceBlocks(Upload(a, prefix, written))| <= MAX_BLOCKS
  {
    hide ST.IdealAead, ValidCode, SentFrames, FeedAll, Arrived, SourceBlocks, Upload, Padded, DownloadSpec, ST.Messages;
    Delivered(code, mode, Upload(a, prefix, written), received);
    DownloadNeedsAll(a, prefix, written, FeedAll(code, mode, received).table.output);
  }

  // One block less does not hold the data.
  lemma LastBlockNeeded(data: seq<byte>)
    ensures data != [] ==> FEC_BLOCK_SIZE * (|SourceBlocks(data)| - 1) < |data|
  {
    hide FullChunks, Rest;
    PaddedChunks(FEC_BLOCK_SIZE, data);
    ChunksHaveLength(FEC_BLOCK_SIZE, Padded(FEC_BLOCK_SIZE, data));
  }

  /** Sending as a run of the objects: write in any pieces, ignoring what Write reports, and close. */
  method Send(a: C.Aead, code: Code, mode: F.Mode, prefix: seq<byte>, pieces: seq<seq<byte>>)
    returns (sent: seq<seq<byte>>)
    requires |prefix| == C.STREAM_PREFIX_LEN
    ensures sent == SentFrames(code, mode, Upload(a, prefix, Flatten(pieces)))
  {
    hide SentFrames, Upload, Sent, StreamingNexusWriter.Valid;
    var never: nat -> bool := _ => false;
    var writer := new StreamingNexusWriter(a, prefix, code, mode);
    assert pieces[..0] == [];
    for i := 0 to |pieces|
      invariant writer.Valid() && !writer.closed && fresh(writer) && fresh(writer.crypto) && fresh(writer.encoder)
      invariant writer.crypto.aead == a && writer.crypto.noncePrefix == prefix
      invariant writer.encoder.code == code && writer.encoder.mode == mode
      invariant writer.written == Flatten(pieces[..i])
    {
      var _, _ := writer.Write(pieces[i], never);
      FlattenSnoc(pieces[..i], pieces[i]);
      assert pieces[..i + 1] == pieces[..i] + [pieces[i]];
    }
    assert pieces[..|pieces|] == pieces;
    var _ := writer.Close(never);
    return writer.handled;
  }

  /** The whole pipeline: every plaintext, written in any pieces, sent through any channel that
      frames survive and that may append frames, is recovered. */
  method SendAndReceive(a: C.Aead, code: Code, mode: F.Mode, prefix: seq<byte>, pieces: seq<seq<byte>>,
                        channel: seq<seq<byte>> -> seq<seq<byte>>)
    returns (r: DownloadResult)
    requires C.ValidAead(a) && ValidCode(code) && |prefix| == C.STREAM_PREFIX_LEN
    requires |SourceBlocks(Upload(a, prefix, Flatten(pieces)))| <= MAX_BLOCKS
    requires forall frames: seq<seq<byte>> :: Arrived(mode, frames, channel(frames))
    ensures r == Recovered(Flatten(pieces))
  {
    hide SentFrames, Upload, FeedAll, C.ValidAead, ValidCode, DownloadSpec, SourceBlocks;
    var sent := Send(a, code, mode, prefix, pieces);
    var received := channel(sent);
    assert Arrived(mode, sent, received);
    EndToEnd(a, code, mode, prefix, Flatten(pieces), received);
    r := Download(a, code, mode, received);
  }
}
