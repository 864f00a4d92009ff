/** Whole files in nexus-daemon/queue.go: cutting into shards, the size header, frame padding, and
    the way back. */
module Shards {
  import opened Bytes
  import opened Fec
  import F = Frame
  import E = StreamEncoder
  import D = StreamDecoder
  import P = Pipeline
  import opened Cutting
  import opened BlockIds
  import opened Delivery

  const SIZE_HEADER: nat := 8
  const MIN_FRAMES: nat := 90

  /** One layer of one-shot encryption; `salt` stands for the random bytes it draws. */
  datatype Layer = Layer(seal: (seq<byte>, seq<byte>) -> seq<byte>, open: seq<byte> -> Option<seq<byte>>)

  ghost predicate ValidLayer(l: Layer) {
    forall salt: seq<byte>, plain: seq<byte> :: l.seal(salt, plain) != [] && l.open(l.seal(salt, plain)) == Some(plain)
  }

  /** Compression, the per-file key, and the optional password layer below it. */
  datatype Codec = Codec(
    compress: seq<byte> -> seq<byte>,
    decompress: seq<byte> -> Option<seq<byte>>,
    fileKey: Layer,
    password: Option<Layer>)

  ghost predicate ValidCodec(c: Codec) {
    && (forall data: seq<byte> :: c.decompress(c.compress(data)) == Some(data))
    && ValidLayer(c.fileKey)
    && (c.password.Some? ==> ValidLayer(c.password.value))
  }

  // ------------------------------------------------------------------ one shard as bytes

  function Encrypt(c: Codec, salt: seq<byte>, data: seq<byte>): seq<byte> {
    var compressed := c.compress(data);
    var inner := if c.password.Some? then c.password.value.seal(salt, compressed) else compressed;
    c.fileKey.seal(salt, inner)
  }

  /** The bytes pushed into the encoder: the true size in 8 bytes, then the encrypted shard. */
  function WrapShard(c: Codec, salt: seq<byte>, data: seq<byte>): seq<byte> {
    var encrypted := Encrypt(c, salt, data);
    ToLe(|encrypted|, SIZE_HEADER) + encrypted
  }

  /** Removes the padding by the size header; an implausible header leaves the data as it is. */
  function Strip(raw: seq<byte>): seq<byte> {
    if |raw| <= SIZE_HEADER then raw
    else
      var realSize := FromLe(raw[..SIZE_HEADER]);
      if 0 < realSize <= |raw| - SIZE_HEADER then raw[SIZE_HEADER..SIZE_HEADER + realSize] else raw
  }

  function UnwrapShard(c: Codec, raw: seq<byte>): Option<seq<byte>> {
    match c.fileKey.open(Strip(raw))
    case None => None
    case Some(inner) =>
      match (if c.password.Some? then c.password.value.open(inner) else Some(inner))
      case None => None
      case Some(compressed) =>
        match c.decompress(compressed)
        case None => Some(compressed)
        case Some(data) => Some(data)
  }

  /** Data without a plausible size header is used as it is: if there is nothing behind the header,
      or it says nothing or more than there is. Otherwise just the size named is kept. */
  lemma StripExactly(raw: seq<byte>)
    ensures |raw| <= 8 ==> Strip(raw) == raw
    ensures |raw| > 8 ==> forall n: nat :: n < Pow256(8) && ToLe(n, 8) <= raw ==>
      Strip(raw) == if n == 0 || n > |raw| - 8 then raw else raw[8..8 + n]
  {
    if |raw| > 8 {
      forall n: nat | n < Pow256(8) && ToLe(n, 8) <= raw
        ensures Strip(raw) == if n == 0 || n > |raw| - 8 then raw else raw[8..8 + n]
      {
        LeRoundTrip(n, 8);
        assert raw[..8] == ToLe(n, 8);
      }
    }
  }

  /** The key of the file is the outer layer and the password the inner one. */
  lemma LayersOpen(c: Codec, salt: seq<byte>, data: seq<byte>)
    requires ValidCodec(c)
    ensures var wrapped := WrapShard(c, salt, data);
      && |wrapped| > 8
      && c.fileKey.open(wrapped[8..])
         == Some(if c.password.Some? then c.password.value.seal(salt, c.compress(data)) else c.compress(data))
  {
    var wrapped := WrapShard(c, salt, data);
    assert wrapped[8..] == Encrypt(c, salt, data);
  }

  /** A shard is refused exactly if a layer does not open; what cannot be decompressed is taken for
      data that never was compressed. */
  lemma UnwrapsExactly(c: Codec, raw: seq<byte>, inner: Option<seq<byte>>)
    requires inner == c.fileKey.open(Strip(raw))
    ensures UnwrapShard(c, raw) == None <==>
      inner == None || (c.password.Some? && c.password.value.open(inner.value) == None)
    ensures inner.Some? && c.password.None? && c.decompress(inner.value) == None ==> UnwrapShard(c, raw) == inner
  {
  }

  /** Padding of any length and content behind a shard is removed exactly. */
  lemma UnwrapsWrapped(c: Codec, salt: seq<byte>, data: seq<byte>, padding: seq<byte>)
    requires ValidCodec(c) && |WrapShard(c, salt, data)| < Pow256(8)
    ensures UnwrapShard(c, WrapShard(c, salt, data) + padding) == Some(data)
  {
    hide ToLe, FromLe;
    var encrypted := Encrypt(c, salt, data);
    var raw := WrapShard(c, salt, data) + padding;
    LeRoundTrip(|encrypted|, SIZE_HEADER);
    assert raw[..SIZE_HEADER] == ToLe(|encrypted|, SIZE_HEADER);
    assert encrypted != [];
    assert raw[SIZE_HEADER..SIZE_HEADER + |encrypted|] == encrypted;
    assert Strip(raw) == encrypted;
  }

  // ------------------------------------------------------------------ one shard as frames

  /** At least 90 frames: the last one is repeated. */
  function PadFrames(frames: seq<seq<byte>>): seq<seq<byte>> {
    if frames == [] || |frames| >= MIN_FRAMES then frames
    else frames + seq(MIN_FRAMES - |frames|, _ => frames[|frames| - 1])
  }

  /** All frames as they are, then the last one again and again up to 90. */
  lemma PadsExactly(frames: seq<seq<byte>>)
    ensures var video := PadFrames(frames);
      && |video| == (if frames == [] then 0 else if |frames| < 90 then 90 else |frames|)
      && frames <= video
      && forall i :: |frames| <= i < |video| ==> video[i] == frames[|frames| - 1]
  {
  }

  method UploadShard(code: Code, mode: F.Mode, encrypted: seq<byte>) returns (video: seq<seq<byte>>)
    ensures video == PadFrames(SentFrames(code, mode, encrypted))
  {
    hide SentFrames, E.PushStep, E.FinalizeStep, E.Consistent, PadFrames;
    var encoder := new E.StreamingEncoder(code, mode);
    var _ := encoder.PushData(encrypted);
    var early := PopAll(encoder);
    EarlyAndLate(code, mode, encrypted);
    encoder.Finalize();
    var late := PopAll(encoder);
    video := RepeatLast(early + late);
  }

  // What is popped before the encoder is finalized, and what afterwards, are all frames.
  lemma EarlyAndLate(code: Code, mode: F.Mode, data: seq<byte>)
    ensures
      var pushed := E.PushStep(code, mode, E.FRESH, data);
      && E.Consistent(mode, pushed.(queue := []))
      && pushed.queue + E.FinalizeStep(code, mode, pushed.(queue := [])).queue == SentFrames(code, mode, data)
  {
    hide SentFrames, E.PushStep, E.FinalizeStep;
    var pushed := E.PushStep(code, mode, E.FRESH, data);
    FinalFrames(code, mode, data);
    E.FinalizeAppends(code, mode, pushed.(queue := []), pushed.queue);
    assert pushed.queue + [] == pushed.queue;
  }

  method RepeatLast(frames: seq<seq<byte>>) returns (video: seq<seq<byte>>)
    ensures video == PadFrames(frames)
  {
    video := frames;
    if |frames| < MIN_FRAMES && frames != [] {
      var lastFrame := frames[|frames| - 1];
      for j := |frames| to MIN_FRAMES
        invariant video == frames + seq(j - |frames|, _ => lastFrame)
      {
        video := video + [lastFrame];
      }
    }
  }

  method PopAll(encoder: E.StreamingEncoder) returns (frames: seq<seq<byte>>)
    requires encoder.Valid()
    modifies encoder`frameQueue
    ensures encoder.Valid() && frames == old(encoder.frameQueue) && encoder.frameQueue == []
  {
    frames := [];
    while true
      invariant encoder.Valid() && frames + encoder.frameQueue == old(encoder.frameQueue)
      decreases |encoder.frameQueue|
    {
      ghost var before, queue := frames, encoder.frameQueue;
      var frame := encoder.PopFrame();
      if frame == None {
        break;
      }
      frames := frames + [frame.value];
      assert frames + encoder.frameQueue == before + queue;
    }
    assert frames + [] == frames;
  }

  /** The padded video still delivers: repeats of the last frame only add output behind the data. */
  lemma ShardDelivered(code: Code, mode: F.Mode, c: Codec, salt: seq<byte>, data: seq<byte>, received: seq<seq<byte>>)
    requires ValidCode(code) && ValidCodec(c)
    requires |SourceBlocks(WrapShard(c, salt, data))| <= MAX_BLOCKS
    requires Arrived(mode, PadFrames(SentFrames(code, mode, WrapShard(c, salt, data))), received)
    ensures UnwrapShard(c, FeedAll(code, mode, received).table.output) == Some(data)
  {
    hide ValidCode, ValidCodec, SentFrames, FeedAll, UnwrapShard, WrapShard, SourceBlocks;
    var bytes, raw := WrapShard(c, salt, data), FeedAll(code, mode, received).table.output;
    PadKeeps(mode, SentFrames(code, mode, bytes), received);
    Delivered(code, mode, bytes, received);
    assert bytes <= raw;
    assert raw == bytes + raw[|bytes|..];
    FewBlocksFit(bytes);
    UnwrapsWrapped(c, salt, data, raw[|bytes|..]);
  }

  lemma PadKeeps(mode: F.Mode, sent: seq<seq<byte>>, received: seq<seq<byte>>)
    requires Arrived(mode, PadFrames(sent), received)
    ensures Arrived(mode, sent, received)
  {
    forall i | 0 <= i < |sent| ensures PadFrames(sent)[i] == sent[i] {
    }
  }

  lemma FewBlocksFit(bytes: seq<byte>)
    requires |SourceBlocks(bytes)| <= MAX_BLOCKS
    ensures |bytes| < Pow256(8)
  {
    hide FullChunks, Rest;
    Pow256Values();
    PaddedChunks(FEC_BLOCK_SIZE, bytes);
    ChunksHaveLength(FEC_BLOCK_SIZE, Padded(FEC_BLOCK_SIZE, bytes));
  }

  // ------------------------------------------------------------------ whole files

  /** At least one shard, even for an empty file. */
  function NumShards(total: nat, shardSize: nat): nat
    requires shardSize > 0
  {
    if CeilDiv(total, shardSize) == 0 then 1 else CeilDiv(total, shardSize)
  }

  /** processUpload: one video per shard. `salts` are the random bytes drawn for each shard. */
  method UploadFile(code: Code, mode: F.Mode, c: Codec, file: seq<byte>, shardSize: nat, salts: seq<seq<byte>>)
    returns (videos: seq<seq<seq<byte>>>)
    requires shardSize > 0 && |salts| >= NumShards(|file|, shardSize)
    ensures |videos| == |Pieces(shardSize, file)| == NumShards(|file|, shardSize)
    ensures forall i :: 0 <= i < |videos| ==>
      videos[i] == PadFrames(SentFrames(code, mode, WrapShard(c, salts[i], Pieces(shardSize, file)[i])))
  {
    hide SentFrames, WrapShard, PadFrames, Pieces;
    var numShards := (|file| + shardSize - 1) / shardSize;
    if numShards == 0 {
      numShards := 1;
    }
    PieceCount(shardSize, file);
    videos := [];
    for i := 0 to numShards
      invariant |videos| == i
      invariant forall j :: 0 <= j < i ==>
        videos[j] == PadFrames(SentFrames(code, mode, WrapShard(c, salts[j], Pieces(shardSize, file)[j])))
    {
      PieceAt(shardSize, file, i);
      var data := ReadAt(file, Offset(i, shardSize), shardSize);
      var encrypted := SealShard(c, salts[i], data);
      var video := UploadShard(code, mode, encrypted);
      videos := videos + [video];
    }
  }

  method SealShard(c: Codec, salt: seq<byte>, data: seq<byte>) returns (encrypted: seq<byte>)
    ensures encrypted == WrapShard(c, salt, data)
  {
    encrypted := c.compress(data);
    if c.password.Some? {
      encrypted := c.password.value.seal(salt, encrypted);
    }
    encrypted := c.fileKey.seal(salt, encrypted);
    var encSizeHdr := ToLe(|encrypted|, SIZE_HEADER);
    encrypted := encSizeHdr + encrypted;
  }

  /** The shards that the received videos decode to. */
  ghost predicate Parts(code: Code, mode: F.Mode, c: Codec, received: seq<seq<seq<byte>>>, parts: seq<seq<byte>>) {
    && |parts| == |received|
    && forall i :: 0 <= i < |parts| ==> UnwrapShard(c, FeedAll(code, mode, received[i]).table.output) == Some(parts[i])
  }

  /** processDownload: decode, strip, decrypt, decompress and append shard after shard. */
  method DownloadFile(code: Code, mode: F.Mode, c: Codec, received: seq<seq<seq<byte>>>) returns (r: Option<seq<byte>>)
    ensures r.Some? <==> forall i :: 0 <= i < |received| ==> UnwrapShard(c, FeedAll(code, mode, received[i]).table.output).Some?
    ensures r.Some? ==> exists parts: seq<seq<byte>> :: r.value == Flatten(parts) && Parts(code, mode, c, received, parts)
  {
    hide FeedAll, UnwrapShard;
    var out := [];
    ghost var parts: seq<seq<byte>> := [];
    for i := 0 to |received|
      invariant out == Flatten(parts) && |parts| == i
      invariant forall j :: 0 <= j < i ==> UnwrapShard(c, FeedAll(code, mode, received[j]).table.output) == Some(parts[j])
    {
      var raw := DecodeVideo(code, mode, received[i]);
      var data := UnwrapShard(c, raw);
      if data == None {
        return None;
      }
      FlattenSnoc(parts, data.value);
      parts := parts + [data.value];
      out := out + data.value;
    }
    assert Parts(code, mode, c, received, parts);
    return Some(out);
  }

  method DecodeVideo(code: Code, mode: F.Mode, frames: seq<seq<byte>>) returns (raw: seq<byte>)
    ensures raw == FeedAll(code, mode, frames).table.output
  {
    var decoder := new D.StreamingDecoder(code, mode);
    assert frames[..0] == [];
    hide FeedAll, D.FeedStep, F.DecodeFrame;
    P.FeedAllEmpty(code, mode);
    for i := 0 to |frames|
      invariant decoder.code == code && decoder.mode == mode
      invariant decoder.Abstract() == FeedAll(code, mode, frames[..i])
    {
      var _ := decoder.PushFrame(frames[i]);
      P.FeedAllSnoc(code, mode, frames, i);
    }
    assert frames[..|frames|] == frames;
    raw := decoder.PopData();
  }

  /** For every file, shard size, mode, and every channel that frames survive, the download
      puts the file together again. */
  method FileRoundTrip(code: Code, mode: F.Mode, c: Codec, file: seq<byte>, shardSize: nat, salts: seq<seq<byte>>,
                       channel: seq<seq<byte>> -> seq<seq<byte>>)
    returns (r: Option<seq<byte>>)
    requires ValidCode(code) && ValidCodec(c) && shardSize > 0 && |salts| >= NumShards(|file|, shardSize)
    requires forall i :: 0 <= i < |Pieces(shardSize, file)| && i < |salts| ==>
      |SourceBlocks(WrapShard(c, salts[i], Pieces(shardSize, file)[i]))| <= MAX_BLOCKS
    requires forall frames: seq<seq<byte>> :: Arrived(mode, frames, channel(frames))
    ensures r == Some(file)
  {
    hide SentFrames, WrapShard, PadFrames, Pieces, SourceBlocks, FeedAll, UnwrapShard, ValidCode, ValidCodec;
    ghost var shards := Pieces(shardSize, file);
    var videos := UploadFile(code, mode, c, file, shardSize, salts);
    var received := [];
    for i := 0 to |videos|
      invariant |received| == i && forall j :: 0 <= j < i ==> received[j] == channel(videos[j])
    {
      received := received + [channel(videos[i])];
    }
    forall i | 0 <= i < |received|
      ensures UnwrapShard(c, FeedAll(code, mode, received[i]).table.output) == Some(shards[i])
    {
      assert Arrived(mode, videos[i], channel(videos[i]));
      ShardDelivered(code, mode, c, salts[i], shards[i], received[i]);
    }
    r := DownloadFile(code, mode, c, received);
    PiecesConserve(shardSize, file);
    ghost var parts: seq<seq<byte>> :| r.value == Flatten(parts) && Parts(code, mode, c, received, parts);
    assert parts == shards;
  }
}
