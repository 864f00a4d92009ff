/** Directories of frame pictures: encode_to_frames of nexus-core/src/encoder.rs and
    decode_from_frames of nexus-core/src/decoder.rs. */
module FrameDirectory {
  import opened Bytes
  import opened BitPacking
  import opened Frame
  import opened FrameTheorems
  import opened FrameImages
  import opened FrameNames
  import opened Cutting

  /** A file is a greyscale picture or something no picture can be read from. */
  datatype File = Picture(w: nat, h: nat, raw: seq<byte>) | Other

  type Directory = map<string, File>

  predicate Opens(f: File) {
    f.Picture? && f.w > 0 && |f.raw| == f.w * f.h
  }

  datatype DecodeError = NoFrames | Unreadable | MissingLength | CorruptPayload

  /** Crash: the length header is so large that slicing the payload aborts the program. */
  datatype Decoded = Payload(payload: seq<byte>) | Failed(error: DecodeError) | Crash

  // ------------------------------------------------------------------ the calibration frame

  const BANDS: nat := 16

  /** Sixteen vertical bands from black to white. */
  function BandLevel(mode: Mode, x: nat): byte {
    Min(x / (Width(mode) / BANDS), 15) * 17
  }

  function CalibrationRaster(mode: Mode): (r: Raster)
    ensures HasSize(r, Width(mode), Height(mode))
  {
    var row := CalibrationRow(mode);
    seq(Height(mode), _ => row)
  }

  function CalibrationRow(mode: Mode): (r: seq<byte>)
    ensures |r| == Width(mode) && forall x :: 0 <= x < |r| ==> r[x] == BandLevel(mode, x)
  {
    seq(Width(mode), x requires 0 <= x => BandLevel(mode, x))
  }

  method WriteCalibrationFrame(mode: Mode) returns (f: File)
    ensures f == Picture(Width(mode), Height(mode), Flatten(CalibrationRaster(mode)))
  {
    var w, h := Width(mode), Height(mode);
    var img := new byte[h, w]((_, _) => 0);
    var bandW := w / BANDS;
    for y := 0 to h
      invariant forall j: nat, i: nat :: j < y && i < w ==> img[j, i] == BandLevel(mode, i)
    {
      for x := 0 to w
        invariant forall j: nat, i: nat :: (j < y && i < w) || (j == y && i < x) ==> img[j, i] == BandLevel(mode, i)
      {
        var band := if x / bandW < 15 then x / bandW else 15;
        img[y, x] := band * 17;
      }
    }
    SameRaster(Contents(img), CalibrationRaster(mode), w, h);
    var raw := IntoRaw(img);
    f := Picture(w, h, raw);
  }

  function Least(pixels: seq<byte>): byte {
    if pixels == [] then 255
    else
      var m, last := Least(pixels[..|pixels| - 1]), pixels[|pixels| - 1];
      if last < m then last else m
  }

  function Greatest(pixels: seq<byte>): byte {
    if pixels == [] then 0
    else
      var m, last := Greatest(pixels[..|pixels| - 1]), pixels[|pixels| - 1];
      if last > m then last else m
  }

  lemma {:induction false} Extremes(pixels: seq<byte>, i: nat)
    requires i < |pixels|
    ensures Least(pixels) <= pixels[i] <= Greatest(pixels)
  {
    if i < |pixels| - 1 {
      Extremes(pixels[..|pixels| - 1], i);
    }
  }

  /** The black-and-white threshold of Base mode: midway between the extremes, each halved first. */
  function Threshold(pixels: seq<byte>): byte {
    Least(pixels) / 2 + Greatest(pixels) / 2
  }

  method ReadCalibrationThreshold(f: File) returns (threshold: byte)
    requires Opens(f)
    ensures threshold == Threshold(f.raw)
  {
    var pixels := f.raw;
    var minLum, maxLum: byte := 255, 0;
    for i := 0 to |pixels|
      invariant minLum == Least(pixels[..i]) && maxLum == Greatest(pixels[..i])
    {
      var l := pixels[i];
      assert pixels[..i + 1][..i] == pixels[..i];
      if l < minLum { minLum := l; }
      if l > maxLum { maxLum := l; }
    }
    assert pixels[..|pixels|] == pixels;
    threshold := minLum / 2 + maxLum / 2;
  }

  lemma {:induction false} ExtremesShown(pixels: seq<byte>) returns (i: nat, j: nat)
    requires pixels != []
    ensures i < |pixels| && pixels[i] == Least(pixels)
    ensures j < |pixels| && pixels[j] == Greatest(pixels)
  {
    var before, last := pixels[..|pixels| - 1], |pixels| - 1;
    i, j := last, last;
    if before != [] {
      var i', j' := ExtremesShown(before);
      if pixels[last] >= Least(before) { i := i'; }
      if pixels[last] <= Greatest(before) { j := j'; }
    }
  }

  /** The threshold is midway between a darkest and a brightest pixel; halving each of them first
      loses at most one. */
  lemma ThresholdBetween(pixels: seq<byte>) returns (darkest: nat, brightest: nat)
    requires pixels != []
    ensures darkest < |pixels| && brightest < |pixels|
    ensures forall k :: 0 <= k < |pixels| ==> pixels[darkest] <= pixels[k] <= pixels[brightest]
    ensures Threshold(pixels) == pixels[darkest] / 2 + pixels[brightest] / 2
    ensures 0 <= (pixels[darkest] as int) + (pixels[brightest] as int) - 2 * (Threshold(pixels) as int) <= 2
  {
    darkest, brightest := ExtremesShown(pixels);
    forall k | 0 <= k < |pixels| ensures pixels[darkest] <= pixels[k] <= pixels[brightest] {
      Extremes(pixels, k);
    }
  }

  /** Sixteen bands of one width, the b-th of level 17 b. */
  lemma CalibrationBands(mode: Mode, x: nat, y: nat, b: nat)
    requires x < Width(mode) && y < Height(mode) && b < 16
    requires b * Width(mode) <= 16 * x < (b + 1) * Width(mode)
    ensures |Flatten(CalibrationRaster(mode))| == Width(mode) * Height(mode)
    ensures RowsOf(mode, Flatten(CalibrationRaster(mode)))[y][x] == 17 * b
  {
    hide HasSize;
    var r := CalibrationRaster(mode);
    FlattenLength(r, Width(mode));
    ChunksExact(Width(mode), r, []);
    assert Flatten(r) + [] == Flatten(r);
    assert r[y] == CalibrationRow(mode);
    if mode == Base {
      assert Width(mode) / BANDS == 80;
      DivRange(x, 80, b);
    } else {
      assert Width(mode) / BANDS == 240;
      DivRange(x, 240, b);
    }
  }

  lemma {:induction false} InFlatten<T>(parts: seq<seq<T>>, k: nat, x: T)
    requires k < |parts| && x in parts[k]
    ensures x in Flatten(parts)
  {
    if k > 0 {
      InFlatten(parts[1..], k - 1, x);
    }
  }

  /** As drawn, the calibration frame gives 127, one below the fixed threshold of decode_frame. */
  lemma CalibrationThreshold(mode: Mode)
    ensures Threshold(Flatten(CalibrationRaster(mode))) == 127
  {
    var r, w := CalibrationRaster(mode), Width(mode);
    assert r[0] == CalibrationRow(mode) && r[0][0] == BandLevel(mode, 0) && r[0][w - 1] == BandLevel(mode, w - 1);
    assert BandLevel(mode, 0) == 0 && BandLevel(mode, w - 1) == 255;
    InFlatten(r, 0, 0);
    InFlatten(r, 0, 255);
    var pixels := Flatten(r);
    var i :| 0 <= i < |pixels| && pixels[i] == 0;
    var j :| 0 <= j < |pixels| && pixels[j] == 255;
    Extremes(pixels, i);
    Extremes(pixels, j);
  }

  // ------------------------------------------------------------------ encoding

  const LENGTH_HEADER: nat := 8

  function Framed(payload: seq<byte>): seq<byte> {
    ToLe(|payload|, LENGTH_HEADER) + payload
  }

  /** As many data frames as it takes, the last one partly filled. */
  function FrameCount(mode: Mode, payload: seq<byte>): nat {
    GeometryExact(mode);
    CeilDiv(|payload| + LENGTH_HEADER, BytesPerFrame(mode))
  }

  /** File number 0 is the calibration frame, file number i + 1 carries piece i. */
  function FrameFile(mode: Mode, data: seq<byte>, i: nat): File {
    Picture(Width(mode), Height(mode),
      if i == 0 then Flatten(CalibrationRaster(mode))
      else EncodeFrame(mode, ReadAt(data, Offset(i - 1, BytesPerFrame(mode)), BytesPerFrame(mode)), true))
  }

  /** The directory after the first n files have been written. */
  function Written(dir: Directory, mode: Mode, data: seq<byte>, n: nat): Directory {
    if n == 0 then dir else Written(dir, mode, data, n - 1)[Name(n - 1) := FrameFile(mode, data, n - 1)]
  }

  method WriteFrame(mode: Mode, chunk: seq<byte>) returns (f: File)
    ensures f == Picture(Width(mode), Height(mode), EncodeFrame(mode, chunk, true))
  {
    hide Symbols, LevelsOf, Render;
    GeometryExact(mode);
    var img := new byte[Height(mode), Width(mode)]((_, _) => 0);
    match mode {
      case Base =>
        FillBaseFrame(img, chunk, Cols(mode), Rows(mode));
        BaseNeverFlushes(chunk);
      case High =>
        WriteHighFrame(img, chunk, Cols(mode), Rows(mode));
    }
    ShowsRender(img, LevelsOf(mode, Symbols(mode, chunk, true)), Cols(mode), Rows(mode));
    var raw := IntoRaw(img);
    f := Picture(Width(mode), Height(mode), raw);
  }

  lemma BaseNeverFlushes(payload: seq<byte>)
    ensures Symbols(Base, payload, true) == Symbols(Base, payload, false)
  {
    assert Rest(1, Bits(8, payload)) == [];
  }

  method EncodeToFrames(dir: Directory, payload: seq<byte>, mode: Mode) returns (numFrames: nat, out: Directory)
    ensures numFrames == FrameCount(mode, payload)
    ensures out == Written(dir, mode, Framed(payload), numFrames + 1)
  {
    hide EncodeFrame, BytesPerFrame;
    GeometryExact(mode);
    var calibration := WriteCalibrationFrame(mode);
    var data := ToLe(|payload|, LENGTH_HEADER) + payload;
    var bytesPerFrame := BytesPerFrame(mode);
    out := dir[Name(0) := calibration];
    numFrames := (|data| + bytesPerFrame - 1) / bytesPerFrame;
    assert Written(dir, mode, data, 0) == dir;
    assert Written(dir, mode, data, 1) == out;
    for i := 0 to numFrames
      invariant out == Written(dir, mode, data, i + 1)
    {
      var chunk := ReadAt(data, Offset(i, bytesPerFrame), bytesPerFrame);
      var f := WriteFrame(mode, chunk);
      out := out[Name(i + 1) := f];
    }
  }

  // ------------------------------------------------------------------ decoding

  predicate IsPng(name: string) {
    |name| > 4 && name[|name| - 4..] == ".png"
  }

  /** Names with a stem and the extension png. */
  lemma PngExactly(name: string)
    ensures IsPng(name) <==> exists stem: string :: stem != "" && name == stem + ".png"
  {
    if IsPng(name) {
      assert name == name[..|name| - 4] + ".png";
    }
  }

  function PngNames(dir: Directory): set<string> {
    set name | name in dir && IsPng(name)
  }

  function Raster(f: File): (r: Frame.Raster)
    requires Opens(f)
    ensures HasSize(r, f.w, f.h)
  {
    RasterOf(f.raw, f.w, f.h);
    FullChunks(f.w, f.raw)
  }

  function DecodeFile(mode: Mode, threshold: byte, f: File): seq<byte>
    requires Opens(f)
  {
    DecodeRaster(mode, threshold, Raster(f), f.w, f.h)
  }

  predicate AllOpen(files: seq<File>) {
    forall i :: 0 <= i < |files| ==> Opens(files[i])
  }

  function DecodeAll(mode: Mode, threshold: byte, files: seq<File>): seq<byte>
    requires AllOpen(files)
  {
    if files == [] then [] else DecodeFile(mode, threshold, files[0]) + DecodeAll(mode, threshold, files[1..])
  }

  lemma {:induction false} DecodeAllAppend(mode: Mode, threshold: byte, a: seq<File>, b: seq<File>)
    requires AllOpen(a) && AllOpen(b)
    ensures AllOpen(a + b)
    ensures DecodeAll(mode, threshold, a + b) == DecodeAll(mode, threshold, a) + DecodeAll(mode, threshold, b)
  {
    hide DecodeFile, Opens;
    if a == [] {
      assert a + b == b;
    } else {
      assert (a + b)[0] == a[0] && (a + b)[1..] == a[1..] + b;
      DecodeAllAppend(mode, threshold, a[1..], b);
      Assoc(DecodeFile(mode, threshold, a[0]), DecodeAll(mode, threshold, a[1..]), DecodeAll(mode, threshold, b));
    }
  }

  lemma {:induction false} DecodeAllSnoc(mode: Mode, threshold: byte, files: seq<File>, f: File)
    requires AllOpen(files) && Opens(f)
    ensures AllOpen(files + [f])
    ensures DecodeAll(mode, threshold, files + [f]) == DecodeAll(mode, threshold, files) + DecodeFile(mode, threshold, f)
  {
    hide DecodeFile, Opens;
    if files == [] {
      assert files + [f] == [f] && [f][1..] == [];
    } else {
      var all := files + [f];
      assert all[0] == files[0] && all[1..] == files[1..] + [f];
      DecodeAllSnoc(mode, threshold, files[1..], f);
    }
  }

  /** What the decoder makes of the bytes of all data frames. */
  function ParsePayload(raw: seq<byte>): Decoded {
    if |raw| < 8 then Failed(MissingLength)
    else
      var len := FromLe(raw[..8]);
      if len + 8 >= 0x1_0000_0000_0000_0000 then Crash
      else if |raw| < 8 + len then Failed(CorruptPayload)
      else Payload(raw[8..8 + len])
  }

  lemma ListedAreThere(dir: Directory, names: seq<string>)
    requires Lists(names, PngNames(dir))
    ensures forall name :: name in names ==> name in dir
  {
    hide Before, IsPng;
  }

  /** decode_from_frames; `names` is the sorted list of the .png files of the directory. */
  function DecodeFromFrames(dir: Directory, mode: Mode, names: seq<string>): Decoded
    requires Lists(names, PngNames(dir))
  {
    ListedAreThere(dir, names);
    if names == [] then Failed(NoFrames)
    else
      var files := FilesOf(dir, names);
      if !AllOpen(files) then Failed(Unreadable)
      else ParsePayload(DecodeAll(mode, Threshold(files[0].raw), files[1..]))
  }

  function FilesOf(dir: Directory, names: seq<string>): (files: seq<File>)
    requires forall name :: name in names ==> name in dir
    ensures |files| == |names|
    ensures forall i :: 0 <= i < |names| ==> files[i] == dir[names[i]]
  {
    seq(|names|, i requires 0 <= i < |names| => dir[names[i]])
  }

  method ReadFrame(mode: Mode, f: File, threshold: byte) returns (bytes: Option<seq<byte>>)
    ensures bytes == if Opens(f) then Some(DecodeFile(mode, threshold, f)) else None
  {
    if !Opens(f) {
      return None;
    }
    var img := FromRaw(f.raw, f.w, f.h);
    var read;
    match mode {
      case Base => read := DecodeBaseImage(img, threshold);
      case High => read := DecodeHighImage(img, threshold);
    }
    bytes := Some(read);
  }

  method DecodeDirectory(dir: Directory, mode: Mode, names: seq<string>) returns (decoded: Decoded)
    requires Lists(names, PngNames(dir))
    ensures decoded == DecodeFromFrames(dir, mode, names)
  {
    hide DecodeFile, Opens, Threshold, ParsePayload, Before, IsPng;
    ListedAreThere(dir, names);
    if |names| == 0 {
      return Failed(NoFrames);
    }
    ghost var files := FilesOf(dir, names);
    var calibration := dir[names[0]];
    assert calibration == files[0];
    if !Opens(calibration) {
      return Failed(Unreadable);
    }
    var threshold := ReadCalibrationThreshold(calibration);
    var raw := [];
    for i := 1 to |names|
      invariant AllOpen(files[..i])
      invariant AllOpen(files[1..i]) && raw == DecodeAll(mode, threshold, files[1..i])
    {
      var f := dir[names[i]];
      assert f == files[i];
      var bytes := ReadFrame(mode, f, threshold);
      if bytes.None? {
        return Failed(Unreadable);
      }
      DecodeAllSnoc(mode, threshold, files[1..i], f);
      assert files[..i + 1] == files[..i] + [f] && files[1..i + 1] == files[1..i] + [f];
      raw := raw + bytes.value;
    }
    assert files[..|names|] == files && files[1..|names|] == files[1..];
    decoded := ParseRaw(raw);
  }

  /** The wrapped end of a payload that passes 2^64 lies before its start, so the slice aborts. */
  method ParseRaw(raw: seq<byte>) returns (decoded: Decoded)
    ensures decoded == ParsePayload(raw)
  {
    if |raw| < 8 {
      return Failed(MissingLength);
    }
    var payloadLen := FromLe(raw[..8]);
    FromLeBound(raw[..8]);
    Pow256Values();
    var end := (8 + payloadLen) % 0x1_0000_0000_0000_0000;
    if |raw| < end {
      end := |raw|;
    }
    if end < 8 {
      return Crash;
    }
    var payload := raw[8..end];
    if |payload| != payloadLen {
      return Failed(CorruptPayload);
    }
    decoded := Payload(payload);
  }

  // ------------------------------------------------------------------ the round trip

  /** A received picture has the size of the one sent and survived, for the threshold in use. */
  ghost predicate FileSurvives(mode: Mode, threshold: byte, sent: File, received: File)
    requires Opens(sent) && Opens(received)
  {
    received.w == sent.w && received.h == sent.h && FrameSurvives(mode, threshold, sent.raw, received.raw)
  }

  lemma FrameFileOpens(mode: Mode, data: seq<byte>, i: nat)
    ensures Opens(FrameFile(mode, data, i))
  {
    if i == 0 {
      FlattenLength(CalibrationRaster(mode), Width(mode));
    } else {
      EncodedSize(mode, ReadAt(data, Offset(i - 1, BytesPerFrame(mode)), BytesPerFrame(mode)), true);
    }
  }

  /** The .png files of `dir` are the calibration frame, from which the threshold is read, `n` data
      frames that survived, and possibly others that sort behind them. */
  ghost predicate Carries(dir: Directory, mode: Mode, data: seq<byte>, n: nat) {
    && OthersBehind(PngNames(dir), n)
    && (forall i :: 0 <= i <= n ==> Name(i) in dir && Opens(dir[Name(i)]))
    && (forall i :: 0 < i <= n ==> Survives(dir, mode, data, i))
  }

  /** The other .png files hold pictures. */
  ghost predicate OthersOpen(dir: Directory, n: nat) {
    forall name :: name in PngNames(dir) && name !in FirstNames(n) ==> Opens(dir[name])
  }

  ghost predicate Survives(dir: Directory, mode: Mode, data: seq<byte>, i: nat)
    requires Name(0) in dir && Opens(dir[Name(0)]) && Name(i) in dir && Opens(dir[Name(i)])
  {
    FrameFileOpens(mode, data, i);
    FileSurvives(mode, Threshold(dir[Name(0)].raw), FrameFile(mode, data, i), dir[Name(i)])
  }

  lemma FileDecodes(mode: Mode, threshold: byte, chunk: seq<byte>, f: File)
    requires |chunk| <= BytesPerFrame(mode) && Opens(f) && f.w == Width(mode) && f.h == Height(mode)
    requires FrameSurvives(mode, threshold, EncodeFrame(mode, chunk, true), f.raw)
    ensures DecodeFile(mode, threshold, f) == chunk + Zeros(BytesPerFrame(mode) - |chunk|)
  {
    hide FrameSurvives, EncodeFrame, BlocksRead, DecodeRaster, Symbols;
    SurvivesReads(mode, threshold, chunk, true, f.raw);
    FrameRoundTrip(mode, threshold, chunk, true, Raster(f));
  }

  // Only the last piece leaves part of its frame black.
  lemma {:induction false} PiecesDecode(mode: Mode, threshold: byte, data: seq<byte>, files: seq<File>) returns (extra: nat)
    requires BytesPerFrame(mode) > 0 && AllOpen(files)
    requires
      var b := BytesPerFrame(mode);
      var pieces := Pieces(b, data);
      && |files| == |pieces|
      && forall i :: 0 <= i < |pieces| ==>
        |pieces[i]| <= b && DecodeFile(mode, threshold, files[i]) == pieces[i] + Zeros(b - |pieces[i]|)
    ensures DecodeAll(mode, threshold, files) == data + Zeros(extra)
    decreases |data|
  {
    hide BytesPerFrame, Pieces, DecodeFile, Opens;
    var b := BytesPerFrame(mode);
    var pieces := Pieces(b, data);
    PiecesUnfold(b, data);
    assert pieces[0] + Zeros(b - |pieces[0]|) == DecodeFile(mode, threshold, files[0]);
    if |data| <= b {
      extra := b - |data|;
      assert files == [files[0]] && DecodeAll(mode, threshold, files[1..]) == [];
    } else {
      assert pieces[1..] == Pieces(b, data[b..]) && pieces[0] == data[..b];
      extra := PiecesDecode(mode, threshold, data[b..], files[1..]);
      assert data[..b] + Zeros(0) == data[..b];
      assert data == data[..b] + data[b..];
      Assoc(data[..b], data[b..], Zeros(extra));
    }
  }

  lemma {:induction false} PieceFits(size: nat, data: seq<byte>, i: nat)
    requires size > 0 && i < |Pieces(size, data)|
    ensures |Pieces(size, data)[i]| <= size
  {
    PieceAt(size, data, i);
  }

  lemma ParsesBack(payload: seq<byte>, behind: seq<byte>)
    requires |payload| + 8 < 0x1_0000_0000_0000_0000
    ensures ParsePayload(Framed(payload) + behind) == Payload(payload)
  {
    var raw := Framed(payload) + behind;
    Pow256Values();
    LeRoundTrip(|payload|, 8);
    assert raw[..8] == ToLe(|payload|, 8);
    assert raw[8..8 + |payload|] == payload;
  }

  lemma PayloadBound(mode: Mode, payload: seq<byte>)
    requires FrameCount(mode, payload) < 1_000_000
    ensures |payload| + 8 < 0x1_0000_0000_0000_0000
  {
    GeometryExact(mode);
    QuotientBelow(|payload| + 8, BytesPerFrame(mode), 1_000_000);
  }

  lemma QuotientBelow(a: nat, n: nat, q: nat)
    requires n > 0 && CeilDiv(a, n) < q
    ensures a < n * q
  {
    var d := (a + n - 1) / n;
    assert a + n - 1 == n * d + (a + n - 1) % n;
    MulMono(n, d, q);
  }

  /** For every payload of fewer than a million frames: the directory decodes to the payload, and
      nothing but the payload, even after the pictures have been disturbed within what they survive, and
      whatever pictures sort behind its frames. If one of those is no picture, nothing is decoded. */
  lemma DirectoryRoundTrip(mode: Mode, payload: seq<byte>, dir: Directory, names: seq<string>)
    requires FrameCount(mode, payload) < 1_000_000
    requires Carries(dir, mode, Framed(payload), FrameCount(mode, payload))
    requires Lists(names, PngNames(dir))
    ensures DecodeFromFrames(dir, mode, names)
         == if OthersOpen(dir, FrameCount(mode, payload)) then Payload(payload) else Failed(Unreadable)
  {
    var n := FrameCount(mode, payload);
    hide FrameCount, Name, Opens, Threshold, ParsePayload, Carries, Framed, Lists, AllOpen, OthersOpen, DecodeAll, PngNames;
    ListedAreThere(dir, names);
    FramesListed(dir, mode, Framed(payload), names, n);
    OpenTogether(dir, names, n);
    if OthersOpen(dir, n) {
      AllFilesDecode(mode, payload, dir, names);
    }
  }

  // The frames are the first files of the listing.
  lemma FramesListed(dir: Directory, mode: Mode, data: seq<byte>, names: seq<string>, n: nat)
    requires Carries(dir, mode, data, n) && Lists(names, PngNames(dir)) && n < 1_000_000
    ensures n < |names| && forall i :: 0 <= i <= n ==> names[i] == Name(i)
    ensures forall i :: 0 <= i <= n ==> names[i] in dir && Opens(dir[names[i]])
  {
    hide Name, Opens, Survives, OthersBehind, Lists, PngNames;
    FirstListed(names, PngNames(dir), n, n + 1);
  }

  // If all files open, what the frames carry is read.
  lemma AllFilesDecode(mode: Mode, payload: seq<byte>, dir: Directory, names: seq<string>)
    requires
      var n := FrameCount(mode, payload);
      && n < 1_000_000 && Carries(dir, mode, Framed(payload), n)
      && n < |names| && (forall i :: 0 <= i <= n ==> names[i] == Name(i))
    requires forall name :: name in names ==> name in dir
    requires AllOpen(FilesOf(dir, names))
    ensures
      var files := FilesOf(dir, names);
      AllOpen(files[1..]) && ParsePayload(DecodeAll(mode, Threshold(files[0].raw), files[1..])) == Payload(payload)
  {
    hide FrameCount, BytesPerFrame, Name, Opens, Threshold, ParsePayload, Carries, Framed, DecodeAll, Pieces;
    var n, files := FrameCount(mode, payload), FilesOf(dir, names);
    CountIsPieces(mode, payload);
    var frames, others := files[1..n + 1], files[n + 1..];
    assert files[1..] == frames + others;
    var behind := FramesThenOthers(mode, Framed(payload), dir, n, files[0], frames, others);
    PayloadBound(mode, payload);
    ParsesBack(payload, behind);
  }

  // All listed files open exactly if those behind the frames do.
  lemma OpenTogether(dir: Directory, names: seq<string>, n: nat)
    requires Lists(names, PngNames(dir)) && n < |names|
    requires forall name :: name in names ==> name in dir
    requires forall i :: 0 <= i <= n ==> names[i] == Name(i) && Opens(dir[names[i]])
    ensures AllOpen(FilesOf(dir, names)) <==> OthersOpen(dir, n)
  {
    hide Opens, Before, Name, PngNames;
    var files := FilesOf(dir, names);
    forall i | 0 <= i < |names| ensures names[i] in PngNames(dir) {
    }
    if AllOpen(files) {
      forall name | name in PngNames(dir) ensures Opens(dir[name]) {
        var i :| 0 <= i < |names| && names[i] == name;
        assert Opens(files[i]);
      }
    }
    if OthersOpen(dir, n) {
      forall i | 0 <= i < |names| ensures Opens(files[i]) {
        if i > n {
          forall j | 0 <= j <= n ensures names[i] != Name(j) {
            BeforeIsAsymmetric(names[j], names[i]);
          }
          assert names[i] !in FirstNames(n);
        }
      }
    }
  }

  lemma CountIsPieces(mode: Mode, payload: seq<byte>)
    ensures BytesPerFrame(mode) > 0
    ensures FrameCount(mode, payload) == |Pieces(BytesPerFrame(mode), Framed(payload))|
  {
    GeometryExact(mode);
    hide BytesPerFrame, Pieces, CeilDiv;
    PieceCount(BytesPerFrame(mode), Framed(payload));
  }

  // The frames decode to the data and its padding; others add what they hold.
  lemma FramesThenOthers(mode: Mode, data: seq<byte>, dir: Directory, n: nat, calibration: File, frames: seq<File>, others: seq<File>)
    returns (behind: seq<byte>)
    requires AllOpen(frames) && AllOpen(others) && Carries(dir, mode, data, n) && calibration == dir[Name(0)]
    requires BytesPerFrame(mode) > 0 && |frames| == n == |Pieces(BytesPerFrame(mode), data)|
    requires forall i :: 0 <= i < n ==> frames[i] == dir[Name(i + 1)]
    ensures AllOpen(frames + others)
    ensures DecodeAll(mode, Threshold(calibration.raw), frames + others) == data + behind
  {
    hide BytesPerFrame, Name, PngNames, Threshold, DecodeFile, Survives, Pieces, OthersBehind, DecodeAll;
    var threshold := Threshold(calibration.raw);
    FilesDecode(mode, data, dir, n, frames);
    var extra := PiecesDecode(mode, threshold, data, frames);
    DecodeAllAppend(mode, threshold, frames, others);
    behind := Zeros(extra) + DecodeAll(mode, threshold, others);
    Assoc(data, Zeros(extra), DecodeAll(mode, threshold, others));
  }

  lemma FilesDecode(mode: Mode, data: seq<byte>, dir: Directory, n: nat, files: seq<File>)
    requires Carries(dir, mode, data, n) && BytesPerFrame(mode) > 0
    requires |files| == n == |Pieces(BytesPerFrame(mode), data)|
    requires forall i :: 0 <= i < n ==> files[i] == dir[Name(i + 1)] && Opens(files[i])
    ensures
      var b := BytesPerFrame(mode);
      var pieces := Pieces(b, data);
      forall i :: 0 <= i < n ==>
        |pieces[i]| <= b && DecodeFile(mode, Threshold(dir[Name(0)].raw), files[i]) == pieces[i] + Zeros(b - |pieces[i]|)
  {
    hide BytesPerFrame, Name, PngNames, Threshold, DecodeFile, Survives, ReadAt, Offset, Pieces;
    var b := BytesPerFrame(mode);
    var pieces := Pieces(b, data);
    forall i | 0 <= i < n
      ensures |pieces[i]| <= b && DecodeFile(mode, Threshold(dir[Name(0)].raw), files[i]) == pieces[i] + Zeros(b - |pieces[i]|)
    {
      PieceFits(b, data, i);
      PieceAt(b, data, i);
      SurvivorDecodes(mode, data, dir, i + 1, pieces[i]);
    }
  }

  lemma SurvivorDecodes(mode: Mode, data: seq<byte>, dir: Directory, i: nat, chunk: seq<byte>)
    requires Name(0) in dir && Opens(dir[Name(0)]) && Name(i) in dir && Opens(dir[Name(i)]) && i > 0
    requires Survives(dir, mode, data, i)
    requires |chunk| <= BytesPerFrame(mode)
    requires chunk == ReadAt(data, Offset(i - 1, BytesPerFrame(mode)), BytesPerFrame(mode))
    ensures DecodeFile(mode, Threshold(dir[Name(0)].raw), dir[Name(i)]) == chunk + Zeros(BytesPerFrame(mode) - |chunk|)
  {
    hide FrameSurvives, EncodeFrame, DecodeFile, ReadAt, Offset, Threshold, BytesPerFrame, Name;
    FileDecodes(mode, Threshold(dir[Name(0)].raw), chunk, dir[Name(i)]);
  }

  lemma NamePng(i: nat)
    ensures IsPng(Name(i))
  {
  }

  lemma NamesDistinct(i: nat, j: nat)
    requires i < j < 1_000_000
    ensures Name(i) != Name(j)
  {
    NameOrder(i, j);
    BeforeIsAsymmetric(Name(i), Name(j));
  }

  lemma {:induction false} WrittenFiles(dir: Directory, mode: Mode, data: seq<byte>, n: nat)
    requires n <= 1_000_000
    ensures forall i :: 0 <= i < n ==> Name(i) in Written(dir, mode, data, n)
    ensures forall i :: 0 <= i < n ==> Written(dir, mode, data, n)[Name(i)] == FrameFile(mode, data, i)
    ensures PngNames(Written(dir, mode, data, n)) == PngNames(dir) + (set i | 0 <= i < n :: Name(i))
    ensures forall name :: name in dir && name !in (set i | 0 <= i < n :: Name(i)) ==>
      name in Written(dir, mode, data, n) && Written(dir, mode, data, n)[name] == dir[name]
  {
    hide Name, IsPng, FrameFile;
    if n > 0 {
      WrittenFiles(dir, mode, data, n - 1);
      NamePng(n - 1);
      PngAdded(Written(dir, mode, data, n - 1), Name(n - 1), FrameFile(mode, data, n - 1));
      forall i | 0 <= i < n - 1 ensures Name(i) != Name(n - 1) {
        NamesDistinct(i, n - 1);
      }
      assert (set i | 0 <= i < n :: Name(i)) == (set i | 0 <= i < n - 1 :: Name(i)) + {Name(n - 1)};
    }
  }

  lemma PngAdded(dir: Directory, name: string, f: File)
    requires IsPng(name)
    ensures PngNames(dir[name := f]) == PngNames(dir) + {name}
  {
  }

  lemma WrittenCarries(dir: Directory, mode: Mode, data: seq<byte>, n: nat)
    requires n < 1_000_000
    requires forall name :: name in PngNames(dir) && name !in FirstNames(n) ==> Before(Name(n), name)
    ensures Carries(Written(dir, mode, data, n + 1), mode, data, n)
    ensures OthersOpen(Written(dir, mode, data, n + 1), n) <==> OthersOpen(dir, n)
  {
    hide Name, Threshold, Written, FrameFile, FileSurvives, Opens, Before, IsPng;
    var out := Written(dir, mode, data, n + 1);
    WrittenFiles(dir, mode, data, n + 1);
    assert (set i | 0 <= i < n + 1 :: Name(i)) == FirstNames(n);
    forall i | 0 <= i <= n ensures Name(i) in out && Opens(out[Name(i)]) && out[Name(i)] == FrameFile(mode, data, i) {
      FrameFileOpens(mode, data, i);
    }
    CalibrationDrawn(mode, data);
    forall i | 0 < i <= n ensures Survives(out, mode, data, i) {
      Unchanged(mode, data, i);
    }
  }

  lemma CalibrationDrawn(mode: Mode, data: seq<byte>)
    ensures Threshold(FrameFile(mode, data, 0).raw) == 127
  {
    hide Threshold;
    CalibrationThreshold(mode);
  }

  lemma Unchanged(mode: Mode, data: seq<byte>, i: nat)
    requires i > 0 && Opens(FrameFile(mode, data, i))
    ensures FileSurvives(mode, 127, FrameFile(mode, data, i), FrameFile(mode, data, i))
  {
    hide FrameSurvives, EncodeFrame;
    Undisturbed(mode, 127, ReadAt(data, Offset(i - 1, BytesPerFrame(mode)), BytesPerFrame(mode)), true);
  }

  /** Encoding into a directory and decoding it gives the payload, for every directory whose other
      .png files sort behind the new frames and are pictures: the frames of an earlier, longer
      payload, for instance. If one of them is no picture, the directory cannot be decoded. */
  lemma EncodedDirectoryDecodes(mode: Mode, payload: seq<byte>, dir: Directory, names: seq<string>)
    requires FrameCount(mode, payload) < 1_000_000
    requires
      var n := FrameCount(mode, payload);
      && (forall name :: name in PngNames(dir) && name !in FirstNames(n) ==> Before(Name(n), name))
      && Lists(names, PngNames(Written(dir, mode, Framed(payload), n + 1)))
    ensures
      var n := FrameCount(mode, payload);
      DecodeFromFrames(Written(dir, mode, Framed(payload), n + 1), mode, names)
      == if OthersOpen(dir, n) then Payload(payload) else Failed(Unreadable)
  {
    var n := FrameCount(mode, payload);
    hide PngNames, Carries, Written, BytesPerFrame, Framed, CeilDiv, Sorted, DecodeFromFrames, OthersOpen;
    WrittenCarries(dir, mode, Framed(payload), n);
    DirectoryRoundTrip(mode, payload, Written(dir, mode, Framed(payload), n + 1), names);
  }

  /** In particular a directory that held another payload before. */
  lemma ReusedDirectoryDecodes(mode: Mode, first: seq<byte>, second: seq<byte>, dir: Directory, names: seq<string>)
    requires PngNames(dir) == {} && FrameCount(mode, first) < 1_000_000 && FrameCount(mode, second) < 1_000_000
    requires
      var used := Written(dir, mode, Framed(first), FrameCount(mode, first) + 1);
      Lists(names, PngNames(Written(used, mode, Framed(second), FrameCount(mode, second) + 1)))
    ensures
      var used := Written(dir, mode, Framed(first), FrameCount(mode, first) + 1);
      DecodeFromFrames(Written(used, mode, Framed(second), FrameCount(mode, second) + 1), mode, names) == Payload(second)
  {
    var m, n := FrameCount(mode, first), FrameCount(mode, second);
    var used := Written(dir, mode, Framed(first), m + 1);
    EarlierFramesBehind(mode, Framed(first), dir, m, n);
    hide PngNames, Carries, Written, BytesPerFrame, Framed, FrameCount, Sorted, DecodeFromFrames, Before;
    EncodedDirectoryDecodes(mode, second, used, names);
  }

  lemma EarlierFramesBehind(mode: Mode, data: seq<byte>, dir: Directory, m: nat, n: nat)
    requires PngNames(dir) == {} && m < 1_000_000 && n < 1_000_000
    ensures var used := Written(dir, mode, data, m + 1);
      && (forall name :: name in PngNames(used) && name !in FirstNames(n) ==> Before(Name(n), name))
      && OthersOpen(used, n)
  {
    hide Name, Written, FrameFile, Opens, Before, IsPng;
    var used := Written(dir, mode, data, m + 1);
    WrittenFiles(dir, mode, data, m + 1);
    forall name | name in PngNames(used) && name !in FirstNames(n)
      ensures Before(Name(n), name) && Opens(used[name])
    {
      var i :| 0 <= i < m + 1 && name == Name(i);
      FrameFileOpens(mode, data, i);
      NameOrder(n, i);
    }
  }
}
