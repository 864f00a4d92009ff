/** What decode_from_frames (nexus-core/src/decoder.rs) answers for incomplete data: exactly which
    bytes hold a payload, and what becomes of a directory from which frames are missing. */
module DirectoryErrors {
  import opened Bytes
  import opened BitPacking
  import opened Frame
  import opened FrameNames
  import opened FrameDirectory
  import opened Cutting
  import X = PixelFormat

  // ------------------------------------------------------------------ the bytes of the data frames

  /** The payload is found exactly in the bytes that begin with its length and all of it. */
  lemma ParsesExactly(raw: seq<byte>, payload: seq<byte>)
    requires |payload| + 8 < 0x1_0000_0000_0000_0000
    ensures ParsePayload(raw) == Payload(payload) <==> Framed(payload) <= raw
  {
    hide ToLe, FromLe;
    if Framed(payload) <= raw {
      ParsesBack(payload, raw[|Framed(payload)|..]);
      assert raw == Framed(payload) + raw[|Framed(payload)|..];
    }
    if ParsePayload(raw) == Payload(payload) {
      LeUnique(raw[..8], 8);
      assert raw[..8 + |payload|] == raw[..8] + raw[8..8 + |payload|];
      assert raw[..8 + |payload|] == Framed(payload);
    }
  }

  lemma {:induction false} LeUnique(s: seq<byte>, w: nat)
    requires |s| == w
    ensures ToLe(FromLe(s), w) == s
    decreases w
  {
    if w > 0 {
      LeUnique(s[1..], w - 1);
      var high := FromLe(s[1..]);
      hide FromLe;
      FirstByte(s[0], high);
    }
  }

  lemma FirstByte(low: byte, high: nat)
    ensures (low + 256 * high) % 256 == low && (low + 256 * high) / 256 == high
  {
  }

  /** All other bytes are refused: fewer than eight have no length, and with fewer than the length
      says the payload is corrupt, unless the length itself is beyond 64 bits. */
  lemma ParseErrors(raw: seq<byte>)
    ensures ParsePayload(raw) == Failed(MissingLength) <==> |raw| < 8
    ensures ParsePayload(raw) == Failed(CorruptPayload) <==>
      exists n: nat :: |raw| < n + 8 < 0x1_0000_0000_0000_0000 && ToLe(n, 8) <= raw
    ensures ParsePayload(raw) == Crash <==>
      exists n: nat :: 0x1_0000_0000_0000_0000 <= n + 8 < 0x1_0000_0000_0000_0008 && ToLe(n, 8) <= raw
  {
    Pow256Values();
    if |raw| >= 8 {
      LeUnique(raw[..8], 8);
      FromLeBound(raw[..8]);
    }
    forall n: nat | n < 0x1_0000_0000_0000_0000 && ToLe(n, 8) <= raw ensures |raw| >= 8 && n == FromLe(raw[..8]) {
      LeRoundTrip(n, 8);
      assert raw[..8] == ToLe(n, 8);
    }
  }

  // ------------------------------------------------------------------ directories

  /** Nothing to decode is an error, and so is any file that is no picture. */
  lemma UnreadableExactly(dir: Directory, mode: Mode, names: seq<string>)
    requires Lists(names, PngNames(dir))
    ensures DecodeFromFrames(dir, mode, names) == Failed(NoFrames) <==> PngNames(dir) == {}
    ensures DecodeFromFrames(dir, mode, names) == Failed(Unreadable) <==>
      exists name :: name in PngNames(dir) && !Opens(dir[name])
  {
    hide PngNames, Opens, DecodeAll, Threshold, Sorted, ParsePayload;
    ListedAreThere(dir, names);
    var files := FilesOf(dir, names);
    if names == [] {
      assert forall name :: name in PngNames(dir) ==> name in names;
    } else {
      assert names[0] in PngNames(dir);
      if name :| name in PngNames(dir) && !Opens(dir[name]) {
        var i :| 0 <= i < |names| && names[i] == name;
        assert !Opens(files[i]);
      } else {
        forall i | 0 <= i < |files| ensures Opens(files[i]) {
          assert names[i] in PngNames(dir);
        }
      }
      ParsedIsOther();
    }
  }

  lemma ParsedIsOther()
    ensures forall raw :: ParsePayload(raw) != Failed(NoFrames) && ParsePayload(raw) != Failed(Unreadable)
  {
  }

  /** The calibration frame alone carries no length. */
  lemma OnlyCalibration(dir: Directory, mode: Mode, name: string)
    requires PngNames(dir) == {name} && Opens(dir[name])
    ensures Lists([name], PngNames(dir)) && DecodeFromFrames(dir, mode, [name]) == Failed(MissingLength)
  {
    hide PngNames, Opens, Threshold;
    var names := [name];
    assert Lists(names, PngNames(dir));
    ListedAreThere(dir, names);
    var files := FilesOf(dir, names);
    assert files[1..] == [];
  }

  predicate FrameSized(mode: Mode, f: File) {
    Opens(f) && f.w == Width(mode) && f.h == Height(mode)
  }

  lemma FileLength(mode: Mode, threshold: byte, f: File)
    requires FrameSized(mode, f)
    ensures |DecodeFile(mode, threshold, f)| == BytesPerFrame(mode)
  {
    hide ReadSymbols, BytesOf;
    GeometryExact(mode);
    var read := ReadSymbols(mode, threshold, FrameDirectory.Raster(f), f.w, f.h, f.h / 4);
    X.ReadLength(mode, threshold, FrameDirectory.Raster(f), f.w, f.h, f.h / 4);
    BitsLength(BitsPerBlock(mode), read);
    X.BytesHold(Bits(BitsPerBlock(mode), read), mode == Base);
  }

  lemma {:induction false} AllLengths(mode: Mode, threshold: byte, files: seq<File>)
    requires AllOpen(files) && forall i :: 0 <= i < |files| ==> FrameSized(mode, files[i])
    ensures |DecodeAll(mode, threshold, files)| == BytesPerFrame(mode) * |files|
  {
    hide FrameSized, Opens, DecodeFile, BytesPerFrame;
    if files != [] {
      FileLength(mode, threshold, files[0]);
      AllLengths(mode, threshold, files[1..]);
      assert BytesPerFrame(mode) * |files| == BytesPerFrame(mode) + BytesPerFrame(mode) * (|files| - 1);
    }
  }

  // Too few whole frames for a payload of that many.
  lemma TooFew(size: nat, total: nat, frames: nat)
    requires size > 0 && frames < CeilDiv(total, size)
    ensures size * frames < total
  {
    var q := (total + size - 1) / size;
    assert total + size - 1 == size * q + (total + size - 1) % size;
    MulMono(size, frames, q);
  }

  /** If frames of a payload are lost, whichever and whatever the remaining ones show, the payload is
      refused as corrupt, as long as the first data frame is there to tell its length. */
  lemma FramesMissing(mode: Mode, payload: seq<byte>, dir: Directory, names: seq<string>)
    requires FrameCount(mode, payload) < 1_000_000
    requires Carries(dir, mode, Framed(payload), 1) && Lists(names, PngNames(dir))
    requires forall name :: name in PngNames(dir) ==> FrameSized(mode, dir[name])
    requires |names| < FrameCount(mode, payload) + 1
    ensures DecodeFromFrames(dir, mode, names) == Failed(CorruptPayload)
  {
    hide FrameCount, Name, Threshold, ParsePayload, Framed, Lists, DecodeAll, PngNames, DecodeFile, FrameSized, BytesPerFrame;
    ListedAreThere(dir, names);
    FramesListed(dir, mode, Framed(payload), names, 1);
    var files := FilesOf(dir, names);
    ListedSized(mode, dir, names);
    var rest := files[1..];
    AllLengths(mode, Threshold(files[0].raw), rest);
    var raw := DecodeAll(mode, Threshold(files[0].raw), rest);
    FirstFrame(mode, payload, dir, rest);
    ShortRaw(mode, payload, raw, |rest|);
  }

  lemma ListedSized(mode: Mode, dir: Directory, names: seq<string>)
    requires Lists(names, PngNames(dir))
    requires forall name :: name in PngNames(dir) ==> FrameSized(mode, dir[name])
    ensures (forall name :: name in names ==> name in dir) && AllOpen(FilesOf(dir, names))
    ensures forall i :: 0 <= i < |names| ==> FrameSized(mode, FilesOf(dir, names)[i])
  {
    hide PngNames, Opens, Sorted;
    ListedAreThere(dir, names);
    forall i | 0 <= i < |names| ensures FrameSized(mode, FilesOf(dir, names)[i]) {
      assert names[i] in PngNames(dir);
    }
  }

  lemma FirstFrame(mode: Mode, payload: seq<byte>, dir: Directory, rest: seq<File>)
    requires Carries(dir, mode, Framed(payload), 1) && FrameCount(mode, payload) > 1
    requires AllOpen(rest) && rest != [] && rest[0] == dir[Name(1)]
    ensures var raw := DecodeAll(mode, Threshold(dir[Name(0)].raw), rest);
      |raw| >= 8 && raw[..8] == ToLe(|payload|, 8)
  {
    GeometryExact(mode);
    hide Name, Opens, Threshold, DecodeFile, BytesPerFrame, PngNames, OthersBehind, Survives;
    var b, data := BytesPerFrame(mode), Framed(payload);
    TooFew(b, |data|, 1);
    assert Offset(0, b) == 0 && ReadAt(data, 0, b) == data[..b];
    SurvivorDecodes(mode, data, dir, 1, data[..b]);
    assert data[..b] + Zeros(0) == data[..b];
    assert data[..b][..8] == data[..8] == ToLe(|payload|, 8);
  }

  lemma ShortRaw(mode: Mode, payload: seq<byte>, raw: seq<byte>, frames: nat)
    requires FrameCount(mode, payload) < 1_000_000 && frames < FrameCount(mode, payload)
    requires |raw| == BytesPerFrame(mode) * frames && |raw| >= 8 && raw[..8] == ToLe(|payload|, 8)
    ensures ParsePayload(raw) == Failed(CorruptPayload)
  {
    GeometryExact(mode);
    hide BytesPerFrame;
    PayloadBound(mode, payload);
    TooFew(BytesPerFrame(mode), |payload| + 8, frames);
    Pow256Values();
    LeRoundTrip(|payload|, 8);
  }
}
