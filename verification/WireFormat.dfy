/** The bytes of nexus-core/src/streaming.rs on the wire, one by one: nonces, chunk headers, sealed
    chunks and symbols, without reference to the functions that write or read them. */
module WireFormat {
  import opened Bytes
  import opened Fec
  import opened CryptoStream
  import opened StreamTheorems
  import B = BlockIds

  // ------------------------------------------------------------------ nonces

  /** The prefix, then eight bytes, most significant first: the counter, with the top bit set in
      the final chunk. */
  lemma NonceBytes(prefix: seq<byte>, counter: u64, isFinal: bool)
    ensures var nonce := Nonce(prefix, counter, isFinal);
      && prefix <= nonce && |nonce| == |prefix| + 8
      && FromBe(nonce[|prefix|..])
         == if isFinal && counter < 0x8000_0000_0000_0000 then counter + 0x8000_0000_0000_0000 else counter
  {
    hide BitOr, ToBe;
    Pow256Values();
    var nonce := Nonce(prefix, counter, isFinal);
    if isFinal {
      FinalCounter(counter);
      assert nonce[|prefix|..] == ToBe(BitOr(counter, TWO_63), 8);
      BeRoundTrip(BitOr(counter, TWO_63), 8);
    } else {
      assert nonce[|prefix|..] == ToBe(counter, 8);
      BeRoundTrip(counter, 8);
    }
  }

  // ------------------------------------------------------------------ four-byte words

  /** Four bytes, the first one the least significant. */
  function Word(a: nat, b: nat, c: nat, d: nat): nat {
    a + 0x100 * b + 0x1_0000 * c + 0x100_0000 * d
  }

  lemma LeWord(s: seq<byte>)
    requires |s| == 4
    ensures FromLe(s) == Word(s[0], s[1], s[2], s[3])
  {
    var a, b, c := s[1..], s[2..], s[3..];
    assert a[1..] == b && b[1..] == c && c[1..] == [];
    assert FromLe(c) == s[3] && FromLe(b) == s[2] + 256 * FromLe(c) && FromLe(a) == s[1] + 256 * FromLe(b);
  }

  lemma LeHalfWord(s: seq<byte>)
    requires |s| == 2
    ensures FromLe(s) == Word(s[0], s[1], 0, 0)
  {
    assert s[1..][1..] == [];
    assert FromLe(s[1..]) == s[1];
  }

  /** The length of the ciphertext, and the top bit of the last byte for the final chunk. */
  lemma HeaderBytes(len: nat, isFinal: bool)
    requires len < 0x8000_0000
    ensures var h := Header(len, isFinal);
      Word(h[0], h[1], h[2], h[3] % 128) == len && (h[3] >= 128 <==> isFinal)
  {
    hide Header, FromLe, Word;
    HeaderValue(len, isFinal);
    assert len % FINAL_FLAG == len;
    var h := Header(len, isFinal);
    LeWord(h);
    TopBit(h[0], h[1], h[2], h[3], len, isFinal);
  }

  lemma TopBit(a: byte, b: byte, c: byte, d: byte, len: nat, isFinal: bool)
    requires len < 0x8000_0000 && Word(a, b, c, d) == len + if isFinal then 0x8000_0000 else 0
    ensures Word(a, b, c, d % 128) == len && (d >= 128 <==> isFinal)
  {
    if d < 128 {
      assert d % 128 == d;
    } else {
      assert d % 128 == d - 128;
    }
  }

  // ------------------------------------------------------------------ symbols

  /** Marker, block id, symbol id, payload. */
  lemma SymbolBytes(blockId: u32, symbolId: nat, payload: seq<byte>)
    requires |payload| == FEC_SYMBOL_SIZE && symbolId < 0x1_0000
    ensures var s := WrapSymbol(blockId, symbolId, payload);
      && |s| == 1032 && s[0] == 'N' as int && s[1] == 'X' as int
      && Word(s[2], s[3], s[4], s[5]) == blockId
      && Word(s[6], s[7], 0, 0) == symbolId
      && s[8..] == payload
  {
    hide ToLe, FromLe;
    Pow256Values();
    var s := WrapSymbol(blockId, symbolId, payload);
    LeRoundTrip(blockId, 4);
    LeRoundTrip(symbolId, 2);
    assert s[2..6] == ToLe(blockId, 4) && s[6..8] == ToLe(symbolId, 2);
    LeWord(s[2..6]);
    LeHalfWord(s[6..8]);
  }

  /** What is read from any 1,032 bytes that are taken for a symbol. */
  lemma SymbolFields(s: seq<byte>)
    requires |s| == FULL_SYMBOL_SIZE
    ensures SymbolBlock(s) == Word(s[2], s[3], s[4], s[5])
    ensures SymbolPacket(s).id == Word(s[6], s[7], 0, 0) && SymbolPacket(s).payload == s[8..]
  {
    hide FromLe;
    LeWord(s[2..6]);
    LeHalfWord(s[6..8]);
  }

  lemma {:induction false} FlattenAt(parts: seq<seq<byte>>, i: nat)
    requires i < |parts| && forall k :: 0 <= k < |parts| ==> |parts[k]| == 1032
    ensures 1032 * i + 1032 <= |Flatten(parts)| && Flatten(parts)[1032 * i..1032 * i + 1032] == parts[i]
    decreases i
  {
    var later := Flatten(parts[1..]);
    if i > 0 {
      FlattenAt(parts[1..], i - 1);
      assert (parts[0] + later)[1032 * i..1032 * i + 1032] == later[1032 * (i - 1)..1032 * i];
    }
  }

  /** A block of 184,320 bytes becomes 206,400: 200 symbols of 1,032 bytes, of which the first 180
      carry the block itself, 1,024 bytes each. */
  lemma BlockOnTheWire(code: Code, blockId: u32, block: seq<byte>, i: nat)
    requires ValidCode(code) && |block| == 184_320 && i < 200
    ensures var wire := Flatten(BlockSymbols(code, blockId, block));
      && |wire| == 206_400
      && var s := wire[1032 * i..1032 * i + 1032];
         && s[0] == 'N' as int && s[1] == 'X' as int
         && Word(s[2], s[3], s[4], s[5]) == blockId && Word(s[6], s[7], 0, 0) == i
         && (i < 180 ==> s[8..] == block[1024 * i..1024 * i + 1024])
  {
    hide ValidCode, BlockSymbols, WrapSymbol, Flatten;
    var symbols := BlockSymbols(code, blockId, block);
    SymbolsAre(code, blockId, block, i);
    FlattenLength(symbols, 1032);
    FlattenAt(symbols, i);
    SymbolBytes(blockId, i, code.symbols(block)[i]);
  }

  lemma SymbolsAre(code: Code, blockId: u32, block: seq<byte>, i: nat)
    requires ValidCode(code) && |block| == 184_320 && i < 200
    ensures var symbols := BlockSymbols(code, blockId, block);
      && |symbols| == |code.symbols(block)| == 200
      && (forall k :: 0 <= k < 200 ==> |symbols[k]| == 1032)
      && symbols[i] == WrapSymbol(blockId, i, code.symbols(block)[i])
      && |code.symbols(block)[i]| == 1024
      && (i < 180 ==> code.symbols(block)[i] == block[1024 * i..1024 * i + 1024])
  {
    hide WrapSymbol;
    B.SymbolsWellFormed(code, blockId, block);
    assert Encodes(code, block);
    hide ValidCode;
  }

  // ------------------------------------------------------------------ sealed chunks

  /** Bytes of a full sealed chunk: header, 128 KiB, tag. */
  const CHUNK_ON_WIRE: nat := 4 + 131_072 + 16

  lemma {:induction false} ChunkAt(s: seq<byte>, i: nat)
    requires (i + 1) * 131_072 <= |s|
    ensures i < |FullChunks(STREAM_CHUNK_SIZE, s)|
    ensures FullChunks(STREAM_CHUNK_SIZE, s)[i] == s[i * 131_072..(i + 1) * 131_072]
    decreases i
  {
    var later := s[131_072..];
    assert FullChunks(STREAM_CHUNK_SIZE, s) == [s[..131_072]] + FullChunks(STREAM_CHUNK_SIZE, later);
    hide FullChunks;
    if i > 0 {
      ChunkAt(later, i - 1);
      assert later[(i - 1) * 131_072..i * 131_072] == s[i * 131_072..(i + 1) * 131_072];
    }
  }

  lemma {:induction false} RestAt(s: seq<byte>)
    ensures |FullChunks(STREAM_CHUNK_SIZE, s)| == |s| / 131_072
    ensures Rest(STREAM_CHUNK_SIZE, s) == s[|s| / 131_072 * 131_072..]
    decreases |s|
  {
    if |s| >= 131_072 {
      RestAt(s[131_072..]);
    }
  }

  lemma SealedSize(a: Aead, prefix: seq<byte>, counter: u64, plain: seq<byte>)
    requires TagsAppended(a) && |plain| == 131_072
    ensures |SealFrame(a, prefix, counter, plain, false)| == CHUNK_ON_WIRE
  {
  }

  // Frame i of messages that are all full but the last.
  lemma {:induction false} SealedAt(a: Aead, prefix: seq<byte>, counter: u64, msgs: seq<seq<byte>>, i: nat)
    requires TagsAppended(a) && i < |msgs|
    requires forall k :: 0 <= k < |msgs| - 1 ==> |msgs[k]| == 131_072
    ensures var sealed := SealMessages(a, prefix, counter, msgs);
      && |sealed| >= (|msgs| - 1) * CHUNK_ON_WIRE
      && sealed[i * CHUNK_ON_WIRE..(if i < |msgs| - 1 then (i + 1) * CHUNK_ON_WIRE else |sealed|)]
         == SealFrame(a, prefix, Advance(counter, i), msgs[i], i == |msgs| - 1)
    decreases |msgs|
  {
    hide SealFrame, TagsAppended;
    if |msgs| > 1 {
      SealedSize(a, prefix, counter, msgs[0]);
      var first := SealFrame(a, prefix, counter, msgs[0], false);
      SealedAt(a, prefix, Next(counter), msgs[1..], if i > 0 then i - 1 else 0);
      SkipFirst(first, SealMessages(a, prefix, Next(counter), msgs[1..]));
    }
  }

  lemma SkipFirst(first: seq<byte>, later: seq<byte>)
    ensures (first + later)[..|first|] == first
    ensures forall i, j :: 0 <= i <= j <= |later| ==> (first + later)[|first| + i..|first| + j] == later[i..j]
  {
  }

  /** Chunk number i of a stream, for every stream and every cipher with 16-byte tags: its 131,092
      bytes begin at i times 131,092 with the length 131,088 in little endian, and hold bytes
      i * 131,072 to (i + 1) * 131,072 of the plaintext, sealed under the prefix and i in big endian. */
  lemma ChunkOnTheWire(a: Aead, prefix: seq<byte>, updates: seq<byte>, last: seq<byte>, i: nat)
    returns (nonce: seq<byte>)
    requires TagsAppended(a) && (i + 1) * 131_072 <= |updates| && i < TWO_63
    ensures prefix <= nonce && |nonce| == |prefix| + 8 && FromBe(nonce[|prefix|..]) == i
    ensures var sealed := EncryptedStream(a, prefix, updates, last);
      && (i + 1) * 131_092 <= |sealed|
      && sealed[i * 131_092..(i + 1) * 131_092]
         == [0x10, 0x00, 0x02, 0x00] + a.seal(nonce, updates[i * 131_072..(i + 1) * 131_072])
  {
    hide Nonce, Header, FullChunks, Rest, SealMessages;
    nonce := Nonce(prefix, i, false);
    NonceBytes(prefix, i, false);
    AdvanceValue(i);
    ChunkAt(updates, i);
    RestAt(updates);
    ChunksHaveLength(STREAM_CHUNK_SIZE, updates);
    SealedAt(a, prefix, 0, Messages(updates, last), i);
    FullHeader();
    assert TagsAppended(a) && |a.seal(nonce, updates[i * 131_072..(i + 1) * 131_072])| == 131_088;
  }

  lemma FullHeader()
    ensures Header(131_088, false) == [0x10, 0x00, 0x02, 0x00]
  {
    hide Header;
    HeaderBytes(131_088, false);
    var h := Header(131_088, false);
    assert h[3] == 0;
    assert h[2] == 2;
    assert h[1] == 0;
  }

  /** How many chunks of 128 KiB are full. */
  function FullCount(s: seq<byte>): (n: nat)
    ensures n * 131_072 <= |s| < n * 131_072 + 131_072
  {
    |s| / 131_072
  }

  /** Behind the full chunks comes the final one: the rest of the plaintext and what finalize was
      given, under the prefix and the number of full chunks with the top bit set. */
  lemma FinalOnTheWire(a: Aead, prefix: seq<byte>, updates: seq<byte>, last: seq<byte>)
    returns (nonce: seq<byte>, header: seq<byte>)
    requires TagsAppended(a) && FullCount(updates) < TWO_63 && |last| < 0x4000_0000
    ensures prefix <= nonce && |nonce| == |prefix| + 8
    ensures FromBe(nonce[|prefix|..]) == FullCount(updates) + 0x8000_0000_0000_0000
    ensures var rest := updates[FullCount(updates) * 131_072..] + last;
      && |header| == 4 && Word(header[0], header[1], header[2], header[3]) == |rest| + 16 + 0x8000_0000
      && FullCount(updates) * 131_092 <= |EncryptedStream(a, prefix, updates, last)|
      && EncryptedStream(a, prefix, updates, last)[FullCount(updates) * 131_092..] == header + a.seal(nonce, rest)
  {
    hide Nonce, Header, FullChunks, Rest, SealMessages, Word;
    var full := FullCount(updates);
    nonce := Nonce(prefix, full, true);
    NonceBytes(prefix, full, true);
    AdvanceValue(full);
    RestAt(updates);
    ChunksHaveLength(STREAM_CHUNK_SIZE, updates);
    SealedAt(a, prefix, 0, Messages(updates, last), full);
    var c := a.seal(nonce, updates[full * 131_072..] + last);
    header := Header(|c|, true);
    FinalHeader(|c|);
    var sealed := EncryptedStream(a, prefix, updates, last);
    assert sealed[full * 131_092..|sealed|] == sealed[full * 131_092..];
  }

  lemma FinalHeader(len: nat)
    requires len < 0x8000_0000
    ensures var h := Header(len, true); Word(h[0], h[1], h[2], h[3]) == len + 0x8000_0000
  {
    hide Header, FromLe, Word;
    HeaderValue(len, true);
    assert len % FINAL_FLAG == len;
    LeWord(Header(len, true));
  }

  // ------------------------------------------------------------------ what decrypting takes out of a buffer

  /** A complete frame: its header counts the bytes behind it, without the flag. */
  predicate IsFrame(f: seq<byte>) {
    |f| >= 4 && |f| == 4 + FromLe(f[..4]) % 0x8000_0000
  }

  /** The buffer is the frames taken out and what is kept or dropped. The counter advances by the
      frames that opened; a rejected one is taken out as well. Nothing is kept behind a final frame,
      and nothing is dropped otherwise. */
  ghost predicate TakenOut(counter: u64, buffer: seq<byte>, frames: seq<seq<byte>>, dropped: seq<byte>,
                           rejected: bool, after: State)
  {
    && buffer == Flatten(frames) + (after.buffer + dropped)
    && (forall k :: 0 <= k < |frames| ==> IsFrame(frames[k]))
    && (rejected || after.finalized ==> frames != [])
    && after.counter == Advance(counter, |frames| - if rejected then 1 else 0)
    && (if after.finalized then after.buffer == [] else dropped == [])
  }

  lemma NoneTaken(counter: u64, buffer: seq<byte>)
    ensures TakenOut(counter, buffer, [], [], false, State(counter, false, buffer))
  {
  }

  lemma OneTaken(counter: u64, frame: seq<byte>, rest: seq<byte>)
    requires IsFrame(frame)
    ensures TakenOut(counter, frame + rest, [frame], [], true, State(counter, false, rest))
    ensures TakenOut(counter, frame + rest, [frame], rest, false, State(Next(counter), true, []))
  {
    assert [frame][1..] == [];
    assert [] + rest == rest && rest + [] == rest;
    assert Advance(counter, 1) == Advance(Next(counter), 0);
  }

  lemma MoreTaken(counter: u64, frame: seq<byte>, rest: seq<byte>, frames: seq<seq<byte>>, dropped: seq<byte>,
                  rejected: bool, after: State)
    requires IsFrame(frame) && TakenOut(Next(counter), rest, frames, dropped, rejected, after)
    ensures TakenOut(counter, frame + rest, [frame] + frames, dropped, rejected, after)
  {
    hide IsFrame;
    assert ([frame] + frames)[1..] == frames;
    Assoc(frame, Flatten(frames), after.buffer + dropped);
  }

  /** For every cipher and any bytes: the loop takes complete frames out, in order, and keeps the
      rest. Nothing complete is left over, unless a frame was rejected. */
  lemma {:induction false} OpenConserves(a: Aead, prefix: seq<byte>, counter: u64, buffer: seq<byte>)
    returns (frames: seq<seq<byte>>, dropped: seq<byte>)
    ensures var o := OpenFrames(a, prefix, counter, buffer);
      && TakenOut(counter, buffer, frames, dropped, o.rejected, o.state)
      && (!o.rejected ==> !StartsWithFrame(o.state.buffer))
    decreases |buffer|
  {
    hide Nonce, FromLe, TakenOut;
    if !StartsWithFrame(buffer) {
      frames, dropped := [], [];
      NoneTaken(counter, buffer);
    } else {
      var header := FromLe(buffer[..4]);
      var isFinal, len := header >= FINAL_FLAG, header % FINAL_FLAG;
      var first, rest := buffer[..4 + len], buffer[4 + len..];
      assert first[..4] == buffer[..4] && buffer == first + rest;
      var answer := a.open(Nonce(prefix, counter, isFinal), buffer[4..4 + len]);
      if answer.Some? && !isFinal {
        var more := OpenFrames(a, prefix, Next(counter), rest);
        frames, dropped := OpenConserves(a, prefix, Next(counter), rest);
        MoreTaken(counter, first, rest, frames, dropped, more.rejected, more.state);
        frames := [first] + frames;
      } else {
        OneTaken(counter, first, rest);
        frames, dropped := [first], if answer.Some? then rest else [];
      }
    }
  }

  predicate StartsWithFrame(s: seq<byte>) {
    |s| >= 4 && |s| >= 4 + FromLe(s[..4]) % 0x8000_0000
  }

  /** Finalizing reports a finished stream exactly if more bytes follow it, and truncation exactly if
      no frame was rejected and none of those taken out was the final one. */
  lemma FinalizeExactly(a: Aead, prefix: seq<byte>, st: State, last: seq<byte>)
    ensures var r, o := FinalDecryptStep(a, prefix, st, last), OpenFrames(a, prefix, st.counter, st.buffer + last);
      && (r.result == Err(InvalidState) <==> st.finalized && last != [])
      && (r.result == Err(AuthFailed) <==> !st.finalized && o.rejected)
      && (r.result == Err(Truncated) <==> !st.finalized && !o.rejected && !o.state.finalized)
      && (r.result.Ok? ==> r.state.finalized)
      && (if st.finalized then r.state == st else r.state == o.state)
  {
    hide OpenFrames;
  }
}
