/** The chunked authenticated stream (STREAM construction) of nexus-core/src/streaming.rs:
    state, encryption and decryption steps, and the StreamingContext class. */
module CryptoStream {
  import opened Bytes

  const CHUNK_TAG_LEN: nat := 16
  const STREAM_PREFIX_LEN: nat := 16
  const STREAM_CHUNK_SIZE: nat := 131072
  const FINAL_FLAG: nat := 0x8000_0000
  const TWO_63: nat := 0x8000_0000_0000_0000
  const TWO_64: nat := 0x1_0000_0000_0000_0000

  type u64 = i: int | 0 <= i < 0x1_0000_0000_0000_0000

  /** XChaCha20-Poly1305 under one fixed key, as a parameter (the AEAD interface of
      section 2.8 of RFC 8439). */
  datatype Aead = Aead(
    seal: (seq<byte>, seq<byte>) -> seq<byte>,
    open: (seq<byte>, seq<byte>) -> Option<seq<byte>>)

  ghost predicate TagsAppended(a: Aead) {
    forall nonce: seq<byte>, plain: seq<byte> :: |a.seal(nonce, plain)| == |plain| + CHUNK_TAG_LEN
  }

  ghost predicate ValidAead(a: Aead) {
    && TagsAppended(a)
    && (forall nonce: seq<byte>, plain: seq<byte> :: a.open(nonce, a.seal(nonce, plain)) == Some(plain))
  }

  // ------------------------------------------------------------------ wire format

  function Nonce(prefix: seq<byte>, counter: u64, isFinal: bool): seq<byte> {
    prefix + ToBe(if isFinal then BitOr(counter, TWO_63) else counter, 8)
  }

  /** The 4-byte header: the ciphertext length cast to u32, with the top bit flagging the final chunk. */
  function Header(len: nat, isFinal: bool): (r: seq<byte>)
    ensures |r| == 4
  {
    var len32 := len % 0x1_0000_0000;
    ToLe(if isFinal then BitOr(len32, FINAL_FLAG) else len32, 4)
  }

  function SealFrame(a: Aead, prefix: seq<byte>, counter: u64, plain: seq<byte>, isFinal: bool): seq<byte> {
    var c := a.seal(Nonce(prefix, counter, isFinal), plain);
    Header(|c|, isFinal) + c
  }

  /** counter += 1 on 64 bits. */
  function Next(counter: u64): u64 {
    if counter + 1 == TWO_64 then 0 else counter + 1
  }

  function Advance(counter: u64, n: nat): u64
    decreases n
  {
    if n == 0 then counter else Advance(Next(counter), n - 1)
  }

  function SealChunks(a: Aead, prefix: seq<byte>, counter: u64, chunks: seq<seq<byte>>): seq<byte>
    decreases |chunks|
  {
    if chunks == [] then []
    else SealFrame(a, prefix, counter, chunks[0], false) + SealChunks(a, prefix, Next(counter), chunks[1..])
  }

  // ------------------------------------------------------------------ steps of a context

  datatype State = State(counter: u64, finalized: bool, buffer: seq<byte>)
  datatype Step = Step(result: Result, state: State)
  datatype Result = Ok(bytes: seq<byte>) | Err(error: Error)
  datatype Error = InvalidState | AuthFailed | Truncated

  const FRESH := State(0, false, [])

  function EncryptStep(a: Aead, prefix: seq<byte>, st: State, plain: seq<byte>): Step {
    if st.finalized then Step(Err(InvalidState), st)
    else
      var chunks := FullChunks(STREAM_CHUNK_SIZE, st.buffer + plain);
      Step(Ok(SealChunks(a, prefix, st.counter, chunks)),
           State(Advance(st.counter, |chunks|), false, Rest(STREAM_CHUNK_SIZE, st.buffer + plain)))
  }

  function FinalEncryptStep(a: Aead, prefix: seq<byte>, st: State, last: seq<byte>): Step {
    if st.finalized then Step(Err(InvalidState), st)
    else Step(Ok(SealFrame(a, prefix, st.counter, st.buffer + last, true)), State(st.counter, true, []))
  }

  /** What the decrypting loop makes of a buffer: the plaintext opened so far, whether a chunk
      was rejected, and the state it leaves (a rejected chunk is already drained). */
  datatype Opened = Opened(plain: seq<byte>, rejected: bool, state: State)

  function OpenFrames(a: Aead, prefix: seq<byte>, counter: u64, buffer: seq<byte>): Opened
    decreases |buffer|
  {
    if |buffer| < 4 then Opened([], false, State(counter, false, buffer))
    else
      var header := FromLe(buffer[..4]);
      var isFinal := header >= FINAL_FLAG;
      var len := header % FINAL_FLAG;
      if |buffer| < 4 + len then Opened([], false, State(counter, false, buffer))
      else
        var rest := buffer[4 + len..];
        match a.open(Nonce(prefix, counter, isFinal), buffer[4..4 + len])
        case None => Opened([], true, State(counter, false, rest))
        case Some(plain) =>
          if isFinal then Opened(plain, false, State(Next(counter), true, []))
          else
            var more := OpenFrames(a, prefix, Next(counter), rest);
            more.(plain := plain + more.plain)
  }

  function DecryptStep(a: Aead, prefix: seq<byte>, st: State, input: seq<byte>): Step {
    if st.finalized then Step(Err(InvalidState), st)
    else
      var o := OpenFrames(a, prefix, st.counter, st.buffer + input);
      Step(if o.rejected then Err(AuthFailed) else Ok(o.plain), o.state)
  }

  function FinalDecryptStep(a: Aead, prefix: seq<byte>, st: State, last: seq<byte>): Step {
    if st.finalized && last == [] then Step(Ok([]), st)
    else
      var s := DecryptStep(a, prefix, st, last);
      if s.result.Ok? && !s.state.finalized then s.(result := Err(Truncated)) else s
  }

  // ------------------------------------------------------------------ the nonces of a run

  /** The nonces an encrypting context has handed to its cipher after sealing `chunks` full
      chunks, and the final chunk as well if it is finalized. */
  function NonceLog(prefix: seq<byte>, chunks: nat, finalized: bool): (r: seq<seq<byte>>)
    ensures |r| == chunks + (if finalized then 1 else 0)
  {
    seq(chunks, i requires 0 <= i => Nonce(prefix, Advance(0, i), false))
    + if finalized then [Nonce(prefix, Advance(0, chunks), true)] else []
  }

  // ------------------------------------------------------------------ the stateful object

  datatype Mode = Encrypt | Decrypt

  class StreamingContext {
    const aead: Aead
    const noncePrefix: seq<byte>
    const mode: Mode
    var counter: u64
    var isFinalized: bool
    var buffer: seq<byte>
    ghost var nonces: seq<seq<byte>>  // every nonce handed to cipher.encrypt, in order
    ghost var sealed: nat             // full chunks sealed, without the 64-bit wrap of the counter

    ghost function Abstract(): State
      reads this
    {
      State(counter, isFinalized, buffer)
    }

    ghost predicate Valid()
      reads this
    {
      mode.Encrypt? ==>
        && counter == Advance(0, sealed)
        && nonces == NonceLog(noncePrefix, sealed, isFinalized)
    }

    /** `prefix` stands for the 16 random bytes drawn from the system generator. */
    constructor NewEncrypt(aead: Aead, prefix: seq<byte>)
      ensures Valid() && mode == Encrypt && this.aead == aead && noncePrefix == prefix
      ensures Abstract() == FRESH && nonces == [] && sealed == 0
    {
      this.aead, noncePrefix, mode := aead, prefix, Encrypt;
      counter, isFinalized, buffer, nonces, sealed := 0, false, [], [], 0;
    }

    constructor NewDecrypt(aead: Aead, prefix: seq<byte>)
      ensures Valid() && mode == Decrypt && this.aead == aead && noncePrefix == prefix
      ensures Abstract() == FRESH && nonces == [] && sealed == 0
    {
      this.aead, noncePrefix, mode := aead, prefix, Decrypt;
      counter, isFinalized, buffer, nonces, sealed := 0, false, [], [], 0;
    }

    method EncryptUpdate(plaintext: seq<byte>) returns (r: Result)
      requires Valid()
      modifies this
      ensures Valid() && isFinalized == old(isFinalized)
      ensures mode != Encrypt ==> r == Err(InvalidState) && Abstract() == old(Abstract()) && nonces == old(nonces)
      ensures mode == Encrypt ==> Step(r, Abstract()) == EncryptStep(aead, noncePrefix, old(Abstract()), plaintext)
      ensures old(nonces) <= nonces && (old(isFinalized) ==> nonces == old(nonces))
    {
      if mode != Encrypt || isFinalized {
        return Err(InvalidState);
      }
      buffer := buffer + plaintext;
      var out := SealFullChunks();
      return Ok(out);
    }

    /** The loop of EncryptUpdate: seals chunk after chunk while the buffer holds a full one. */
    method SealFullChunks() returns (out: seq<byte>)
      requires Valid() && mode == Encrypt && !isFinalized
      modifies this
      ensures Valid() && !isFinalized && old(nonces) <= nonces
      ensures var chunks := FullChunks(STREAM_CHUNK_SIZE, old(buffer));
        && out == SealChunks(aead, noncePrefix, old(counter), chunks)
        && counter == Advance(old(counter), |chunks|)
      ensures buffer == Rest(STREAM_CHUNK_SIZE, old(buffer))
    {
      hide Nonce, Header;
      ghost var chunks := FullChunks(STREAM_CHUNK_SIZE, buffer);
      out := [];
      while |buffer| >= STREAM_CHUNK_SIZE
        invariant !isFinalized && old(nonces) <= nonces
        invariant counter == Advance(0, sealed) && nonces == NonceLog(noncePrefix, sealed, false)
        invariant sealed + |FullChunks(STREAM_CHUNK_SIZE, buffer)| == old(sealed) + |chunks|
        invariant Rest(STREAM_CHUNK_SIZE, buffer) == Rest(STREAM_CHUNK_SIZE, old(buffer))
        invariant out + SealChunks(aead, noncePrefix, counter, FullChunks(STREAM_CHUNK_SIZE, buffer))
               == SealChunks(aead, noncePrefix, old(counter), chunks)
      {
        DrainStep(aead, noncePrefix, counter, out, buffer);
        NonceLogGrows(noncePrefix, sealed);
        var chunk := buffer[..STREAM_CHUNK_SIZE];
        buffer := buffer[STREAM_CHUNK_SIZE..];
        var nonce := GenerateNonce(false);
        var ciphertext := aead.seal(nonce, chunk);
        out := out + Header(|ciphertext|, false);
        out := out + ciphertext;
        nonces := nonces + [nonce];
        counter := Next(counter);
        sealed := sealed + 1;
      }
      assert out + [] == out;
      AdvanceAdd(0, old(sealed), |chunks|);
    }

    method FinalizeEncrypt(lastPlaintext: seq<byte>) returns (r: Result)
      requires Valid()
      modifies this
      ensures Valid()
      ensures mode != Encrypt ==> r == Err(InvalidState) && Abstract() == old(Abstract()) && nonces == old(nonces)
      ensures mode == Encrypt ==> Step(r, Abstract()) == FinalEncryptStep(aead, noncePrefix, old(Abstract()), lastPlaintext)
      ensures mode == Encrypt ==> isFinalized
      ensures old(nonces) <= nonces && (old(isFinalized) ==> nonces == old(nonces))
    {
      if mode != Encrypt || isFinalized {
        return Err(InvalidState);
      }
      NonceLogGrows(noncePrefix, sealed);
      buffer := buffer + lastPlaintext;
      var chunk := buffer;
      buffer := [];
      var nonce := GenerateNonce(true);
      var ciphertext := aead.seal(nonce, chunk);
      nonces := nonces + [nonce];
      isFinalized := true;
      return Ok(Header(|ciphertext|, true) + ciphertext);
    }

    method DecryptUpdate(ciphertext: seq<byte>) returns (r: Result)
      requires Valid()
      modifies this
      ensures Valid() && nonces == old(nonces)
      ensures mode != Decrypt ==> r == Err(InvalidState) && Abstract() == old(Abstract())
      ensures mode == Decrypt ==> Step(r, Abstract()) == DecryptStep(aead, noncePrefix, old(Abstract()), ciphertext)
    {
      if mode != Decrypt || isFinalized {
        return Err(InvalidState);
      }
      hide Nonce, FromLe, OpenFrames;
      buffer := buffer + ciphertext;
      ghost var whole := OpenFrames(aead, noncePrefix, counter, buffer);
      var out := [];
      while true
        invariant mode == Decrypt && !isFinalized && nonces == old(nonces)
        invariant whole == After(out, OpenFrames(aead, noncePrefix, counter, buffer))
        decreases |buffer|
      {
        OpenTurn(aead, noncePrefix, counter, buffer, out);
        if |buffer| < 4 {
          break;
        }
        var header := FromLe(buffer[..4]);
        var final := header >= FINAL_FLAG;
        var chunkLen := header % FINAL_FLAG;
        if |buffer| >= 4 + chunkLen {
          var chunk := buffer[4..4 + chunkLen];
          buffer := buffer[4 + chunkLen..];
          var nonce := GenerateNonce(final);
          match aead.open(nonce, chunk) {
            case None =>
              return Err(AuthFailed);
            case Some(plaintext) =>
              out := out + plaintext;
              counter := Next(counter);
              if final {
                isFinalized := true;
                buffer := [];
                return Ok(out);
              }
          }
        } else {
          break;
        }
      }
      return Ok(out);
    }

    method FinalizeDecrypt(lastCiphertext: seq<byte>) returns (r: Result)
      requires Valid()
      modifies this
      ensures Valid() && nonces == old(nonces)
      ensures mode != Decrypt ==>
        && Abstract() == old(Abstract())
        && r == if old(isFinalized) && lastCiphertext == [] then Ok([]) else Err(InvalidState)
      ensures mode == Decrypt ==> Step(r, Abstract()) == FinalDecryptStep(aead, noncePrefix, old(Abstract()), lastCiphertext)
    {
      if isFinalized && lastCiphertext == [] {
        return Ok([]);
      }
      r := DecryptUpdate(lastCiphertext);
      if r.Ok? && !isFinalized {
        return Err(Truncated);
      }
    }

    function GenerateNonce(isFinal: bool): (r: seq<byte>)
      reads this
      ensures r == Nonce(noncePrefix, counter, isFinal)
    {
      noncePrefix + ToBe(if isFinal then BitOr(counter, TWO_63) else counter, 8)
    }
  }

  function After(out: seq<byte>, o: Opened): Opened {
    o.(plain := out + o.plain)
  }

  // One turn of the decrypting loop, with `out` already released.
  lemma OpenTurn(a: Aead, prefix: seq<byte>, counter: u64, buffer: seq<byte>, out: seq<byte>)
    ensures
      var whole := After(out, OpenFrames(a, prefix, counter, buffer));
      if |buffer| < 4 || |buffer| < 4 + FromLe(buffer[..4]) % FINAL_FLAG then
        whole == Opened(out, false, State(counter, false, buffer))
      else
        var header := FromLe(buffer[..4]);
        var isFinal, len := header >= FINAL_FLAG, header % FINAL_FLAG;
        var rest := buffer[4 + len..];
        match a.open(Nonce(prefix, counter, isFinal), buffer[4..4 + len])
        case None => whole.rejected && whole.state == State(counter, false, rest)
        case Some(plain) =>
          if isFinal then whole == Opened(out + plain, false, State(Next(counter), true, []))
          else whole == After(out + plain, OpenFrames(a, prefix, Next(counter), rest))
  {
    hide Nonce, FromLe;
    assert out + [] == out;
    if |buffer| >= 4 {
      var header := FromLe(buffer[..4]);
      var isFinal, len := header >= FINAL_FLAG, header % FINAL_FLAG;
      if |buffer| >= 4 + len {
        var answer := a.open(Nonce(prefix, counter, isFinal), buffer[4..4 + len]);
        if answer.Some? && !isFinal {
          Assoc(out, answer.value, OpenFrames(a, prefix, Next(counter), buffer[4 + len..]).plain);
        }
      }
    }
  }

  // One turn of the encrypting loop: what is already out plus what is still to come does not change.
  lemma DrainStep(a: Aead, prefix: seq<byte>, counter: u64, out: seq<byte>, buffer: seq<byte>)
    requires |buffer| >= STREAM_CHUNK_SIZE
    ensures
      var (chunk, rest) := (buffer[..STREAM_CHUNK_SIZE], buffer[STREAM_CHUNK_SIZE..]);
      var c := a.seal(Nonce(prefix, counter, false), chunk);
      && out + Header(|c|, false) + c + SealChunks(a, prefix, Next(counter), FullChunks(STREAM_CHUNK_SIZE, rest))
         == out + SealChunks(a, prefix, counter, FullChunks(STREAM_CHUNK_SIZE, buffer))
      && |FullChunks(STREAM_CHUNK_SIZE, buffer)| == 1 + |FullChunks(STREAM_CHUNK_SIZE, rest)|
      && Rest(STREAM_CHUNK_SIZE, buffer) == Rest(STREAM_CHUNK_SIZE, rest)
  {
    assert FullChunks(STREAM_CHUNK_SIZE, buffer)[1..] == FullChunks(STREAM_CHUNK_SIZE, buffer[STREAM_CHUNK_SIZE..]);
  }

  lemma NonceLogGrows(prefix: seq<byte>, k: nat)
    ensures NonceLog(prefix, k, false) + [Nonce(prefix, Advance(0, k), false)] == NonceLog(prefix, k + 1, false)
    ensures NonceLog(prefix, k, false) + [Nonce(prefix, Advance(0, k), true)] == NonceLog(prefix, k, true)
    ensures Next(Advance(0, k)) == Advance(0, k + 1)
  {
    AdvanceAdd(0, k, 1);
    assert Advance(Advance(0, k), 1) == Advance(Next(Advance(0, k)), 0);
  }

  lemma {:induction false} AdvanceAdd(counter: u64, m: nat, n: nat)
    ensures Advance(counter, m + n) == Advance(Advance(counter, m), n)
    decreases m
  {
    if m > 0 {
      AdvanceAdd(Next(counter), m - 1, n);
    }
  }
}
