/** What the chunked stream guarantees over whole runs: independence of how the input is split,
    round trip, rejection of every stream that was not produced by the sender, nonce uniqueness. */
module StreamTheorems {
  import opened Bytes
  import opened CryptoStream

  // ------------------------------------------------------------------ whole streams

  /** The sender's messages: full chunks, then what is left plus the argument of finalize. */
  function Messages(updates: seq<byte>, last: seq<byte>): (r: seq<seq<byte>>)
    ensures |r| > 0
  {
    FullChunks(STREAM_CHUNK_SIZE, updates) + [Rest(STREAM_CHUNK_SIZE, updates) + last]
  }

  /** Sealing a list of messages from a given counter on, the last one flagged as final. */
  function SealMessages(a: Aead, prefix: seq<byte>, counter: u64, msgs: seq<seq<byte>>): seq<byte>
    requires |msgs| > 0
    decreases |msgs|
  {
    if |msgs| == 1 then SealFrame(a, prefix, counter, msgs[0], true)
    else SealFrame(a, prefix, counter, msgs[0], false) + SealMessages(a, prefix, Next(counter), msgs[1..])
  }

  function EncryptedStream(a: Aead, prefix: seq<byte>, updates: seq<byte>, last: seq<byte>): seq<byte> {
    SealMessages(a, prefix, 0, Messages(updates, last))
  }

  lemma MessagesConserve(updates: seq<byte>, last: seq<byte>)
    ensures Flatten(Messages(updates, last)) == updates + last
  {
    var chunks, rest := FullChunks(STREAM_CHUNK_SIZE, updates), Rest(STREAM_CHUNK_SIZE, updates);
    FlattenSnoc(chunks, rest + last);
    ChunksConserve(STREAM_CHUNK_SIZE, updates);
    assert Flatten(chunks) + (rest + last) == Flatten(chunks) + rest + last;
  }

  lemma {:induction false} SealMessagesSplits(a: Aead, prefix: seq<byte>, counter: u64, chunks: seq<seq<byte>>, last: seq<byte>)
    ensures SealMessages(a, prefix, counter, chunks + [last])
         == SealChunks(a, prefix, counter, chunks) + SealFrame(a, prefix, Advance(counter, |chunks|), last, true)
    decreases |chunks|
  {
    if chunks == [] {
      assert chunks + [last] == [last];
      assert SealChunks(a, prefix, counter, chunks) == [];
    } else {
      var msgs := chunks + [last];
      assert msgs[0] == chunks[0] && msgs[1..] == chunks[1..] + [last] && |msgs| > 1;
      SealMessagesSplits(a, prefix, Next(counter), chunks[1..], last);
      var tail := SealFrame(a, prefix, Advance(counter, |chunks|), last, true);
      Assoc(SealFrame(a, prefix, counter, chunks[0], false), SealChunks(a, prefix, Next(counter), chunks[1..]), tail);
    }
  }

  // ------------------------------------------------------------------ encrypting in pieces

  function EncryptRun(a: Aead, prefix: seq<byte>, st: State, pieces: seq<seq<byte>>): Step
    decreases |pieces|
  {
    if pieces == [] then Step(Ok([]), st)
    else
      var s := EncryptStep(a, prefix, st, pieces[0]);
      if s.result.Err? then s
      else
        var t := EncryptRun(a, prefix, s.state, pieces[1..]);
        if t.result.Err? then t else Step(Ok(s.result.bytes + t.result.bytes), t.state)
  }

  lemma {:induction false} SealChunksAppend(a: Aead, prefix: seq<byte>, counter: u64, x: seq<seq<byte>>, y: seq<seq<byte>>)
    ensures SealChunks(a, prefix, counter, x + y)
         == SealChunks(a, prefix, counter, x) + SealChunks(a, prefix, Advance(counter, |x|), y)
    decreases |x|
  {
    hide SealFrame;
    if x == [] {
      assert x + y == y;
    } else {
      SealChunksAppend(a, prefix, Next(counter), x[1..], y);
      assert (x + y)[0] == x[0] && (x + y)[1..] == x[1..] + y;
      Assoc(SealFrame(a, prefix, counter, x[0], false), SealChunks(a, prefix, Next(counter), x[1..]),
            SealChunks(a, prefix, Advance(counter, |x|), y));
    }
  }

  /** Two updates do exactly what one update with the concatenation does. */
  lemma EncryptStepsMerge(a: Aead, prefix: seq<byte>, st: State, x: seq<byte>, y: seq<byte>)
    requires !st.finalized
    ensures var s := EncryptStep(a, prefix, st, x);
      var t := EncryptStep(a, prefix, s.state, y);
      && s.result.Ok? && t.result.Ok?
      && EncryptStep(a, prefix, st, x + y) == Step(Ok(s.result.bytes + t.result.bytes), t.state)
  {
    var cx := FullChunks(STREAM_CHUNK_SIZE, st.buffer + x);
    var cy := FullChunks(STREAM_CHUNK_SIZE, Rest(STREAM_CHUNK_SIZE, st.buffer + x) + y);
    assert st.buffer + (x + y) == (st.buffer + x) + y;
    ChunksIncremental(STREAM_CHUNK_SIZE, st.buffer + x, y);
    SealChunksAppend(a, prefix, st.counter, cx, cy);
    AdvanceAdd(st.counter, |cx|, |cy|);
  }

  lemma {:induction false} EncryptRunMerges(a: Aead, prefix: seq<byte>, st: State, pieces: seq<seq<byte>>)
    requires !st.finalized && |st.buffer| < STREAM_CHUNK_SIZE
    ensures EncryptRun(a, prefix, st, pieces) == EncryptStep(a, prefix, st, Flatten(pieces))
    decreases |pieces|
  {
    if pieces == [] {
      assert st.buffer + [] == st.buffer;
    } else {
      var s := EncryptStep(a, prefix, st, pieces[0]);
      EncryptRunMerges(a, prefix, s.state, pieces[1..]);
      EncryptStepsMerge(a, prefix, st, pieces[0], Flatten(pieces[1..]));
    }
  }

  /** The ciphertext depends only on the concatenation of the updates and on the final argument. */
  lemma EncryptionIgnoresSplits(a: Aead, prefix: seq<byte>, pieces: seq<seq<byte>>, last: seq<byte>)
    ensures var s := EncryptRun(a, prefix, FRESH, pieces);
      var f := FinalEncryptStep(a, prefix, s.state, last);
      && s.result.Ok? && f.result.Ok? && f.state.finalized
      && s.result.bytes + f.result.bytes == EncryptedStream(a, prefix, Flatten(pieces), last)
  {
    EncryptRunMerges(a, prefix, FRESH, pieces);
    var updates := Flatten(pieces);
    assert [] + updates == updates;
    SealMessagesSplits(a, prefix, 0, FullChunks(STREAM_CHUNK_SIZE, updates), Rest(STREAM_CHUNK_SIZE, updates) + last);
  }

  // ------------------------------------------------------------------ opening genuine streams

  lemma TopBits()
    ensures Pow2(31) == FINAL_FLAG && Pow2(63) == TWO_63
  {
    Pow2Bytes(4);
    Pow2Bytes(8);
    Pow256Values();
    assert Pow2(32) == 2 * Pow2(31);
    assert Pow2(64) == 2 * Pow2(63);
  }

  lemma FinalFlagged(len: nat)
    ensures var h := BitOr(len % 0x1_0000_0000, FINAL_FLAG);
      && h == FINAL_FLAG + len % FINAL_FLAG
      && h < 0x1_0000_0000
  {
    hide BitOr, Pow2;
    TopBits();
    BitOrHigh(len % 0x1_0000_0000, 31);
    FlagSet(len % 0x1_0000_0000);
    LowHalf(len);
  }

  lemma FlagSet(len32: nat)
    requires len32 < 2 * FINAL_FLAG
    ensures (if len32 < FINAL_FLAG then len32 + FINAL_FLAG else len32) == FINAL_FLAG + len32 % FINAL_FLAG
  {
    DivRange(len32, FINAL_FLAG, if len32 < FINAL_FLAG then 0 else 1);
  }

  lemma LowHalf(len: nat)
    ensures (len % 0x1_0000_0000) % FINAL_FLAG == len % FINAL_FLAG
  {
    var q, r := len / 0x1_0000_0000, len % 0x1_0000_0000;
    DivRange(len, FINAL_FLAG, 2 * q + r / FINAL_FLAG);
  }

  lemma HeaderValue(len: nat, isFinal: bool)
    ensures isFinal ==> FromLe(Header(len, true)) == FINAL_FLAG + len % FINAL_FLAG
    ensures !isFinal && len < FINAL_FLAG ==> FromLe(Header(len, false)) == len
  {
    Pow256Values();
    if isFinal {
      FinalFlagged(len);
      LeRoundTrip(BitOr(len % 0x1_0000_0000, FINAL_FLAG), 4);
    } else {
      LeRoundTrip(len % 0x1_0000_0000, 4);
    }
  }

  ghost predicate Fits(msgs: seq<seq<byte>>) {
    forall k :: 0 <= k < |msgs| ==> |msgs[k]| + CHUNK_TAG_LEN < FINAL_FLAG
  }

  /** The cipher opens what it sealed, for these messages under the nonces they are sent with. */
  ghost predicate Opens(a: Aead, prefix: seq<byte>, counter: u64, msgs: seq<seq<byte>>)
    decreases |msgs|
  {
    msgs == [] || (
      && OpensOne(a, Nonce(prefix, counter, |msgs| == 1), msgs[0])
      && Opens(a, prefix, Next(counter), msgs[1..]))
  }

  ghost predicate OpensOne(a: Aead, nonce: seq<byte>, plain: seq<byte>) {
    a.open(nonce, a.seal(nonce, plain)) == Some(plain)
  }

  lemma {:induction false} ValidOpens(a: Aead, prefix: seq<byte>, counter: u64, msgs: seq<seq<byte>>)
    requires ValidAead(a)
    ensures Opens(a, prefix, counter, msgs)
    decreases |msgs|
  {
    if msgs != [] { ValidOpens(a, prefix, Next(counter), msgs[1..]); }
  }

  // The parts of a buffer that starts with one genuine frame, as the decrypting loop cuts them.
  lemma FrameLayout(a: Aead, prefix: seq<byte>, counter: u64, plain: seq<byte>, isFinal: bool, tail: seq<byte>)
    requires TagsAppended(a) && OpensOne(a, Nonce(prefix, counter, isFinal), plain)
    requires |plain| + CHUNK_TAG_LEN < FINAL_FLAG
    ensures
      var c := a.seal(Nonce(prefix, counter, isFinal), plain);
      var buffer := SealFrame(a, prefix, counter, plain, isFinal) + tail;
      && |buffer| == 4 + |c| + |tail|
      && FromLe(buffer[..4]) == (if isFinal then FINAL_FLAG + |c| else |c|)
      && |c| < FINAL_FLAG
      && buffer[4..4 + |c|] == c
      && buffer[4 + |c|..] == tail
      && a.open(Nonce(prefix, counter, isFinal), c) == Some(plain)
  {
    var c := a.seal(Nonce(prefix, counter, isFinal), plain);
    var buffer := SealFrame(a, prefix, counter, plain, isFinal) + tail;
    HeaderValue(|c|, isFinal);
    assert buffer[..4] == Header(|c|, isFinal);
    assert buffer[4..4 + |c|] == c;
  }

  lemma OpenOne(a: Aead, prefix: seq<byte>, counter: u64, plain: seq<byte>, isFinal: bool, tail: seq<byte>)
    requires TagsAppended(a) && OpensOne(a, Nonce(prefix, counter, isFinal), plain)
    requires |plain| + CHUNK_TAG_LEN < FINAL_FLAG
    ensures var o := OpenFrames(a, prefix, counter, SealFrame(a, prefix, counter, plain, isFinal) + tail);
      if isFinal then o == Opened(plain, false, State(Next(counter), true, []))
      else var more := OpenFrames(a, prefix, Next(counter), tail); o == more.(plain := plain + more.plain)
  {
    hide SealFrame, Nonce, FromLe;
    FrameLayout(a, prefix, counter, plain, isFinal, tail);
  }

  /** Round trip at the level of one buffer: the sealed messages open to their concatenation,
      and whatever follows the final frame in the same buffer is ignored. */
  lemma {:induction false} OpenInvertsSeal(a: Aead, prefix: seq<byte>, counter: u64, msgs: seq<seq<byte>>, junk: seq<byte>)
    requires TagsAppended(a) && Opens(a, prefix, counter, msgs) && |msgs| > 0 && Fits(msgs)
    ensures OpenFrames(a, prefix, counter, SealMessages(a, prefix, counter, msgs) + junk)
         == Opened(Flatten(msgs), false, State(Advance(counter, |msgs|), true, []))
    decreases |msgs|
  {
    hide SealFrame, OpenFrames;
    if |msgs| == 1 {
      OpenOne(a, prefix, counter, msgs[0], true, junk);
      FlattenSingle(msgs);
      assert Advance(counter, 1) == Advance(Next(counter), 0);
    } else {
      var frame := SealFrame(a, prefix, counter, msgs[0], false);
      var more := SealMessages(a, prefix, Next(counter), msgs[1..]);
      Assoc(frame, more, junk);
      OpenOne(a, prefix, counter, msgs[0], false, more + junk);
      OpenInvertsSeal(a, prefix, Next(counter), msgs[1..], junk);
    }
  }

  lemma FlattenSingle(msgs: seq<seq<byte>>)
    requires |msgs| == 1
    ensures Flatten(msgs) == msgs[0]
  {
    assert Flatten(msgs) == msgs[0] + Flatten(msgs[1..]);
  }

  // A frame that has not arrived completely stays in the buffer.
  lemma OpenPartial(a: Aead, prefix: seq<byte>, counter: u64, msg: seq<byte>, isFinal: bool, head: seq<byte>)
    requires var frame := SealFrame(a, prefix, counter, msg, isFinal); |head| < |frame| && head == frame[..|head|]
    requires |a.seal(Nonce(prefix, counter, isFinal), msg)| < FINAL_FLAG
    ensures OpenFrames(a, prefix, counter, head) == Opened([], false, State(counter, false, head))
  {
    hide Nonce, Header, FromLe;
    var c := a.seal(Nonce(prefix, counter, isFinal), msg);
    if |head| >= 4 {
      HeaderValue(|c|, isFinal);
      assert head[..4] == Header(|c|, isFinal);
    }
  }

  lemma AfterFrame(frame: seq<byte>, more: seq<byte>, head: seq<byte>, tail: seq<byte>)
    requires head + tail == frame + more && |head| >= |frame|
    ensures head == frame + head[|frame|..] && more == head[|frame|..] + tail
  {
    var whole := frame + more;
    assert head == whole[..|head|] && whole[..|frame|] == frame && whole[|frame|..] == more;
    assert (head + tail)[|frame|..] == head[|frame|..] + tail;
  }

  /** A proper prefix of a sealed stream opens some of the messages and waits for the rest. */
  lemma {:induction false} OpenPrefix(a: Aead, prefix: seq<byte>, counter: u64, msgs: seq<seq<byte>>, head: seq<byte>, tail: seq<byte>)
    returns (j: nat)
    requires TagsAppended(a) && Opens(a, prefix, counter, msgs) && |msgs| > 0 && Fits(msgs) && tail != []
    requires head + tail == SealMessages(a, prefix, counter, msgs)
    ensures j < |msgs|
    ensures var o := OpenFrames(a, prefix, counter, head);
      && !o.rejected && !o.state.finalized
      && o.state.counter == Advance(counter, j)
      && o.plain + Flatten(msgs[j..]) == Flatten(msgs)
      && o.state.buffer + tail == SealMessages(a, prefix, o.state.counter, msgs[j..])
      && Opens(a, prefix, o.state.counter, msgs[j..])
    decreases |msgs|
  {
    hide Nonce, Header, FromLe;
    var isFinal := |msgs| == 1;
    var c := a.seal(Nonce(prefix, counter, isFinal), msgs[0]);
    var frame := SealFrame(a, prefix, counter, msgs[0], isFinal);
    var whole := SealMessages(a, prefix, counter, msgs);
    assert whole[..|frame|] == frame;
    if |head| < |frame| {
      j := 0;
      assert msgs[0..] == msgs;
      OpenPartial(a, prefix, counter, msgs[0], isFinal, head);
    } else {
      assert !isFinal;
      var more := SealMessages(a, prefix, Next(counter), msgs[1..]);
      var head' := head[|frame|..];
      AfterFrame(frame, more, head, tail);
      hide SealFrame, OpenFrames;
      var j' := OpenPrefix(a, prefix, Next(counter), msgs[1..], head', tail);
      OpenOne(a, prefix, counter, msgs[0], false, head');
      j := j' + 1;
      assert msgs[1..][j'..] == msgs[j..];
      var o' := OpenFrames(a, prefix, Next(counter), head');
      Assoc(msgs[0], o'.plain, Flatten(msgs[j..]));
    }
  }

  // ------------------------------------------------------------------ decrypting in pieces

  /** A run of decrypt_update calls, up to and including the first that fails. */
  datatype Run = Run(released: seq<byte>, error: Option<Error>, state: State)

  function DecryptRun(a: Aead, prefix: seq<byte>, st: State, pieces: seq<seq<byte>>): Run
    decreases |pieces|
  {
    if pieces == [] then Run([], None, st)
    else
      var s := DecryptStep(a, prefix, st, pieces[0]);
      match s.result
      case Err(e) => Run([], Some(e), s.state)
      case Ok(plain) =>
        var r := DecryptRun(a, prefix, s.state, pieces[1..]);
        r.(released := plain + r.released)
  }

  /** Every piece starts before the end of the stream of n bytes (`before` bytes precede them). */
  ghost predicate AllStartBefore(n: nat, before: nat, pieces: seq<seq<byte>>) {
    forall k :: 0 <= k < |pieces| ==> before + |Flatten(pieces[..k])| < n
  }

  lemma AllStartBeforeTail(n: nat, before: nat, pieces: seq<seq<byte>>)
    requires |pieces| > 0
    ensures AllStartBefore(n, before, pieces)
        <==> before < n && AllStartBefore(n, before + |pieces[0]|, pieces[1..])
  {
    assert pieces[..0] == [];
    forall k | 0 <= k < |pieces| - 1
      ensures |Flatten(pieces[..k + 1])| == |pieces[0]| + |Flatten(pieces[1..][..k])|
    {
      assert pieces[..k + 1][1..] == pieces[1..][..k];
    }
    if AllStartBefore(n, before, pieces) {
      assert before + |Flatten(pieces[..0])| < n;
      forall k | 0 <= k < |pieces[1..]|
        ensures before + |pieces[0]| + |Flatten(pieces[1..][..k])| < n
      {
        assert before + |Flatten(pieces[..k + 1])| < n;
      }
    }
    if before < n && AllStartBefore(n, before + |pieces[0]|, pieces[1..]) {
      forall k | 0 <= k < |pieces|
        ensures before + |Flatten(pieces[..k])| < n
      {
        if k > 0 {
          assert before + |pieces[0]| + |Flatten(pieces[1..][..k - 1])| < n;
          assert |Flatten(pieces[..k - 1 + 1])| == |pieces[0]| + |Flatten(pieces[1..][..k - 1])|;
        }
      }
    }
  }

  /** Decrypting a genuine stream (with anything after it) in pieces: it gives back the plaintext
      and finalizes if no piece starts at or after the end of the stream, and it fails otherwise. */
  lemma {:induction false} DecryptPieces(a: Aead, prefix: seq<byte>, st: State, msgs: seq<seq<byte>>, pieces: seq<seq<byte>>, junk: seq<byte>)
    requires TagsAppended(a) && Opens(a, prefix, st.counter, msgs) && |msgs| > 0 && Fits(msgs)
    requires !st.finalized && |pieces| > 0
    requires st.buffer + Flatten(pieces) == SealMessages(a, prefix, st.counter, msgs) + junk
    requires |st.buffer| < |SealMessages(a, prefix, st.counter, msgs)|
    ensures var r := DecryptRun(a, prefix, st, pieces);
      if AllStartBefore(|SealMessages(a, prefix, st.counter, msgs)|, |st.buffer|, pieces)
      then r == Run(Flatten(msgs), None, State(Advance(st.counter, |msgs|), true, []))
      else r.error == Some(InvalidState)
    decreases |pieces|
  {
    hide OpenFrames, SealMessages, SealFrame;
    var sealed := SealMessages(a, prefix, st.counter, msgs);
    var head, later := st.buffer + pieces[0], Flatten(pieces[1..]);
    Assoc(st.buffer, pieces[0], later);
    AllStartBeforeTail(|sealed|, |st.buffer|, pieces);
    if |head| >= |sealed| {
      CutAfter(head, later, sealed, junk);
      OpenInvertsSeal(a, prefix, st.counter, msgs, head[|sealed|..]);
      DecryptFinished(a, prefix, DecryptStep(a, prefix, st, pieces[0]).state, |sealed|, |head|, pieces[1..]);
    } else {
      var tail := sealed[|head|..];
      CutBefore(head, later, sealed, junk);
      var j := OpenPrefix(a, prefix, st.counter, msgs, head, tail);
      var st' := DecryptStep(a, prefix, st, pieces[0]).state;
      Assoc(st'.buffer, tail, junk);
      SinglePiece(pieces);
      DecryptPieces(a, prefix, st', msgs[j..], pieces[1..], junk);
      AdvanceAdd(st.counter, j, |msgs| - j);
      ShiftStart(|sealed|, |head|, |SealMessages(a, prefix, st'.counter, msgs[j..])|, |st'.buffer|, pieces[1..]);
    }
  }

  lemma SinglePiece(pieces: seq<seq<byte>>)
    requires pieces != []
    ensures |pieces| == 1 ==> Flatten(pieces[1..]) == []
  {
  }

  // head + later == sealed + junk, cut inside the junk or inside the sealed part.
  lemma CutAfter(head: seq<byte>, later: seq<byte>, sealed: seq<byte>, junk: seq<byte>)
    requires head + later == sealed + junk && |head| >= |sealed|
    ensures head == sealed + head[|sealed|..]
  {
    assert head == (sealed + junk)[..|head|];
  }

  lemma CutBefore(head: seq<byte>, later: seq<byte>, sealed: seq<byte>, junk: seq<byte>)
    requires head + later == sealed + junk && |head| < |sealed|
    ensures head + sealed[|head|..] == sealed
    ensures later == sealed[|head|..] + junk
  {
    assert head == (sealed + junk)[..|head|] == sealed[..|head|];
    assert later == (sealed + junk)[|head|..];
  }

  lemma DecryptFinished(a: Aead, prefix: seq<byte>, st: State, n: nat, before: nat, pieces: seq<seq<byte>>)
    requires st.finalized && before >= n
    ensures AllStartBefore(n, before, pieces) <==> pieces == []
    ensures DecryptRun(a, prefix, st, pieces) == Run([], if pieces == [] then None else Some(InvalidState), st)
  {
    if pieces != [] {
      assert before + |Flatten(pieces[..0])| >= n;
    }
  }

  lemma ShiftStart(n: nat, before: nat, n': nat, before': nat, pieces: seq<seq<byte>>)
    requires n - before == n' - before'
    ensures AllStartBefore(n, before, pieces) <==> AllStartBefore(n', before', pieces)
  {
    if AllStartBefore(n, before, pieces) {
      forall k | 0 <= k < |pieces| ensures before' + |Flatten(pieces[..k])| < n' {
        assert before + |Flatten(pieces[..k])| < n;
      }
    }
    if AllStartBefore(n', before', pieces) {
      forall k | 0 <= k < |pieces| ensures before + |Flatten(pieces[..k])| < n {
        assert before' + |Flatten(pieces[..k])| < n';
      }
    }
  }

  /** A genuine ciphertext, followed by anything, fed to a fresh decrypting context: the plaintext
      comes back whole, and finalizing succeeds, exactly when every piece starts before the end of
      the stream; a piece that starts later is refused. */
  lemma StreamRoundTrip(a: Aead, prefix: seq<byte>, updates: seq<byte>, last: seq<byte>, pieces: seq<seq<byte>>, junk: seq<byte>)
    requires ValidAead(a) && |pieces| > 0
    requires |Rest(STREAM_CHUNK_SIZE, updates) + last| + CHUNK_TAG_LEN < FINAL_FLAG
    requires Flatten(pieces) == EncryptedStream(a, prefix, updates, last) + junk
    ensures var r := DecryptRun(a, prefix, FRESH, pieces);
      if AllStartBefore(|EncryptedStream(a, prefix, updates, last)|, 0, pieces)
      then
        && r.error == None && r.released == updates + last && r.state.finalized
        && FinalDecryptStep(a, prefix, r.state, []) == Step(Ok([]), r.state)
      else r.error == Some(InvalidState)
  {
    hide Header, Nonce;
    var msgs := Messages(updates, last);
    var sealed := EncryptedStream(a, prefix, updates, last);
    MessagesFit(updates, last);
    MessagesConserve(updates, last);
    ValidOpens(a, prefix, 0, msgs);
    assert |sealed| > 0;
    assert FRESH.buffer + Flatten(pieces) == sealed + junk;
    DecryptPieces(a, prefix, FRESH, msgs, pieces, junk);
  }

  /** The whole ciphertext, followed by anything, given to one finalizing call. */
  lemma StreamOpens(a: Aead, prefix: seq<byte>, updates: seq<byte>, last: seq<byte>, junk: seq<byte>)
    requires ValidAead(a)
    requires |Rest(STREAM_CHUNK_SIZE, updates) + last| + CHUNK_TAG_LEN < FINAL_FLAG
    ensures FinalDecryptStep(a, prefix, FRESH, EncryptedStream(a, prefix, updates, last) + junk).result == Ok(updates + last)
  {
    hide OpenFrames, SealFrame;
    var msgs := Messages(updates, last);
    var sealed := EncryptedStream(a, prefix, updates, last);
    MessagesFit(updates, last);
    MessagesConserve(updates, last);
    ValidOpens(a, prefix, 0, msgs);
    OpenInvertsSeal(a, prefix, 0, msgs, junk);
    assert FRESH.buffer + (sealed + junk) == sealed + junk;
  }

  lemma MessagesFit(updates: seq<byte>, last: seq<byte>)
    requires |Rest(STREAM_CHUNK_SIZE, updates) + last| + CHUNK_TAG_LEN < FINAL_FLAG
    ensures Fits(Messages(updates, last))
  {
    ChunksHaveLength(STREAM_CHUNK_SIZE, updates);
  }

  // ------------------------------------------------------------------ nothing else is accepted

  /** An ideal cipher for one stream: it opens what its sender issued, and nothing else. */
  ghost predicate IdealAead(a: Aead, prefix: seq<byte>, msgs: seq<seq<byte>>)
    requires |msgs| <= TWO_63
  {
    && TagsAppended(a)
    && (forall i: nat :: i < |msgs| ==> OpensOne(a, Nonce(prefix, i, i == |msgs| - 1), msgs[i]))
    && (forall nonce: seq<byte>, c: seq<byte> :: a.open(nonce, c).Some? ==> Issued(a, prefix, msgs, nonce, c))
  }

  ghost predicate Issued(a: Aead, prefix: seq<byte>, msgs: seq<seq<byte>>, nonce: seq<byte>, c: seq<byte>)
    requires |msgs| <= TWO_63
  {
    exists i: nat :: i < |msgs|
      && nonce == Nonce(prefix, i, i == |msgs| - 1)
      && c == a.seal(nonce, msgs[i])
  }

  lemma NonceInjective(prefix: seq<byte>, m: nat, f: bool, n: nat, g: bool)
    requires m < TWO_63 && n < TWO_63
    requires Nonce(prefix, m, f) == Nonce(prefix, n, g)
    ensures m == n && f == g
  {
    hide ToBe;
    var x := if f then BitOr(m, TWO_63) else m;
    var y := if g then BitOr(n, TWO_63) else n;
    assert x == (if f then m + TWO_63 else m) && y == (if g then n + TWO_63 else n) by {
      TopBits();
      BitOrHigh(m, 63);
      BitOrHigh(n, 63);
    }
    assert Nonce(prefix, m, f)[|prefix|..] == ToBe(x, 8);
    assert Nonce(prefix, n, g)[|prefix|..] == ToBe(y, 8);
    Pow256Values();
    BeInjective(x, y, 8);
  }

  // What opens at a position is the message of that position, flagged final exactly if it is the last.
  lemma IssuedInTurn(a: Aead, prefix: seq<byte>, msgs: seq<seq<byte>>, counter: nat, isFinal: bool, c: seq<byte>)
    requires counter < |msgs| <= TWO_63 && IdealAead(a, prefix, msgs)
    requires a.open(Nonce(prefix, counter, isFinal), c).Some?
    ensures isFinal <==> counter == |msgs| - 1
    ensures a.open(Nonce(prefix, counter, isFinal), c) == Some(msgs[counter])
    ensures c == a.seal(Nonce(prefix, counter, isFinal), msgs[counter])
  {
    hide Nonce, OpensOne;
    var nonce := Nonce(prefix, counter, isFinal);
    assert Issued(a, prefix, msgs, nonce, c);
    var i: nat :| i < |msgs| && nonce == Nonce(prefix, i, i == |msgs| - 1) && c == a.seal(nonce, msgs[i]);
    NonceInjective(prefix, counter, isFinal, i, i == |msgs| - 1);
    Reopens(a, nonce, msgs[counter]);
  }

  /** Whatever the buffer holds, an ideal cipher releases the next messages of the sender, in
      order, and finalizes only on the last one. */
  lemma {:induction false} OpenReleasesInOrder(a: Aead, prefix: seq<byte>, msgs: seq<seq<byte>>, counter: nat, buffer: seq<byte>)
    requires counter < |msgs| <= TWO_63 && IdealAead(a, prefix, msgs)
    ensures var o := OpenFrames(a, prefix, counter, buffer);
      && counter <= o.state.counter <= |msgs|
      && o.plain == Flatten(msgs[counter..o.state.counter])
      && (o.state.finalized <==> o.state.counter == |msgs|)
      && (o.rejected ==> !o.state.finalized)
    decreases |buffer|
  {
    hide Nonce, FromLe, IdealAead;
    assert msgs[counter..counter] == [];
    if |buffer| >= 4 {
      var header := FromLe(buffer[..4]);
      var isFinal, len := header >= FINAL_FLAG, header % FINAL_FLAG;
      if |buffer| >= 4 + len {
        var nonce, c := Nonce(prefix, counter, isFinal), buffer[4..4 + len];
        if a.open(nonce, c).Some? {
          IssuedInTurn(a, prefix, msgs, counter, isFinal, c);
          if isFinal {
            SliceOne(msgs, counter);
          } else {
            OpenReleasesInOrder(a, prefix, msgs, counter + 1, buffer[4 + len..]);
            SliceFirst(msgs, counter, OpenFrames(a, prefix, counter + 1, buffer[4 + len..]).state.counter);
          }
        }
      }
    }
  }

  /** The ideal cipher is no contradiction: one exists for every stream. */
  lemma IdealAeadExists(prefix: seq<byte>, msgs: seq<seq<byte>>) returns (a: Aead)
    requires |msgs| <= TWO_63
    ensures IdealAead(a, prefix, msgs)
  {
    var seal := (nonce: seq<byte>, plain: seq<byte>) => plain + Zeros(CHUNK_TAG_LEN);
    var open := (nonce: seq<byte>, c: seq<byte>) =>
      if exists i: nat :: i < |msgs| && nonce == Nonce(prefix, i, i == |msgs| - 1) && c == seal(nonce, msgs[i])
      then Some(c[..|c| - CHUNK_TAG_LEN]) else None;
    a := Aead(seal, open);
    forall i: nat | i < |msgs| ensures OpensOne(a, Nonce(prefix, i, i == |msgs| - 1), msgs[i]) {
      var nonce := Nonce(prefix, i, i == |msgs| - 1);
      var c := seal(nonce, msgs[i]);
      assert c[..|c| - CHUNK_TAG_LEN] == msgs[i];
    }
    forall nonce: seq<byte>, c: seq<byte> | a.open(nonce, c).Some? ensures Issued(a, prefix, msgs, nonce, c) {
    }
  }

  lemma Reopens(a: Aead, nonce: seq<byte>, plain: seq<byte>)
    requires OpensOne(a, nonce, plain)
    ensures a.open(nonce, a.seal(nonce, plain)) == Some(plain)
  {
  }

  lemma SliceFirst(msgs: seq<seq<byte>>, i: nat, j: nat)
    requires i < j <= |msgs|
    ensures Flatten(msgs[i..j]) == msgs[i] + Flatten(msgs[i + 1..j])
  {
    assert msgs[i..j][1..] == msgs[i + 1..j];
  }

  lemma SliceOne(msgs: seq<seq<byte>>, i: nat)
    requires i < |msgs|
    ensures Flatten(msgs[i..i + 1]) == msgs[i]
  {
    SliceFirst(msgs, i, i + 1);
  }

  lemma SliceJoin(msgs: seq<seq<byte>>, i: nat, j: nat, k: nat)
    requires i <= j <= k <= |msgs|
    ensures Flatten(msgs[i..k]) == Flatten(msgs[i..j]) + Flatten(msgs[j..k])
  {
    assert msgs[i..k] == msgs[i..j] + msgs[j..k];
    FlattenAppend(msgs[i..j], msgs[j..k]);
  }

  lemma {:induction false} RunReleasesInOrder(a: Aead, prefix: seq<byte>, msgs: seq<seq<byte>>, st: State, pieces: seq<seq<byte>>)
    requires 0 < |msgs| <= TWO_63 && IdealAead(a, prefix, msgs)
    requires st.counter <= |msgs| && (st.finalized <==> st.counter == |msgs|)
    ensures var r := DecryptRun(a, prefix, st, pieces);
      && (exists k :: st.counter <= k <= |msgs| && r.released == Flatten(msgs[st.counter..k]))
      && (r.error == None ==>
            && st.counter <= r.state.counter <= |msgs|
            && r.released == Flatten(msgs[st.counter..r.state.counter])
            && (r.state.finalized <==> r.state.counter == |msgs|))
    decreases |pieces|
  {
    hide OpenFrames, IdealAead;
    assert msgs[st.counter..st.counter] == [];
    var c := st.counter;
    var r := DecryptRun(a, prefix, st, pieces);
    if pieces != [] && !st.finalized {
      OpenReleasesInOrder(a, prefix, msgs, st.counter, st.buffer + pieces[0]);
      var s := DecryptStep(a, prefix, st, pieces[0]);
      if s.result.Ok? {
        RunReleasesInOrder(a, prefix, msgs, s.state, pieces[1..]);
        var r' := DecryptRun(a, prefix, s.state, pieces[1..]);
        var k :| s.state.counter <= k <= |msgs| && r'.released == Flatten(msgs[s.state.counter..k]);
        SliceJoin(msgs, c, s.state.counter, k);
        if r'.error == None {
          SliceJoin(msgs, c, s.state.counter, r'.state.counter);
        }
      } else {
        assert r.released == Flatten(msgs[c..c]);
      }
    } else {
      assert r.released == Flatten(msgs[c..c]);
    }
  }

  /** With an ideal cipher, for every byte stream in any pieces: what is released before the first
      error is a prefix of the plaintext, and finalization succeeds without an earlier error only
      if all of it was released. Truncation, reordering and dropped chunks are all refused. */
  lemma NoForgery(a: Aead, prefix: seq<byte>, updates: seq<byte>, last: seq<byte>, pieces: seq<seq<byte>>, lastPiece: seq<byte>)
    requires |Messages(updates, last)| <= TWO_63 && IdealAead(a, prefix, Messages(updates, last))
    ensures var r := DecryptRun(a, prefix, FRESH, pieces);
      var f := FinalDecryptStep(a, prefix, r.state, lastPiece);
      && r.released <= updates + last
      && (r.error == None && f.result.Ok? ==> r.released + f.result.bytes == updates + last)
  {
    hide OpenFrames, IdealAead;
    var msgs := Messages(updates, last);
    MessagesConserve(updates, last);
    RunReleasesInOrder(a, prefix, msgs, FRESH, pieces);
    var r := DecryptRun(a, prefix, FRESH, pieces);
    var k :| 0 <= k <= |msgs| && r.released == Flatten(msgs[0..k]);
    SliceJoin(msgs, 0, k, |msgs|);
    assert msgs[0..|msgs|] == msgs;
    if r.error == None && !r.state.finalized {
      OpenReleasesInOrder(a, prefix, msgs, r.state.counter, r.state.buffer + lastPiece);
      SliceJoin(msgs, 0, r.state.counter, |msgs|);
    }
  }

  // What finalizes is at least as long as everything the sender still had to seal.
  lemma {:induction false} FinalNeedsAll(a: Aead, prefix: seq<byte>, msgs: seq<seq<byte>>, counter: nat, buffer: seq<byte>)
    requires counter < |msgs| <= TWO_63 && IdealAead(a, prefix, msgs)
    requires OpenFrames(a, prefix, counter, buffer).state.finalized
    ensures |buffer| >= |SealMessages(a, prefix, counter, msgs[counter..])|
    decreases |buffer|
  {
    hide Nonce, FromLe, Header, IdealAead;
    var header := FromLe(buffer[..4]);
    var isFinal, len := header >= FINAL_FLAG, header % FINAL_FLAG;
    var c := buffer[4..4 + len];
    IssuedInTurn(a, prefix, msgs, counter, isFinal, c);
    assert msgs[counter..][1..] == msgs[counter + 1..];
    if !isFinal {
      FinalNeedsAll(a, prefix, msgs, counter + 1, buffer[4 + len..]);
    }
  }

  // Under another prefix an ideal cipher opens nothing.
  lemma ForeignNonce(a: Aead, prefix: seq<byte>, msgs: seq<seq<byte>>, other: seq<byte>, isFinal: bool, c: seq<byte>)
    requires |msgs| <= TWO_63 && IdealAead(a, prefix, msgs) && |other| == |prefix| && other != prefix
    ensures a.open(Nonce(other, 0, isFinal), c).None?
  {
    var nonce := Nonce(other, 0, isFinal);
    assert nonce[..|prefix|] == other;
    forall i: u64, last: bool ensures nonce != Nonce(prefix, i, last) {
      assert Nonce(prefix, i, last)[..|prefix|] == prefix;
    }
    hide Nonce, OpensOne;
    assert !Issued(a, prefix, msgs, nonce, c);
  }

  lemma ForeignPrefix(a: Aead, prefix: seq<byte>, msgs: seq<seq<byte>>, other: seq<byte>, buffer: seq<byte>)
    requires |msgs| <= TWO_63 && IdealAead(a, prefix, msgs) && |other| == |prefix| && other != prefix
    ensures !OpenFrames(a, other, 0, buffer).state.finalized
  {
    hide FromLe, Nonce, IdealAead;
    if |buffer| >= 4 {
      var header := FromLe(buffer[..4]);
      var isFinal, len := header >= FINAL_FLAG, header % FINAL_FLAG;
      if |buffer| >= 4 + len {
        ForeignNonce(a, prefix, msgs, other, isFinal, buffer[4..4 + len]);
      }
    }
  }

  /** Fewer bytes than the sender sealed never finalize, whatever they are. */
  lemma ShortStreamRefused(a: Aead, prefix: seq<byte>, updates: seq<byte>, last: seq<byte>, other: seq<byte>, raw: seq<byte>)
    requires |Messages(updates, last)| <= TWO_63 && IdealAead(a, prefix, Messages(updates, last))
    requires |other| == |prefix| && |raw| < |EncryptedStream(a, prefix, updates, last)|
    ensures FinalDecryptStep(a, other, FRESH, raw).result.Err?
  {
    hide OpenFrames, IdealAead;
    var msgs := Messages(updates, last);
    assert FRESH.buffer + raw == raw && msgs[0..] == msgs;
    if other != prefix {
      ForeignPrefix(a, prefix, msgs, other, raw);
    } else if OpenFrames(a, prefix, 0, raw).state.finalized {
      FinalNeedsAll(a, prefix, msgs, 0, raw);
    }
  }

  /** A genuine stream opens under an ideal cipher too, whatever follows it. */
  lemma IdealStreamOpens(a: Aead, prefix: seq<byte>, updates: seq<byte>, last: seq<byte>, junk: seq<byte>)
    requires |Messages(updates, last)| <= TWO_63 && IdealAead(a, prefix, Messages(updates, last))
    requires |Rest(STREAM_CHUNK_SIZE, updates) + last| + CHUNK_TAG_LEN < FINAL_FLAG
    ensures FinalDecryptStep(a, prefix, FRESH, EncryptedStream(a, prefix, updates, last) + junk).result == Ok(updates + last)
  {
    hide OpenFrames, SealFrame, OpensOne;
    var msgs := Messages(updates, last);
    var sealed := EncryptedStream(a, prefix, updates, last);
    assert FRESH.buffer + (sealed + junk) == sealed + junk;
    MessagesFit(updates, last);
    MessagesConserve(updates, last);
    assert msgs[0..] == msgs;
    IdealOpens(a, prefix, msgs, 0);
    OpenInvertsSeal(a, prefix, 0, msgs, junk);
  }

  /** The sender's final chunk has a 31-bit length field. A genuine stream decrypts to its
      plaintext if and only if the final chunk with its tag stays below 2^31 bytes. */
  lemma FinalChunkLimit(a: Aead, prefix: seq<byte>, updates: seq<byte>, last: seq<byte>)
    requires |Messages(updates, last)| <= TWO_63 && IdealAead(a, prefix, Messages(updates, last))
    ensures FinalDecryptStep(a, prefix, FRESH, EncryptedStream(a, prefix, updates, last)).result == Ok(updates + last)
       <==> |Rest(STREAM_CHUNK_SIZE, updates) + last| + CHUNK_TAG_LEN < FINAL_FLAG
  {
    hide OpenFrames, SealFrame, OpensOne;
    var msgs := Messages(updates, last);
    var sealed := EncryptedStream(a, prefix, updates, last);
    assert FRESH.buffer + sealed == sealed + [] && sealed + [] == sealed;
    if |Rest(STREAM_CHUNK_SIZE, updates) + last| + CHUNK_TAG_LEN < FINAL_FLAG {
      IdealStreamOpens(a, prefix, updates, last, []);
    } else {
      ChunksHaveLength(STREAM_CHUNK_SIZE, updates);
      assert msgs[0..] == msgs && sealed + [] == sealed;
      OversizedRejected(a, prefix, msgs, 0);
    }
  }

  lemma {:induction false} IdealOpens(a: Aead, prefix: seq<byte>, msgs: seq<seq<byte>>, i: nat)
    requires i < |msgs| <= TWO_63 && IdealAead(a, prefix, msgs)
    ensures Opens(a, prefix, i, msgs[i..])
    decreases |msgs| - i
  {
    hide Nonce, OpensOne;
    assert OpensOne(a, Nonce(prefix, i, i == |msgs| - 1), msgs[i]);
    assert msgs[i..][1..] == msgs[i + 1..];
    if i < |msgs| - 1 { IdealOpens(a, prefix, msgs, i + 1); }
  }

  lemma {:induction false} OversizedRejected(a: Aead, prefix: seq<byte>, msgs: seq<seq<byte>>, i: nat)
    requires i < |msgs| <= TWO_63 && IdealAead(a, prefix, msgs)
    requires forall k :: 0 <= k < |msgs| - 1 ==> |msgs[k]| + CHUNK_TAG_LEN < FINAL_FLAG
    requires |msgs[|msgs| - 1]| + CHUNK_TAG_LEN >= FINAL_FLAG
    ensures OpenFrames(a, prefix, i, SealMessages(a, prefix, i, msgs[i..])).rejected
    decreases |msgs| - i
  {
    hide Nonce;
    if i < |msgs| - 1 {
      hide SealFrame, OpenFrames;
      OversizedRejected(a, prefix, msgs, i + 1);
      assert OpensOne(a, Nonce(prefix, i, i == |msgs| - 1), msgs[i]);
      assert msgs[i..][1..] == msgs[i + 1..];
      OpenOne(a, prefix, i, msgs[i], false, SealMessages(a, prefix, i + 1, msgs[i + 1..]));
    } else {
      OversizedLast(a, prefix, msgs);
    }
  }

  lemma OversizedLast(a: Aead, prefix: seq<byte>, msgs: seq<seq<byte>>)
    requires 0 < |msgs| <= TWO_63 && IdealAead(a, prefix, msgs)
    requires |msgs[|msgs| - 1]| + CHUNK_TAG_LEN >= FINAL_FLAG
    ensures OpenFrames(a, prefix, |msgs| - 1, SealMessages(a, prefix, |msgs| - 1, msgs[|msgs| - 1..])).rejected
  {
    hide Header, FromLe, Nonce;
    var i := |msgs| - 1;
    var nonce := Nonce(prefix, i, true);
    var c := a.seal(nonce, msgs[i]);
    var buffer := SealMessages(a, prefix, i, msgs[i..]);
    var len := |c| % FINAL_FLAG;
    HeaderValue(|c|, true);
    assert buffer == Header(|c|, true) + c;
    assert buffer[..4] == Header(|c|, true);
    assert buffer[4..4 + len] == c[..len];
    if a.open(nonce, c[..len]).Some? {
      assert Issued(a, prefix, msgs, nonce, c[..len]);
      var k: nat :| k < |msgs| && nonce == Nonce(prefix, k, k == |msgs| - 1) && c[..len] == a.seal(nonce, msgs[k]);
      NonceInjective(prefix, i, true, k, k == |msgs| - 1);
      assert false;
    }
  }

  // ------------------------------------------------------------------ nonces

  ghost predicate AllDistinct(nonces: seq<seq<byte>>) {
    forall i, j :: 0 <= i < j < |nonces| ==> nonces[i] != nonces[j]
  }

  lemma {:induction false} AdvanceValue(n: nat)
    requires n < TWO_64
    ensures Advance(0, n) == n
  {
    AdvanceFrom(0, n);
  }

  lemma {:induction false} AdvanceFrom(c: u64, n: nat)
    requires c + n < TWO_64
    ensures Advance(c, n) == c + n
    decreases n
  {
    if n > 0 { AdvanceFrom(c + 1, n - 1); }
  }

  lemma FinalCounter(n: nat)
    requires n < TWO_64
    ensures BitOr(n, TWO_63) == if n < TWO_63 then n + TWO_63 else n
  {
    TopBits();
    BitOrHigh(n, 63);
  }

  lemma CounterInjective(prefix: seq<byte>, m: u64, n: u64)
    requires Nonce(prefix, m, false) == Nonce(prefix, n, false)
    ensures m == n
  {
    hide ToBe;
    assert Nonce(prefix, m, false)[|prefix|..] == ToBe(m, 8);
    assert Nonce(prefix, n, false)[|prefix|..] == ToBe(n, 8);
    Pow256Values();
    BeInjective(m, n, 8);
  }

  /** The nonces of a finished encrypting run (the ghost log of StreamingContext) are pairwise
      distinct if and only if it sealed fewer than 2^64 full chunks. */
  lemma NoncesDistinctIff(prefix: seq<byte>, chunks: nat)
    ensures AllDistinct(NonceLog(prefix, chunks, true)) <==> chunks < TWO_64
  {
    var log := NonceLog(prefix, chunks, true);
    if chunks < TWO_64 {
      forall i, j | 0 <= i < j < |log| ensures log[i] != log[j] {
        NoncesDiffer(prefix, chunks, i, j);
      }
    } else {
      AdvanceValue(TWO_64 - 1);
      AdvanceAdd(0, TWO_64 - 1, 1);
      assert Advance(TWO_64 - 1, 1) == Advance(Next(TWO_64 - 1), 0) == 0;
      if chunks == TWO_64 {
        AdvanceValue(TWO_63);
        FinalCounter(0);
        assert Nonce(prefix, 0, true) == Nonce(prefix, TWO_63, false);
        assert log[TWO_63] == log[TWO_64];
      } else {
        assert log[0] == log[TWO_64];
      }
    }
  }

  lemma NoncesDiffer(prefix: seq<byte>, chunks: nat, i: nat, j: nat)
    requires chunks < TWO_64 && i < j <= chunks
    ensures NonceLog(prefix, chunks, true)[i] != NonceLog(prefix, chunks, true)[j]
  {
    AdvanceValue(i);
    AdvanceValue(j);
    var x := if j < chunks then j else if j < TWO_63 then j + TWO_63 else j;
    FinalCounter(j);
    assert NonceLog(prefix, chunks, true)[j] == Nonce(prefix, x, false);
    if Nonce(prefix, i, false) == Nonce(prefix, x, false) {
      CounterInjective(prefix, i, x);
    }
  }
}
