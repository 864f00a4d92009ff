/** What the block table delivers for arrival sequences of genuine symbols, with loss, repeats and
    reordering: eviction does not show as long as no symbol comes far behind a decoded block. (That
    a forgotten block can be put out twice otherwise is shown in BlockIds.) */
module DecoderTheorems {
  import opened Bytes
  import opened Fec
  import opened StreamDecoder

  datatype Arrival = Arrival(block: u32, packet: Packet)

  /** The table after a sequence of arrivals. */
  function Run(code: Code, arrivals: seq<Arrival>): Table
    decreases |arrivals|
  {
    if arrivals == [] then Table(map[], [])
    else
      var last := arrivals[|arrivals| - 1];
      Accept(code, Run(code, arrivals[..|arrivals| - 1]), last.block, last.packet)
  }

  function History(arrivals: seq<Arrival>, block: u32): seq<Packet>
    decreases |arrivals|
  {
    if arrivals == [] then []
    else
      var last := arrivals[|arrivals| - 1];
      History(arrivals[..|arrivals| - 1], block) + if last.block == block then [last.packet] else []
  }

  /** The reference decoder: it forgets nothing, and emits a block at the arrival that makes its
      set of symbols decodable. */
  ghost function Emitted(code: Code, arrivals: seq<Arrival>): seq<u32>
    decreases |arrivals|
  {
    if arrivals == [] then []
    else
      var b := arrivals[|arrivals| - 1].block;
      var before := Emitted(code, arrivals[..|arrivals| - 1]);
      if b !in before && code.decodable(Ids(History(arrivals, b))) then before + [b] else before
  }

  ghost predicate GenuineArrivals(code: Code, content: u32 -> seq<byte>, arrivals: seq<Arrival>) {
    && (forall b: u32 :: |content(b)| == FEC_BLOCK_SIZE)
    && (forall a :: a in arrivals ==> Genuine(code, content(a.block), a.packet))
  }

  /** No symbol of block a arrives after a block beyond a + 5 has been decoded. */
  ghost predicate SafeOrder(code: Code, arrivals: seq<Arrival>) {
    forall i, b :: 0 <= i < |arrivals| && b in Emitted(code, arrivals[..i]) ==> b <= arrivals[i].block + 5
  }

  function Contents(content: u32 -> seq<byte>, blocks: seq<u32>): seq<byte> {
    if blocks == [] then [] else Contents(content, blocks[..|blocks| - 1]) + content(blocks[|blocks| - 1])
  }

  // ------------------------------------------------------------------ the reference decoder

  lemma {:induction false} HistoryGenuine(code: Code, content: u32 -> seq<byte>, arrivals: seq<Arrival>, b: u32)
    requires GenuineArrivals(code, content, arrivals)
    ensures AllGenuine(code, content(b), History(arrivals, b))
    decreases |arrivals|
  {
    if arrivals != [] {
      HistoryGenuine(code, content, arrivals[..|arrivals| - 1], b);
    }
  }

  lemma IdsGrow(history: seq<Packet>, p: Packet)
    ensures Ids(history) <= Ids(history + [p])
  {
    forall x | x in history ensures x in history + [p] {
    }
  }

  /** The reference emits exactly the blocks whose arrived symbols are decodable, each once. */
  lemma {:induction false} EmittedExactly(code: Code, arrivals: seq<Arrival>, b: u32)
    requires ValidCode(code)
    ensures b in Emitted(code, arrivals) <==> code.decodable(Ids(History(arrivals, b)))
    decreases |arrivals|
  {
    if arrivals == [] {
      assert Ids([]) == {};
    } else {
      hide Emitted, History, Ids, ValidCode;
      var n := |arrivals| - 1;
      var before := arrivals[..n];
      EmittedExactly(code, before, b);
      LastArrival(code, arrivals, b);
    }
  }

  // What the last arrival adds to what has arrived of a block, and to what has been emitted.
  lemma LastArrival(code: Code, arrivals: seq<Arrival>, b: u32)
    requires ValidCode(code) && arrivals != []
    ensures
      var n := |arrivals| - 1;
      var before, ids := Ids(History(arrivals[..n], b)), Ids(History(arrivals, b));
      && (code.decodable(before) ==> code.decodable(ids))
      && (arrivals[n].block != b ==> ids == before)
      && (b in Emitted(code, arrivals) <==>
            b in Emitted(code, arrivals[..n]) || (arrivals[n].block == b && code.decodable(ids)))
  {
    hide Ids;
    var n := |arrivals| - 1;
    var history := History(arrivals[..n], b);
    if arrivals[n].block == b {
      assert History(arrivals, b) == history + [arrivals[n].packet];
      IdsGrow(history, arrivals[n].packet);
    } else {
      assert History(arrivals, b) == history + [] == history;
    }
  }

  lemma {:induction false} EmittedOnce(code: Code, arrivals: seq<Arrival>)
    ensures forall i, j :: 0 <= i < j < |Emitted(code, arrivals)| ==> Emitted(code, arrivals)[i] != Emitted(code, arrivals)[j]
    decreases |arrivals|
  {
    if arrivals != [] {
      EmittedOnce(code, arrivals[..|arrivals| - 1]);
    }
  }

  // ------------------------------------------------------------------ refinement

  ghost predicate Coherent(code: Code, content: u32 -> seq<byte>, arrivals: seq<Arrival>, t: Table) {
    var emitted := Emitted(code, arrivals);
    && t.output == Contents(content, emitted)
    && (forall b :: b in t.blocks ==>
          && (t.blocks[b].isDecoded <==> b in emitted)
          && (b !in emitted ==> t.blocks[b].received == History(arrivals, b)))
    && (forall b: u32 :: b !in t.blocks ==> History(arrivals, b) == [] || Forgotten(emitted, b))
  }

  ghost predicate Forgotten(emitted: seq<u32>, b: u32) {
    exists e :: e in emitted && b + 5 < e
  }

  // What one more arrival changes, in the reference and in the table.
  lemma OneMore(code: Code, content: u32 -> seq<byte>, arrivals: seq<Arrival>, a: Arrival)
    requires ValidCode(code) && GenuineArrivals(code, content, arrivals + [a])
    ensures forall b: u32 :: History(arrivals + [a], b) == History(arrivals, b) + if b == a.block then [a.packet] else []
    ensures
      var emitted, received := Emitted(code, arrivals), History(arrivals, a.block) + [a.packet];
      if a.block in emitted then Emitted(code, arrivals + [a]) == emitted
      else
        && code.recover(received) == (if code.decodable(Ids(received)) then Some(content(a.block)) else None)
        && Emitted(code, arrivals + [a]) == (if code.decodable(Ids(received)) then emitted + [a.block] else emitted)
    ensures History(arrivals, a.block) == [] ==> a.block !in Emitted(code, arrivals)
  {
    var all := arrivals + [a];
    assert all[..|arrivals|] == arrivals && all[|arrivals|] == a;
    HistoryGenuine(code, content, all, a.block);
    EmittedExactly(code, arrivals, a.block);
    assert Ids([]) == {};
  }

  lemma Arrives(code: Code, content: u32 -> seq<byte>, arrivals: seq<Arrival>, a: Arrival, t: Table)
    requires ValidCode(code) && GenuineArrivals(code, content, arrivals + [a])
    requires Coherent(code, content, arrivals, t) && !Forgotten(Emitted(code, arrivals), a.block)
    ensures Coherent(code, content, arrivals + [a], Accept(code, t, a.block, a.packet))
  {
    hide Emitted, History, ValidCode, GenuineArrivals, Contents;
    OneMore(code, content, arrivals, a);
    var b, all := a.block, arrivals + [a];
    var before, after := Emitted(code, arrivals), Emitted(code, all);
    var history, t' := History(arrivals, b), Accept(code, t, b, a.packet);
    if b in before {
      assert b in t.blocks && t'.blocks == t.blocks;
    } else {
      assert Tracked(t.blocks, b) == FecBlock(history, false);
      if code.decodable(Ids(history + [a.packet])) {
        Decodes(code, content, before, t, b, history, a.packet);
        forall c: u32 | c !in t'.blocks ensures History(all, c) == [] || Forgotten(after, c) {
          if c !in t.blocks && Forgotten(before, c) {
            ForgottenStays(before, b, c);
          }
        }
        forall c | c in t'.blocks
          ensures (t'.blocks[c].isDecoded <==> c in after) && (c !in after ==> t'.blocks[c].received == History(all, c))
        {
          if c != b { assert c in t.blocks && t'.blocks[c] == t.blocks[c]; }
        }
      }
    }
  }

  lemma ForgottenStays(emitted: seq<u32>, b: u32, c: u32)
    requires Forgotten(emitted, c)
    ensures Forgotten(emitted + [b], c)
  {
    var e :| e in emitted && c + 5 < e;
    assert e in emitted + [b];
  }

  // The arrival that completes a block.
  lemma Decodes(code: Code, content: u32 -> seq<byte>, emitted: seq<u32>, t: Table, b: u32, history: seq<Packet>, p: Packet)
    requires code.recover(history + [p]) == Some(content(b)) && t.output == Contents(content, emitted)
    requires Tracked(t.blocks, b) == FecBlock(history, false)
    ensures var t' := Accept(code, t, b, p);
      && t'.output == Contents(content, emitted + [b])
      && b in t'.blocks && t'.blocks[b].isDecoded
      && (forall c :: c in t'.blocks && c != b ==> c in t.blocks && t'.blocks[c] == t.blocks[c])
      && (forall c: u32 :: c !in t'.blocks && c in t.blocks ==> Forgotten(emitted + [b], c))
  {
    assert (emitted + [b])[..|emitted|] == emitted;
    var t' := Accept(code, t, b, p);
    forall c: u32 | c !in t'.blocks && c in t.blocks ensures Forgotten(emitted + [b], c) {
      assert b in emitted + [b] && c + 5 < b;
    }
  }

  /** Eviction is invisible: for every safe arrival sequence of genuine symbols the decoder emits
      what the reference emits, so every block at most once, with its true content, and exactly
      when its arrived symbols suffice. */
  lemma {:induction false} EvictionInvisible(code: Code, content: u32 -> seq<byte>, arrivals: seq<Arrival>)
    requires ValidCode(code) && GenuineArrivals(code, content, arrivals) && SafeOrder(code, arrivals)
    ensures Coherent(code, content, arrivals, Run(code, arrivals))
    ensures Run(code, arrivals).output == Contents(content, Emitted(code, arrivals))
    decreases |arrivals|
  {
    if arrivals != [] {
      var n := |arrivals| - 1;
      var before := arrivals[..n];
      assert arrivals == before + [arrivals[n]];
      forall i, b | 0 <= i < |before| && b in Emitted(code, before[..i]) ensures b <= before[i].block + 5 {
        assert before[..i] == arrivals[..i];
      }
      EvictionInvisible(code, content, before);
      assert !Forgotten(Emitted(code, before), arrivals[n].block);
      Arrives(code, content, before, arrivals[n], Run(code, before));
    }
  }

  ghost predicate Distinct(blocks: seq<u32>) {
    forall i, j :: 0 <= i < j < |blocks| ==> blocks[i] != blocks[j]
  }

  /** What the decoder puts out, for every safe arrival sequence of genuine symbols: the true
      contents of distinct blocks, namely of exactly those whose arrived symbols suffice. */
  lemma PutOutOnce(code: Code, content: u32 -> seq<byte>, arrivals: seq<Arrival>) returns (blocks: seq<u32>)
    requires ValidCode(code) && GenuineArrivals(code, content, arrivals) && SafeOrder(code, arrivals)
    ensures Run(code, arrivals).output == Contents(content, blocks)
    ensures Distinct(blocks)
    ensures forall b: u32 :: b in blocks <==> code.decodable(Ids(History(arrivals, b)))
  {
    hide ValidCode, GenuineArrivals, SafeOrder, Run, History;
    blocks := Emitted(code, arrivals);
    EvictionInvisible(code, content, arrivals);
    EmittedOnce(code, arrivals);
    forall b: u32 ensures b in blocks <==> code.decodable(Ids(History(arrivals, b))) {
      EmittedExactly(code, arrivals, b);
    }
  }

  /** Symbols that arrive again after their block was emitted add nothing. */
  lemma {:induction false} ReplayAddsNothing(code: Code, content: u32 -> seq<byte>, arrivals: seq<Arrival>, replay: seq<Arrival>)
    requires ValidCode(code) && GenuineArrivals(code, content, arrivals + replay) && SafeOrder(code, arrivals + replay)
    requires forall a :: a in replay ==> a.block in Emitted(code, arrivals)
    ensures Run(code, arrivals + replay).output == Run(code, arrivals).output
  {
    EvictionInvisible(code, content, arrivals + replay);
    forall i, b | 0 <= i < |arrivals| && b in Emitted(code, arrivals[..i]) ensures b <= arrivals[i].block + 5 {
      assert (arrivals + replay)[..i] == arrivals[..i];
    }
    EvictionInvisible(code, content, arrivals);
    ReplayEmitsNothing(code, arrivals, replay);
  }

  lemma {:induction false} ReplayEmitsNothing(code: Code, arrivals: seq<Arrival>, replay: seq<Arrival>)
    requires forall a :: a in replay ==> a.block in Emitted(code, arrivals)
    ensures Emitted(code, arrivals + replay) == Emitted(code, arrivals)
    decreases |replay|
  {
    hide History;
    if replay == [] {
      assert arrivals + replay == arrivals;
    } else {
      var n := |replay| - 1;
      ReplayEmitsNothing(code, arrivals, replay[..n]);
      var all := arrivals + replay;
      assert all[..|all| - 1] == arrivals + replay[..n];
      assert replay[n] in replay;
    }
  }

  // ------------------------------------------------------------------ in-order streams with loss

  ghost predicate InOrder(arrivals: seq<Arrival>) {
    forall i, j :: 0 <= i < j < |arrivals| ==> arrivals[i].block <= arrivals[j].block
  }

  ghost predicate Increasing(blocks: seq<u32>) {
    forall i, j :: 0 <= i < j < |blocks| ==> blocks[i] < blocks[j]
  }

  lemma {:induction false} EmittedArrived(code: Code, arrivals: seq<Arrival>, b: u32)
    requires b in Emitted(code, arrivals)
    ensures exists i :: 0 <= i < |arrivals| && arrivals[i].block == b
    decreases |arrivals|
  {
    var n := |arrivals| - 1;
    if arrivals[n].block != b {
      EmittedArrived(code, arrivals[..n], b);
      var i :| 0 <= i < n && arrivals[..n][i].block == b;
      assert arrivals[i].block == b;
    }
  }

  lemma InOrderSafe(code: Code, arrivals: seq<Arrival>)
    requires InOrder(arrivals)
    ensures SafeOrder(code, arrivals)
  {
    forall i, b | 0 <= i < |arrivals| && b in Emitted(code, arrivals[..i]) ensures b <= arrivals[i].block + 5 {
      EmittedArrived(code, arrivals[..i], b);
    }
  }

  lemma {:induction false} EmittedIncreasing(code: Code, arrivals: seq<Arrival>)
    requires InOrder(arrivals)
    ensures Increasing(Emitted(code, arrivals))
    decreases |arrivals|
  {
    if arrivals != [] {
      var n := |arrivals| - 1;
      var before := Emitted(code, arrivals[..n]);
      EmittedIncreasing(code, arrivals[..n]);
      forall i | 0 <= i < |before| ensures before[i] <= arrivals[n].block {
        EmittedArrived(code, arrivals[..n], before[i]);
      }
    }
  }

  ghost predicate AllDecodable(code: Code, arrivals: seq<Arrival>, n: nat) {
    forall b: u32 :: b < n ==> code.decodable(Ids(History(arrivals, b)))
  }

  function FirstBlocks(n: nat): (r: seq<u32>)
    requires n <= 0x1_0000_0000
    ensures |r| == n
    ensures forall i :: 0 <= i < n ==> r[i] == i
  {
    seq(n, i requires 0 <= i < n => i)
  }

  lemma {:induction false} IncreasingAbove(blocks: seq<u32>, i: nat)
    requires Increasing(blocks) && i < |blocks|
    ensures blocks[i] >= i
    decreases i
  {
    if i > 0 { IncreasingAbove(blocks, i - 1); }
  }

  lemma {:induction false} IncreasingBelow(blocks: seq<u32>, n: nat, i: nat)
    requires Increasing(blocks) && i < |blocks| && forall j :: 0 <= j < |blocks| ==> blocks[j] < n
    ensures blocks[i] + (|blocks| - i) <= n
    decreases |blocks| - i
  {
    if i + 1 < |blocks| { IncreasingBelow(blocks, n, i + 1); }
  }

  lemma IncreasingFull(blocks: seq<u32>, n: nat)
    requires Increasing(blocks) && n <= 0x1_0000_0000 && forall j :: 0 <= j < |blocks| ==> blocks[j] < n
    ensures |blocks| <= n
    ensures |blocks| == n ==> blocks == FirstBlocks(n)
  {
    if blocks != [] { IncreasingBelow(blocks, n, 0); }
    if |blocks| == n {
      forall i: nat | i < n ensures blocks[i] == i {
        IncreasingAbove(blocks, i);
        IncreasingBelow(blocks, n, i);
      }
    }
  }

  lemma {:induction false} IncreasingCovers(blocks: seq<u32>, n: nat, k: nat)
    requires Increasing(blocks) && k <= n <= 0x1_0000_0000
    requires forall b: u32 :: b < n ==> b in blocks
    ensures |blocks| >= k && forall i :: 0 <= i < k ==> blocks[i] == i
    decreases k
  {
    if k > 0 {
      IncreasingCovers(blocks, n, k - 1);
      var b: u32 := k - 1;
      assert b in blocks;
      var j :| 0 <= j < |blocks| && blocks[j] == b;
      IncreasingAbove(blocks, k - 1);
      assert j == k - 1;
    }
  }

  lemma {:induction false} ContentsLength(content: u32 -> seq<byte>, blocks: seq<u32>)
    requires forall b: u32 :: |content(b)| == FEC_BLOCK_SIZE
    ensures |Contents(content, blocks)| == FEC_BLOCK_SIZE * |blocks|
  {
    if blocks != [] { ContentsLength(content, blocks[..|blocks| - 1]); }
  }

  // Increasing blocks below n are all of them, or too few to fill the input.
  lemma FullOrShort(content: u32 -> seq<byte>, blocks: seq<u32>, n: nat)
    requires Increasing(blocks) && n <= 0x1_0000_0000 && forall j :: 0 <= j < |blocks| ==> blocks[j] < n
    requires forall b: u32 :: |content(b)| == FEC_BLOCK_SIZE
    ensures (forall b: u32 :: b < n ==> b in blocks) <==> blocks == FirstBlocks(n)
    ensures blocks == FirstBlocks(n) <==> Contents(content, blocks) == Contents(content, FirstBlocks(n))
    ensures blocks != FirstBlocks(n) ==> |Contents(content, blocks)| <= FEC_BLOCK_SIZE * (n - 1)
  {
    hide Increasing;
    IncreasingFull(blocks, n);
    ContentsLength(content, blocks);
    ContentsLength(content, FirstBlocks(n));
    if blocks == FirstBlocks(n) {
      forall b: u32 | b < n ensures b in blocks {
        assert blocks[b] == b;
      }
    } else {
      MulMono(FEC_BLOCK_SIZE, |blocks|, n - 1);
      if forall b: u32 :: b < n ==> b in blocks {
        IncreasingCovers(blocks, n, n);
        assert false;
      }
    }
  }

  /** Dropping whole symbols from an in-order stream of n blocks: the output is a concatenation of
      true blocks in strictly increasing order, and it is the complete input exactly when the
      surviving symbols of every block are decodable. */
  lemma LossyInOrder(code: Code, content: u32 -> seq<byte>, arrivals: seq<Arrival>, n: nat)
    requires ValidCode(code) && GenuineArrivals(code, content, arrivals) && InOrder(arrivals)
    requires n <= 0x1_0000_0000 && forall a :: a in arrivals ==> a.block < n
    ensures Increasing(Emitted(code, arrivals))
    ensures Run(code, arrivals).output == Contents(content, Emitted(code, arrivals))
    ensures Run(code, arrivals).output == Contents(content, FirstBlocks(n))
       <==> AllDecodable(code, arrivals, n)
    ensures !AllDecodable(code, arrivals, n) ==> |Run(code, arrivals).output| <= FEC_BLOCK_SIZE * (n - 1)
  {
    hide Emitted, History, ValidCode, Increasing, InOrder, Run, Contents, Ids, SafeOrder;
    var emitted := Emitted(code, arrivals);
    InOrderSafe(code, arrivals);
    EvictionInvisible(code, content, arrivals);
    EmittedIncreasing(code, arrivals);
    forall j | 0 <= j < |emitted| ensures emitted[j] < n {
      EmittedArrived(code, arrivals, emitted[j]);
    }
    forall b: u32 ensures b in emitted <==> code.decodable(Ids(History(arrivals, b))) {
      EmittedExactly(code, arrivals, b);
    }
    assert AllDecodable(code, arrivals, n) <==> forall b: u32 :: b < n ==> b in emitted;
    FullOrShort(content, emitted, n);
  }

  // ------------------------------------------------------------------ memory

  lemma RunKeysArrived(code: Code, arrivals: seq<Arrival>, b: u32)
    requires b in Run(code, arrivals).blocks
    ensures exists i :: 0 <= i < |arrivals| && arrivals[i].block == b
    decreases |arrivals|
  {
    var n := |arrivals| - 1;
    if n >= 0 && arrivals[n].block != b {
      RunKeysArrived(code, arrivals[..n], b);
      var i :| 0 <= i < n && arrivals[..n][i].block == b;
      assert arrivals[i].block == b;
    }
  }

  lemma {:induction false} WindowSize(keys: set<u32>, lo: nat, hi: nat)
    requires forall k :: k in keys ==> lo <= k <= hi
    requires lo <= hi + 1
    ensures |keys| <= hi + 1 - lo
    decreases hi + 1 - lo
  {
    if lo == hi + 1 {
      CardMono(keys, {});
    } else {
      var rest := set k | k in keys && k != lo;
      WindowSize(rest, lo + 1, hi);
      if lo < 0x1_0000_0000 {
        assert keys <= rest + {lo};
        CardMono(keys, rest + {lo});
      } else {
        CardMono(keys, rest);
      }
    }
  }

  lemma {:induction false} CardMono(a: set<u32>, b: set<u32>)
    requires a <= b
    ensures |a| <= |b|
    decreases a
  {
    if a != {} {
      var x :| x in a;
      CardMono(a - {x}, b - {x});
    }
  }

  lemma {:induction false} HistoryStops(arrivals: seq<Arrival>, k: nat, b: u32)
    requires k <= |arrivals| && forall i :: k <= i < |arrivals| ==> arrivals[i].block != b
    ensures History(arrivals, b) == History(arrivals[..k], b)
    decreases |arrivals|
  {
    var n := |arrivals| - 1;
    if k < |arrivals| {
      HistoryStops(arrivals[..n], k, b);
      assert arrivals[..n][..k] == arrivals[..k];
    } else {
      assert arrivals[..k] == arrivals;
    }
  }

  /** The table is small, and full only while block `newest` is tracked but undecoded. */
  ghost predicate HasRoom(t: Table, newest: u32) {
    |t.blocks| <= 10 || (|t.blocks| <= 11 && newest in t.blocks && !t.blocks[newest].isDecoded)
  }

  /** Adding a block to the table and evicting keeps it small. */
  lemma TableStep(code: Code, t: Table, b: u32, p: Packet)
    requires forall k :: k in t.blocks ==> k <= b
    requires HasRoom(t, b)
    ensures var t' := Accept(code, t, b, p); b in t'.blocks && HasRoom(t', b)
  {
    var block := Tracked(t.blocks, b);
    var received := block.received + [p];
    var grown := t.blocks[b := FecBlock(received, true)];
    assert grown.Keys == t.blocks.Keys + {b};
    assert t.blocks[b := FecBlock(received, false)].Keys == t.blocks.Keys + {b};
    assert t.blocks[b := block].Keys == t.blocks.Keys + {b};
    assert b in t.blocks ==> t.blocks.Keys + {b} == t.blocks.Keys;
    assert b !in t.blocks ==> |t.blocks.Keys + {b}| == |t.blocks| + 1;
    var kept := Evict(grown, b);
    WindowSize(kept.Keys, SaturatingSub(b, 5), b);
    if block.isDecoded {
      assert b in t.blocks;
    }
  }

  lemma KeysBelow(code: Code, arrivals: seq<Arrival>, k: nat)
    requires InOrder(arrivals) && k < |arrivals|
    ensures forall b :: b in Run(code, arrivals[..k]).blocks ==> b <= arrivals[k].block
  {
    hide Accept;
    forall b | b in Run(code, arrivals[..k]).blocks ensures b <= arrivals[k].block {
      RunKeysArrived(code, arrivals[..k], b);
    }
  }

  // Before the next arrival there is room for its block.
  lemma RoomForNext(code: Code, content: u32 -> seq<byte>, arrivals: seq<Arrival>, k: nat)
    requires ValidCode(code) && GenuineArrivals(code, content, arrivals) && InOrder(arrivals) && k < |arrivals|
    requires forall a :: a in arrivals ==> code.decodable(Ids(History(arrivals, a.block)))
    requires k > 0 ==> HasRoom(Run(code, arrivals[..k]), arrivals[k - 1].block)
    ensures HasRoom(Run(code, arrivals[..k]), arrivals[k].block)
  {
    hide Accept, ValidCode, GenuineArrivals, History;
    if k > 0 && arrivals[k - 1].block != arrivals[k].block {
      assert arrivals[k - 1].block < arrivals[k].block;
      PreviousDecoded(code, content, arrivals, k);
    }
  }

  /** When every block's surviving symbols are decodable, an in-order stream never makes the
      decoder track more than 11 blocks. */
  lemma {:induction false} AtMostElevenTracked(code: Code, content: u32 -> seq<byte>, arrivals: seq<Arrival>, k: nat)
    requires ValidCode(code) && GenuineArrivals(code, content, arrivals) && InOrder(arrivals) && k <= |arrivals|
    requires forall a :: a in arrivals ==> code.decodable(Ids(History(arrivals, a.block)))
    ensures |Run(code, arrivals[..k]).blocks| <= 11
    ensures k > 0 ==> HasRoom(Run(code, arrivals[..k]), arrivals[k - 1].block)
    decreases k
  {
    hide Accept, ValidCode, GenuineArrivals, InOrder, History, Ids;
    if k > 0 {
      var a, before := arrivals[k - 1], arrivals[..k - 1];
      AtMostElevenTracked(code, content, arrivals, k - 1);
      assert arrivals[..k][..k - 1] == before && arrivals[..k][k - 1] == a;
      KeysBelow(code, arrivals, k - 1);
      RoomForNext(code, content, arrivals, k - 1);
      TableStep(code, Run(code, before), a.block, a.packet);
    }
  }

  // When the next block starts, the previous one has been decoded.
  lemma PreviousDecoded(code: Code, content: u32 -> seq<byte>, arrivals: seq<Arrival>, k: nat)
    requires ValidCode(code) && GenuineArrivals(code, content, arrivals) && InOrder(arrivals)
    requires 0 < k < |arrivals| && arrivals[k - 1].block < arrivals[k].block
    requires forall a :: a in arrivals ==> code.decodable(Ids(History(arrivals, a.block)))
    ensures var (t, b) := (Run(code, arrivals[..k]), arrivals[k - 1].block); b in t.blocks ==> t.blocks[b].isDecoded
  {
    var before, b := arrivals[..k], arrivals[k - 1].block;
    HistoryStops(arrivals, k, b);
    assert arrivals[k - 1] in arrivals;
    EmittedExactly(code, before, b);
    InOrderSafe(code, before);
    EvictionInvisible(code, content, before);
  }
}
