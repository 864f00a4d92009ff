/** Byte strings, the chunking discipline every buffer of the pipeline follows,
    and the fixed-width integer encodings the source writes into its headers. */
module Bytes {

  type byte = i: int | 0 <= i < 256

  datatype Option<+T> = None | Some(value: T)

  function Zeros(n: nat): (r: seq<byte>)
    ensures |r| == n
  {
    seq(n, _ => 0)
  }

  // ------------------------------------------------------------------ concatenation

  function Flatten<T>(parts: seq<seq<T>>): seq<T> {
    if parts == [] then [] else parts[0] + Flatten(parts[1..])
  }

  lemma Assoc<T>(a: seq<T>, b: seq<T>, c: seq<T>)
    ensures (a + b) + c == a + (b + c)
  {
  }

  lemma {:induction false} FlattenAppend<T>(a: seq<seq<T>>, b: seq<seq<T>>)
    ensures Flatten(a + b) == Flatten(a) + Flatten(b)
  {
    if a == [] {
      assert a + b == b;
    } else {
      var s := a + b;
      assert s[0] == a[0] && s[1..] == a[1..] + b;
      FlattenAppend(a[1..], b);
      Assoc(a[0], Flatten(a[1..]), Flatten(b));
    }
  }

  lemma FlattenSnoc<T>(a: seq<seq<T>>, x: seq<T>)
    ensures Flatten(a + [x]) == Flatten(a) + x
  {
    FlattenAppend(a, [x]);
    assert Flatten([x]) == x + Flatten<T>([]);
  }

  // A sequence of parts that all have one length is determined by its concatenation.
  lemma {:induction false} FlattenLength<T>(parts: seq<seq<T>>, n: nat)
    requires forall k :: 0 <= k < |parts| ==> |parts[k]| == n
    ensures |Flatten(parts)| == n * |parts|
  {
    if parts != [] {
      FlattenLength(parts[1..], n);
    }
  }

  // ------------------------------------------------------------------ products and quotients

  lemma {:induction false} MulMono(k: nat, a: nat, b: nat)
    requires a <= b
    ensures k * a <= k * b
    ensures a < b ==> k * a + k <= k * b
    decreases b
  {
    if a < b {
      MulMono(k, a, b - 1);
      assert k * b == k * (b - 1) + k;
    }
  }

  lemma DivRange(a: nat, n: nat, q: nat)
    requires n > 0 && n * q <= a < n * q + n
    ensures a / n == q
  {
    var d, r := a / n, a % n;
    assert a == n * d + r;
    if d < q {
      MulMono(n, d, q);
    } else if d > q {
      MulMono(n, q, d);
    }
  }

  // ------------------------------------------------------------------ chunking

  /** The complete n-byte pieces of s, in order: what a loop that drains a buffer
      n bytes at a time takes out of it. */
  function FullChunks<T>(n: nat, s: seq<T>): seq<seq<T>>
    requires n > 0
    decreases |s|
  {
    if |s| < n then [] else [s[..n]] + FullChunks(n, s[n..])
  }

  /** What such a loop leaves in the buffer. */
  function Rest<T>(n: nat, s: seq<T>): (r: seq<T>)
    requires n > 0
    ensures |r| < n
    ensures |r| <= |s|
    decreases |s|
  {
    if |s| < n then s else Rest(n, s[n..])
  }

  lemma {:induction false} ChunksConserve<T>(n: nat, s: seq<T>)
    requires n > 0
    ensures Flatten(FullChunks(n, s)) + Rest(n, s) == s
    decreases |s|
  {
    if |s| >= n {
      ChunksConserve(n, s[n..]);
      assert FullChunks(n, s)[1..] == FullChunks(n, s[n..]);
      assert s == s[..n] + s[n..];
    }
  }

  lemma {:induction false} ChunksHaveLength<T>(n: nat, s: seq<T>)
    requires n > 0
    ensures forall k :: 0 <= k < |FullChunks(n, s)| ==> |FullChunks(n, s)[k]| == n
    ensures |s| == n * |FullChunks(n, s)| + |Rest(n, s)|
    decreases |s|
  {
    if |s| >= n {
      ChunksHaveLength(n, s[n..]);
    }
  }

  /** Chunking is incremental: feeding a and then b drains exactly what feeding a + b drains. */
  lemma {:induction false} ChunksIncremental<T>(n: nat, a: seq<T>, b: seq<T>)
    requires n > 0
    ensures FullChunks(n, a + b) == FullChunks(n, a) + FullChunks(n, Rest(n, a) + b)
    ensures Rest(n, a + b) == Rest(n, Rest(n, a) + b)
    decreases |a|
  {
    if |a| >= n {
      ChunksIncremental(n, a[n..], b);
      assert (a + b)[..n] == a[..n];
      assert (a + b)[n..] == a[n..] + b;
    }
  }

  lemma {:induction false} ChunksExact<T>(n: nat, parts: seq<seq<T>>, tail: seq<T>)
    requires n > 0 && |tail| < n
    requires forall k :: 0 <= k < |parts| ==> |parts[k]| == n
    ensures FullChunks(n, Flatten(parts) + tail) == parts
    ensures Rest(n, Flatten(parts) + tail) == tail
  {
    if parts == [] {
      assert Flatten(parts) + tail == tail;
    } else {
      var later := Flatten(parts[1..]) + tail;
      ChunksExact(n, parts[1..], tail);
      Assoc(parts[0], Flatten(parts[1..]), tail);
      assert parts == [parts[0]] + parts[1..];
      FirstChunk(n, parts[0], later);
    }
  }

  lemma FirstChunk<T>(n: nat, first: seq<T>, later: seq<T>)
    requires n > 0 && |first| == n
    ensures FullChunks(n, first + later) == [first] + FullChunks(n, later)
    ensures Rest(n, first + later) == Rest(n, later)
  {
    var s := first + later;
    assert s[..n] == first && s[n..] == later;
  }

  // ------------------------------------------------------------------ integers as bytes

  function Pow256(w: nat): (r: nat)
    ensures r > 0
  {
    if w == 0 then 1 else 256 * Pow256(w - 1)
  }

  /** The low w bytes of n, least significant first (to_le_bytes). */
  function ToLe(n: nat, w: nat): (r: seq<byte>)
    ensures |r| == w
    decreases w, n
  {
    if w == 0 then [] else [n % 256] + ToLe(n / 256, w - 1)
  }

  function FromLe(s: seq<byte>): nat {
    if s == [] then 0 else s[0] + 256 * FromLe(s[1..])
  }

  /** The low w bytes of n, most significant first (to_be_bytes). */
  function ToBe(n: nat, w: nat): (r: seq<byte>)
    ensures |r| == w
    decreases w, n
  {
    if w == 0 then [] else ToBe(n / 256, w - 1) + [n % 256]
  }

  /** Reads the most significant byte first. */
  function FromBe(s: seq<byte>): nat {
    if s == [] then 0 else 256 * FromBe(s[..|s| - 1]) + s[|s| - 1]
  }

  lemma {:induction false} BeRoundTrip(n: nat, w: nat)
    requires n < Pow256(w)
    ensures FromBe(ToBe(n, w)) == n
  {
    if w > 0 {
      BeRoundTrip(n / 256, w - 1);
      assert ToBe(n, w)[..w - 1] == ToBe(n / 256, w - 1);
    }
  }

  lemma {:induction false} LeRoundTrip(n: nat, w: nat)
    requires n < Pow256(w)
    ensures FromLe(ToLe(n, w)) == n
  {
    if w > 0 {
      LeRoundTrip(n / 256, w - 1);
    }
  }

  lemma {:induction false} FromLeBound(s: seq<byte>)
    ensures FromLe(s) < Pow256(|s|)
  {
    if s != [] {
      FromLeBound(s[1..]);
    }
  }

  lemma {:induction false} BeInjective(m: nat, n: nat, w: nat)
    requires m < Pow256(w) && n < Pow256(w)
    requires ToBe(m, w) == ToBe(n, w)
    ensures m == n
  {
    if w > 0 {
      var a, b := ToBe(m / 256, w - 1), ToBe(n / 256, w - 1);
      assert ToBe(m, w)[..w - 1] == a && ToBe(n, w)[..w - 1] == b;
      assert ToBe(m, w)[w - 1] == m % 256 && ToBe(n, w)[w - 1] == n % 256;
      BeInjective(m / 256, n / 256, w - 1);
    }
  }

  lemma Pow256Values()
    ensures Pow256(2) == 0x1_0000
    ensures Pow256(4) == 0x1_0000_0000
    ensures Pow256(8) == 0x1_0000_0000_0000_0000
  {
  }

  // ------------------------------------------------------------------ bitwise or

  /** Bitwise or of two unsigned words, bit by bit. */
  function BitOr(a: nat, b: nat): nat
    decreases a + b
  {
    if a == 0 && b == 0 then 0
    else (if a % 2 == 1 || b % 2 == 1 then 1 else 0) + 2 * BitOr(a / 2, b / 2)
  }

  function Pow2(k: nat): (r: nat)
    ensures r > 0
  {
    if k == 0 then 1 else 2 * Pow2(k - 1)
  }

  lemma {:induction false} BitOrZero(b: nat)
    ensures BitOr(0, b) == b
  {
    if b > 0 { BitOrZero(b / 2); }
  }

  /** Or-ing in a value shifted above all set bits adds it. */
  lemma {:induction false} BitOrDisjoint(a: nat, k: nat, x: nat)
    requires a < Pow2(k)
    ensures BitOr(a, x * Pow2(k)) == a + x * Pow2(k)
  {
    if k == 0 {
      BitOrZero(x);
      assert x * Pow2(0) == x;
    } else {
      var p := Pow2(k - 1);
      assert x * Pow2(k) == 2 * (x * p);
      BitOrDisjoint(a / 2, k - 1, x);
      if a != 0 || x * Pow2(k) != 0 {
        assert (2 * (x * p)) / 2 == x * p;
      }
    }
  }

  lemma {:induction false} Pow2Bytes(k: nat)
    ensures Pow2(8 * k) == Pow256(k)
  {
    if k > 0 {
      Pow2Bytes(k - 1);
      var b := 8 * (k - 1);
      assert Pow2(b + 2) == 4 * Pow2(b);
      assert Pow2(b + 4) == 4 * Pow2(b + 2);
      assert Pow2(b + 6) == 4 * Pow2(b + 4);
      assert Pow2(b + 8) == 4 * Pow2(b + 6);
    }
  }

  /** Setting the top bit of a (k+1)-bit word: adds 2^k when the bit is clear, changes nothing otherwise. */
  lemma {:induction false} BitOrHigh(n: nat, k: nat)
    requires n < 2 * Pow2(k)
    ensures BitOr(n, Pow2(k)) == if n < Pow2(k) then n + Pow2(k) else n
  {
    if n < Pow2(k) {
      BitOrDisjoint(n, k, 1);
    } else if k > 0 {
      BitOrHigh(n / 2, k - 1);
    } else {
      assert n == 1;
      assert BitOr(0, 0) == 0;
    }
  }
}
