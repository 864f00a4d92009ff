/** Repacking bytes into small symbols and back. Digits are written least significant bit first,
    as both bit buffers of the source do. */
module BitPacking {
  import opened Bytes

  /** The k low bits of n, least significant first. */
  function LowBits(n: nat, k: nat): (r: seq<bool>)
    ensures |r| == k
    decreases k, n
  {
    if k == 0 then [] else [n % 2 == 1] + LowBits(n / 2, k - 1)
  }

  function Value(bits: seq<bool>): nat {
    if bits == [] then 0 else (if bits[0] then 1 else 0) + 2 * Value(bits[1..])
  }

  /** A sequence of k-bit digits as one bit string. */
  function Bits(k: nat, digits: seq<nat>): seq<bool> {
    if digits == [] then [] else LowBits(digits[0], k) + Bits(k, digits[1..])
  }

  function Values(chunks: seq<seq<bool>>): seq<nat> {
    if chunks == [] then [] else [Value(chunks[0])] + Values(chunks[1..])
  }

  /** A bit string cut into k-bit digits; an incomplete last digit is dropped. */
  function Digits(k: nat, bits: seq<bool>): seq<nat>
    requires k > 0
  {
    Values(FullChunks(k, bits))
  }

  function Falses(n: nat): (r: seq<bool>)
    ensures |r| == n
  {
    seq(n, _ => false)
  }

  ghost predicate Below(bound: nat, digits: seq<nat>) {
    forall i :: 0 <= i < |digits| ==> digits[i] < bound
  }

  // ------------------------------------------------------------------ one digit

  lemma {:induction false} ValueOfLowBits(n: nat, k: nat)
    requires n < Pow2(k)
    ensures Value(LowBits(n, k)) == n
  {
    if k > 0 {
      ValueOfLowBits(n / 2, k - 1);
    }
  }

  lemma {:induction false} LowBitsOfValue(bits: seq<bool>)
    ensures LowBits(Value(bits), |bits|) == bits
    ensures Value(bits) < Pow2(|bits|)
  {
    if bits != [] {
      LowBitsOfValue(bits[1..]);
    }
  }

  /** Appending a value above the pending bits of a bit buffer appends its bits. */
  lemma LowBitsAdd(pending: nat, j: nat, x: nat, k: nat)
    requires pending < Pow2(j)
    ensures LowBits(pending + x * Pow2(j), j + k) == LowBits(pending, j) + LowBits(x, k)
    ensures x < Pow2(k) ==> pending + x * Pow2(j) < Pow2(j + k)
  {
    hide LowBits;
    ShiftIsProduct(x, j);
    AddShifted(pending, j, x, k);
    ShiftedBelow(pending, j, x, k);
  }

  /** x shifted left by j bits, one at a time. */
  function Shift(x: nat, j: nat): nat {
    if j == 0 then x else 2 * Shift(x, j - 1)
  }

  lemma {:induction false} ShiftIsProduct(x: nat, j: nat)
    ensures Shift(x, j) == x * Pow2(j)
  {
    if j > 0 {
      ShiftIsProduct(x, j - 1);
      DoubleProduct(x, Pow2(j - 1));
    }
  }

  lemma {:induction false} AddShifted(pending: nat, j: nat, x: nat, k: nat)
    requires pending < Pow2(j)
    ensures LowBits(pending + Shift(x, j), j + k) == LowBits(pending, j) + LowBits(x, k)
  {
    if j == 0 {
      assert LowBits(pending, j) == [];
    } else {
      hide LowBits;
      AddShifted(pending / 2, j - 1, x, k);
      AddStep(pending, j, x, k, Shift(x, j - 1));
    }
  }

  lemma AddStep(pending: nat, j: nat, x: nat, k: nat, m: nat)
    requires j > 0 && LowBits(pending / 2 + m, j - 1 + k) == LowBits(pending / 2, j - 1) + LowBits(x, k)
    ensures LowBits(pending + 2 * m, j + k) == LowBits(pending, j) + LowBits(x, k)
  {
    hide LowBits;
    FirstBit(pending, m, j + k);
    FirstBit(pending, 0, j);
    Assoc([pending % 2 == 1], LowBits(pending / 2, j - 1), LowBits(x, k));
  }

  lemma FirstBit(a: nat, m: nat, n: nat)
    requires n > 0
    ensures LowBits(a + 2 * m, n) == [a % 2 == 1] + LowBits(a / 2 + m, n - 1)
  {
    HalfOfSum(a, m);
  }

  lemma {:induction false} ShiftedBelow(pending: nat, j: nat, x: nat, k: nat)
    requires pending < Pow2(j)
    ensures x < Pow2(k) ==> pending + Shift(x, j) < Pow2(j + k)
  {
    if j > 0 {
      ShiftedBelow(pending / 2, j - 1, x, k);
    }
  }

  lemma DoubleProduct(x: nat, p: nat)
    ensures x * (2 * p) == 2 * (x * p)
  {
  }

  lemma HalfOfSum(a: nat, m: nat)
    ensures (a + 2 * m) % 2 == a % 2 && (a + 2 * m) / 2 == a / 2 + m
  {
  }

  /** What the encoders' `bit_buf |= byte << bits_in_buf` does. */
  lemma LowBitsAppend(pending: nat, j: nat, x: nat, k: nat)
    requires pending < Pow2(j) && x < Pow2(k)
    ensures LowBits(BitOr(pending, x * Pow2(j)), j + k) == LowBits(pending, j) + LowBits(x, k)
    ensures BitOr(pending, x * Pow2(j)) < Pow2(j + k)
  {
    BitOrDisjoint(pending, j, x);
    LowBitsAdd(pending, j, x, k);
  }

  /** What masking the j low bits r out of the buffer and shifting it right to q does. */
  lemma LowBitsTake(n: nat, j: nat, k: nat, q: nat, r: nat)
    requires r < Pow2(j) && n == r + q * Pow2(j) && n < Pow2(j + k)
    ensures LowBits(n, j + k) == LowBits(r, j) + LowBits(q, k)
    ensures q < Pow2(k)
  {
    hide LowBits, Pow2;
    LowBitsAdd(r, j, q, k);
    Pow2Product(j, k);
    QuotientBound(q, r, Pow2(j), Pow2(k));
  }

  lemma QuotientBound(q: nat, r: nat, p: nat, bound: nat)
    requires r + q * p < p * bound
    ensures q < bound
  {
    ProductSplit(p, bound, if q >= bound then q - bound else 0);
  }

  lemma ProductSplit(p: nat, bound: nat, d: nat)
    ensures (bound + d) * p == p * bound + d * p >= p * bound
  {
  }

  lemma {:induction false} Pow2Product(j: nat, k: nat)
    ensures Pow2(j + k) == Pow2(j) * Pow2(k)
  {
    if j > 0 {
      Pow2Product(j - 1, k);
      assert Pow2(j + k) == 2 * (Pow2(j - 1) * Pow2(k));
    }
  }

  // ------------------------------------------------------------------ digit strings

  lemma {:induction false} BitsAppend(k: nat, a: seq<nat>, b: seq<nat>)
    ensures Bits(k, a + b) == Bits(k, a) + Bits(k, b)
  {
    if a == [] {
      assert a + b == b;
    } else {
      assert (a + b)[0] == a[0] && (a + b)[1..] == a[1..] + b;
      BitsAppend(k, a[1..], b);
      Assoc(LowBits(a[0], k), Bits(k, a[1..]), Bits(k, b));
    }
  }

  lemma BitsSnoc(k: nat, a: seq<nat>, d: nat)
    ensures Bits(k, a + [d]) == Bits(k, a) + LowBits(d, k)
  {
    BitsAppend(k, a, [d]);
    assert Bits(k, [d]) == LowBits(d, k) + Bits(k, [d][1..]);
  }

  lemma {:induction false} BitsLength(k: nat, digits: seq<nat>)
    ensures |Bits(k, digits)| == k * |digits|
  {
    if digits != [] { BitsLength(k, digits[1..]); }
  }

  /** The digits of a bit string are the only digits below 2^k that spell its complete part. */
  lemma {:induction false} DigitsUnique(k: nat, digits: seq<nat>, tail: seq<bool>)
    requires k > 0 && Below(Pow2(k), digits) && |tail| < k
    ensures Digits(k, Bits(k, digits) + tail) == digits
    ensures Rest(k, Bits(k, digits) + tail) == tail
  {
    if digits == [] {
      assert Bits(k, digits) + tail == tail;
    } else {
      var head := LowBits(digits[0], k);
      var bits := Bits(k, digits) + tail;
      Assoc(head, Bits(k, digits[1..]), tail);
      assert bits[..k] == head && bits[k..] == Bits(k, digits[1..]) + tail;
      assert FullChunks(k, bits)[1..] == FullChunks(k, bits[k..]);
      ValueOfLowBits(digits[0], k);
      DigitsUnique(k, digits[1..], tail);
    }
  }

  lemma DigitsUnfold(k: nat, bits: seq<bool>)
    requires 0 < k <= |bits|
    ensures Digits(k, bits) == [Value(bits[..k])] + Digits(k, bits[k..]) && Rest(k, bits) == Rest(k, bits[k..])
  {
    var chunks := FullChunks(k, bits);
    assert chunks[0] == bits[..k] && chunks[1..] == FullChunks(k, bits[k..]);
  }

  lemma {:induction false} BitsOfDigits(k: nat, bits: seq<bool>)
    requires k > 0
    ensures Bits(k, Digits(k, bits)) + Rest(k, bits) == bits
    ensures Below(Pow2(k), Digits(k, bits))
    decreases |bits|
  {
    if |bits| >= k {
      hide Digits, Rest, LowBits, Value, Pow2;
      var later := Digits(k, bits[k..]);
      BitsOfDigits(k, bits[k..]);
      LowBitsOfValue(bits[..k]);
      DigitsUnfold(k, bits);
      BitsUnfold(k, Value(bits[..k]), later);
      Assoc(bits[..k], Bits(k, later), Rest(k, bits[k..]));
      assert bits == bits[..k] + bits[k..];
    }
  }

  lemma BitsUnfold(k: nat, first: nat, later: seq<nat>)
    ensures Bits(k, [first] + later) == LowBits(first, k) + Bits(k, later)
  {
    assert ([first] + later)[1..] == later;
  }

  lemma {:induction false} LowBitsOfZero(k: nat)
    ensures LowBits(0, k) == Falses(k)
  {
    if k > 0 { LowBitsOfZero(k - 1); }
  }

  lemma {:induction false} BitsOfZeros(k: nat, zeros: seq<nat>)
    requires forall i :: 0 <= i < |zeros| ==> zeros[i] == 0
    ensures Bits(k, zeros) == Falses(k * |zeros|)
  {
    if zeros != [] {
      BitsOfZeros(k, zeros[1..]);
      LowBitsOfZero(k);
      assert k * |zeros| == k + k * (|zeros| - 1);
    }
  }

  // ------------------------------------------------------------------ both directions

  /** The symbols a frame of k-bit blocks carries for a bit string, the last one completed with
      zero bits when `flush` is set. */
  function Pack(k: nat, bits: seq<bool>, flush: bool): seq<nat>
    requires k > 0
  {
    Digits(k, bits) + if flush && Rest(k, bits) != [] then [Value(Rest(k, bits))] else []
  }

  lemma {:induction false} ValueWithFalses(bits: seq<bool>, m: nat)
    ensures LowBits(Value(bits), |bits| + m) == bits + Falses(m)
  {
    if bits == [] {
      LowBitsOfZero(m);
      assert [] + Falses(m) == Falses(m);
    } else {
      ValueWithFalses(bits[1..], m);
      assert bits + Falses(m) == [bits[0]] + (bits[1..] + Falses(m));
    }
  }

  lemma PackedBits(k: nat, bits: seq<bool>, flush: bool) returns (pad: nat)
    requires k > 0 && (flush || Rest(k, bits) == [])
    ensures Bits(k, Pack(k, bits, flush)) == bits + Falses(pad) && pad < k
  {
    BitsOfDigits(k, bits);
    var rest := Rest(k, bits);
    if rest == [] {
      pad := 0;
      assert Pack(k, bits, flush) == Digits(k, bits);
      assert bits + Falses(0) == bits == Bits(k, Digits(k, bits)) + rest;
    } else {
      pad := k - |rest|;
      BitsSnoc(k, Digits(k, bits), Value(rest));
      ValueWithFalses(rest, pad);
      Assoc(Bits(k, Digits(k, bits)), rest, Falses(pad));
    }
  }

  /** Repacking is lossless: bytes, packed into k-bit symbols with the final flush, followed by any
      number of zero symbols and read back as bytes, are the same bytes followed by zeros only. */
  lemma RepackRoundTrip(k: nat, bytes: seq<byte>, flush: bool, zeros: seq<nat>) returns (extra: nat)
    requires k > 0 && (flush || Rest(k, Bits(8, bytes)) == [])
    requires forall i :: 0 <= i < |zeros| ==> zeros[i] == 0
    ensures Digits(8, Bits(k, Pack(k, Bits(8, bytes), flush) + zeros)) == bytes + Zeros(extra)
  {
    var bits, syms := Bits(8, bytes), Pack(k, Bits(8, bytes), flush);
    var pad := PackedBits(k, bits, flush);
    BitsAppend(k, syms, zeros);
    BitsOfZeros(k, zeros);
    var n := pad + k * |zeros|;
    assert Falses(pad) + Falses(k * |zeros|) == Falses(n);
    Assoc(bits, Falses(pad), Falses(k * |zeros|));
    extra := n / 8;
    BitsOfZeros(8, Zeros(extra));
    assert Falses(n) == Falses(8 * extra) + Falses(n % 8);
    BitsAppend(8, bytes, Zeros(extra));
    Assoc(bits, Falses(8 * extra), Falses(n % 8));
    assert Pow2(8) == 256 by { Pow2Bytes(1); }
    DigitsUnique(8, bytes + Zeros(extra), Falses(n % 8));
  }
}
