/**
 Memory as the bit buffer and the bit stream see it: an array of 64-bit words, aliased as bytes on
 a little-endian machine, and read as one sequence of bits in either bit order.
 */
module BitMemory {
  import opened Bits

  /** The words behind the `data`/`bytes` union. */
  type Memory = seq<nat>

  ghost predicate WordsOk(m: Memory) {
    forall i | 0 <= i < |m| :: m[i] < WORD
  }

  /** Bit `p` of the memory in address order, 0 outside of it. */
  predicate MemBit(m: Memory, p: nat) {
    p / 64 < |m| && Bit(m[p / 64], p % 64)
  }

  /** Where bit `p` of a stream lies: in big-endian order each byte is read from its high bit. */
  function Place(be: bool, p: nat): nat {
    if be then p / 8 * 8 + (7 - p % 8) else p
  }

  /** Bit `p` of the memory in the given bit order. */
  predicate StreamBit(be: bool, m: Memory, p: nat) {
    MemBit(m, Place(be, p))
  }

  /** The bits [from, to) of the memory in the given bit order. */
  function Stream(be: bool, m: Memory, from: nat, to: nat): (s: seq<bool>)
    requires from <= to
    ensures |s| == to - from
  {
    seq(to - from, i requires 0 <= i < to - from => StreamBit(be, m, from + i))
  }

  lemma PlaceInvolutive(be: bool, p: nat)
    ensures Place(be, Place(be, p)) == p
    ensures Place(be, p) / 8 == p / 8
    ensures Place(be, p) % 8 == if be then 7 - p % 8 else p % 8
  {
  }

  // ---------------------------------------------------------------- bytes

  /** `bytes[j]`, 0 outside of the memory. */
  function ByteAt(m: Memory, j: nat): nat {
    if j / 8 < |m| then Low(Shr(m[j / 8], 8 * (j % 8)), 8) else 0
  }

  /** The word `w` with its byte `k` replaced by `v`. */
  function WordWithByte(w: nat, k: nat, v: nat): nat {
    FromBits(seq(64, i requires 0 <= i < 64 => if i / 8 == k then Bit(v, i % 8) else Bit(w, i)))
  }

  /** `bytes[j] = v` */
  function PutByte(m: Memory, j: nat, v: nat): Memory
    requires j / 8 < |m|
  {
    m[j / 8 := WordWithByte(m[j / 8], j % 8, v)]
  }

  lemma BitOfByteAt(m: Memory, j: nat, i: nat)
    ensures Bit(ByteAt(m, j), i) == (i < 8 && MemBit(m, 8 * j + i))
  {
    if j / 8 < |m| {
      BitLow(Shr(m[j / 8], 8 * (j % 8)), 8, i);
      BitShr(m[j / 8], 8 * (j % 8), i);
      if i < 8 {
        assert (8 * j + i) / 64 == j / 8 && (8 * j + i) % 64 == 8 * (j % 8) + i;
      }
    } else {
      BitZero(i);
    }
  }

  lemma BitOfPutByte(m: Memory, j: nat, v: nat, p: nat)
    requires j / 8 < |m|
    ensures MemBit(PutByte(m, j, v), p) == if p / 8 == j then Bit(v, p % 8) else MemBit(m, p)
  {
    if p / 64 == j / 8 {
      var w := m[j / 8];
      var s := seq(64, i requires 0 <= i < 64 => if i / 8 == j % 8 then Bit(v, i % 8) else Bit(w, i));
      BitFromBits(s, p % 64);
      assert s[p % 64] == if p % 64 / 8 == j % 8 then Bit(v, p % 64 % 8) else Bit(w, p % 64);
      assert p / 8 == p / 64 * 8 + p % 64 / 8;
      assert j == j / 8 * 8 + j % 8;
    }
  }

  lemma WordWithByteOk(w: nat, k: nat, v: nat)
    ensures WordWithByte(w, k, v) < WORD
  {
    var s := seq(64, i requires 0 <= i < 64 => if i / 8 == k then Bit(v, i % 8) else Bit(w, i));
    forall i: nat | i >= 64 ensures !Bit(FromBits(s), i) { BitFromBits(s, i); }
    WordIsPow2();
    BelowPow2(FromBits(s), 64);
  }

  // ---------------------------------------------------------------- appending bits

  /** `m2` is `m` with the stream bits from `at` on replaced by `bits`, everything else unchanged. */
  ghost predicate Spliced(be: bool, m: Memory, m2: Memory, at: nat, bits: seq<bool>) {
    forall p: nat {:trigger StreamBit(be, m2, p)} ::
      StreamBit(be, m2, p) == if at <= p < at + |bits| then bits[p - at] else StreamBit(be, m, p)
  }

  /** No bit is set from `len` on. */
  ghost predicate ZeroFrom(be: bool, m: Memory, len: nat) {
    forall p: nat {:trigger StreamBit(be, m, p)} | p >= len :: !StreamBit(be, m, p)
  }

  lemma SplicedZero(be: bool, m: Memory, m2: Memory, at: nat, bits: seq<bool>)
    requires ZeroFrom(be, m, at) && Spliced(be, m, m2, at, bits)
    ensures ZeroFrom(be, m2, at + |bits|)
  {
  }

  /** Splicing at the end of a buffer whose tail is zero appends, and keeps the tail zero. */
  lemma SplicedAppends(be: bool, m: Memory, m2: Memory, len: nat, bits: seq<bool>)
    requires ZeroFrom(be, m, len) && Spliced(be, m, m2, len, bits)
    ensures ZeroFrom(be, m2, len + |bits|)
    ensures Stream(be, m2, 0, len + |bits|) == Stream(be, m, 0, len) + bits
  {
    forall i | 0 <= i < len + |bits|
      ensures Stream(be, m2, 0, len + |bits|)[i] == (Stream(be, m, 0, len) + bits)[i]
    {
      assert StreamBit(be, m2, i) == if len <= i then bits[i - len] else StreamBit(be, m, i);
    }
  }

  /** Two splices in a row are one. */
  lemma SplicedTwice(be: bool, m: Memory, m1: Memory, m2: Memory, at: nat, a: seq<bool>, b: seq<bool>)
    requires Spliced(be, m, m1, at, a) && Spliced(be, m1, m2, at + |a|, b)
    ensures Spliced(be, m, m2, at, a + b)
  {
    forall p: nat
      ensures StreamBit(be, m2, p) == if at <= p < at + |a + b| then (a + b)[p - at] else StreamBit(be, m, p)
    {
      assert StreamBit(be, m1, p) == if at <= p < at + |a| then a[p - at] else StreamBit(be, m, p);
    }
  }

  /** The same bits are in both memories. */
  lemma SplicedNothing(be: bool, m: Memory, at: nat)
    ensures Spliced(be, m, m, at, [])
  {
  }

  /** Bit order does not matter where a buffer ends on a byte boundary. */
  lemma AlignedTail(m: Memory, len: nat)
    requires len % 8 == 0
    ensures ZeroFrom(false, m, len) <==> ZeroFrom(true, m, len)
  {
    if ZeroFrom(false, m, len) { OtherOrder(false, m, len); }
    if ZeroFrom(true, m, len) { OtherOrder(true, m, len); }
  }

  lemma OtherOrder(be: bool, m: Memory, len: nat)
    requires len % 8 == 0 && ZeroFrom(be, m, len)
    ensures ZeroFrom(!be, m, len)
  {
    var other := !be;
    forall p: nat | p >= len ensures !StreamBit(other, m, p) {
      var q := Place(true, p);
      TurnedPlace(p, len);
      assert !StreamBit(be, m, q);
      assert Place(other, p) == Place(be, q);
    }
  }

  lemma TurnedPlace(p: nat, len: nat)
    requires len % 8 == 0 && p >= len
    ensures Place(true, p) >= len && Place(true, Place(true, p)) == p
  {
    PlaceInvolutive(true, p);
    assert p / 8 >= len / 8 && len == 8 * (len / 8);
  }

  // ---------------------------------------------------------------- values as bits

  /** The `n` low bits of `x` in the order in which they are written. */
  function ValueBits(be: bool, x: nat, n: nat): (s: seq<bool>)
    ensures |s| == n
  {
    seq(n, i requires 0 <= i < n => if be then Bit(x, n - 1 - i) else Bit(x, i))
  }

  /** The number that `s` spells in the given bit order. */
  function BitsValue(be: bool, s: seq<bool>): nat {
    if be then FromBits(Reversed(s)) else FromBits(s)
  }

  function Reversed(s: seq<bool>): (r: seq<bool>)
    ensures |r| == |s|
  {
    seq(|s|, i requires 0 <= i < |s| => s[|s| - 1 - i])
  }

  /** Writing a value and reading it back gives it modulo 2^n. */
  lemma ValueRoundTrip(be: bool, x: nat, n: nat)
    ensures BitsValue(be, ValueBits(be, x, n)) == x % Pow2(n)
  {
    FromToBits(x, n);
    if be {
      assert Reversed(ValueBits(be, x, n)) == ToBits(x, n);
    } else {
      assert ValueBits(be, x, n) == ToBits(x, n);
    }
  }

  /** The bits of a run of bytes, written one byte after the other. */
  function BytesBits(be: bool, b: seq<nat>): (s: seq<bool>)
    ensures |s| == 8 * |b|
  {
    if b == [] then [] else BytesBits(be, b[..|b| - 1]) + ValueBits(be, b[|b| - 1], 8)
  }

  lemma {:induction false} JoinBytes(be: bool, a: seq<nat>, b: seq<nat>)
    ensures BytesBits(be, a + b) == BytesBits(be, a) + BytesBits(be, b)
    decreases |b|
  {
    if b == [] {
      assert a + b == a;
    } else {
      var n := |b| - 1;
      JoinBytes(be, a, b[..n]);
      assert (a + b)[..|a + b| - 1] == a + b[..n];
      assert BytesBits(be, a + b) == BytesBits(be, a + b[..n]) + ValueBits(be, b[n], 8);
    }
  }

  lemma AppendByte(be: bool, b: seq<nat>, v: nat)
    ensures BytesBits(be, b + [v]) == BytesBits(be, b) + ValueBits(be, v, 8)
  {
    assert (b + [v])[..|b|] == b;
  }
}
