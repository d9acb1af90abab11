/**
 The bit stream: two bit positions in a memory, each a pointer to an aligned 64-bit word and an
 offset in it.  Skipping, shrinking and clipping move them exactly; the readers of both bit orders
 return the value the bits spell.
 */
module BitStreams {
  import opened Bits
  import opened BitMemory
  import BitBuffer

  // ---------------------------------------------------------------- positions

  /** `struct bit_ptroff`: the index of a 64-bit word and a bit offset from its start. */
  datatype PtrOff = PtrOff(p: int, offset: nat)

  /** The bit position it denotes. */
  function Pos(x: PtrOff): int { 64 * x.p + x.offset }

  /** The offset is within the word. */
  predicate Normal(x: PtrOff) { x.offset < 64 }

  /** `bit_ptroff_add` */
  function PtrAdd(x: PtrOff, n: nat): PtrOff {
    var offset := x.offset + n;
    if offset >= 64 then PtrOff(x.p + offset / 64, offset % 64) else PtrOff(x.p, offset)
  }

  /** C's remainder, which has the sign of the dividend. */
  function TruncRem(x: int, y: nat): int
    requires y > 0
  {
    if x >= 0 then x % y else -(-x % y)
  }

  /** `bit_ptroff_sub` */
  function PtrSub(x: PtrOff, n: nat): PtrOff {
    var off := x.offset - n;
    if off < 0 then
      PtrOff(x.p - BitBuffer.DivUp(-off, 64), if TruncRem(off, 64) != 0 then 64 + TruncRem(off, 64) else 0)
    else PtrOff(x.p, off)
  }

  /** `bit_ptroff_normalize` of a byte address and a bit offset. */
  function PtrNormalize(addr: int, offset: nat): PtrOff {
    var a := addr / 8 * 8;
    PtrAdd(PtrOff(a / 8, offset + (addr - a) * 8), 0)
  }

  lemma PtrAddExact(x: PtrOff, n: nat)
    ensures Normal(PtrAdd(x, n)) && Pos(PtrAdd(x, n)) == Pos(x) + n
  {
  }

  lemma PtrSubExact(x: PtrOff, n: nat)
    requires Normal(x)
    ensures Normal(PtrSub(x, n)) && Pos(PtrSub(x, n)) == Pos(x) - n
  {
    var off := x.offset - n;
    if off < 0 {
      var q, r := -off / 64, -off % 64;
      assert -off == 64 * q + r;
      assert BitBuffer.DivUp(-off, 64) == if r == 0 then q else q + 1;
    }
  }

  lemma PtrNormalizeExact(addr: int, offset: nat)
    ensures Normal(PtrNormalize(addr, offset)) && Pos(PtrNormalize(addr, offset)) == 8 * addr + offset
  {
  }

  /** A normalized position is determined by the bit it denotes. */
  lemma PosUnique(x: PtrOff, y: PtrOff)
    requires Normal(x) && Normal(y) && Pos(x) == Pos(y)
    ensures x == y
  {
  }

  /** `add` and `sub` undo each other. */
  lemma PtrAddSub(x: PtrOff, n: nat)
    requires Normal(x)
    ensures PtrSub(PtrAdd(x, n), n) == x
    ensures PtrAdd(PtrSub(x, n), n) == x
  {
    PtrAddExact(x, n);
    PtrSubExact(PtrAdd(x, n), n);
    PosUnique(PtrSub(PtrAdd(x, n), n), x);
    PtrSubExact(x, n);
    PtrAddExact(PtrSub(x, n), n);
    PosUnique(PtrAdd(PtrSub(x, n), n), x);
  }

  // ---------------------------------------------------------------- values read

  /** The `n` bits from `pos` on, as a number of the given bit order. */
  function Read(be: bool, m: Memory, pos: nat, n: nat): nat {
    BitsValue(be, Stream(be, m, pos, pos + n))
  }

  /** `res` has the bits of the `n` bit value at `pos`, from bit `remain` up, and no other. */
  ghost predicate HasBits(be: bool, m: Memory, pos: nat, n: nat, remain: nat, res: nat) {
    forall j: nat :: Bit(res, j) ==
      (remain <= j < n && StreamBit(be, m, if be then pos + n - 1 - j else pos + j))
  }

  lemma HasAllBits(be: bool, m: Memory, pos: nat, n: nat, res: nat)
    requires HasBits(be, m, pos, n, 0, res)
    ensures res == Read(be, m, pos, n)
  {
    var s := Stream(be, m, pos, pos + n);
    var t := if be then Reversed(s) else s;
    forall j: nat ensures Bit(FromBits(t), j) == Bit(res, j) {
      BitFromBits(t, j);
      if j < n { SpelledBit(be, m, pos, n, j); }
    }
    SameBits(FromBits(t), res);
  }

  lemma SpelledBit(be: bool, m: Memory, pos: nat, n: nat, j: nat)
    requires j < n
    ensures var s := Stream(be, m, pos, pos + n);
            (if be then Reversed(s) else s)[j] == StreamBit(be, m, if be then pos + n - 1 - j else pos + j)
  {
  }

  // ---------------------------------------------------------------- little-endian reads

  /** The value `__bs_peek_bits` computes from one or two words. */
  function PeekWords(m: Memory, word: nat, offset: nat, n: nat): nat
    requires 0 < n <= 64 && offset < 64 && word < |m|
    requires offset + n > 64 ==> word + 1 < |m|
  {
    var first := Shr(m[word], offset);
    var both := if offset + n > 64 then Or(first, Low(Shl(m[word + 1], 64 - offset), 64)) else first;
    if n != 64 then Low(both, n) else both
  }

  lemma PeekWordsIsRead(m: Memory, word: nat, offset: nat, n: nat)
    requires WordsOk(m)
    requires 0 < n <= 64 && offset < 64 && word < |m|
    requires offset + n > 64 ==> word + 1 < |m|
    ensures PeekWords(m, word, offset, n) == Read(false, m, 64 * word + offset, n)
  {
    forall j: nat
      ensures Bit(PeekWords(m, word, offset, n), j) == (j < n && StreamBit(false, m, 64 * word + offset + j))
    {
      PeekWordsBit(m, word, offset, n, j);
    }
    HasAllBits(false, m, 64 * word + offset, n, PeekWords(m, word, offset, n));
  }

  lemma PeekWordsBit(m: Memory, word: nat, offset: nat, n: nat, j: nat)
    requires WordsOk(m)
    requires 0 < n <= 64 && offset < 64 && word < |m|
    requires offset + n > 64 ==> word + 1 < |m|
    ensures Bit(PeekWords(m, word, offset, n), j) == (j < n && StreamBit(false, m, 64 * word + offset + j))
  {
    var first := Shr(m[word], offset);
    WordIsPow2();
    BitShr(m[word], offset, j);
    if offset + j >= 64 { BitAbove(m[word], 64, offset + j); }
    if offset + n > 64 {
      var high := Low(Shl(m[word + 1], 64 - offset), 64);
      BitOr(first, high, j);
      BitLow(Shl(m[word + 1], 64 - offset), 64, j);
      BitShl(m[word + 1], 64 - offset, j);
      if n != 64 { BitLow(Or(first, high), n, j); }
    } else {
      if n != 64 { BitLow(first, n, j); }
    }
    var p := 64 * word + offset + j;
    if j < 64 {
      assert if offset + j < 64 then p / 64 == word && p % 64 == offset + j
             else p / 64 == word + 1 && p % 64 == offset + j - 64;
    }
  }

  // ---------------------------------------------------------------- big-endian reads

  /** `(byte << remain)` merged into a partial value. */
  lemma MergeByte(m: Memory, pos: nat, n: nat, b: nat, remain: nat, res: nat, res2: nat)
    requires n <= 64 && remain + 8 <= n && 8 * b == pos + n - (remain + 8)
    requires HasBits(true, m, pos, n, remain + 8, res)
    requires res2 == Or(res, Low(Shl(ByteAt(m, b), remain), 64))
    ensures HasBits(true, m, pos, n, remain, res2)
  {
    forall j: nat
      ensures Bit(res2, j) == (remain <= j < n && StreamBit(true, m, pos + n - 1 - j))
    {
      ShiftedByteBit(m, b, remain, j);
      BitOr(res, Low(Shl(ByteAt(m, b), remain), 64), j);
      if remain <= j < remain + 8 { assert pos + n - 1 - j == 8 * b + (7 - (j - remain)); }
    }
  }

  /** Bit `j` of a byte moved up by `remain`. */
  lemma ShiftedByteBit(m: Memory, b: nat, remain: nat, j: nat)
    ensures Bit(Low(Shl(ByteAt(m, b), remain), 64), j) ==
            (j < 64 && remain <= j < remain + 8 && StreamBit(true, m, 8 * b + (7 - (j - remain))))
  {
    BitLow(Shl(ByteAt(m, b), remain), 64, j);
    BitShl(ByteAt(m, b), remain, j);
    if j >= remain {
      BitOfByteAt(m, b, j - remain);
      if j < remain + 8 {
        var k := 7 - (j - remain);
        assert (8 * b + k) / 8 == b && (8 * b + k) % 8 == k;
      }
    }
  }

  /** The first, partial byte. */
  lemma FirstByte(m: Memory, b: nat, offset: nat, n: nat, remain: nat, res: nat)
    requires n <= 64 && 0 < offset < 8 && remain + 8 == n + offset
    requires var y := Low(Shl(ByteAt(m, b), remain), 64);
             res == if n != 64 then Low(y, n) else y
    ensures HasBits(true, m, 8 * b + offset, n, remain, res)
  {
    var pos := 8 * b + offset;
    var y := Low(Shl(ByteAt(m, b), remain), 64);
    forall j: nat
      ensures Bit(res, j) == (remain <= j < n && StreamBit(true, m, pos + n - 1 - j))
    {
      ShiftedByteBit(m, b, remain, j);
      BitLow(y, n, j);
      if remain <= j < n { assert pos + n - 1 - j == 8 * b + (7 - (j - remain)); }
    }
  }

  /** The last, partial byte. */
  lemma LastByte(m: Memory, pos: nat, n: nat, b: nat, remain: nat, res: nat, res2: nat)
    requires n <= 64 && 0 < remain < 8 && remain <= n && 8 * b == pos + n - remain
    requires HasBits(true, m, pos, n, remain, res)
    requires res2 == Or(res, Low(Shr(ByteAt(m, b), 8 - remain), remain))
    ensures HasBits(true, m, pos, n, 0, res2)
  {
    forall j: nat
      ensures Bit(res2, j) == (0 <= j < n && StreamBit(true, m, pos + n - 1 - j))
    {
      TopBitsOfByte(m, b, 0, remain, j);
      BitOr(res, Low(Shr(ByteAt(m, b), 8 - remain), remain), j);
      if j < remain { assert pos + n - 1 - j == 8 * b + remain - 1 - j; }
    }
  }

  /** `(byte >> (8 - (o + n))) & BITMASK_LT(n)`: the `n` stream bits of a byte after the first `o`. */
  lemma TopBitsOfByte(m: Memory, b: nat, o: nat, n: nat, j: nat)
    requires o + n <= 8
    ensures Bit(Low(Shr(ByteAt(m, b), 8 - (o + n)), n), j) == (j < n && StreamBit(true, m, 8 * b + o + n - 1 - j))
  {
    BitLow(Shr(ByteAt(m, b), 8 - (o + n)), n, j);
    BitShr(ByteAt(m, b), 8 - (o + n), j);
    BitOfByteAt(m, b, j + 8 - (o + n));
    if j < n {
      var k := o + n - 1 - j;
      assert (8 * b + k) / 8 == b && (8 * b + k) % 8 == k;
    }
  }

  lemma ShortRead(m: Memory, b: nat, offset: nat, n: nat)
    requires offset + n <= 8
    ensures Low(Shr(ByteAt(m, b), 8 - (offset + n)), n) == Read(true, m, 8 * b + offset, n)
  {
    var pos := 8 * b + offset;
    var res := Low(Shr(ByteAt(m, b), 8 - (offset + n)), n);
    forall j: nat ensures Bit(res, j) == (0 <= j < n && StreamBit(true, m, pos + n - 1 - j)) {
      TopBitsOfByte(m, b, offset, n, j);
    }
    HasAllBits(true, m, pos, n, res);
  }

  // ---------------------------------------------------------------- single bits

  /** The bit of a word that holds stream bit `offset` of that word: `(offset & ~7) + 7 - offset % 8`. */
  function WordBit(be: bool, offset: nat): nat {
    if be then offset / 8 * 8 + 7 - offset % 8 else offset
  }

  /** `(*p >> offset) & 1` */
  predicate BitOfWord(be: bool, m: Memory, x: PtrOff)
    requires 0 <= x.p < |m|
  {
    Bit(Shr(m[x.p], WordBit(be, x.offset)), 0)
  }

  lemma BitOfWordIsStream(be: bool, m: Memory, x: PtrOff)
    requires 0 <= x.p < |m| && Normal(x)
    ensures BitOfWord(be, m, x) == StreamBit(be, m, Pos(x))
  {
    BitShr(m[x.p], WordBit(be, x.offset), 0);
    if be {
      TurnedOffset(true, x.p, x.offset);
    } else {
      assert Pos(x) / 64 == x.p && Pos(x) % 64 == x.offset;
    }
  }

  lemma TurnedOffset(be: bool, p: nat, offset: nat)
    requires offset < 64
    ensures var t := WordBit(be, offset);
            && t < 64 && Place(be, 64 * p + offset) == 64 * p + t == 8 * (8 * p + t / 8) + t % 8
            && (64 * p + t) / 64 == p && (64 * p + t) % 64 == t
  {
    assert offset == 8 * (offset / 8) + offset % 8;
    assert (64 * p + offset) / 8 == 8 * p + offset / 8 && (64 * p + offset) % 8 == offset % 8;
  }

  /** `(b[offset / 8] >> (offset % 8)) & 1`, with the offset turned for big-endian order. */
  predicate BitOfByte(m: Memory, x: PtrOff)
    requires x.p >= 0
  {
    var offset := WordBit(true, x.offset);
    Bit(Shr(ByteAt(m, 8 * x.p + offset / 8), offset % 8), 0)
  }

  lemma BitOfByteIsStream(m: Memory, x: PtrOff)
    requires x.p >= 0 && Normal(x)
    ensures BitOfByte(m, x) == StreamBit(true, m, Pos(x))
  {
    var offset := WordBit(true, x.offset);
    BitShr(ByteAt(m, 8 * x.p + offset / 8), offset % 8, 0);
    BitOfByteAt(m, 8 * x.p + offset / 8, offset % 8);
    TurnedOffset(true, x.p, x.offset);
  }

  // ---------------------------------------------------------------- the stream

  class BitStream {
    const mem: Memory
    var s: PtrOff
    var e: PtrOff

    ghost predicate Valid()
      reads this
    {
      WordsOk(mem) && Normal(s) && Normal(e) && 0 <= Pos(s) <= Pos(e) <= 64 * |mem|
    }

    /** The bits from the current position to the end. */
    ghost function Bits(be: bool): (r: seq<bool>)
      reads this
      requires 0 <= Pos(s) <= Pos(e)
    {
      Stream(be, mem, Pos(s), Pos(e))
    }

    /** `bs_init_ptroff` over a memory that starts at address 0, from byte addresses and offsets. */
    constructor (mem: Memory, sAddr: nat, sOffset: nat, eAddr: nat, eOffset: nat)
      requires WordsOk(mem) && 8 * sAddr + sOffset <= 8 * eAddr + eOffset <= 64 * |mem|
      ensures Valid() && this.mem == mem
      ensures Pos(s) == 8 * sAddr + sOffset && Pos(e) == 8 * eAddr + eOffset
    {
      this.mem, s, e := mem, PtrNormalize(sAddr, sOffset), PtrNormalize(eAddr, eOffset);
      PtrNormalizeExact(sAddr, sOffset);
      PtrNormalizeExact(eAddr, eOffset);
    }

    /** `(bit_stream_t){ s, e }` */
    constructor Between(mem: Memory, s: PtrOff, e: PtrOff)
      requires WordsOk(mem) && Normal(s) && Normal(e) && 0 <= Pos(s) <= Pos(e) <= 64 * |mem|
      ensures Valid() && this.mem == mem && this.s == s && this.e == e
    {
      this.mem, this.s, this.e := mem, s, e;
    }

    /** `bs_len` */
    function Len(): (n: int)
      reads this
      requires Normal(s) && Normal(e)
      ensures n == Pos(e) - Pos(s)
    {
      (e.p - s.p) * 64 - s.offset + e.offset
    }

    /** `bs_done` */
    predicate Done()
      reads this
      requires Normal(s) && Normal(e)
      ensures Done() <==> Pos(s) >= Pos(e)
    {
      s.p > e.p || (s.p == e.p && s.offset >= e.offset)
    }

    /** `bs_skip` */
    method Skip(n: nat) returns (r: int)
      requires Valid()
      modifies `s
      ensures Valid()
      ensures r == if n <= old(Len()) then n else -1
      ensures if r >= 0 then Pos(s) == old(Pos(s)) + n else s == old(s)
      ensures forall be :: Bits(be) == if r >= 0 then old(Bits(be))[n..] else old(Bits(be))
    {
      if !(n <= Len()) {
        return -1;
      }
      PtrAddExact(s, n);
      s := PtrAdd(s, n);
      forall be ensures Bits(be) == old(Bits(be))[n..] { Tail(be, mem, old(Pos(s)), Pos(e), n); }
      r := n;
    }

    /** `bs_align`: skip to the next byte boundary. */
    method Align() returns (r: int)
      requires Valid()
      modifies `s
      ensures Valid()
      ensures var need := (8 - old(s.offset) % 8) % 8;
              r == if need <= old(Len()) then need else -1
      ensures r >= 0 ==> s.offset % 8 == 0 && forall be :: Bits(be) == old(Bits(be))[r..]
      ensures r < 0 ==> s == old(s)
    {
      if s.offset % 8 != 0 {
        ghost var before := s;
        r := Skip(8 - s.offset % 8);
        if r >= 0 { AlignedOffset(before, s); }
      } else {
        r := 0;
      }
    }

    /** `bs_shrink` */
    method Shrink(n: nat) returns (r: int)
      requires Valid()
      modifies `e
      ensures Valid()
      ensures r == if n <= old(Len()) then n else -1
      ensures Pos(e) == if r >= 0 then old(Pos(e)) - n else old(Pos(e))
      ensures forall be :: Bits(be) == if r >= 0 then old(Bits(be))[..|old(Bits(be))| - n] else old(Bits(be))
    {
      if !(n <= Len()) {
        return -1;
      }
      PtrSubExact(e, n);
      e := PtrSub(e, n);
      forall be ensures Bits(be) == old(Bits(be))[..|old(Bits(be))| - n] {
        Head(be, mem, Pos(s), old(Pos(e)), Pos(e) - Pos(s));
      }
      r := n;
    }

    /** `bs_clip`: keep the first `n` bits, and return how many were dropped. */
    method Clip(n: nat) returns (r: int)
      requires Valid()
      modifies `e
      ensures Valid()
      ensures r == if n <= old(Len()) then old(Len()) - n else -1
      ensures forall be :: Bits(be) == if r >= 0 then old(Bits(be))[..n] else old(Bits(be))
    {
      if !(n <= Len()) {
        return -1;
      }
      r := Len() - n;
      e := s;
      PtrNormalizeExact(8 * e.p, e.offset + n);
      e := PtrNormalize(8 * e.p, e.offset + n);
      forall be ensures Bits(be) == old(Bits(be))[..n] { Head(be, mem, Pos(s), old(Pos(e)), n); }
    }

    /** `bs_get_bs`: split off the first `n` bits. */
    method GetBs(n: nat) returns (r: int, sub: BitStream)
      requires Valid()
      modifies `s
      ensures Valid() && r == if n <= old(Len()) then 0 else -1
      ensures r >= 0 ==> fresh(sub) && sub.Valid() && forall be :: sub.Bits(be) + Bits(be) == old(Bits(be))
      ensures r >= 0 ==> sub.Len() == n
      ensures r < 0 ==> s == old(s) && sub == this
    {
      sub := this;
      if !(n <= Len()) {
        return -1, this;
      }
      var poff := PtrNormalize(8 * s.p, s.offset + n);
      PtrNormalizeExact(8 * s.p, s.offset + n);
      sub := new BitStream.Between(mem, s, poff);
      s := poff;
      forall be ensures sub.Bits(be) + Bits(be) == old(Bits(be)) { Cut(be, mem, old(Pos(s)), Pos(s), Pos(e)); }
      r := 0;
    }

    /** `__bs_get_bytes`: `n` bytes from a byte boundary on. */
    method GetBytes(n: nat) returns (b: seq<nat>)
      requires Valid() && s.offset % 8 == 0 && 8 * n <= Len()
      modifies `s
      ensures Valid() && s.offset % 8 == 0
      ensures forall i | 0 <= i < |b| :: b[i] < 256
      ensures forall be :: old(Bits(be)) == BytesBits(be, b) + Bits(be)
      ensures |b| == n
    {
      var from := 8 * s.p + s.offset / 8;
      b := BytesAt(mem, from, n);
      ghost var pos := Pos(s);
      assert s.offset == 8 * (s.offset / 8) && pos == 8 * from;
      var _ := Skip(8 * n);
      SameByteOffset(old(s), s, n);
      forall be ensures old(Bits(be)) == BytesBits(be, b) + Bits(be) {
        BytesThenRest(be, mem, from, n, Pos(e));
      }
    }

    /** `__bs_peek_bits`, little-endian. */
    method PeekBits(n: nat) returns (res: nat)
      requires Valid() && n <= 64 && n <= Len()
      ensures res == Read(false, mem, Pos(s), n)
    {
      if n == 0 {
        return 0;
      }
      PeekWordsIsRead(mem, s.p, s.offset, n);
      res := PeekWords(mem, s.p, s.offset, n);
    }

    /** `bs_get_bit`, and `bs_be_get_bit` which goes through the bytes; -1 at the end. */
    method GetBit(be: bool) returns (r: int)
      requires Valid()
      modifies `s
      ensures Valid()
      ensures old(Done()) ==> r == -1 && s == old(s)
      ensures !old(Done()) ==> r == (if old(Bits(be))[0] then 1 else 0)
      ensures !old(Done()) ==> forall o :: Bits(o) == old(Bits(o))[1..]
    {
      if Done() {
        return -1;
      }
      var bit := PeekBit(be);
      var _ := Skip(1);
      r := if bit then 1 else 0;
    }

    /** `__bs_peek_bit` reads the word, `__bs_be_peek_bit` the byte. */
    method PeekBit(be: bool) returns (bit: bool)
      requires Valid() && !Done()
      ensures bit == Bits(be)[0]
    {
      if be {
        BitOfByteIsStream(mem, s);
        bit := BitOfByte(mem, s);
      } else {
        BitOfWordIsStream(false, mem, s);
        bit := BitOfWord(false, mem, s);
      }
    }

    /** `bs_peek_last_bit` and `bs_be_peek_last_bit`. */
    method PeekLastBit(be: bool) returns (r: int)
      requires Valid()
      ensures Done() ==> r == -1
      ensures !Done() ==> r == if Bits(be)[|Bits(be)| - 1] then 1 else 0
    {
      if Done() {
        return -1;
      }
      var last := if e.offset != 0 then PtrOff(e.p, e.offset - 1) else PtrOff(e.p - 1, 63);
      BitOfWordIsStream(be, mem, last);
      assert Pos(last) == Pos(e) - 1;
      r := if BitOfWord(be, mem, last) then 1 else 0;
    }

    /** `bs_get_last_bit` and `bs_be_get_last_bit`. */
    method GetLastBit(be: bool) returns (r: int)
      requires Valid()
      modifies `e
      ensures Valid()
      ensures old(Done()) ==> r == -1 && e == old(e)
      ensures !old(Done()) ==> old(Bits(be)) == Bits(be) + [r == 1] && (r == 0 || r == 1)
    {
      if Done() {
        return -1;
      }
      var _ := Shrink(1);
      BitOfWordIsStream(be, mem, e);
      r := if BitOfWord(be, mem, e) then 1 else 0;
      CutLast(be, mem, Pos(s), Pos(e));
    }

    /** `bs_get_last_bits` and `bs_be_get_last_bits`; the check of the width comes after shrinking. */
    method GetLastBits(be: bool, n: nat) returns (r: int, res: nat)
      requires Valid()
      modifies `e
      ensures Valid()
      ensures r == if n <= 64 && n <= old(Len()) then n else -1
      ensures r >= 0 ==> res == BitsValue(be, old(Bits(be))[|old(Bits(be))| - n..])
      ensures forall o :: Bits(o) == if n <= old(Len()) then old(Bits(o))[..|old(Bits(o))| - n] else old(Bits(o))
    {
      var tmp := new BitStream.Between(mem, s, e);
      var len := Len();
      res := 0;
      r := Shrink(n);
      if r < 0 {
        return;
      }
      var _ := tmp.Skip(len - n);
      assert tmp.Bits(be) == old(Bits(be))[|old(Bits(be))| - n..];
      assert tmp.Bits(be)[..n] == tmp.Bits(be) || n > 64;
      if be {
        r, res := tmp.BeGetBits(n);
      } else {
        r, res := tmp.GetBits(n);
      }
    }

    /** `bs_get_bits` */
    method GetBits(n: nat) returns (r: int, res: nat)
      requires Valid()
      modifies `s
      ensures Valid()
      ensures r == if n <= 64 && n <= old(Len()) then n else -1
      ensures r >= 0 ==> res == BitsValue(false, old(Bits(false))[..n])
      ensures forall be :: Bits(be) == if r >= 0 then old(Bits(be))[n..] else old(Bits(be))
    {
      if n > 64 || n > Len() {
        return -1, 0;
      }
      ReadHead(false, mem, Pos(s), Pos(e), n);
      res := PeekBits(n);
      r := Skip(n);
    }

    /** `__bs_be_peek_bits` */
    method BePeekBits(n: nat) returns (res: nat)
      requires Valid() && n <= 64 && n <= Len()
      ensures res == Read(true, mem, Pos(s), n)
    {
      var b, offset := 8 * s.p + s.offset / 8, s.offset % 8;
      assert s.offset == 8 * (s.offset / 8) + s.offset % 8;
      assert Pos(s) == 8 * b + offset;
      if offset + n <= 8 {
        ShortRead(mem, b, offset, n);
        return Low(Shr(ByteAt(mem, b), 8 - (offset + n)), n);
      }
      res := BePeekLong(n, b, offset);
    }

    /** `__bs_be_peek_bits` of bits that do not lie in one byte. */
    method BePeekLong(n: nat, b: nat, offset: nat) returns (res: nat)
      requires n <= 64 && offset < 8 && offset + n > 8
      ensures res == Read(true, mem, 8 * b + offset, n)
    {
      if offset != 0 {
        var remain := n - (8 - offset);
        res := Low(Shl(ByteAt(mem, b), remain), 64);
        if n != 64 {
          res := Low(res, n);
        }
        FirstByte(mem, b, offset, n, remain, res);
        res := BePeekBytes(8 * b + offset, n, b + 1, remain, res);
      } else {
        NoBits(mem, 8 * b, n);
        res := BePeekBytes(8 * b, n, b, n, 0);
      }
    }

    /** The byte loop of `__bs_be_peek_bits` and the partial byte after it. */
    method BePeekBytes(ghost pos: nat, n: nat, first: nat, rest: nat, start: nat) returns (res: nat)
      requires n <= 64 && rest <= n && 8 * first == pos + n - rest
      requires HasBits(true, mem, pos, n, rest, start)
      ensures res == Read(true, mem, pos, n)
    {
      var b, remain := first, rest;
      res := start;
      while remain >= 8
        invariant 0 <= remain <= n && 8 * b == pos + n - remain
        invariant HasBits(true, mem, pos, n, remain, res)
      {
        remain := remain - 8;
        var res2 := Or(res, Low(Shl(ByteAt(mem, b), remain), 64));
        MergeByte(mem, pos, n, b, remain, res, res2);
        res, b := res2, b + 1;
      }
      if remain != 0 {
        var res2 := Or(res, Low(Shr(ByteAt(mem, b), 8 - remain), remain));
        LastByte(mem, pos, n, b, remain, res, res2);
        res := res2;
      }
      HasAllBits(true, mem, pos, n, res);
    }

    /** `bs_be_get_bits` */
    method BeGetBits(n: nat) returns (r: int, res: nat)
      requires Valid()
      modifies `s
      ensures Valid()
      ensures r == if n <= 64 && n <= old(Len()) then n else -1
      ensures r >= 0 ==> res == BitsValue(true, old(Bits(true))[..n])
      ensures forall be :: Bits(be) == if r >= 0 then old(Bits(be))[n..] else old(Bits(be))
    {
      if n > 64 || n > Len() {
        return -1, 0;
      }
      ReadHead(true, mem, Pos(s), Pos(e), n);
      res := BePeekBits(n);
      r := Skip(n);
    }
  }

  lemma SameSoFar(u: seq<bool>, v: seq<bool>, i: nat)
    requires i < |u| == |v| && u[..i] == v[..i] && u[i] == v[i]
    ensures u[..i + 1] == v[..i + 1] && u[i + 1..] == u[i..][1..] && v[i + 1..] == v[i..][1..]
  {
    assert u[..i + 1] == u[..i] + [u[i]] && v[..i + 1] == v[..i] + [v[i]];
  }

  /** `bs_equals`, on copies of both streams. */
  method Equals(a: BitStream, b: BitStream) returns (same: bool)
    requires a.Valid() && b.Valid()
    ensures same <==> a.Bits(false) == b.Bits(false)
  {
    hide Stream, WordsOk;
    var bs1 := new BitStream.Between(a.mem, a.s, a.e);
    var bs2 := new BitStream.Between(b.mem, b.s, b.e);
    if a.Len() != b.Len() {
      return false;
    }
    ghost var i, u, v := 0, a.Bits(false), b.Bits(false);
    while !bs1.Done()
      invariant fresh(bs1) && fresh(bs2) && bs1 != bs2 && bs1.Valid() && bs2.Valid()
      invariant 0 <= i <= |u| == |v| && bs1.Bits(false) == u[i..] && bs2.Bits(false) == v[i..] && u[..i] == v[..i]
      decreases |u| - i
    {
      var x := bs1.GetBit(false);
      var y := bs2.GetBit(false);
      if x != y {
        assert u[i] != v[i];
        return false;
      }
      SameSoFar(u, v, i);
      i := i + 1;
    }
    assert u[..i] == u && v[..i] == v;
    return true;
  }

  /** `bs_init_bb`: a stream over what a bit buffer holds. */
  method InitBb(bb: BitBuffer.BitBuf) returns (bs: BitStream)
    requires WordsOk(bb.data) && bb.len <= 64 * |bb.data|
    ensures fresh(bs) && bs.Valid() && bs.mem == bb.data
    ensures Pos(bs.s) == 0 && Pos(bs.e) == bb.len
    ensures bs.Bits(false) == bb.Contents(false) && bs.Bits(true) == bb.Contents(true)
  {
    bs := new BitStream(bb.data, 0, 0, 0, bb.len);
  }

  lemma SameByteOffset(x: PtrOff, y: PtrOff, n: nat)
    requires Normal(x) && Normal(y) && Pos(y) == Pos(x) + 8 * n && x.offset % 8 == 0
    ensures y.offset % 8 == 0
  {
    var k := 8 * (x.p - y.p) + n + x.offset / 8;
    assert y.offset == k * 8;
    ModUnique(y.offset, 8, k, 0);
  }

  /** The bytes [from, from + n). */
  function BytesAt(m: Memory, from: nat, n: nat): (b: seq<nat>)
    ensures |b| == n && forall i | 0 <= i < n :: b[i] < 256
  {
    if n == 0 then [] else
      ByteSmall(m, from + n - 1);
      BytesAt(m, from, n - 1) + [ByteAt(m, from + n - 1)]
  }

  lemma ByteSmall(m: Memory, j: nat)
    ensures ByteAt(m, j) < 256
  {
    assert Pow2(8) == 256;
    if j / 8 < |m| { ShrLow(Shr(m[j / 8], 8 * (j % 8)), 8); }
  }

  /** Whole bytes of memory hold the stream bits at those places, in either order. */
  lemma {:induction false} BytesAreStream(be: bool, m: Memory, from: nat, n: nat, bytes: seq<nat>)
    requires bytes == BytesAt(m, from, n)
    ensures BytesBits(be, bytes) == Stream(be, m, 8 * from, 8 * from + 8 * n)
    decreases n
  {
    if n == 0 {
      assert BytesBits(be, bytes) == [];
    } else {
      var before := BytesAt(m, from, n - 1);
      BytesAreStream(be, m, from, n - 1, before);
      OneMoreByte(be, m, before, bytes, 8 * from, from + n - 1);
    }
  }

  lemma OneMoreByte(be: bool, m: Memory, before: seq<nat>, bytes: seq<nat>, start: nat, j: nat)
    requires start <= 8 * j && BytesBits(be, before) == Stream(be, m, start, 8 * j)
    requires bytes == before + [ByteAt(m, j)]
    ensures BytesBits(be, bytes) == Stream(be, m, start, 8 * j + 8)
  {
    AppendByte(be, before, ByteAt(m, j));
    ByteIsStream(be, m, j, 8 * j);
    Cut(be, m, start, 8 * j, 8 * j + 8);
  }

  lemma BytesThenRest(be: bool, m: Memory, from: nat, n: nat, end: nat)
    requires 8 * from + 8 * n <= end
    ensures BytesBits(be, BytesAt(m, from, n)) + Stream(be, m, 8 * from + 8 * n, end) == Stream(be, m, 8 * from, end)
  {
    BytesAreStream(be, m, from, n, BytesAt(m, from, n));
    Cut(be, m, 8 * from, 8 * from + 8 * n, end);
  }

  lemma ByteIsStream(be: bool, m: Memory, j: nat, pos: nat)
    requires pos == 8 * j
    ensures ValueBits(be, ByteAt(m, j), 8) == Stream(be, m, pos, pos + 8)
  {
    forall k: nat | k < 8 ensures ValueBits(be, ByteAt(m, j), 8)[k] == StreamBit(be, m, 8 * j + k) {
      BitOfByteAt(m, j, if be then 7 - k else k);
      assert (8 * j + k) / 8 == j && (8 * j + k) % 8 == k;
    }
  }

  lemma AlignedOffset(x: PtrOff, y: PtrOff)
    requires Normal(x) && Normal(y) && Pos(y) == Pos(x) + (8 - x.offset % 8)
    ensures y.offset % 8 == 0
  {
    assert x.offset == 8 * (x.offset / 8) + x.offset % 8;
    assert y.offset == 8 * (8 * (x.p - y.p) + x.offset / 8 + 1);
  }

  lemma NoBits(m: Memory, pos: nat, n: nat)
    ensures HasBits(true, m, pos, n, n, 0)
  {
    forall j: nat ensures !Bit(0, j) { BitZero(j); }
  }

  lemma Tail(be: bool, m: Memory, from: nat, to: nat, n: nat)
    requires from + n <= to
    ensures Stream(be, m, from + n, to) == Stream(be, m, from, to)[n..]
  {
  }

  lemma Head(be: bool, m: Memory, from: nat, to: nat, n: nat)
    requires from + n <= to
    ensures Stream(be, m, from, from + n) == Stream(be, m, from, to)[..n]
  {
  }

  lemma ReadHead(be: bool, m: Memory, from: nat, to: nat, n: nat)
    requires from + n <= to
    ensures Read(be, m, from, n) == BitsValue(be, Stream(be, m, from, to)[..n])
  {
    Head(be, m, from, to, n);
  }

  lemma CutLast(be: bool, m: Memory, from: nat, last: nat)
    requires from <= last
    ensures Stream(be, m, from, last + 1) == Stream(be, m, from, last) + [StreamBit(be, m, last)]
  {
  }

  lemma Cut(be: bool, m: Memory, from: nat, mid: nat, to: nat)
    requires from <= mid <= to
    ensures Stream(be, m, from, mid) + Stream(be, m, mid, to) == Stream(be, m, from, to)
  {
  }
}
