/**
 The bit buffer: a growing array of 64-bit words to which bits are appended in little-endian or
 big-endian bit order.  Writes go through `|=` and rely on every allocated bit past the end being 0.
 */
module BitBuffer {
  import opened Bits
  import opened BitMemory

  function DivUp(x: nat, y: nat): nat
    requires y > 0
  {
    (x + y - 1) / y
  }

  function RoundUp(x: nat, y: nat): nat
    requires y > 0
  {
    (x + y - 1) / y * y
  }

  lemma RoundUpBounds(x: nat, y: nat)
    requires y > 0
    ensures x <= RoundUp(x, y)
  {
    var q := (x + y - 1) / y;
    assert x + y - 1 == q * y + (x + y - 1) % y;
  }

  /** The words of a memory of `size` words once it has grown for `newLen` words. */
  function GrownSize(size: nat, newLen: nat, alignment: nat): nat
    requires alignment >= 8
  {
    var newSize := (size + 16) * 3 / 2;
    RoundUp(if newSize < newLen then newLen else newSize, alignment / 8)
  }

  // ---------------------------------------------------------------- single stores

  /** Bit `k` of a byte in the given bit order. */
  predicate ByteBit(be: bool, v: nat, k: nat)
    requires k < 8
  {
    Bit(v, if be then 7 - k else k)
  }

  /** What byte `at / 8` must be for only the stream bits [at, at + |bits|) inside it to change. */
  ghost predicate ByteFor(be: bool, m: Memory, at: nat, v: nat, bits: seq<bool>) {
    && at % 8 + |bits| <= 8
    && forall k: nat | k < 8 :: ByteBit(be, v, k) ==
         if at % 8 <= k < at % 8 + |bits| then bits[k - at % 8] else StreamBit(be, m, at / 8 * 8 + k)
  }

  lemma ByteSpliceBit(be: bool, m: Memory, at: nat, v: nat, bits: seq<bool>, p: nat)
    requires at / 64 < |m| && ByteFor(be, m, at, v, bits)
    ensures StreamBit(be, PutByte(m, at / 8, v), p) ==
            if at <= p < at + |bits| then bits[p - at] else StreamBit(be, m, p)
  {
    var j, k := at / 8, p % 8;
    BitOfPutByte(m, j, v, Place(be, p));
    PlaceInvolutive(be, p);
    if p / 8 == j {
      assert p == j * 8 + k && at == j * 8 + at % 8;
      assert ByteBit(be, v, k) == if at % 8 <= k < at % 8 + |bits| then bits[k - at % 8] else StreamBit(be, m, p);
    }
  }

  /** Writing such a byte splices the bits. */
  lemma ByteSpliced(be: bool, m: Memory, at: nat, v: nat, bits: seq<bool>)
    requires WordsOk(m) && at / 64 < |m| && ByteFor(be, m, at, v, bits)
    ensures WordsOk(PutByte(m, at / 8, v))
    ensures Spliced(be, m, PutByte(m, at / 8, v), at, bits)
  {
    WordWithByteOk(m[at / 8 / 8], at / 8 % 8, v);
    forall p: nat
      ensures StreamBit(be, PutByte(m, at / 8, v), p) ==
              if at <= p < at + |bits| then bits[p - at] else StreamBit(be, m, p)
    {
      ByteSpliceBit(be, m, at, v, bits, p);
    }
  }

  /** The word that `bb_add_bits` stores first: `w | (x << offset)`, and what spills over. */
  lemma WordsSpliced(m: Memory, len: nat, x: nat, n: nat, m2: Memory)
    requires WordsOk(m) && ZeroFrom(false, m, len)
    requires 0 < n <= 64 && x < Pow2(n) && len + n <= 64 * |m|
    requires var offset, word := len % 64, len / 64;
             var m1 := m[word := Or(m[word], Low(Shl(x, offset), 64))];
             m2 == if 64 - offset < n then m1[word + 1 := Shr(x, 64 - offset)] else m1
    ensures WordsOk(m2)
    ensures Spliced(false, m, m2, len, ValueBits(false, x, n))
  {
    var offset, word := len % 64, len / 64;
    WordIsPow2();
    FirstWordOk(m[word], x, offset);
    SpillOk(x, n, offset);
    forall p: nat
      ensures StreamBit(false, m2, p) ==
              if len <= p < len + n then ValueBits(false, x, n)[p - len] else StreamBit(false, m, p)
    {
      SpliceBit(m, len, x, n, m2, p);
    }
  }

  lemma FirstWordOk(w: nat, x: nat, offset: nat)
    requires w < WORD
    ensures Or(w, Low(Shl(x, offset), 64)) < WORD
  {
    WordIsPow2();
    var r := Or(w, Low(Shl(x, offset), 64));
    forall i: nat | i >= 64 ensures !Bit(r, i) {
      BitOr(w, Low(Shl(x, offset), 64), i);
      BitLow(Shl(x, offset), 64, i);
      BitAbove(w, 64, i);
    }
    BelowPow2(r, 64);
  }

  lemma SpillOk(x: nat, n: nat, offset: nat)
    requires x < Pow2(n) && n <= 64 && offset < 64
    ensures Shr(x, 64 - offset) < WORD
  {
    WordIsPow2();
    var r := Shr(x, 64 - offset);
    forall i: nat | i >= 64 ensures !Bit(r, i) {
      BitShr(x, 64 - offset, i);
      BitAbove(x, n, i + 64 - offset);
    }
    BelowPow2(r, 64);
  }

  lemma SpliceBit(m: Memory, len: nat, x: nat, n: nat, m2: Memory, p: nat)
    requires WordsOk(m) && ZeroFrom(false, m, len)
    requires 0 < n <= 64 && x < Pow2(n) && len + n <= 64 * |m|
    requires var offset, word := len % 64, len / 64;
             var m1 := m[word := Or(m[word], Low(Shl(x, offset), 64))];
             m2 == if 64 - offset < n then m1[word + 1 := Shr(x, 64 - offset)] else m1
    ensures StreamBit(false, m2, p) ==
            if len <= p < len + n then ValueBits(false, x, n)[p - len] else StreamBit(false, m, p)
  {
    var offset, word, i := len % 64, len / 64, p % 64;
    assert len == 64 * word + offset && p == 64 * (p / 64) + i;
    if p / 64 == word {
      BitOr(m[word], Low(Shl(x, offset), 64), i);
      BitLow(Shl(x, offset), 64, i);
      BitShl(x, offset, i);
      if p >= len {
        assert !StreamBit(false, m, p);
        assert i - offset == p - len;
        if p >= len + n { BitAbove(x, n, p - len); }
      }
    } else if p / 64 == word + 1 {
      assert p >= len && !StreamBit(false, m, p);
      if 64 - offset < n {
        BitShr(x, 64 - offset, i);
        assert i + (64 - offset) == p - len;
        if p >= len + n { BitAbove(x, n, p - len); }
      }
    }
  }

  /** `m2` is `m` with the bytes [from, to) zeroed. */
  ghost predicate Cleared(m: Memory, m2: Memory, from: nat, to: nat) {
    forall p: nat {:trigger MemBit(m2, p)} :: MemBit(m2, p) == (!(from <= p / 8 < to) && MemBit(m, p))
  }

  /** The unused bits of the last byte that `len` bits reach into. */
  ghost predicate TailClear(be: bool, m: Memory, len: nat) {
    forall p: nat {:trigger StreamBit(be, m, p)} | len <= p < 8 * DivUp(len, 8) :: !StreamBit(be, m, p)
  }

  lemma ClearedBit(be: bool, m: Memory, m2: Memory, from: nat, to: nat, p: nat)
    requires Cleared(m, m2, from, to)
    ensures StreamBit(be, m2, p) == (!(from <= p / 8 < to) && StreamBit(be, m, p))
  {
    PlaceInvolutive(be, p);
    assert MemBit(m2, Place(be, p)) == (!(from <= Place(be, p) / 8 < to) && MemBit(m, Place(be, p)));
  }

  lemma ClearedTail(be: bool, m: Memory, m2: Memory, len: nat)
    requires Cleared(m, m2, DivUp(len, 8), 8 * |m|)
    ensures Stream(be, m2, 0, len) == Stream(be, m, 0, len)
    ensures ZeroFrom(be, m2, len) <==> TailClear(be, m, len)
  {
    var used := DivUp(len, 8);
    forall p: nat
      ensures p < 8 * used ==> StreamBit(be, m2, p) == StreamBit(be, m, p)
      ensures p >= 8 * used ==> !StreamBit(be, m2, p)
    {
      ClearedBit(be, m, m2, used, 8 * |m|, p);
      PlaceInvolutive(be, p);
    }
    if ZeroFrom(be, m2, len) {
      forall p: nat | len <= p < 8 * used ensures !StreamBit(be, m, p) { assert !StreamBit(be, m2, p); }
    }
  }

  lemma AllClear(be: bool, m: Memory, m2: Memory, len: nat)
    requires ZeroFrom(be, m, len) && Cleared(m, m2, 0, DivUp(len, 8))
    ensures ZeroFrom(false, m2, 0) && ZeroFrom(true, m2, 0)
  {
    forall p: nat ensures !MemBit(m2, p) {
      var q := Place(be, p);
      PlaceInvolutive(be, p);
      ClearedBit(be, m, m2, 0, DivUp(len, 8), q);
      assert StreamBit(be, m2, q) == MemBit(m2, p);
      if q >= len { assert !StreamBit(be, m, q); }
    }
  }

  class BitBuf {
    var data: Memory
    /** Number of bits used. */
    var len: nat
    /** Memory alignment, in bytes. */
    const alignment: nat

    /** The buffer is sound for writers of the given bit order. */
    ghost predicate Valid(be: bool)
      reads this
    {
      && alignment >= 8 && alignment % 8 == 0
      && WordsOk(data)
      && len <= 64 * |data|
      && ZeroFrom(be, data, len)
    }

    /** The bits written so far. */
    ghost function Contents(be: bool): (s: seq<bool>)
      reads this
    {
      Stream(be, data, 0, len)
    }

    /** `bb_init` */
    constructor ()
      ensures Valid(false) && Valid(true)
      ensures len == 0 && data == [] && alignment == 8
    {
      data, len, alignment := [], 0, 8;
    }

    /**
     `bb_init_full` on a buffer that already holds `blen` bits.  Only whole bytes after them are
     cleared, so the invariant holds exactly when the caller left the rest of the last byte zero.
     */
    constructor Full(buf: Memory, blen: nat, alignment: nat)
      requires WordsOk(buf) && blen <= 64 * |buf|
      requires alignment >= 8 && alignment % 8 == 0
      ensures len == blen && |data| == |buf|
      ensures forall be :: Contents(be) == Stream(be, buf, 0, blen)
      ensures forall be :: Valid(be) <==> TailClear(be, buf, blen)
    {
      data, len, this.alignment := buf, blen, alignment;
      new;
      ClearBytes(DivUp(blen, 8), 8 * |buf|);
      forall be
        ensures Contents(be) == Stream(be, buf, 0, blen)
        ensures ZeroFrom(be, data, blen) <==> TailClear(be, buf, blen)
      {
        ClearedTail(be, buf, data, blen);
      }
    }

    /** `bzero` of the bytes [from, to). */
    method ClearBytes(from: nat, to: nat)
      requires WordsOk(data) && from <= to <= 8 * |data|
      modifies `data
      ensures WordsOk(data) && |data| == |old(data)|
      ensures Cleared(old(data), data, from, to)
    {
      for j := from to to
        invariant WordsOk(data) && |data| == |old(data)|
        invariant Cleared(old(data), data, from, j)
      {
        WordWithByteOk(data[j / 8], j % 8, 0);
        forall p: nat ensures MemBit(PutByte(data, j, 0), p) == (p / 8 != j && MemBit(data, p)) {
          BitOfPutByte(data, j, 0, p);
          BitZero(p % 8);
        }
        data := PutByte(data, j, 0);
      }
    }

    /** `bb_reset`; only the bytes in use are cleared, the others are zero already. */
    method Reset(byFrame: bool, ghost be: bool)
      requires Valid(be)
      modifies `data, `len
      ensures Valid(false) && Valid(true) && len == 0
    {
      if !byFrame && |data| > 0x4000 {
        data, len := [], 0;
      } else {
        ClearBytes(0, DivUp(len, 8));
        AllClear(be, old(data), data, len);
        len := 0;
      }
    }

    /** `__bb_grow`: at least enough words for `extra` more bits, the new ones zero. */
    method GrowWords(extra: nat)
      requires alignment >= 8 && alignment % 8 == 0
      modifies `data
      ensures |data| == GrownSize(|old(data)|, DivUp(len + extra, 64), alignment) >= DivUp(len + extra, 64)
      ensures old(data) <= data
      ensures forall i | |old(data)| <= i < |data| :: data[i] == 0
    {
      var newlen := DivUp(len + extra, 64);
      var newsz := (|data| + 16) * 3 / 2;
      if newsz < newlen {
        newsz := newlen;
      }
      RoundUpBounds(newsz, alignment / 8);
      newsz := RoundUp(newsz, alignment / 8);
      data := data + seq(newsz - |data|, _ => 0);
    }

    /** `bb_grow`: room for `extra` more bits, without changing any bit. */
    method Grow(extra: nat, ghost be: bool)
      requires Valid(be)
      modifies `data
      ensures Valid(be) && len + extra <= 64 * |data|
      ensures DivUp(len + extra, 64) >= |old(data)| ==> |data| == GrownSize(|old(data)|, DivUp(len + extra, 64), alignment)
      ensures Contents(be) == old(Contents(be))
    {
      if DivUp(len + extra, 64) >= |data| {
        GrowWords(extra);
        forall p: nat ensures StreamBit(be, data, p) == StreamBit(be, old(data), p) {
          var q := Place(be, p);
          if |old(data)| <= q / 64 < |data| { BitZero(q % 64); }
        }
      }
    }

    /** Take over a memory into which `bits` have been spliced at the end of the buffer. */
    ghost predicate Took(be: bool, before: Memory, oldLen: nat, bits: seq<bool>)
      reads this
    {
      && WordsOk(data)
      && len == oldLen + |bits| <= 64 * |data|
      && Spliced(be, before, data, oldLen, bits)
    }

    lemma TookAppends(be: bool, before: Memory, oldLen: nat, bits: seq<bool>)
      requires alignment >= 8 && alignment % 8 == 0
      requires ZeroFrom(be, before, oldLen) && Took(be, before, oldLen, bits)
      ensures Valid(be) && Contents(be) == Stream(be, before, 0, oldLen) + bits
    {
      SplicedAppends(be, before, data, oldLen, bits);
    }

    /** `bb_growlen`, which is `bb_add0s`: nothing is written. */
    method Add0s(n: nat, ghost be: bool)
      requires Valid(be)
      modifies `data, `len
      ensures Valid(be) && Contents(be) == old(Contents(be)) + Same(false, n)
      ensures DivUp(len, 64) >= |old(data)| ==> |data| == GrownSize(|old(data)|, DivUp(len, 64), alignment)
    {
      Grow(n, be);
      ZerosSpliced(be, data, len, n);
      len := len + n;
      TookAppends(be, data, old(len), Same(false, n));
    }

    /** `bb_align`: up to the next byte boundary, after which both bit orders are usable. */
    method Align(ghost be: bool)
      requires Valid(be)
      modifies `len
      ensures Valid(false) && Valid(true) && len % 8 == 0
      ensures old(len) <= len < old(len) + 8
      ensures Contents(be) == old(Contents(be)) + Same(false, len - old(len))
    {
      len := RoundUp(len, 8);
      ZerosSpliced(be, data, old(len), len - old(len));
      TookAppends(be, data, old(len), Same(false, len - old(len)));
      AlignedTail(data, len);
    }

    /** `bb_add_bit` */
    method AddBit(v: bool)
      requires Valid(false)
      modifies `data, `len
      ensures Valid(false) && Contents(false) == old(Contents(false)) + [v]
    {
      if len % 64 == 0 {
        Grow(1, false);
      }
      ghost var before := data;
      if v {
        assert 1 < Pow2(1);
        data := data[len / 64 := Or(data[len / 64], Low(Shl(1, len % 64), 64))];
        WordsSpliced(before, len, 1, 1, data);
        assert ValueBits(false, 1, 1) == [true];
      } else {
        ZerosSpliced(false, before, len, 1);
        assert Same(false, 1) == [false];
      }
      len := len + 1;
      TookAppends(false, before, old(len), [v]);
    }

    /** `bb_add_bits` */
    method AddBits(bits: nat, blen: nat)
      requires Valid(false) && blen <= 64 && bits < WORD
      modifies `data, `len
      ensures Valid(false) && Contents(false) == old(Contents(false)) + ValueBits(false, bits, blen)
    {
      var offset, word := len % 64, len / 64;
      if blen == 0 {
        return;
      }
      Grow(blen, false);
      ghost var before := data;
      len := len + blen;
      var x := if blen != 64 then Low(bits, blen) else bits;
      Masked(false, bits, blen);
      data := data[word := Or(data[word], Low(Shl(x, offset), 64))];
      if 64 - offset < blen {
        data := data[word + 1 := Shr(x, 64 - offset)];
      }
      WordsSpliced(before, old(len), x, blen, data);
      TookAppends(false, before, old(len), ValueBits(false, bits, blen));
    }

    /** `bb_add_bits` of an unaligned load of 1, 2, 4 or 8 bytes. */
    method AddLoad(b: seq<nat>)
      requires Valid(false) && |b| <= 8
      modifies `data, `len
      ensures Valid(false) && Contents(false) == old(Contents(false)) + BytesBits(false, b)
    {
      LoadBits(b);
      AddBits(Load(b), 8 * |b|);
    }

    /** Two or three loads in a row. */
    method AddLoads(b: seq<nat>, i: nat, j: nat)
      requires Valid(false) && i <= j <= |b| < 8
      modifies `data, `len
      ensures Valid(false) && Contents(false) == old(Contents(false)) + BytesBits(false, b)
    {
      ghost var before := Contents(false);
      AddLoad(b[..i]);
      AddLoad(b[i..j]);
      SplitBytes(false, b[..j], i);
      assert b[..j][..i] == b[..i] && b[..j][i..] == b[i..j];
      Assoc(before, BytesBits(false, b[..i]), BytesBits(false, b[i..j]));
      AddRest(b, j, before);
    }

    method AddRest(b: seq<nat>, j: nat, ghost before: seq<bool>)
      requires Valid(false) && j <= |b| < 8
      requires Contents(false) == before + BytesBits(false, b[..j])
      modifies `data, `len
      ensures Valid(false) && Contents(false) == before + BytesBits(false, b)
    {
      if j < |b| {
        AddLoad(b[j..]);
        SplitBytes(false, b, j);
        Assoc(before, BytesBits(false, b[..j]), BytesBits(false, b[j..]));
      } else {
        assert b[..j] == b;
      }
    }

    /** `__bb_add_unaligned_bytes` */
    method AddUnalignedBytes(b: seq<nat>)
      requires Valid(false) && |b| < 8
      modifies `data, `len
      ensures Valid(false) && Contents(false) == old(Contents(false)) + BytesBits(false, b)
    {
      match |b| {
        case 7 => AddLoads(b, 4, 6);
        case 6 => AddLoads(b, 4, 6);
        case 5 => AddLoads(b, 4, 5);
        case 4 => AddLoad(b);
        case 3 => AddLoads(b, 2, 3);
        case 2 => AddLoad(b);
        case 1 => AddLoad(b);
        case _ =>
      }
    }

    /** `memcpy(bb->bytes + bb->b, b, len)`, at the end of a byte aligned buffer with enough room. */
    method CopyBytes(b: seq<nat>, ghost be: bool)
      requires Valid(be) && len % 8 == 0 && len + 8 * |b| <= 64 * |data|
      modifies `data
      ensures WordsOk(data) && |data| == |old(data)|
      ensures Spliced(be, old(data), data, len, BytesBits(be, b))
    {
      for i := 0 to |b|
        invariant WordsOk(data) && |data| == |old(data)|
        invariant Spliced(be, old(data), data, len, BytesBits(be, b[..i]))
      {
        CopiedByte(be, old(data), data, len, b, i);
        data := PutByte(data, len / 8 + i, b[i]);
      }
      assert b[..|b|] == b;
    }

    /** `bb_add_bytes`; `unaligned` is the distance from the source to the next 8-byte boundary. */
    method AddBytes(b: seq<nat>, unaligned: nat)
      requires Valid(false) && unaligned < 8
      modifies `data, `len
      ensures Valid(false) && Contents(false) == old(Contents(false)) + BytesBits(false, b)
    {
      if len % 8 == 0 {
        Grow(8 * |b|, false);
        ghost var before := data;
        CopyBytes(b, false);
        len := len + 8 * |b|;
        TookAppends(false, before, old(len), BytesBits(false, b));
      } else if unaligned != 0 && |b| < 8 {
        AddUnalignedBytes(b);
      } else {
        ghost var before := Contents(false);
        AddUnalignedBytes(b[..unaligned]);
        AddAlignedBytes(b[unaligned..]);
        SplitBytes(false, b, unaligned);
        Assoc(before, BytesBits(false, b[..unaligned]), BytesBits(false, b[unaligned..]));
      }
    }

    /** The word loop of `bb_add_bytes` and the tail after it. */
    method AddAlignedBytes(b: seq<nat>)
      requires Valid(false)
      modifies `data, `len
      ensures Valid(false) && Contents(false) == old(Contents(false)) + BytesBits(false, b)
    {
      ghost var before := Contents(false);
      var words := |b| / 8;
      for i := 0 to words
        invariant Valid(false)
        invariant Contents(false) == before + BytesBits(false, b[..8 * i])
      {
        AddLoad(b[8 * i..8 * i + 8]);
        NextWord(before, b, i);
      }
      AddUnalignedBytes(b[8 * words..]);
      SplitBytes(false, b, 8 * words);
      Assoc(before, BytesBits(false, b[..8 * words]), BytesBits(false, b[8 * words..]));
    }

    /** `bb_add1s` */
    method Add1s(n: nat)
      requires Valid(false)
      modifies `data, `len
      ensures Valid(false) && Contents(false) == old(Contents(false)) + Same(true, n)
    {
      var boffset, b := len % 8, len / 8;
      Grow(n, false);
      ghost var before := data;
      len := len + n;
      var rest := n;
      if boffset != 0 {
        var v := Or(ByteAt(data, b), Low(Shl(0xff, boffset), 8));
        if n <= 8 - boffset {
          OnesInByte(data, old(len), n);
          data := PutByte(data, b, Low(v, boffset + n));
          TookAppends(false, before, old(len), Same(true, n));
          return;
        }
        OnesInByte(data, old(len), 8 - boffset);
        data := PutByte(data, b, v);
        rest := n - (8 - boffset);
        b := b + 1;
      }
      FillOnes(before, old(len), b, rest);
      TookAppends(false, before, old(len), Same(true, n));
    }

    /** The byte aligned part of `bb_add1s`: `memset` and the last partial byte. */
    method FillOnes(ghost before: Memory, ghost from: nat, b: nat, rest: nat)
      requires WordsOk(data) && ZeroFrom(false, before, from) && from <= 8 * b
      requires Spliced(false, before, data, from, Same(true, 8 * b - from))
      requires 8 * b + rest <= 64 * |data|
      modifies `data
      ensures WordsOk(data) && |data| == |old(data)|
      ensures Spliced(false, before, data, from, Same(true, 8 * b + rest - from))
    {
      var i := b;
      while i < b + rest / 8
        invariant b <= i <= b + rest / 8
        invariant WordsOk(data) && |data| == |old(data)|
        invariant Spliced(false, before, data, from, Same(true, 8 * i - from))
      {
        MoreOnes(before, data, from, i, 8);
        data := PutByte(data, i, 0xff);
        i := i + 1;
      }
      if rest % 8 != 0 {
        MoreOnes(before, data, from, i, rest % 8);
        data := PutByte(data, i, Low(0xff, rest % 8));
      }
    }

    /** `bb_be_add_bit` */
    method BeAddBit(v: bool)
      requires Valid(true)
      modifies `data, `len
      ensures Valid(true) && Contents(true) == old(Contents(true)) + [v]
    {
      if len % 64 == 0 {
        Grow(1, true);
      }
      ghost var before := data;
      if v {
        TopBitSpliced(data, len);
        data := PutByte(data, len / 8, Or(ByteAt(data, len / 8), Shr(0x80, len % 8)));
      } else {
        ZerosSpliced(true, before, len, 1);
        assert Same(false, 1) == [false];
      }
      len := len + 1;
      TookAppends(true, before, old(len), [v]);
    }

    /** `bb_be_add_bits` */
    method BeAddBits(bits: nat, blen: nat)
      requires Valid(true) && blen <= 64 && bits < WORD
      modifies `data, `len
      ensures Valid(true) && Contents(true) == old(Contents(true)) + ValueBits(true, bits, blen)
    {
      var from := len;
      if blen == 0 {
        return;
      }
      Grow(blen, true);
      ghost var before := data;
      len := len + blen;
      var x := if blen != 64 then Low(bits, blen) else bits;
      Masked(true, bits, blen);
      BeStore(from, x, blen);
      TookAppends(true, before, from, ValueBits(true, bits, blen));
    }

    /** The stores of `bb_be_add_bits`. */
    method BeStore(from: nat, x: nat, blen: nat)
      requires WordsOk(data) && ZeroFrom(true, data, from)
      requires 0 < blen && x < Pow2(blen) && from + blen <= 64 * |data|
      modifies `data
      ensures WordsOk(data) && |data| == |old(data)|
      ensures Spliced(true, old(data), data, from, ValueBits(true, x, blen))
    {
      var offset, b, remain := from % 8, from / 8, blen;
      if offset + blen <= 8 {
        var v := Or(ByteAt(data, b), Low(Shl(x, 8 - (offset + blen)), 8));
        ChunkAlone(data, from, x, blen);
        data := PutByte(data, b, v);
        return;
      }
      if offset != 0 {
        remain := remain - (8 - offset);
        var v := Or(ByteAt(data, b), Low(Shr(x, remain), 8));
        ChunkSpliced(data, from, x, blen, 0, 8 - offset, v);
        data := PutByte(data, b, v);
        b := b + 1;
      } else {
        SplicedNothing(true, data, from);
      }
      BeStoreBytes(old(data), from, b, x, blen, remain);
    }

    /** The byte aligned part of `bb_be_add_bits`: whole bytes, then the high bits of a last one. */
    method BeStoreBytes(ghost before: Memory, ghost from: nat, first: nat, x: nat, blen: nat, rest: nat)
      requires WordsOk(data) && ZeroFrom(true, before, from)
      requires rest <= blen && x < Pow2(blen) && from + blen <= 64 * |data|
      requires 8 * first == from + blen - rest
      requires Spliced(true, before, data, from, ValueBits(true, x, blen)[..blen - rest])
      modifies `data
      ensures WordsOk(data) && |data| == |old(data)|
      ensures Spliced(true, before, data, from, ValueBits(true, x, blen))
    {
      var b, remain := first, rest;
      ghost var done := blen - rest;
      while remain >= 8
        invariant WordsOk(data) && |data| == |old(data)|
        invariant 0 <= remain && done + remain == blen && 8 * b == from + done
        invariant Spliced(true, before, data, from, ValueBits(true, x, blen)[..done])
      {
        remain := remain - 8;
        ChunkNext(before, data, from, x, blen, done, 8, b, Low(Shr(x, remain), 8));
        data := PutByte(data, b, Low(Shr(x, remain), 8));
        b, done := b + 1, done + 8;
      }
      if remain != 0 {
        ChunkNext(before, data, from, x, blen, done, remain, b, Low(Shl(x, 8 - remain), 8));
        data := PutByte(data, b, Low(Shl(x, 8 - remain), 8));
        done := blen;
      }
      assert ValueBits(true, x, blen)[..blen] == ValueBits(true, x, blen);
    }

    /** `bb_be_add_bytes` */
    method BeAddBytes(b: seq<nat>)
      requires Valid(true) && forall i | 0 <= i < |b| :: b[i] < 256
      modifies `data, `len
      ensures Valid(true) && Contents(true) == old(Contents(true)) + BytesBits(true, b)
    {
      if len % 8 == 0 {
        Grow(8 * |b|, true);
        ghost var before := data;
        CopyBytes(b, true);
        len := len + 8 * |b|;
        TookAppends(true, before, old(len), BytesBits(true, b));
      } else {
        for i := 0 to |b|
          invariant Valid(true) && Contents(true) == old(Contents(true)) + BytesBits(true, b[..i])
        {
          BeAddBits(b[i], 8);
          PrefixBytes(true, b, i);
          Assoc(old(Contents(true)), BytesBits(true, b[..i]), ValueBits(true, b[i], 8));
        }
        assert b[..|b|] == b;
      }
    }
  }

  /** `bytes[b] |= 0x80 >> boffset` sets one bit. */
  lemma TopBitSpliced(m: Memory, at: nat)
    requires WordsOk(m) && at / 64 < |m| && ZeroFrom(true, m, at)
    ensures var v := Or(ByteAt(m, at / 8), Shr(0x80, at % 8));
            WordsOk(PutByte(m, at / 8, v)) && Spliced(true, m, PutByte(m, at / 8, v), at, [true])
  {
    var y, o := Shr(0x80, at % 8), at % 8;
    var v := Or(ByteAt(m, at / 8), y);
    forall k: nat | k < 8
      ensures ByteBit(true, v, k) == if o <= k < o + 1 then [true][k - o] else StreamBit(true, m, at / 8 * 8 + k)
    {
      StoredByteBit(m, at, y, v, k);
      BitShr(0x80, o, 7 - k);
      TopBit(7 - k + o);
    }
    ByteSpliced(true, m, at, v, [true]);
  }

  lemma TopBit(i: nat)
    ensures Bit(0x80, i) == (i == 7)
  {
    assert Shl(1, 7) == 0x80;
    BitShl(1, 7, i);
    if i > 7 { BitZero(i - 8); assert Bit(1, i - 7) == Bit(0, i - 8); }
  }

  /** All the bits in one byte. */
  lemma ChunkAlone(m: Memory, at: nat, x: nat, n: nat)
    requires WordsOk(m) && at / 64 < |m| && ZeroFrom(true, m, at)
    requires 0 < n && at % 8 + n <= 8 && x < Pow2(n)
    ensures var v := Or(ByteAt(m, at / 8), Low(Shl(x, 8 - (at % 8 + n)), 8));
            && WordsOk(PutByte(m, at / 8, v))
            && Spliced(true, m, PutByte(m, at / 8, v), at, ValueBits(true, x, n))
  {
    var v := Or(ByteAt(m, at / 8), Low(Shl(x, 8 - (at % 8 + n)), 8));
    assert at % 8 + n == 8 ==> Shl(x, 0) == x == Shr(x, 0);
    ChunkSpliced(m, at, x, n, 0, n, v);
    assert ValueBits(true, x, n)[0..n] == ValueBits(true, x, n);
  }

  /** One more chunk after the first `done` bits. */
  lemma ChunkNext(m: Memory, m1: Memory, from: nat, x: nat, n: nat, done: nat, c: nat, b: nat, v: nat)
    requires WordsOk(m1) && ZeroFrom(true, m, from) && x < Pow2(n)
    requires 0 < c <= 8 && done + c <= n && 8 * b == from + done && b / 8 < |m1|
    requires c == 8 || done + c == n
    requires v == ChunkByte(x, n, done, c, 0)
    requires Spliced(true, m, m1, from, ValueBits(true, x, n)[..done])
    ensures WordsOk(PutByte(m1, b, v))
    ensures Spliced(true, m, PutByte(m1, b, v), from, ValueBits(true, x, n)[..done + c])
  {
    var bits := ValueBits(true, x, n);
    SplicedZero(true, m, m1, from, bits[..done]);
    assert (from + done) / 8 == b && (from + done) % 8 == 0 && (from + done) / 64 == b / 8;
    ChunkSpliced(m1, from + done, x, n, done, c, v);
    SplicedTwice(true, m, m1, PutByte(m1, b, v), from, bits[..done], bits[done..done + c]);
    Prefixes(bits, done, c);
  }

  lemma Prefixes(s: seq<bool>, i: nat, c: nat)
    requires i + c <= |s|
    ensures s[..i + c] == s[..i] + s[i..i + c]
  {
  }

  /** `n` more ones, in byte `i`. */
  lemma MoreOnes(m: Memory, m1: Memory, from: nat, i: nat, n: nat)
    requires WordsOk(m1) && ZeroFrom(false, m, from) && from <= 8 * i && i / 8 < |m1| && 0 < n <= 8
    requires Spliced(false, m, m1, from, Same(true, 8 * i - from))
    ensures WordsOk(PutByte(m1, i, Low(0xff, n)))
    ensures Spliced(false, m, PutByte(m1, i, Low(0xff, n)), from, Same(true, 8 * i + n - from))
    ensures n == 8 ==> Low(0xff, n) == 0xff
  {
    var a := Same(true, 8 * i - from);
    SplicedZero(false, m, m1, from, a);
    OnesSpliced(m1, 8 * i, n);
    SplicedTwice(false, m, m1, PutByte(m1, i, Low(0xff, n)), from, a, Same(true, n));
    JoinOnes(8 * i - from, n);
    LowByte();
  }

  lemma LowByte()
    ensures Low(0xff, 8) == 0xff
  {
    forall i: nat ensures Bit(Low(0xff, 8), i) == Bit(0xff, i) { BitLow(0xff, 8, i); Ones(i); }
    SameBits(Low(0xff, 8), 0xff);
  }

  lemma JoinOnes(a: nat, b: nat)
    ensures Same(true, a + b) == Same(true, a) + Same(true, b)
  {
  }

  /** `bytes[b] |= BITMASK_GE(boffset)`, and `&= BITMASK_LT(boffset + n)` if the run ends in this byte. */
  lemma OnesInByte(m: Memory, at: nat, n: nat)
    requires WordsOk(m) && at / 64 < |m| && n <= 8 - at % 8
    requires ZeroFrom(false, m, at)
    ensures var v := Low(Or(ByteAt(m, at / 8), Low(Shl(0xff, at % 8), 8)), at % 8 + n);
            WordsOk(PutByte(m, at / 8, v)) && Spliced(false, m, PutByte(m, at / 8, v), at, Same(true, n))
    ensures var v := Or(ByteAt(m, at / 8), Low(Shl(0xff, at % 8), 8));
            n == 8 - at % 8 ==>
              WordsOk(PutByte(m, at / 8, v)) && Spliced(false, m, PutByte(m, at / 8, v), at, Same(true, n))
  {
    var o := at % 8;
    var u := Or(ByteAt(m, at / 8), Low(Shl(0xff, o), 8));
    forall k: nat | k < 8 ensures Bit(u, k) == (k >= o || StreamBit(false, m, at / 8 * 8 + k)) {
      BitOr(ByteAt(m, at / 8), Low(Shl(0xff, o), 8), k);
      BitOfByteAt(m, at / 8, k);
      BitLow(Shl(0xff, o), 8, k);
      BitShl(0xff, o, k);
      if k >= o { Ones(k - o); }
    }
    var v := Low(u, o + n);
    forall k: nat | k < 8 ensures Bit(v, k) == (k < o + n && Bit(u, k)) { BitLow(u, o + n, k); }
    ByteSpliced(false, m, at, v, Same(true, n));
    if n == 8 - o { ByteSpliced(false, m, at, u, Same(true, n)); }
  }

  /** The byte `bb_be_add_bits` computes for the `c` bits of `x` after the first `done` of `n`. */
  function ChunkByte(x: nat, n: nat, done: nat, c: nat, o: nat): nat
    requires done + c <= n && o + c <= 8
  {
    if o + c == 8 then Low(Shr(x, n - done - c), 8) else Low(Shl(x, 8 - (o + c)), 8)
  }

  lemma ChunkByteBit(x: nat, n: nat, done: nat, c: nat, o: nat, k: nat)
    requires done + c <= n && o + c <= 8 && 0 < c && k < 8
    requires x < Pow2(n) && (o + c == 8 || done + c == n) && (o != 0 ==> done == 0)
    ensures ByteBit(true, ChunkByte(x, n, done, c, o), k) == (o <= k < o + c && ValueBits(true, x, n)[done + k - o])
  {
    if o + c == 8 { ShrChunkBit(x, n, done, c, o, k); } else { ShlChunkBit(x, n, done, c, o, k); }
  }

  lemma ShrChunkBit(x: nat, n: nat, done: nat, c: nat, o: nat, k: nat)
    requires done + c <= n && o + c == 8 && 0 < c && k < 8
    requires x < Pow2(n) && (o != 0 ==> done == 0)
    ensures Bit(Low(Shr(x, n - done - c), 8), 7 - k) == (o <= k && ValueBits(true, x, n)[done + k - o])
  {
    var j, s := 7 - k, n - done - c;
    BitLow(Shr(x, s), 8, j);
    BitShr(x, s, j);
    assert j + s == n - 1 - (done + k - o);
    if k < o { BitAbove(x, n, j + s); }
  }

  lemma ShlChunkBit(x: nat, n: nat, done: nat, c: nat, o: nat, k: nat)
    requires done + c == n && o + c < 8 && 0 < c && k < 8
    requires x < Pow2(n) && (o != 0 ==> done == 0)
    ensures Bit(Low(Shl(x, 8 - (o + c)), 8), 7 - k) == (o <= k < o + c && ValueBits(true, x, n)[done + k - o])
  {
    var j, s := 7 - k, 8 - (o + c);
    BitLow(Shl(x, s), 8, j);
    BitShl(x, s, j);
    if j >= s {
      assert j - s == n - 1 - (done + k - o);
      if k < o { BitAbove(x, n, j - s); }
    }
  }

  /** Storing that byte, with `|=` or, in a fresh byte, with `=`, splices those bits. */
  lemma ChunkSpliced(m: Memory, at: nat, x: nat, n: nat, done: nat, c: nat, v: nat)
    requires WordsOk(m) && at / 64 < |m| && ZeroFrom(true, m, at)
    requires done + c <= n && at % 8 + c <= 8 && 0 < c
    requires x < Pow2(n) && (at % 8 + c == 8 || done + c == n) && (at % 8 != 0 ==> done == 0)
    requires var y := ChunkByte(x, n, done, c, at % 8);
             v == Or(ByteAt(m, at / 8), y) || (at % 8 == 0 && v == y)
    ensures WordsOk(PutByte(m, at / 8, v))
    ensures Spliced(true, m, PutByte(m, at / 8, v), at, ValueBits(true, x, n)[done..done + c])
  {
    var y, o := ChunkByte(x, n, done, c, at % 8), at % 8;
    forall k: nat | k < 8
      ensures ByteBit(true, v, k) ==
              if o <= k < o + c then ValueBits(true, x, n)[done..done + c][k - o] else StreamBit(true, m, at / 8 * 8 + k)
    {
      ChunkByteBit(x, n, done, c, o, k);
      StoredByteBit(m, at, y, v, k);
    }
    ByteSpliced(true, m, at, v, ValueBits(true, x, n)[done..done + c]);
  }

  /** A byte stored with `|=`, or with `=` where nothing was before it, keeps what was there. */
  lemma StoredByteBit(m: Memory, at: nat, y: nat, v: nat, k: nat)
    requires ZeroFrom(true, m, at) && k < 8
    requires v == Or(ByteAt(m, at / 8), y) || (at % 8 == 0 && v == y)
    ensures ByteBit(true, v, k) == (ByteBit(true, y, k) || StreamBit(true, m, at / 8 * 8 + k))
    ensures k >= at % 8 ==> !StreamBit(true, m, at / 8 * 8 + k)
  {
    var p := at / 8 * 8 + k;
    BitOr(ByteAt(m, at / 8), y, 7 - k);
    BitOfByteAt(m, at / 8, 7 - k);
    assert p / 8 == at / 8 && p % 8 == k;
    if k >= at % 8 { assert p >= at && !StreamBit(true, m, p); }
  }

  /** `get_unaligned_cpu*` on a little-endian machine. */
  function Load(b: seq<nat>): nat {
    FromBits(BytesBits(false, b))
  }

  lemma LoadBits(b: seq<nat>)
    requires |b| <= 8
    ensures Load(b) < WORD
    ensures ValueBits(false, Load(b), 8 * |b|) == BytesBits(false, b)
  {
    var s := BytesBits(false, b);
    forall i: nat ensures Bit(Load(b), i) == (i < 8 * |b| && s[i]) { BitFromBits(s, i); }
    WordIsPow2();
    BelowPow2(Load(b), 64);
  }

  lemma Assoc(a: seq<bool>, b: seq<bool>, c: seq<bool>)
    ensures (a + b) + c == a + (b + c)
  {
  }

  lemma SplitBytes(be: bool, b: seq<nat>, i: nat)
    requires i <= |b|
    ensures BytesBits(be, b) == BytesBits(be, b[..i]) + BytesBits(be, b[i..])
  {
    JoinBytes(be, b[..i], b[i..]);
    assert b == b[..i] + b[i..];
  }

  /** One more turn of the word loop. */
  lemma NextWord(before: seq<bool>, b: seq<nat>, i: nat)
    requires 8 * i + 8 <= |b|
    ensures (before + BytesBits(false, b[..8 * i])) + BytesBits(false, b[8 * i..8 * i + 8]) ==
            before + BytesBits(false, b[..8 * (i + 1)])
  {
    var c := b[..8 * (i + 1)];
    SplitBytes(false, c, 8 * i);
    assert c[..8 * i] == b[..8 * i] && c[8 * i..] == b[8 * i..8 * i + 8];
    Assoc(before, BytesBits(false, b[..8 * i]), BytesBits(false, b[8 * i..8 * i + 8]));
  }

  lemma PrefixBytes(be: bool, b: seq<nat>, i: nat)
    requires i < |b|
    ensures BytesBits(be, b[..i + 1]) == BytesBits(be, b[..i]) + ValueBits(be, b[i], 8)
  {
    assert b[..i + 1][..i] == b[..i];
  }

  /** One more byte of a copy. */
  lemma CopiedByte(be: bool, m: Memory, m1: Memory, at: nat, b: seq<nat>, i: nat)
    requires i < |b| && at % 8 == 0 && WordsOk(m1) && at + 8 * |b| <= 64 * |m1|
    requires Spliced(be, m, m1, at, BytesBits(be, b[..i]))
    ensures (at / 8 + i) / 8 < |m1| && WordsOk(PutByte(m1, at / 8 + i, b[i]))
    ensures Spliced(be, m, PutByte(m1, at / 8 + i, b[i]), at, BytesBits(be, b[..i + 1]))
  {
    WholeByteSpliced(be, m1, at + 8 * i, b[i]);
    assert (at + 8 * i) / 8 == at / 8 + i;
    SplicedTwice(be, m, m1, PutByte(m1, at / 8 + i, b[i]), at, BytesBits(be, b[..i]), ValueBits(be, b[i], 8));
    PrefixBytes(be, b, i);
  }

  lemma WholeByteSpliced(be: bool, m: Memory, at: nat, v: nat)
    requires WordsOk(m) && at / 64 < |m| && at % 8 == 0
    ensures WordsOk(PutByte(m, at / 8, v))
    ensures Spliced(be, m, PutByte(m, at / 8, v), at, ValueBits(be, v, 8))
  {
    ByteSpliced(be, m, at, v, ValueBits(be, v, 8));
  }

  /** `BITMASK_LT(n)` in a fresh byte: `n` ones. */
  lemma OnesSpliced(m: Memory, at: nat, n: nat)
    requires WordsOk(m) && at / 64 < |m| && at % 8 == 0 && 0 < n <= 8
    requires ZeroFrom(false, m, at)
    ensures WordsOk(PutByte(m, at / 8, Low(0xff, n)))
    ensures Spliced(false, m, PutByte(m, at / 8, Low(0xff, n)), at, Same(true, n))
  {
    var v := Low(0xff, n);
    forall k: nat | k < 8 ensures Bit(v, k) == (k < n) { BitLow(0xff, n, k); Ones(k); }
    ByteSpliced(false, m, at, v, Same(true, n));
  }

  lemma Ones(k: nat)
    ensures Bit(0xff, k) == (k < 8)
  {
    if k >= 8 {
      assert 0xff < Pow2(8);
      BitAbove(0xff, 8, k);
    } else {
      assert Bit(0xff, 0) && Bit(0xff, 1) && Bit(0xff, 2) && Bit(0xff, 3);
      assert Bit(0xff, 4) && Bit(0xff, 5) && Bit(0xff, 6) && Bit(0xff, 7);
    }
  }

  /** Masking a value to `n` bits does not change its `n` low bits. */
  lemma Masked(be: bool, x: nat, n: nat)
    requires x < WORD && n <= 64
    ensures var y := if n != 64 then Low(x, n) else x;
            y < Pow2(n) && ValueBits(be, y, n) == ValueBits(be, x, n)
  {
    WordIsPow2();
    ShrLow(x, n);
    forall i: nat ensures i < n ==> Bit(Low(x, n), i) == Bit(x, i) { BitLow(x, n, i); }
  }

  /** Moving the end over zero bits appends zeros. */
  lemma ZerosSpliced(be: bool, m: Memory, len: nat, n: nat)
    requires ZeroFrom(be, m, len)
    ensures Spliced(be, m, m, len, Same(false, n))
  {
  }

  /** Four bits taken over with a bit set in the rest of their byte: the buffer is not sound for writers. */
  method FullKeepsDirt() returns (bb: BitBuf)
    ensures bb.len == 4 && !bb.Valid(false)
  {
    bb := new BitBuf.Full([0x10], 4, 8);
    assert Bit(1, 0) && Bit(2, 1) && Bit(4, 2) && Bit(8, 3) && Bit(0x10, 4);
    assert StreamBit(false, [0x10], 4);
  }
}
