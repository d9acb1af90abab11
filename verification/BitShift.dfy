/**
 Dropping bits from the front of a bit buffer: whole bytes are moved, other shifts go through pairs of words.
 */
module BitShifts {
  import opened Bits
  import opened BitMemory
  import opened BitBuffer

  /** The memory bits of `m2` are those of `m` from `shift` on. */
  ghost predicate Moved(m: Memory, m2: Memory, shift: nat) {
    forall p: nat {:trigger MemBit(m2, p)} :: MemBit(m2, p) == MemBit(m, p + shift)
  }

  /** In both orders for whole bytes, in little-endian order always, moved memory is a shorter stream. */
  lemma MovedStream(be: bool, m: Memory, m2: Memory, len: nat, shift: nat)
    requires Moved(m, m2, shift) && ZeroFrom(be, m, len) && shift <= len && (be ==> shift % 8 == 0)
    ensures Stream(be, m2, 0, len - shift) == Stream(be, m, 0, len)[shift..]
    ensures ZeroFrom(be, m2, len - shift)
  {
    forall p: nat ensures StreamBit(be, m2, p) == StreamBit(be, m, p + shift) {
      PlaceMoved(be, p, shift);
    }
    var s, t := Stream(be, m2, 0, len - shift), Stream(be, m, 0, len);
    forall i | 0 <= i < len - shift ensures s[i] == t[shift..][i] {
      assert StreamBit(be, m2, i) == StreamBit(be, m, i + shift);
    }
  }

  lemma PlaceMoved(be: bool, p: nat, shift: nat)
    requires be ==> shift % 8 == 0
    ensures Place(be, p + shift) == Place(be, p) + shift
  {
    if be {
      var k := shift / 8;
      assert p + shift == (p / 8 + k) * 8 + p % 8;
      ModUnique(p + shift, 8, p / 8 + k, p % 8);
    }
  }

  /** A buffer holds no set bit after its last byte. */
  lemma ZeroBytes(be: bool, m: Memory, len: nat, p: nat)
    requires ZeroFrom(be, m, len) && DivUp(len, 8) <= p / 8
    ensures !MemBit(m, p)
  {
    PlaceInvolutive(be, p);
    assert len <= 8 * (p / 8) <= Place(be, p);
    assert !StreamBit(be, m, Place(be, p));
  }

  // ---------------------------------------------------------------- whole bytes

  /** `p_move`: the `n` bytes from `from` on go to the front. */
  method MoveBytes(bb: BitBuf, from: nat, n: nat)
    requires WordsOk(bb.data) && from + n <= 8 * |bb.data|
    modifies bb`data
    ensures WordsOk(bb.data) && |bb.data| == |old(bb.data)|
    ensures forall p: nat :: MemBit(bb.data, p) == MemBit(old(bb.data), if p / 8 < n then p + 8 * from else p)
  {
    for j := 0 to n
      invariant WordsOk(bb.data) && |bb.data| == |old(bb.data)|
      invariant forall p: nat :: MemBit(bb.data, p) == MemBit(old(bb.data), if p / 8 < j then p + 8 * from else p)
    {
      var v := ByteAt(bb.data, j + from);
      WordWithByteOk(bb.data[j / 8], j % 8, v);
      forall p: nat
        ensures MemBit(PutByte(bb.data, j, v), p) == MemBit(old(bb.data), if p / 8 < j + 1 then p + 8 * from else p)
      {
        MoveByte(bb.data, j, from, p);
      }
      bb.data := PutByte(bb.data, j, v);
    }
  }

  lemma MoveByte(m: Memory, j: nat, from: nat, p: nat)
    requires j / 8 < |m|
    ensures MemBit(PutByte(m, j, ByteAt(m, j + from)), p) == MemBit(m, if p / 8 == j then p + 8 * from else p)
  {
    BitOfPutByte(m, j, ByteAt(m, j + from), p);
    if p / 8 == j {
      BitOfByteAt(m, j + from, p % 8);
      assert 8 * (j + from) + p % 8 == p + 8 * from;
    }
  }

  method ShiftBytes(bb: BitBuf, bshift: nat, blen: nat, ghost be: bool)
    requires bb.Valid(be) && bshift <= blen == DivUp(bb.len, 8) <= 8 * |bb.data|
    modifies bb`data
    ensures WordsOk(bb.data) && |bb.data| == |old(bb.data)| && Moved(old(bb.data), bb.data, 8 * bshift)
  {
    MoveBytes(bb, bshift, blen - bshift);
    ghost var m := bb.data;
    bb.ClearBytes(blen - bshift, blen);
    BytesMoved(be, old(bb.data), m, bb.data, bb.len, bshift, blen);
  }

  lemma BytesMoved(be: bool, m: Memory, m1: Memory, m2: Memory, len: nat, bshift: nat, blen: nat)
    requires ZeroFrom(be, m, len) && bshift <= blen == DivUp(len, 8)
    requires forall p: nat :: MemBit(m1, p) == MemBit(m, if p / 8 < blen - bshift then p + 8 * bshift else p)
    requires Cleared(m1, m2, blen - bshift, blen)
    ensures Moved(m, m2, 8 * bshift)
  {
    forall p: nat ensures MemBit(m2, p) == MemBit(m, p + 8 * bshift) {
      assert MemBit(m1, p) == MemBit(m, if p / 8 < blen - bshift then p + 8 * bshift else p);
      ByteMoved(be, m, m1, m2, len, bshift, blen, p);
    }
  }

  lemma ByteMoved(be: bool, m: Memory, m1: Memory, m2: Memory, len: nat, bshift: nat, blen: nat, p: nat)
    requires ZeroFrom(be, m, len) && bshift <= blen == DivUp(len, 8)
    requires MemBit(m1, p) == MemBit(m, if p / 8 < blen - bshift then p + 8 * bshift else p)
    requires Cleared(m1, m2, blen - bshift, blen)
    ensures MemBit(m2, p) == MemBit(m, p + 8 * bshift)
  {
    assert (p + 8 * bshift) / 8 == p / 8 + bshift;
    if p / 8 >= blen - bshift { ZeroBytes(be, m, len, p + 8 * bshift); }
    if p / 8 >= blen { ZeroBytes(be, m, len, p); }
  }

  // ---------------------------------------------------------------- other shifts

  /** The word that starts at bit `k` of `a` and goes on in `b` */
  function Joined(a: nat, b: nat, k: nat): nat
    requires k < 64
  {
    Or(Shr(a, k), Low(Shl(b, 64 - k), 64))
  }

  lemma JoinedBit(a: nat, b: nat, k: nat, i: nat)
    requires a < WORD && 0 < k < 64
    ensures Bit(Joined(a, b, k), i) == if i + k < 64 then Bit(a, i + k) else i < 64 && Bit(b, i + k - 64)
  {
    BitOr(Shr(a, k), Low(Shl(b, 64 - k), 64), i);
    BitShr(a, k, i);
    BitLow(Shl(b, 64 - k), 64, i);
    BitShl(b, 64 - k, i);
    if i + k >= 64 {
      WordIsPow2();
      BitAbove(a, 64, i + k);
    }
  }

  lemma JoinedOk(a: nat, b: nat, k: nat)
    requires a < WORD && 0 < k < 64
    ensures Joined(a, b, k) < WORD
  {
    forall i | i >= 64 ensures !Bit(Joined(a, b, k), i) { JoinedBit(a, b, k, i); }
    WordIsPow2();
    BelowPow2(Joined(a, b, k), 64);
  }

  /** The words that the shift leaves: `last` is the last one in use. */
  ghost predicate WordsShifted(m: Memory, m2: Memory, nwords: nat, k: nat, last: nat)
    requires 0 < k < 64 && nwords <= last < |m|
  {
    && |m2| == |m|
    && (forall i | 0 <= i < last - nwords :: m2[i] == Joined(m[nwords + i], m[nwords + i + 1], k))
    && m2[last - nwords] == Shr(m[last], k)
    && (forall i | last - nwords < i <= last :: m2[i] == 0)
    && (forall i | last < i < |m| :: m2[i] == m[i])
  }

  /** When a shift stays inside the memory: other than whole bytes, it also reads the word after the last whole one. */
  predicate ShiftFits(len: nat, size: nat, shift: nat) {
    shift >= len || shift % 8 == 0 || len < 64 * size
  }

  /** A shift by other than whole bytes */
  method ShiftWords(bb: BitBuf, shift: nat) returns (inside: bool)
    requires WordsOk(bb.data) && shift % 8 != 0 && shift < bb.len <= 64 * |bb.data|
    modifies bb`data
    ensures |bb.data| == |old(bb.data)| && (inside <==> ShiftFits(bb.len, |bb.data|, shift))
    ensures inside ==> shift % 64 > 0 && shift / 64 <= bb.len / 64 < |bb.data|
    ensures inside ==> WordsShifted(old(bb.data), bb.data, shift / 64, shift % 64, bb.len / 64)
  {
    WordBounds(shift, bb.len, |bb.data|);
    inside := ShiftLoop(bb, shift / 64, shift % 64, bb.len / 64);
  }

  lemma WordBounds(shift: nat, len: nat, size: nat)
    requires shift % 8 != 0 && shift < len <= 64 * size
    ensures shift % 64 > 0 && shift / 64 <= len / 64 && shift / 64 < size && (len / 64 < size <==> len < 64 * size)
  {
    NotWholeBytes(shift);
    WordOrder(shift / 64, shift % 64, len / 64, len % 64, size);
  }

  lemma NotWholeBytes(shift: nat)
    requires shift % 8 != 0
    ensures shift % 64 > 0
  {
    if shift % 64 == 0 { ModUnique(shift, 8, 8 * (shift / 64), 0); }
  }

  lemma WordOrder(q: nat, r: nat, l: nat, t: nat, size: nat)
    requires r < 64 && t < 64 && 64 * q + r < 64 * l + t <= 64 * size
    ensures q <= l && q < size && (l < size <==> 64 * l + t < 64 * size)
  {
  }

  /** The loop of `bb_shift_left` and what follows it, up to an access outside of the memory if there is one */
  method ShiftLoop(bb: BitBuf, nwords: nat, wshift: nat, word: nat) returns (inside: bool)
    requires 0 < wshift < 64 && nwords <= word && nwords < |bb.data|
    modifies bb`data
    ensures |bb.data| == |old(bb.data)| && (inside <==> word < |bb.data|)
    ensures inside ==> WordsShifted(old(bb.data), bb.data, nwords, wshift, word)
  {
    hide Joined;
    var src, dst := nwords, 0;
    ghost var m := bb.data;
    while src < word
      invariant nwords <= src <= word && src < |m| == |bb.data| && dst == src - nwords
      invariant forall i | 0 <= i < dst :: bb.data[i] == Joined(m[nwords + i], m[nwords + i + 1], wshift)
      invariant forall i | dst <= i < |m| :: bb.data[i] == m[i]
    {
      if src + 1 >= |bb.data| {
        return false;
      }
      bb.data := bb.data[dst := Joined(bb.data[src], bb.data[src + 1], wshift)];
      dst, src := dst + 1, src + 1;
    }
    LastWord(bb, m, nwords, wshift, word);
    inside := true;
  }

  method LastWord(bb: BitBuf, ghost m: Memory, nwords: nat, wshift: nat, word: nat)
    requires 0 < wshift < 64 && nwords <= word < |m| == |bb.data|
    requires forall i | 0 <= i < word - nwords :: bb.data[i] == Joined(m[nwords + i], m[nwords + i + 1], wshift)
    requires forall i | word - nwords <= i < |m| :: bb.data[i] == m[i]
    modifies bb`data
    ensures WordsShifted(m, bb.data, nwords, wshift, word)
  {
    var dst := word - nwords;
    bb.data := bb.data[dst := Shr(bb.data[word], wshift)];
    if dst < word {
      bb.data := bb.data[..dst + 1] + seq(word - dst, _ => 0) + bb.data[word + 1..];
    }
  }

  lemma WordsMoved(m: Memory, m2: Memory, len: nat, shift: nat, p: nat)
    requires WordsOk(m) && ZeroFrom(false, m, len) && shift % 64 > 0 && shift < len < 64 * |m|
    requires WordsShifted(m, m2, shift / 64, shift % 64, len / 64)
    ensures MemBit(m2, p) == MemBit(m, p + shift)
  {
    var nwords, k, i, j := shift / 64, shift % 64, p / 64, p % 64;
    Split(p, shift);
    if i < len / 64 - nwords {
      JoinedBit(m[nwords + i], m[nwords + i + 1], k, j);
    } else {
      if j + k >= 64 || i > len / 64 - nwords { assert !StreamBit(false, m, p + shift); }
      if i == len / 64 - nwords {
        BitShr(m[len / 64], k, j);
        if j + k >= 64 { WordIsPow2(); BitAbove(m[len / 64], 64, j + k); }
      } else if i <= len / 64 {
        BitZero(j);
      } else {
        assert !StreamBit(false, m, p);
      }
    }
  }

  /** Where bit `p + shift` lies */
  lemma Split(p: nat, shift: nat)
    ensures var i, j := p / 64 + shift / 64, p % 64 + shift % 64;
      if j < 64 then (p + shift) / 64 == i && (p + shift) % 64 == j else (p + shift) / 64 == i + 1 && (p + shift) % 64 == j - 64
  {
  }

  lemma WordsStayOk(m: Memory, m2: Memory, nwords: nat, k: nat, last: nat)
    requires WordsOk(m) && 0 < k < 64 && nwords <= last < |m| && WordsShifted(m, m2, nwords, k, last)
    ensures WordsOk(m2)
  {
    forall i | 0 <= i < |m2| ensures m2[i] < WORD {
      if i < last - nwords {
        JoinedOk(m[nwords + i], m[nwords + i + 1], k);
      } else if i == last - nwords {
        ShrAtMost(m[last], k);
      }
    }
  }

  /**
   `bb_shift_left`: the first `shift` bits are gone.  A shift that is not of whole bytes is one of the little-endian
   stream, and on a full memory it reads past the end.
   */
  method ShiftLeft(bb: BitBuf, shift: nat, byFrame: bool, ghost be: bool) returns (inside: bool)
    requires bb.Valid(be)
    modifies bb
    ensures inside <==> ShiftFits(old(bb.len), |old(bb.data)|, shift)
    ensures !inside ==> bb.len == old(bb.len) && |bb.data| == |old(bb.data)|
    ensures inside && (!be || shift >= old(bb.len) || shift % 8 == 0) ==>
      bb.Valid(be) && bb.Contents(be) == old(bb.Contents(be))[if shift < old(bb.len) then shift else old(bb.len)..]
  {
    if shift >= bb.len {
      bb.Reset(byFrame, be);
      return true;
    }
    inside := ShiftMemory(bb, shift, be);
    if !inside {
      return;
    }
    if !be || shift % 8 == 0 { MovedStream(be, old(bb.data), bb.data, bb.len, shift); }
    bb.len := bb.len - shift;
  }

  method ShiftMemory(bb: BitBuf, shift: nat, ghost be: bool) returns (inside: bool)
    requires bb.Valid(be) && shift < bb.len
    modifies bb`data
    ensures |bb.data| == |old(bb.data)| && (inside <==> ShiftFits(bb.len, |bb.data|, shift))
    ensures inside && (!be || shift % 8 == 0) ==> WordsOk(bb.data) && Moved(old(bb.data), bb.data, shift)
  {
    if shift % 8 == 0 {
      ShiftBytes(bb, shift / 8, DivUp(bb.len, 8), be);
      inside := true;
    } else {
      inside := ShiftWords(bb, shift);
      if inside && !be { AllWordsMoved(old(bb.data), bb.data, bb.len, shift); }
    }
  }

  lemma AllWordsMoved(m: Memory, m2: Memory, len: nat, shift: nat)
    requires WordsOk(m) && ZeroFrom(false, m, len) && shift % 64 > 0 && shift < len < 64 * |m|
    requires WordsShifted(m, m2, shift / 64, shift % 64, len / 64)
    ensures WordsOk(m2) && Moved(m, m2, shift)
  {
    WordsStayOk(m, m2, shift / 64, shift % 64, len / 64);
    forall p: nat ensures MemBit(m2, p) == MemBit(m, p + shift) { WordsMoved(m, m2, len, shift, p); }
  }

  /** A buffer of 25 words of zeros is full when it has grown at once: a shift by one bit reads a word outside of it. */
  method ShiftFullBuffer() returns (bb: BitBuf, inside: bool)
    ensures fresh(bb) && bb.len == 1600 && |bb.data| == 25 && !inside
  {
    bb := new BitBuf();
    bb.Add0s(1600, false);
    assert |bb.Contents(false)| == 1600 && DivUp(1600, 64) == 25 && GrownSize(0, 25, 8) == 25;
    inside := ShiftLeft(bb, 1, false, false);
  }
}
