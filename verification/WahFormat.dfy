/**
 The format of word-aligned hybrid bitmaps.  A bitmap is a list of buckets; a bucket is a list of chunks; a
 chunk is a header of two words, which counts a run of equal words and the literal words that follow it.
 The bits that do not fill a word yet are pending.
 */
module WahFormat {
  import opened Bits

  type U32 = x: nat | x <= 0xffff_ffff
  const ONES: U32 := 0xffff_ffff
  const MAX_RUN: U32 := 0x7fff_ffff

  /** `wah_header_t`: 31 bits of length and the bit of the run on top. */
  predicate HeadBit(w: U32) { w >= 0x8000_0000 }
  function HeadWords(w: U32): nat { if HeadBit(w) then w - 0x8000_0000 else w }
  function Head(words: nat, bit: bool): U32
    requires words <= MAX_RUN
  {
    if bit then words + 0x8000_0000 else words
  }

  function RunWord(bit: bool): U32 { if bit then ONES else 0 }

  datatype Wah = Wah(len: nat, buckets: seq<seq<U32>>, pending: U32)

  /** A chunk starts at position `p` and has all its words. */
  predicate ChunkAt(tab: seq<U32>, p: nat) {
    p + 2 <= |tab| && p + 2 + tab[p + 1] <= |tab|
  }

  function ChunkEnd(tab: seq<U32>, p: nat): (e: nat)
    requires ChunkAt(tab, p)
    ensures p < e <= |tab|
  {
    p + 2 + tab[p + 1]
  }

  predicate EmptyChunk(tab: seq<U32>, p: nat)
    requires ChunkAt(tab, p)
  {
    HeadWords(tab[p]) == 0 && tab[p + 1] == 0
  }

  /** From position `p` on, the bucket is a list of chunks, none of them empty. */
  predicate Chunked(tab: seq<U32>, p: nat)
    decreases |tab| - p
  {
    p == |tab| || (ChunkAt(tab, p) && !EmptyChunk(tab, p) && Chunked(tab, ChunkEnd(tab, p)))
  }

  function Repeat(w: U32, n: nat): (s: seq<U32>)
    ensures |s| == n
  {
    if n == 0 then [] else [w] + Repeat(w, n - 1)
  }

  /** The words of the bitmap that the chunks from position `p` on stand for. */
  function Words(tab: seq<U32>, p: nat): seq<U32>
    requires Chunked(tab, p)
    decreases |tab| - p
  {
    if p == |tab| then []
    else
      Repeat(RunWord(HeadBit(tab[p])), HeadWords(tab[p])) + (tab[p + 2..ChunkEnd(tab, p)] + Words(tab, ChunkEnd(tab, p)))
  }

  predicate BucketOk(tab: seq<U32>) { tab != [] && Chunked(tab, 0) }

  predicate BucketsOk(buckets: seq<seq<U32>>) {
    forall b | 0 <= b < |buckets| :: BucketOk(buckets[b])
  }

  function BucketsWords(buckets: seq<seq<U32>>): seq<U32>
    requires BucketsOk(buckets)
  {
    if buckets == [] then [] else Words(buckets[0], 0) + BucketsWords(buckets[1..])
  }

  /** `w ^ reverse` */
  function Flip(w: U32, reverse: bool): U32 {
    if reverse then ONES - w else w
  }

  function WordsBits(ws: seq<U32>, reverse: bool): seq<bool> {
    if ws == [] then [] else ToBits(Flip(ws[0], reverse), 32) + WordsBits(ws[1..], reverse)
  }

  /** Bit `i` of a bitmap that goes on with bits that are off */
  predicate BitAt(s: seq<bool>, i: nat) { i < |s| && s[i] }

  /** A bitmap of less than a word is one empty chunk. */
  predicate Tiny(wah: Wah) {
    |wah.buckets| == 1 && |wah.buckets[0]| == 2 && ChunkAt(wah.buckets[0], 0) && EmptyChunk(wah.buckets[0], 0)
  }

  /** The bits in chunks and the pending bits make up the length. */
  ghost predicate WellFormed(wah: Wah) {
    && wah.buckets != []
    && if wah.len < 32 then Tiny(wah)
       else BucketsOk(wah.buckets) && wah.len == 32 * |BucketsWords(wah.buckets)| + wah.len % 32
  }

  ghost function FullWords(wah: Wah): seq<U32>
    requires WellFormed(wah)
  {
    if wah.len < 32 then [] else BucketsWords(wah.buckets)
  }

  /** The bits of the bitmap, or their complements. */
  ghost function BitsOf(wah: Wah, reverse: bool): seq<bool>
    requires WellFormed(wah)
  {
    WordsBits(FullWords(wah), reverse) + ToBits(Flip(wah.pending, reverse), wah.len % 32)
  }
}
