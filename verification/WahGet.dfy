/**
 Random access to a word-aligned hybrid bitmap: the bucket of a bit is computed, not searched, so that it relies on
 every closed bucket being full.
 */
module WahGet {
  import opened Bits
  import opened WahFormat
  import opened WahBucket
  import opened WahWrite
  import WahBits

  /** Bit `k` of a list of words */
  lemma {:induction false} WordsBitsAt(ws: seq<U32>, reverse: bool, k: nat)
    requires k < 32 * |ws|
    ensures |WordsBits(ws, reverse)| == 32 * |ws|
    ensures WordsBits(ws, reverse)[k] == Bit(Flip(ws[k / 32], reverse), k % 32)
    decreases |ws|
  {
    WahBits.WordsBitsLength(ws, reverse);
    if k >= 32 {
      WahBits.WordsBitsLength(ws[1..], reverse);
      WordsBitsAt(ws[1..], reverse, k - 32);
      assert (k - 32) / 32 == k / 32 - 1 && (k - 32) % 32 == k % 32;
    }
  }

  lemma {:induction false} RepeatAt(w: U32, n: nat, j: nat)
    requires j < n
    ensures Repeat(w, n)[j] == w
  {
    if j > 0 { RepeatAt(w, n - 1, j - 1); }
  }

  lemma InParts(a: seq<U32>, b: seq<U32>, c: seq<U32>, j: nat)
    requires j < |a + (b + c)|
    ensures (a + (b + c))[j] == if j < |a| then a[j] else if j < |a| + |b| then b[j - |a|] else c[j - |a| - |b|]
  {
  }

  /** The words of the chunk at `p`, then those of the chunks after it */
  lemma ChunkWord(tab: seq<U32>, p: nat, j: nat)
    requires Chunked(tab, p) && j < |Words(tab, p)|
    ensures p < |tab|
    ensures var run, literals := HeadWords(tab[p]), tab[p + 1];
      if j < run then Words(tab, p)[j] == RunWord(HeadBit(tab[p]))
      else if j < run + literals then Words(tab, p)[j] == tab[p + 2 + j - run]
      else j - run - literals < |Words(tab, ChunkEnd(tab, p))| && Words(tab, p)[j] == Words(tab, ChunkEnd(tab, p))[j - run - literals]
  {
    var run := Repeat(RunWord(HeadBit(tab[p])), HeadWords(tab[p]));
    if j < |run| { RepeatAt(RunWord(HeadBit(tab[p])), HeadWords(tab[p]), j); }
    hide Repeat, Words, Chunked;
    InParts(run, tab[p + 2..ChunkEnd(tab, p)], Words(tab, ChunkEnd(tab, p)), j);
  }

  lemma RunWordBit(bit: bool, i: nat)
    requires i < 32
    ensures Bit(RunWord(bit), i) == bit
  {
    if bit { OnesAreSet(i); } else { BitZero(i); }
  }

  lemma OnesAreSet(i: nat)
    requires i < 32
    ensures Bit(ONES, i)
  {
    WahBits.OnesIsPow2();
    WahBits.OnesBit(32, i);
  }

  /** Bit `p` of the chunks from position `i` on */
  predicate BitOf(tab: seq<U32>, i: nat, p: nat)
    requires Chunked(tab, i) && p < 32 * |Words(tab, i)|
  {
    Bit(Words(tab, i)[p / 32], p % 32)
  }

  lemma ChunkBit(tab: seq<U32>, i: nat, p: nat)
    requires Chunked(tab, i) && p < 32 * |Words(tab, i)|
    ensures ChunkAt(tab, i) && Chunked(tab, ChunkEnd(tab, i))
    ensures var run, literals := 32 * HeadWords(tab[i]), 32 * (tab[i + 1] as nat);
      if p < run then BitOf(tab, i, p) == HeadBit(tab[i])
      else if p - run < literals then BitOf(tab, i, p) == Bit(tab[i + 2 + (p - run) / 32], (p - run) % 32)
      else p - run - literals < 32 * |Words(tab, ChunkEnd(tab, i))| && BitOf(tab, i, p) == BitOf(tab, ChunkEnd(tab, i), p - run - literals)
  {
    ChunkWord(tab, i, p / 32);
    var run, literals: nat := HeadWords(tab[i]), tab[i + 1];
    if p < 32 * run {
      RunWordBit(HeadBit(tab[i]), p % 32);
    } else if p - 32 * run < 32 * literals {
      LowerBits(p, run);
    } else {
      LowerBits(p, run + literals);
    }
  }

  lemma LowerBits(p: nat, n: nat)
    requires p >= 32 * n
    ensures (p - 32 * n) / 32 == p / 32 - n && (p - 32 * n) % 32 == p % 32
  {
  }

  lemma NoBits(tab: seq<U32>, i: nat)
    requires i >= |tab| && Chunked(tab, i)
    ensures Words(tab, i) == []
  {
  }

  /** The loop of `wah_get`: the chunk of bit `pos` of a bucket is found by its length. */
  method InBucket(tab: seq<U32>, pos: nat) returns (b: bool)
    requires Chunked(tab, 0) && pos < 32 * |Words(tab, 0)|
    ensures b == Bit(Words(tab, 0)[pos / 32], pos % 32)
  {
    hide Words, Chunked;
    var i, p: nat := 0, pos;
    while i < |tab|
      invariant i <= |tab| && Chunked(tab, i) && p < 32 * |Words(tab, i)|
      invariant BitOf(tab, i, p) == BitOf(tab, 0, pos)
      decreases |tab| - i
    {
      ChunkBit(tab, i, p);
      var count := HeadWords(tab[i]) * 32;
      if p < count {
        return HeadBit(tab[i]);
      }
      p := p - count;
      var words: nat := tab[i + 1];
      if p < words * 32 {
        return Bit(tab[i + 2 + p / 32], p % 32);
      }
      p := p - words * 32;
      i := i + 2 + words;
    }
    NoBits(tab, i);
  }

  /** The words of bucket `b` among all words */
  lemma {:induction false} BucketWord(buckets: seq<seq<U32>>, b: nat, k: nat)
    requires BucketsOk(buckets) && b < |buckets| && k < |Words(buckets[b], 0)|
    ensures BucketsOk(buckets[..b]) && |BucketsWords(buckets[..b])| + k < |BucketsWords(buckets)|
    ensures BucketsWords(buckets)[|BucketsWords(buckets[..b])| + k] == Words(buckets[b], 0)[k]
    decreases b
  {
    hide Words, Chunked;
    if b > 0 {
      assert buckets[..b][1..] == buckets[1..][..b - 1];
      BucketWord(buckets[1..], b - 1, k);
    }
  }

  /** Where bit `pos` lies: in bucket `b`, after `before` words, `j` bits from its start */
  ghost predicate Lies(buckets: seq<seq<U32>>, pos: nat, b: nat, j: nat) {
    && BucketsOk(buckets) && b < |buckets| && j < 32 * |Words(buckets[b], 0)|
    && pos == 32 * |BucketsWords(buckets[..b])| + j
  }

  lemma FoundWord(buckets: seq<seq<U32>>, pos: nat, b: nat, j: nat)
    requires Lies(buckets, pos, b, j)
    ensures pos / 32 < |BucketsWords(buckets)| && pos % 32 == j % 32
    ensures BucketsWords(buckets)[pos / 32] == Words(buckets[b], 0)[j / 32]
  {
    BucketWord(buckets, b, j / 32);
    assert pos / 32 == |BucketsWords(buckets[..b])| + j / 32;
  }

  lemma Located(s: Store, b: nat, shift: nat, pos: nat, bucket: nat, j: nat)
    requires s.Ok() && !s.Empty() && FullBuckets(s.closed, b, shift) && b > 0
    requires pos < 32 * |s.All()| <= Times(|s.closed| + 1, b) + shift
    requires if pos < b + shift then bucket == 0 && j == pos else bucket == (pos - shift) / b && j == (pos - shift) % b
    ensures Lies(s.closed + [s.last.tab], pos, bucket, j)
  {
    hide Words, Chunked, LastWords;
    WholeBucket(s.last);
    JoinBuckets(s.closed, s.last.tab);
    FullBits(s.closed, b, shift);
    if pos < b + shift {
      assert (s.closed + [s.last.tab])[..0] == [];
    } else {
      InRange(|s.closed|, pos - shift, b);
      FullBits(s.closed[..bucket], b, shift);
      TimesIs(bucket, b);
      assert (s.closed + [s.last.tab])[..bucket] == s.closed[..bucket];
    }
  }

  lemma InRange(n: nat, x: nat, b: nat)
    requires b > 0 && b <= x < Times(n + 1, b)
    ensures 0 < x / b <= n && x == x / b * b + x % b
  {
    TimesIs(n + 1, b);
    if x / b >= n + 1 { Larger(n + 1, x / b, b); }
  }

  lemma Larger(m: nat, n: nat, b: nat)
    requires m <= n
    ensures m * b <= n * b
  {
  }

  /** `wah_buckets_get_bucket` */
  method GetBucket(bitmap: Map, pos: nat) returns (b: nat, j: nat)
    requires bitmap.Valid() && pos < bitmap.len - bitmap.len % 32
    ensures Lies(bitmap.store.closed + [bitmap.store.last.tab], pos, b, j)
  {
    if pos < bitmap.bitsInBucket + bitmap.bucketsShift {
      b, j := 0, pos;
    } else {
      var p := pos - bitmap.bucketsShift;
      b, j := p / bitmap.bitsInBucket, p % bitmap.bitsInBucket;
    }
    Located(bitmap.store, bitmap.bitsInBucket, bitmap.bucketsShift, pos, b, j);
  }

  /** `wah_get`: bit `pos` of the bitmap, off past its end */
  method Get(bitmap: Map, pos: nat) returns (b: bool)
    requires bitmap.Valid()
    ensures b == BitAt(bitmap.Contents(), pos)
  {
    hide FullBuckets, LastOk;
    var remain := bitmap.len % 32;
    ContentsAt(bitmap, pos);
    if pos >= bitmap.len {
      return false;
    }
    if pos >= bitmap.len - remain {
      return Bit(bitmap.pending, pos % 32);
    }
    b := GetWhole(bitmap, pos);
  }

  /** A bit that is not pending */
  method GetWhole(bitmap: Map, pos: nat) returns (b: bool)
    requires bitmap.Valid() && pos < bitmap.len - bitmap.len % 32
    ensures b == Bit(bitmap.store.All()[pos / 32], pos % 32)
  {
    hide FullBuckets, LastOk;
    var bucket, j := GetBucket(bitmap, pos);
    var tab := if bucket < |bitmap.store.closed| then bitmap.store.closed[bucket] else bitmap.store.last.tab;
    FoundWord(bitmap.store.closed + [bitmap.store.last.tab], pos, bucket, j);
    if bitmap.store.Empty() { EmptyBucket(bitmap.store.last); }
    bitmap.AllBuckets();
    b := InBucket(tab, j);
  }

  /** The bits of a bitmap in terms of its words */
  lemma ContentsAt(bitmap: Map, pos: nat)
    requires bitmap.store.Ok() && bitmap.len == 32 * |bitmap.store.All()| + bitmap.len % 32
    ensures |bitmap.Contents()| == bitmap.len
    ensures pos < bitmap.len - bitmap.len % 32 ==> bitmap.Contents()[pos] == Bit(bitmap.store.All()[pos / 32], pos % 32)
    ensures bitmap.len - bitmap.len % 32 <= pos < bitmap.len ==> bitmap.Contents()[pos] == Bit(bitmap.pending, pos % 32)
  {
    var ws := bitmap.store.All();
    WahBits.WordsBitsLength(ws, false);
    if pos < 32 * |ws| {
      WordsBitsAt(ws, false, pos);
    } else if pos < bitmap.len {
      assert pos % 32 == pos - 32 * |ws|;
    }
  }
}
