/**
 Where a word of a word-aligned hybrid bitmap lies: in a run or among literals, and how many words are left there.  This
 depends on the number of the word only, and says where a word enumerator stands that has passed so many words.
 */
module WahSpan {
  import opened WahFormat
  import opened WahEnum
  import WahGet

  datatype Span = Run(bit: bool, left: nat) | Literals(left: nat)

  /** Word `n` of the chunks from position `p` on */
  function SpanIn(tab: seq<U32>, p: nat, n: nat): (s: Span)
    requires Chunked(tab, p) && n < |Words(tab, p)|
    ensures s.left > 0
    decreases |tab| - p
  {
    var run, literals: nat := HeadWords(tab[p]), tab[p + 1];
    if n < run then Run(HeadBit(tab[p]), run - n)
    else if n < run + literals then Literals(run + literals - n)
    else SpanIn(tab, ChunkEnd(tab, p), n - run - literals)
  }

  function SpanOf(buckets: seq<seq<U32>>, n: nat): (s: Span)
    requires BucketsOk(buckets) && n < |BucketsWords(buckets)|
    ensures s.left > 0
  {
    if n < |Words(buckets[0], 0)| then SpanIn(buckets[0], 0, n) else SpanOf(buckets[1..], n - |Words(buckets[0], 0)|)
  }

  lemma {:induction false} SpanInEnds(tab: seq<U32>, p: nat, n: nat)
    requires Chunked(tab, p) && n < |Words(tab, p)|
    ensures n + SpanIn(tab, p, n).left <= |Words(tab, p)|
    decreases |tab| - p
  {
    ChunkSize(tab, p);
    var size: nat := HeadWords(tab[p]) + tab[p + 1];
    if n >= size { SpanInEnds(tab, ChunkEnd(tab, p), n - size); }
  }

  /** The words left where a word lies are words of the bitmap. */
  lemma {:induction false} SpanEnds(buckets: seq<seq<U32>>, n: nat)
    requires BucketsOk(buckets) && n < |BucketsWords(buckets)|
    ensures n + SpanOf(buckets, n).left <= |BucketsWords(buckets)|
  {
    hide SpanIn, Words, Chunked;
    if n < |Words(buckets[0], 0)| {
      SpanInEnds(buckets[0], 0, n);
    } else {
      SpanEnds(buckets[1..], n - |Words(buckets[0], 0)|);
    }
  }

  lemma {:induction false} RunWordsIn(tab: seq<U32>, p: nat, n: nat, i: nat)
    requires Chunked(tab, p) && n < |Words(tab, p)|
    requires SpanIn(tab, p, n).Run? && i < SpanIn(tab, p, n).left
    ensures n + i < |Words(tab, p)| && Words(tab, p)[n + i] == RunWord(SpanIn(tab, p, n).bit)
    decreases |tab| - p
  {
    hide Words;
    SpanInEnds(tab, p, n);
    WahGet.ChunkWord(tab, p, n + i);
    var size: nat := HeadWords(tab[p]) + tab[p + 1];
    if n >= size { RunWordsIn(tab, ChunkEnd(tab, p), n - size, i); }
  }

  /** The words of a run */
  lemma {:induction false} RunWords(buckets: seq<seq<U32>>, n: nat, i: nat)
    requires BucketsOk(buckets) && n < |BucketsWords(buckets)|
    requires SpanOf(buckets, n).Run? && i < SpanOf(buckets, n).left
    ensures n + i < |BucketsWords(buckets)| && BucketsWords(buckets)[n + i] == RunWord(SpanOf(buckets, n).bit)
  {
    hide SpanIn, Words, Chunked;
    var words := |Words(buckets[0], 0)|;
    if n < words { RunWordsIn(buckets[0], 0, n, i); } else { RunWords(buckets[1..], n - words, i); }
  }

  lemma ChunkSize(tab: seq<U32>, p: nat)
    requires Chunked(tab, p) && p < |tab|
    ensures |Words(tab, p)| == HeadWords(tab[p]) + tab[p + 1] + |Words(tab, ChunkEnd(tab, p))|
  {
  }

  /** A word counted from a chunk further on */
  lemma {:induction false} SpanReached(tab: seq<U32>, q: nat, p: nat, i: nat)
    requires Chunked(tab, q) && Chunked(tab, p) && Reaches(tab, q, p) && i < |Words(tab, p)|
    ensures |Words(tab, p)| <= |Words(tab, q)|
    ensures SpanIn(tab, q, |Words(tab, q)| - |Words(tab, p)| + i) == SpanIn(tab, p, i)
    decreases |tab| - q
  {
    if q < p {
      ChunkSize(tab, q);
      SpanReached(tab, ChunkEnd(tab, q), p, i);
    }
  }

  /** A word counted from the start of its bucket */
  lemma {:induction false} SpanBucket(buckets: seq<seq<U32>>, b: nat, i: nat)
    requires BucketsOk(buckets) && b < |buckets| && i < |Words(buckets[b], 0)|
    ensures BucketsOk(buckets[..b]) && BucketsOk(buckets[b + 1..])
    ensures |BucketsWords(buckets)| == |BucketsWords(buckets[..b])| + |Words(buckets[b], 0)| + |BucketsWords(buckets[b + 1..])|
    ensures SpanOf(buckets, |BucketsWords(buckets[..b])| + i) == SpanIn(buckets[b], 0, i)
    decreases b
  {
    hide Words, Chunked, SpanIn;
    if b > 0 {
      assert buckets[..b][1..] == buckets[1..][..b - 1] && buckets[1..][b..] == buckets[b + 1..];
      SpanBucket(buckets[1..], b - 1, i);
    }
  }

  /** The place of an enumerator follows from the number of words it has passed: in a run */
  lemma RunSpan(wah: Wah, at: Place)
    requires WellFormed(wah) && PlaceOk(wah, at) && at.state == RUN
    ensures |Left(wah, at)| <= |BucketsWords(wah.buckets)|
    ensures var head := wah.buckets[at.bucket][at.pos];
      SpanOf(wah.buckets, |BucketsWords(wah.buckets)| - |Left(wah, at)|) == Run(HeadBit(head), at.remainWords)
  {
    hide SpanOf;
    var tab := wah.buckets[at.bucket];
    ChunkSize(tab, at.pos);
    Counted(wah, at.bucket, at.pos, HeadWords(tab[at.pos]) - at.remainWords);
  }

  /** And among literals */
  lemma LiteralSpan(wah: Wah, at: Place)
    requires WellFormed(wah) && PlaceOk(wah, at) && at.state == LITERAL
    ensures |Left(wah, at)| <= |BucketsWords(wah.buckets)|
    ensures SpanOf(wah.buckets, |BucketsWords(wah.buckets)| - |Left(wah, at)|) == Literals(at.remainWords)
  {
    hide SpanOf;
    var tab := wah.buckets[at.bucket];
    var p: nat :| LiteralsEnd(tab, p, at.pos, at.remainWords);
    ChunkSize(tab, p);
    Counted(wah, at.bucket, p, HeadWords(tab[p]) + tab[p + 1] - at.remainWords);
  }

  lemma Counted(wah: Wah, b: nat, p: nat, i: nat)
    requires BucketsOk(wah.buckets) && b < |wah.buckets| && Chunked(wah.buckets[b], p) && Reaches(wah.buckets[b], 0, p)
    requires i < |Words(wah.buckets[b], p)|
    ensures |Tail(wah, b, p)| - i <= |BucketsWords(wah.buckets)|
    ensures SpanOf(wah.buckets, |BucketsWords(wah.buckets)| - |Tail(wah, b, p)| + i) == SpanIn(wah.buckets[b], p, i)
  {
    hide SpanOf, SpanIn, Words, Reaches;
    var tab := wah.buckets[b];
    SpanReached(tab, 0, p, i);
    SpanBucket(wah.buckets, b, |Words(tab, 0)| - |Words(tab, p)| + i);
  }
}
