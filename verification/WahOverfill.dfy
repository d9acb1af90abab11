/**
 An intersection that breaks the layout: where the complement of a short bitmap goes on with ones, literals of the other
 one are copied at once, although they cross the end of a bucket of the result.
 */
module WahOverfill {
  import opened Bits
  import opened WahFormat
  import opened WahBucket
  import opened WahSpan
  import opened WahTurn
  import opened WahWrite
  import opened WahAnd

  /** Two words of ones, which fill a bucket */
  const TWO := Wah(64, [[0x8000_0002, 0]], 0)

  /** Five words of ones, which overfill a bucket of two, and two literals in the next one */
  const SEVEN := Wah(224, [[0x8000_0005, 0], [0, 2, 5, 5]], 0)

  lemma FiveBits()
    ensures Ones(ToBits(5, 32)) == 2
  {
    forall i: nat | i < 32 ensures Bit(5, i) == (i == 0 || i == 2) {
      if i >= 3 { BitAbove(5, 3, i); } else { assert Bit(5, 0) && !Bit(5, 1) && Bit(5, 2); }
    }
    assert ToBits(5, 32) == [true, false, true] + Same(false, 29);
    OnesSame([true, false, true], false, 29);
    assert Ones([true, false, true]) == 2;
  }

  lemma RunOnes(n: nat)
    ensures Ones(WordsBits(Repeat(ONES, n), false)) == 32 * n
  {
    RunBits(true, n);
    OnesSame([], true, 32 * n);
    assert [] + Same(true, 32 * n) == Same(true, 32 * n);
  }

  lemma TwoStore()
    ensures var t := Store([], Last([0x8000_0002, 0], -1, 0)); t.Ok() && !t.Empty() && t.All() == Repeat(ONES, 2)
  {
    var l := Last([0x8000_0002, 0], -1, 0);
    assert l.tab[..0] == [] && l.tab[2..] == [];
    assert LastWords(l) == Repeat(ONES, 2);
  }

  method TwoWords() returns (bitmap: Map)
    ensures fresh(bitmap) && bitmap.Valid() && bitmap.bitsInBucket == 64 && bitmap.Value() == TWO
    ensures bitmap.store.All() == Repeat(ONES, 2)
  {
    hide Store.Ok, Store.All, Store.Empty, Ones, WordsBits;
    bitmap := new Map(64);
    bitmap.len, bitmap.active, bitmap.bucketsShift, bitmap.pending := 64, 64, 0, 0;
    bitmap.store := Store([], Last([0x8000_0002, 0], -1, 0));
    TwoStore();
    RunOnes(2);
    TimesIs(1, 64);
    assert Pow2(0) == 1;
    assert bitmap.Contents() == WordsBits(bitmap.store.All(), false);
  }

  lemma SevenStore()
    ensures BucketsOk([[0x8000_0005, 0]]) && Words([0x8000_0005, 0], 0) == Repeat(ONES, 5)
    ensures var t := Store([[0x8000_0005, 0]], Last([0, 2, 5, 5], -1, 0));
      t.Ok() && !t.Empty() && t.All() == Repeat(ONES, 5) + [5, 5]
  {
    var l := Last([0, 2, 5, 5], -1, 0);
    assert l.tab[..0] == [] && l.tab[2..] == [5, 5];
    assert LastWords(l) == [5, 5];
    var tab: seq<U32> := [0x8000_0005, 0];
    assert Chunked(tab, 2) && Words(tab, 2) == [] && tab[2..2] == [];
    assert Words(tab, 0) == Repeat(ONES, 5) + ([] + []);
    assert [tab][1..] == [];
    assert BucketsWords([tab]) == Words(tab, 0) + [];
  }

  method SevenWords() returns (bitmap: Map)
    ensures fresh(bitmap) && bitmap.Valid() && bitmap.bitsInBucket == 64 && bitmap.Value() == SEVEN
    ensures bitmap.store.All() == Repeat(ONES, 5) + [5, 5]
  {
    hide Store.Ok, Store.All, Store.Empty, Chunked, Repeat, Ones, WordsBits;
    bitmap := new Map(64);
    bitmap.len, bitmap.active, bitmap.bucketsShift, bitmap.pending := 224, 164, 96, 0;
    bitmap.store := Store([[0x8000_0005, 0]], Last([0, 2, 5, 5], -1, 0));
    SevenStore();
    SevenCount();
    TimesIs(2, 64);
    assert Pow2(0) == 1;
    assert bitmap.Contents() == WordsBits(bitmap.store.All(), false);
  }

  lemma SevenCount()
    ensures Ones(WordsBits(Repeat(ONES, 5) + [5, 5], false)) == 164
  {
    RunOnes(5);
    FiveBits();
    OneWord(5);
    CountJoin([5], [5]);
    assert [5] + [5] == [5, 5];
    CountJoin(Repeat(ONES, 5), [5, 5]);
  }

  lemma TwoSpans()
    ensures WellFormed(TWO) && |BucketsWords(TWO.buckets)| == 2 && SpanOf(TWO.buckets, 0) == Run(true, 2)
  {
    var tab: seq<U32> := [0x8000_0002, 0];
    assert Chunked(tab, 2) && Words(tab, 2) == [] && Chunked(tab, 0);
    assert |Words(tab, 0)| == 2;
    assert TWO.buckets == [tab] && [tab][1..] == [];
    assert BucketsWords([tab]) == Words(tab, 0) + [];
  }

  lemma SevenSpans()
    ensures WellFormed(SEVEN) && |BucketsWords(SEVEN.buckets)| == 7 && BucketsWords(SEVEN.buckets)[5] == 5
    ensures SpanOf(SEVEN.buckets, 0) == Run(true, 5) && SpanOf(SEVEN.buckets, 2) == Run(true, 3)
    ensures SpanOf(SEVEN.buckets, 5) == Literals(2)
  {
    SevenStore();
    var a: seq<U32>, b: seq<U32> := [0x8000_0005, 0], [0, 2, 5, 5];
    assert Chunked(b, 4) && Chunked(b, 0) && Words(b, 4) == [] && b[2..4] == [5, 5];
    assert Words(b, 0) == Repeat(0, 0) + ([5, 5] + []);
    assert SEVEN.buckets == [a, b] && [a, b][1..] == [b] && [b][1..] == [];
    assert BucketsWords([b]) == Words(b, 0) + [];
    assert SpanOf([b], 0) == SpanIn(b, 0, 0);
  }

  lemma Steps()
    ensures WellFormed(TWO) && WellFormed(SEVEN)
    ensures var pair := Pair(TWO, true, SEVEN, false);
      pair.Step(0) == Fill(2, false) && pair.Step(2) == Fill(3, true) && pair.Step(5) == Copy(2) && pair.WordAt(5) == 5
  {
    hide SpanOf, BucketsWords, BucketsOk;
    TwoSpans();
    SevenSpans();
    AndOnes(5);
  }

  /** The first two steps write equal words; the third one copies two literals from word 5 on, past the end of a bucket. */
  lemma ThirdStepOverfills()
    ensures WellFormed(TWO) && WellFormed(SEVEN) && Pair(TWO, true, SEVEN, false).FinalLayout(64) == Overfull(0, false)
  {
    hide WellFormed, Pair.Step, Pair.WordAt, Pair.Words;
    Steps();
    var pair := Pair(TWO, true, SEVEN, false);
    TwoZeros();
    assert pair.Next(64, 0, Kept(0)) == Kept(0);
    assert pair.Next(64, 2, Kept(0)) == Kept(0);
    assert pair.Next(64, 5, Kept(0)) == Overfull(0, false);
    assert pair.LayoutFrom(64, 5, Kept(0)) == Overfull(0, false);
    assert pair.LayoutFrom(64, 2, Kept(0)) == Overfull(0, false);
  }

  lemma TwoZeros()
    ensures WellFormed(TWO) && WellFormed(SEVEN) && !Uniform(Pair(TWO, true, SEVEN, false).Words(2), true)
  {
    hide WellFormed, Pair.Step;
    Steps();
    var pair := Pair(TWO, true, SEVEN, false);
    StepIn(pair, 0);
    assert pair.Words(0) == [];
    PushedBits([], false, 2);
    assert WordsBits([], false) == [];
  }

  /**
   `wah_not_and` of two words of ones and a bitmap of seven words.  The result has the right bits, but its last bucket is
   overfull, and its last bit is looked up in a bucket that does not exist.
   */
  method LiteralsOverfill() returns (bitmap: Map, other: Map)
    ensures fresh(bitmap) && bitmap.Readable() && other.Valid() && bitmap.len == 224 && !bitmap.Valid()
    ensures bitmap.Contents() == AndBits(Same(true, 64), true, other.Contents(), false)
    ensures bitmap.bitsInBucket == 64 && (223 - bitmap.bucketsShift) / 64 > |bitmap.store.closed|
  {
    hide Uneven, Map.Readable, WellFormed, Pair.FinalLayout, AndBits, LastOk;
    bitmap := TwoWords();
    other := SevenWords();
    TwoContents(bitmap);
    ThirdStepOverfills();
    AndInto(bitmap, other, true, false);
    LastBitLost(bitmap);
  }

  lemma TwoContents(bitmap: Map)
    requires bitmap.Valid() && bitmap.store.All() == Repeat(ONES, 2) && bitmap.Value() == TWO
    ensures bitmap.Contents() == Same(true, 64)
  {
    RunBits(true, 2);
  }

  lemma LastBitLost(bitmap: Map)
    requires Matches(bitmap, 224, Overfull(0, false)) && bitmap.bitsInBucket == 64
    ensures bitmap.bucketsShift == 0 && 223 / 64 > |bitmap.store.closed|
  {
    TimesIs(|bitmap.store.closed| + 1, 64);
  }
}
