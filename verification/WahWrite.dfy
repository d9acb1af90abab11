/**
 Writing a word-aligned hybrid bitmap: bits are appended, runs of equal words are compressed, and full buckets are
 closed.
 */
module WahWrite {
  import opened Bits
  import opened WahFormat
  import opened WahBucket
  import WahBits

  // ---------------------------------------------------------------- bits

  lemma {:induction false} WordsBitsJoin(a: seq<U32>, b: seq<U32>)
    ensures WordsBits(a + b, false) == WordsBits(a, false) + WordsBits(b, false)
    decreases |a|
  {
    if a == [] {
      assert a + b == b;
    } else {
      assert (a + b)[1..] == a[1..] + b;
      WordsBitsJoin(a[1..], b);
      AssocBits(ToBits(a[0], 32), WordsBits(a[1..], false), WordsBits(b, false));
    }
  }

  lemma AssocBits(a: seq<bool>, b: seq<bool>, c: seq<bool>)
    ensures a + (b + c) == (a + b) + c
  {
  }

  /** The bits of `n` equal words */
  lemma RunBits(bit: bool, n: nat)
    ensures WordsBits(Repeat(RunWord(bit), n), false) == Same(bit, 32 * n)
  {
    WahBits.RepeatBits(bit, n, [], false);
    assert Repeat(RunWord(bit), n) + [] == Repeat(RunWord(bit), n);
    assert Same(bit, 32 * n) + [] == Same(bit, 32 * n);
  }

  lemma OneWord(w: U32)
    ensures WordsBits([w], false) == ToBits(w, 32) && Repeat(w, 1) == [w]
  {
    assert [w][1..] == [];
    assert ToBits(w, 32) + [] == ToBits(w, 32);
  }

  /** Pending bits followed by zeros: nothing has to be written. */
  lemma ZerosAfter(x: nat, n: nat, m: nat)
    requires x < Pow2(n)
    ensures ToBits(x, n + m) == ToBits(x, n) + Same(false, m) && x < Pow2(n + m)
  {
    forall i | n <= i < n + m ensures !Bit(x, i) { BitAbove(x, n, i); }
    Pow2Grows(n, n + m);
  }

  /** `BITMASK_LT(count) << at`: `count` ones from bit `at` on */
  function Mask(at: nat, count: nat): nat { Shl(Pow2(count) - 1, at) }

  lemma MaskBit(at: nat, count: nat, i: nat)
    ensures Bit(Mask(at, count), i) == (at <= i < at + count)
  {
    BitShl(Pow2(count) - 1, at, i);
    if at <= i < at + count {
      WahBits.OnesBit(count, i - at);
    } else if i >= at + count {
      BitAbove(Pow2(count) - 1, count, i - at);
    }
  }

  /** Pending bits followed by ones */
  lemma OnesAfter(x: nat, n: nat, m: nat)
    requires x < Pow2(n)
    ensures var y := Or(x, Mask(n, m));
      ToBits(y, n + m) == ToBits(x, n) + Same(true, m) && y < Pow2(n + m)
  {
    var y := Or(x, Mask(n, m));
    forall i: nat ensures Bit(y, i) == if i < n then Bit(x, i) else i < n + m {
      BitOr(x, Mask(n, m), i);
      MaskBit(n, m, i);
      if i >= n { BitAbove(x, n, i); }
    }
    BelowPow2(y, n + m);
  }

  /** The number of bits that are on */
  function Ones(s: seq<bool>): nat {
    if s == [] then 0 else (if s[0] then 1 else 0) + Ones(s[1..])
  }

  lemma {:induction false} OnesAtMost(s: seq<bool>)
    ensures Ones(s) <= |s|
  {
    if s != [] { OnesAtMost(s[1..]); }
  }

  lemma {:induction false} OnesSame(s: seq<bool>, bit: bool, n: nat)
    ensures Ones(s + Same(bit, n)) == Ones(s) + if bit then n else 0
    decreases |s|, n
  {
    var t := s + Same(bit, n);
    if s != [] {
      assert t[1..] == s[1..] + Same(bit, n);
      OnesSame(s[1..], bit, n);
    } else if n > 0 {
      assert t[1..] == [] + Same(bit, n - 1);
      OnesSame([], bit, n - 1);
    }
  }

  // ---------------------------------------------------------------- buckets

  /** The length a vector of words may have for bits to be added; the vectors of the library stop long before. */
  const LIMIT: nat := 0xffff_fff0

  lemma {:induction false} JoinBuckets(a: seq<seq<U32>>, tab: seq<U32>)
    requires BucketsOk(a) && BucketOk(tab)
    ensures BucketsOk(a + [tab]) && BucketsWords(a + [tab]) == BucketsWords(a) + Words(tab, 0)
    decreases |a|
  {
    if a == [] {
      assert a + [tab] == [tab] && [tab][1..] == [];
      assert Words(tab, 0) + [] == Words(tab, 0);
    } else {
      assert (a + [tab])[1..] == a[1..] + [tab];
      JoinBuckets(a[1..], tab);
      Assoc3(Words(a[0], 0), BucketsWords(a[1..]), Words(tab, 0));
    }
  }

  /** A new bucket */
  function NewBucket(): Last { Last([0, 0], -1, 0) }

  lemma NewBucketOk()
    ensures LastOk(NewBucket()) && LastWords(NewBucket()) == [] && EmptyChunk(NewBucket().tab, NewBucket().run)
  {
  }

  lemma NoWords(l: Last)
    requires LastOk(l) && LastWords(l) == []
    ensures EmptyChunk(l.tab, l.run) && l.run == 0 && |l.tab| == 2
  {
    assert ChunkWords(l.tab[l.run], l.tab[l.run + 2..]) == [];
    assert Repeat(RunWord(HeadBit(l.tab[l.run])), HeadWords(l.tab[l.run])) == [] && l.tab[l.run + 2..] == [];
  }

  lemma EmptyBucket(l: Last)
    requires LastOk(l) && EmptyChunk(l.tab, l.run)
    ensures LastWords(l) == []
  {
  }

  /** `_buckets`: the closed buckets and the last one */
  datatype Store = Store(closed: seq<seq<U32>>, last: Last) {
    predicate Ok() { BucketsOk(closed) && LastOk(last) }

    predicate Empty()
      requires Ok()
    {
      EmptyChunk(last.tab, last.run)
    }

    function All(): seq<U32>
      requires Ok()
    {
      BucketsWords(closed) + LastWords(last)
    }

    /** `__wah_push_pending` */
    method Push(w: U32, n: nat) returns (t: Store)
      requires Ok() && n > 0 && |last.tab| < ONES - 1
      requires w == 0 || w == ONES || n == 1
      ensures t.Ok() && !t.Empty() && t.closed == closed && |t.last.tab| <= |last.tab| + 1 + 2 * n
      ensures t.All() == All() + Repeat(w, n)
    {
      var r := PushPending(last, w, n);
      t := Store(closed, r);
      Assoc3(BucketsWords(closed), LastWords(last), Repeat(w, n));
    }

    /** `__wah_create_bucket` */
    method Close() returns (t: Store)
      requires Ok() && !Empty()
      ensures t.Ok() && t.closed == closed + [last.tab] && t.last == NewBucket() && t.All() == All()
    {
      t := Store(closed + [last.tab], NewBucket());
      WholeBucket(last);
      JoinBuckets(closed, last.tab);
      NewBucketOk();
      NoMore(BucketsWords(closed + [last.tab]));
    }
  }

  lemma NewStoreOk()
    ensures var s := Store([], NewBucket()); s.Ok() && s.Empty() && s.All() == []
  {
    NewBucketOk();
  }

  lemma RemainderWords(x: nat, b: nat)
    requires x % 32 == 0 && b > 0 && b % 32 == 0
    ensures (x % b) % 32 == 0 && (b - x % b) / 32 > 0
  {
    var m, k := x / 32, b / 32;
    WholeProduct(m / k, k);
    ModUnique(x, b, m / k, 32 * (m % k));
  }

  lemma WholeProduct(q: nat, k: nat)
    ensures q * (32 * k) == 32 * (q * k)
  {
  }

  lemma RepeatOn(w: U32, n: nat, left: nat, more: nat)
    requires more <= left <= n
    ensures Repeat(w, n - left) + Repeat(w, more) == Repeat(w, n - (left - more))
  {
    RepeatSum(w, n - left, more);
  }

  /** `n * b` */
  function Times(n: nat, b: nat): nat { if n == 0 then 0 else Times(n - 1, b) + b }

  lemma {:induction false} TimesIs(n: nat, b: nat)
    ensures Times(n, b) == n * b
  {
    if n > 0 {
      TimesIs(n - 1, b);
      assert n * b == (n - 1) * b + b;
    }
  }

  /** The closed buckets are full: `b` bits each, and `shift` more in the first one. */
  ghost predicate FullBuckets(closed: seq<seq<U32>>, b: nat, shift: nat) {
    BucketsOk(closed) && forall i | 0 <= i < |closed| :: 32 * |Words(closed[i], 0)| == if i == 0 then b + shift else b
  }

  lemma {:induction false} EqualBuckets(buckets: seq<seq<U32>>, b: nat)
    requires BucketsOk(buckets) && forall i | 0 <= i < |buckets| :: 32 * |Words(buckets[i], 0)| == b
    ensures 32 * |BucketsWords(buckets)| == Times(|buckets|, b)
    decreases |buckets|
  {
    hide Words, Chunked;
    if buckets != [] {
      assert forall i | 0 <= i < |buckets[1..]| :: buckets[1..][i] == buckets[i + 1];
      EqualBuckets(buckets[1..], b);
      assert BucketsWords(buckets) == Words(buckets[0], 0) + BucketsWords(buckets[1..]);
    }
  }

  lemma FullBits(closed: seq<seq<U32>>, b: nat, shift: nat)
    requires FullBuckets(closed, b, shift)
    ensures 32 * |BucketsWords(closed)| == Times(|closed|, b) + if closed == [] then 0 else shift
  {
    hide Words, Chunked;
    if closed != [] {
      assert forall i | 0 <= i < |closed[1..]| :: closed[1..][i] == closed[i + 1];
      EqualBuckets(closed[1..], b);
      assert BucketsWords(closed) == Words(closed[0], 0) + BucketsWords(closed[1..]);
    }
  }

  /** A bucket that is closed when it is full */
  lemma ClosedFull(s: Store, b: nat, shift: nat)
    requires s.Ok() && !s.Empty() && FullBuckets(s.closed, b, shift)
    requires 32 * |s.All()| == Times(|s.closed| + 1, b) + shift
    ensures FullBuckets(s.closed + [s.last.tab], b, shift)
  {
    FullBits(s.closed, b, shift);
    WholeBucket(s.last);
    JoinBuckets(s.closed, s.last.tab);
  }

  /** A bucket that is closed when it is overfull, or after one that is not full */
  lemma ClosedBroken(s: Store, b: nat, shift: nat)
    requires s.Ok() && !s.Empty()
    requires !FullBuckets(s.closed, b, shift) || 32 * |s.All()| > Times(|s.closed| + 1, b) + shift
    ensures !FullBuckets(s.closed + [s.last.tab], b, shift)
  {
    hide Words, Chunked, LastWords;
    WholeBucket(s.last);
    var closed := s.closed + [s.last.tab];
    assert closed[|s.closed|] == s.last.tab;
    if FullBuckets(closed, b, shift) {
      assert forall i | 0 <= i < |s.closed| :: s.closed[i] == closed[i];
      FullBits(s.closed, b, shift);
    }
  }

  /** The first bucket is not longer than everything. */
  lemma FirstShort(s: Store, b: nat, shift: nat)
    requires s.Ok() && s.closed != [] && 32 * |s.All()| < b + shift
    ensures !FullBuckets(s.closed, b, shift)
  {
    hide Words, Chunked, LastWords;
    assert BucketsWords(s.closed) == Words(s.closed[0], 0) + BucketsWords(s.closed[1..]);
  }

  /** The words for which a bucket has room under any layout, so that its vector does not overflow */
  const BOUND: nat := 0x4000_0000

  lemma {:induction false} ChunksShort(tab: seq<U32>, p: nat)
    requires Chunked(tab, p)
    ensures |tab| - p <= 3 * |Words(tab, p)|
    decreases |tab| - p
  {
    if p < |tab| { ChunksShort(tab, ChunkEnd(tab, p)); }
  }

  lemma BucketShort(s: Store)
    requires s.Ok()
    ensures |s.last.tab| <= 3 * |s.All()| + 2
  {
    ChunksShort(s.last.tab[..s.last.run], 0);
  }

  /** `wah_t` */
  class Map {
    /** `WAH_BITS_IN_BUCKET` */
    const bitsInBucket: nat
    var len: nat
    var active: nat
    var store: Store
    var bucketsShift: nat
    var pending: U32

    /** `wah_buckets_shifted_len` */
    function Capacity(): nat
      reads this
    {
      Times(|store.closed| + 1, bitsInBucket) + bucketsShift
    }

    /** All buckets but the last are full, and the last is not overfull. */
    ghost predicate Filled(n: nat)
      reads this
    {
      && bitsInBucket > 0 && bitsInBucket % 32 == 0 && bucketsShift % 32 == 0 && Capacity() % 32 == 0
      && Capacity() - bitsInBucket <= n <= Capacity()
      && FullBuckets(store.closed, bitsInBucket, bucketsShift)
      && (store.closed == [] ==> bucketsShift == if n > bitsInBucket then n - bitsInBucket else 0)
    }

    /** Buckets and shift are whole words. */
    ghost predicate Shaped()
      reads this
    {
      bitsInBucket > 0 && bitsInBucket % 32 == 0 && bucketsShift % 32 == 0 && bucketsShift <= len
    }

    /** Whole words only: no bit is pending. */
    ghost predicate Aligned()
      reads this
    {
      && store.Ok() && (store.Empty() ==> store.closed == [])
      && len == 32 * |store.All()| && Shaped()
    }

    /** The layout: buckets are filled one after the other, and only equal bits may overfill the first one. */
    ghost predicate Laid()
      reads this
    {
      Filled(len) && active <= len && (store.closed != [] ==> 0 < active < len)
    }

    /** The last bucket is overfull. */
    ghost predicate Over(n: nat)
      reads this
    {
      FullBuckets(store.closed, bitsInBucket, bucketsShift) && n > Capacity()
    }

    /** A bucket that is closed is not full, or overfull. */
    ghost predicate Lost()
      reads this
    {
      store.closed != [] && !FullBuckets(store.closed, bitsInBucket, bucketsShift)
    }

    /** As many bits are on as if all were. */
    predicate Uniform(bit: bool)
      reads this
    {
      active == if bit then len else 0
    }

    /** `wah_set_buckets_shift` */
    method SetBucketsShift()
      requires Shaped() && len % 32 == 0
      modifies `bucketsShift
      ensures Shaped() && (store.closed == [] && (old(bucketsShift) == 0 || len > bitsInBucket) ==> Filled(len))
      ensures bucketsShift == if len > bitsInBucket then len - bitsInBucket else old(bucketsShift)
    {
      TimesIs(1, bitsInBucket);
      if len > bitsInBucket {
        bucketsShift := len - bitsInBucket;
      }
    }

    /** `wah_push_pending`: equal words, bucket by bucket */
    method PushWords(w: U32, words: nat)
      requires Aligned() && words > 0 && |store.last.tab| < ONES - 1 && (w == 0 || w == ONES || words == 1)
      requires Filled(len) || |store.All()| + words <= BOUND
      modifies `len, `store
      ensures Aligned() && store.All() == old(store.All()) + Repeat(w, words) && len == old(len) + 32 * words
      ensures old(Filled(len)) ==> Filled(len)
      ensures old(Over(len) || Lost()) ==> Lost()
    {
      hide Filled, Over, Lost, Store.Ok, Store.All, Repeat;
      var left: nat := words;
      ghost var added, start, filled := [], store.All(), Filled(len);
      NoRepeat(start, w);
      while left > 0
        invariant Aligned() && left <= words && (filled ==> Filled(len)) && (filled || |start| + words <= BOUND)
        invariant left == 0 || (filled && len == Capacity()) || |store.last.tab| < ONES - 1
        invariant added == Repeat(w, words - left) && store.All() == start + added
        invariant old(Over(len) || Lost()) ==> Lost() || (left == words && Over(len))
      {
        var toAdd;
        ghost var more;
        toAdd, more := PushSome(w, left);
        RepeatOn(w, words, left, toAdd);
        Assoc3(start, added, more);
        left, added := left - toAdd, added + more;
        if !filled { BucketShort(store); }
      }
    }

    /** `bucket_len`: the bits in the last bucket, or none if it is full */
    lemma BucketLen()
      requires Filled(len) && len % 32 == 0 && bucketsShift <= len
      ensures (len - bucketsShift) % bitsInBucket == if len == Capacity() then 0 else len - (Capacity() - bitsInBucket)
    {
      var n := |store.closed|;
      TimesIs(n, bitsInBucket);
      TimesIs(n + 1, bitsInBucket);
      if len == Capacity() {
        ModUnique(len - bucketsShift, bitsInBucket, n + 1, 0);
      } else {
        ModUnique(len - bucketsShift, bitsInBucket, n, len - (Capacity() - bitsInBucket));
      }
    }

    lemma WholeWords(b: nat, n: nat, capacity: nat, len: nat)
      requires b > 0 && b % 32 == 0 && capacity % 32 == 0 && len % 32 == 0
      requires n == if len == capacity then 0 else len - (capacity - b)
      requires capacity - b <= len <= capacity
      ensures (b - n) / 32 > 0 && 32 * ((b - n) / 32) == if len == capacity then b else capacity - len
    {
    }

    lemma NotEmpty()
      requires Aligned() && len > 0
      ensures !store.Empty()
    {
      if store.Empty() { EmptyBucket(store.last); }
    }

    /** One turn of the loop: what the last bucket has room for, or a new bucket if it is full */
    method PushSome(w: U32, words: nat) returns (toAdd: nat, ghost added: seq<U32>)
      requires Aligned() && words > 0 && (w == 0 || w == ONES || words == 1)
      requires (Filled(len) && len == Capacity()) || |store.last.tab| < ONES - 1
      modifies `len, `store
      ensures Aligned() && 0 < toAdd <= words
      ensures old(Filled(len)) ==> Filled(len) && (toAdd == words || len == Capacity())
      ensures added == Repeat(w, toAdd) && store.All() == old(store.All()) + added && len == old(len) + 32 * toAdd
      ensures old(Over(len) || Lost()) ==> Lost()
    {
      hide Filled, LastOk, FullBuckets;
      var some := MakeRoom();
      toAdd := if words < some then words else some;
      added := Repeat(w, toAdd);
      PutWords(w, toAdd);
    }

    method PutWords(w: U32, n: nat)
      requires store.Ok() && len == 32 * |store.All()| && Shaped()
      requires |store.last.tab| < ONES - 1 && n > 0 && (w == 0 || w == ONES || n == 1)
      modifies `len, `store
      ensures Aligned() && store.All() == old(store.All()) + Repeat(w, n) && len == old(len) + 32 * n
      ensures store.closed == old(store.closed) && Capacity() == old(Capacity())
      ensures old(Filled(len)) && old(len) < Capacity() && len <= Capacity() ==> Filled(len)
    {
      hide FullBuckets, LastOk;
      if Filled(len) && len < Capacity() && len + n * 32 <= Capacity() { FilledUpTo(len, len + n * 32); }
      len := len + n * 32;
      store := store.Push(w, n);
    }

    lemma FilledUpTo(n: nat, m: nat)
      requires Filled(n) && n < Capacity() && n <= m <= Capacity()
      ensures Filled(m)
    {
      TimesIs(1, bitsInBucket);
    }

    /** The words that the last bucket has room for; if there is none, a new bucket is created. */
    method MakeRoom() returns (some: nat)
      requires Aligned() && ((Filled(len) && len == Capacity()) || |store.last.tab| < ONES - 1)
      modifies `store
      ensures store.Ok() && store.All() == old(store.All()) && |store.last.tab| < ONES - 1 && some > 0
      ensures old(Filled(len)) ==> len + 32 * some == Capacity() && Filled(len)
      ensures old(Over(len) || Lost()) ==> Lost()
    {
      some := FreeWords();
      if len != 0 && len >= Capacity() {
        NextBucket();
      }
    }

    method NextBucket()
      requires Aligned() && len != 0 && len >= Capacity()
      modifies `store
      ensures store.Ok() && store.All() == old(store.All()) && store.last == NewBucket()
      ensures store.closed == old(store.closed) + [old(store.last.tab)]
      ensures Capacity() == old(Capacity()) + bitsInBucket
      ensures old(Filled(len)) ==> Filled(len) && len + bitsInBucket == Capacity()
      ensures old(Over(len) || Lost()) ==> Lost()
    {
      hide LastOk;
      NotEmpty();
      if Filled(len) { ClosedFull(store, bitsInBucket, bucketsShift); }
      if Over(len) || Lost() { ClosedBroken(store, bitsInBucket, bucketsShift); }
      CreateBucket();
    }

    method FreeWords() returns (some: nat)
      requires Shaped() && len % 32 == 0
      ensures some > 0
      ensures Filled(len) ==> 32 * some == if len == Capacity() then bitsInBucket else Capacity() - len
    {
      var bucketLen := (len - bucketsShift) % bitsInBucket;
      some := (bitsInBucket - bucketLen) / 32;
      RemainderWords(len - bucketsShift, bitsInBucket);
      if Filled(len) {
        BucketLen();
        WholeWords(bitsInBucket, bucketLen, Capacity(), len);
      }
    }

    /** `__wah_create_bucket` */
    method CreateBucket()
      requires store.Ok() && !store.Empty() && bitsInBucket > 0
      modifies `store
      ensures store.Ok() && store.All() == old(store.All()) && store.last == NewBucket()
      ensures store.closed == old(store.closed) + [old(store.last.tab)]
      ensures Capacity() == old(Capacity()) + bitsInBucket
    {
      store := store.Close();
    }

    /** While all bits are equal, the first bucket may be overfilled. */
    method Overfill(bit: bool, words: nat)
      requires Aligned() && words > 0 && |store.last.tab| < ONES - 1
      modifies `len, `store, `bucketsShift
      ensures Aligned() && store.All() == old(store.All()) + Repeat(RunWord(bit), words)
      ensures len == old(len) + words * 32 && store.closed == old(store.closed)
      ensures store.closed == [] && (old(bucketsShift) == 0 || len > bitsInBucket) ==> Filled(len)
      ensures bucketsShift == if len > bitsInBucket then len - bitsInBucket else old(bucketsShift)
    {
      len := len + words * 32;
      store := store.Push(RunWord(bit), words);
      SetBucketsShift();
    }

    /** `wah_push_pending_0s`, `wah_push_pending_1s` */
    method PushEqual(bit: bool, words: nat)
      requires Aligned() && words > 0 && |store.last.tab| < ONES - 1
      requires Laid() || |store.All()| + words <= BOUND
      modifies `len, `active, `store, `bucketsShift
      ensures Aligned() && store.All() == old(store.All()) + Repeat(RunWord(bit), words) && len == old(len) + 32 * words
      ensures active == old(active) + if bit then words * 32 else 0
      ensures old(Laid()) ==> Laid()
      ensures if old(Uniform(bit))
        then
          && store.closed == old(store.closed) && bucketsShift == (if len > bitsInBucket then len - bitsInBucket else old(bucketsShift))
          && (store.closed == [] && (old(bucketsShift) == 0 || len > bitsInBucket) ==> Filled(len))
          && (old(Lost()) || (store.closed != [] && len > bitsInBucket) ==> Lost())
        else
          bucketsShift == old(bucketsShift) && (old(Filled(len)) ==> Filled(len)) && (old(Over(len) || Lost()) ==> Lost())
    {
      hide FullBuckets, Store.Ok, Store.All;
      if Uniform(bit) {
        ghost var before := store;
        Overfill(bit, words);
        if store.closed != [] && len > bitsInBucket { FirstShort(before, bitsInBucket, bucketsShift); }
      } else {
        PushWords(RunWord(bit), words);
      }
      active := active + if bit then words * 32 else 0;
    }

    /** A pending word that is now complete joins the buckets. */
    method FinishWord(uniform: bool)
      requires store.Ok() && (store.Empty() ==> store.closed == []) && |store.last.tab| < ONES - 1
      requires len == 32 * |store.All()| + 32 && Filled(len - 32) && (uniform ==> store.closed == [])
      modifies `store, `bucketsShift, `pending
      ensures Aligned() && Filled(len) && store.All() == old(store.All()) + [old(pending)] && pending == 0
      ensures |store.last.tab| <= old(|store.last.tab|) + 5
      ensures uniform ==> store.closed == []
    {
      hide FullBuckets, LastOk;
      RoomForOne(uniform);
      store := store.Push(pending, 1);
      OneWord(pending);
      pending := 0;
    }

    method RoomForOne(uniform: bool)
      requires store.Ok() && (store.Empty() ==> store.closed == []) && |store.last.tab| < ONES - 1
      requires len == 32 * |store.All()| + 32 && Filled(len - 32) && (uniform ==> store.closed == [])
      modifies `store, `bucketsShift
      ensures store.Ok() && store.All() == old(store.All()) && Filled(len)
      ensures |store.last.tab| < ONES - 1 && |store.last.tab| <= old(|store.last.tab|) + 2
      ensures uniform ==> store.closed == []
    {
      hide FullBuckets, LastOk;
      if uniform {
        SetBucketsShift();
      } else if len > Capacity() {
        CloseForOne();
      } else {
        FilledUpTo(len - 32, len);
      }
    }

    method CloseForOne()
      requires store.Ok() && len == 32 * |store.All()| + 32 && Filled(len - 32) && len > Capacity()
      modifies `store
      ensures store.Ok() && store.All() == old(store.All()) && store.last == NewBucket() && Filled(len)
    {
      FullAt(|store.All()|, Capacity());
      if store.Empty() { EmptyBucket(store.last); FullBits(store.closed, bitsInBucket, bucketsShift); }
      ClosedFull(store, bitsInBucket, bucketsShift);
      CreateBucket();
    }

    lemma FullAt(words: nat, capacity: nat)
      requires capacity % 32 == 0 && 32 * words <= capacity < 32 * words + 32
      ensures 32 * words == capacity
    {
    }

    /** The bits of the bitmap */
    ghost function Contents(): seq<bool>
      requires store.Ok()
      reads this
    {
      WordsBits(store.All(), false) + ToBits(pending, len % 32)
    }

    /** What readers rely on: words and pending bits make up the length. */
    ghost predicate Readable()
      reads this
    {
      && store.Ok() && (store.Empty() ==> store.closed == [])
      && len == 32 * |store.All()| + len % 32 && pending < Pow2(len % 32)
    }

    ghost predicate Valid()
      reads this
    {
      && Readable() && Filled(len - len % 32)
      && active <= len && (store.closed != [] ==> 0 < active < len)
      && active == Ones(Contents())
    }

    /** `wah_reset_map` */
    constructor (bitsInBucket: nat)
      requires bitsInBucket > 0 && bitsInBucket % 32 == 0
      ensures Valid() && Contents() == [] && this.bitsInBucket == bitsInBucket
    {
      this.bitsInBucket := bitsInBucket;
      len, active, bucketsShift, pending := 0, 0, 0, 0;
      store := Store([], NewBucket());
      new;
      NewStoreOk();
      TimesIs(1, bitsInBucket);
      assert Contents() == [];
    }

    /** `wah_reset_map` on a bitmap that is in use */
    method Reset()
      requires bitsInBucket > 0 && bitsInBucket % 32 == 0
      modifies this
      ensures Aligned() && Laid() && store.All() == [] && len == active == pending == 0
    {
      len, active, bucketsShift, pending := 0, 0, 0, 0;
      store := Store([], NewBucket());
      NewStoreOk();
      TimesIs(1, bitsInBucket);
    }

    /** `wah_push_pending` of one word */
    method PushOne(w: U32)
      requires Aligned() && |store.All()| < BOUND
      modifies `len, `active, `store
      ensures Aligned() && store.All() == old(store.All()) + [w] && len == old(len) + 32
      ensures active == old(active) + Ones(ToBits(w, 32))
      ensures old(Filled(len)) ==> Filled(len)
      ensures bucketsShift == old(bucketsShift) && (old(Over(len) || Lost()) ==> Lost())
    {
      hide FullBuckets, LastOk;
      BucketShort(store);
      OneWord(w);
      PushWords(w, 1);
      active := active + Ones(ToBits(w, 32));
    }

    /** The bits for which the last bucket has room, or a new one if it is full */
    function Room(): int
      reads this
    {
      if len == Capacity() then bitsInBucket else Capacity() - len
    }

    /** Literal words fit into the bucket, and do not continue a closed bucket of equal bits. */
    ghost predicate LiteralsFit(ws: seq<U32>)
      reads this
    {
      && 32 * |ws| <= Room()
      && (len == Capacity() && store.closed == [] ==> 0 < active + Ones(WordsBits(ws, false)) < len + 32 * |ws|)
    }

    /**
     The end of `wah_copy_run`: literal words, all in one bucket.  The layout is kept exactly when they fit, unless a
     bucket of equal bits is closed and the words are more of these.
     */
    method AppendLiterals(ws: seq<U32>)
      requires Aligned() && ws != [] && |store.All()| + |ws| <= BOUND
      modifies `len, `active, `store
      ensures Aligned() && store.All() == old(store.All()) + ws && len == old(len) + 32 * |ws|
      ensures active == old(active) + Ones(WordsBits(ws, false))
      ensures |store.closed| == |old(store.closed)| + if old(len != 0 && len == Capacity()) then 1 else 0
      ensures old(Laid()) ==> (Laid() <==> old(LiteralsFit(ws)))
      ensures old(Filled(len)) && 32 * |ws| <= old(Room()) ==> Filled(len)
      ensures old(Filled(len)) && 32 * |ws| > old(Room()) ==> Over(len)
      ensures (old(Over(len)) ==> Over(len)) && (old(Lost()) ==> Lost())
    {
      hide FullBuckets, Store.Ok, Store.All, Store.Empty, WordsBits, Ones;
      WahBits.WordsBitsLength(ws, false);
      OnesAtMost(WordsBits(ws, false));
      RoomForLiterals();
      active := active + Ones(WordsBits(ws, false));
      Lengthen(ws);
    }

    method RoomForLiterals()
      requires Aligned() && |store.All()| < BOUND
      modifies `store
      ensures store.Ok() && store.All() == old(store.All()) && HeadWords(store.last.tab[store.last.run]) != 1
      ensures |store.closed| == |old(store.closed)| + if old(len != 0 && len == Capacity()) then 1 else 0
      ensures old(Filled(len)) ==> Filled(len) && Capacity() - len == old(Room())
      ensures (old(Over(len)) ==> Over(len)) && (old(Lost()) ==> Lost())
    {
      hide FullBuckets, LastOk;
      Flatten();
      if len != 0 && len == Capacity() {
        NextBucket();
      }
    }

    /** `wah_flatten_last_run` */
    method Flatten()
      requires Aligned() && |store.All()| < BOUND
      modifies `store
      ensures Aligned() && store.All() == old(store.All()) && store.closed == old(store.closed)
      ensures HeadWords(store.last.tab[store.last.run]) != 1
      ensures old(Filled(len)) ==> Filled(len)
    {
      BucketShort(store);
      var f := FlattenLastRun(store.last);
      if EmptyChunk(f.tab, f.run) { EmptyBucket(f); NoWords(store.last); }
      store := Store(store.closed, f);
    }

    method Lengthen(ws: seq<U32>)
      requires store.Ok() && len == 32 * |store.All()| && Shaped()
      requires ws != [] && |store.All()| + |ws| <= BOUND && HeadWords(store.last.tab[store.last.run]) != 1
      modifies `len, `store
      ensures Aligned() && store.All() == old(store.All()) + ws && len == old(len) + 32 * |ws|
      ensures store.closed == old(store.closed) && Capacity() == old(Capacity())
      ensures old(Filled(len)) ==> (Filled(len) <==> len <= Capacity())
    {
      TimesIs(1, bitsInBucket);
      BucketShort(store);
      var l := store.last;
      var r := l.(tab := l.tab[l.run + 1 := l.tab[l.run + 1] + |ws|] + ws);
      Lengthened(l, r, ws);
      Assoc3(BucketsWords(store.closed), LastWords(l), ws);
      store := Store(store.closed, r);
      len := len + |ws| * 32;
    }

    /** Whole words only, and counters that agree with them */
    ghost predicate Ready()
      reads this
    {
      && Aligned() && pending == 0 && Laid()
      && active == Ones(WordsBits(store.All(), false))
    }

    /** `wah_add0s`, `wah_add1s` */
    method Add(bit: bool, count: nat)
      requires Valid() && |store.last.tab| < LIMIT
      modifies this
      ensures Valid() && Contents() == old(Contents()) + Same(bit, count)
    {
      var remain := len % 32;
      if remain + count < 32 {
        AddShort(bit, count);
        return;
      }
      var left := count;
      if remain > 0 {
        left := left - (32 - remain);
        Complete(bit);
      } else {
        NothingPending();
      }
      AddWhole(bit, left);
      if remain > 0 { SameTwice(old(Contents()), bit, 32 - remain, left); }
    }

    method AddWhole(bit: bool, count: nat)
      requires Ready() && |store.last.tab| < ONES - 1
      modifies `len, `active, `store, `bucketsShift, `pending
      ensures Valid() && Contents() == old(WordsBits(store.All(), false)) + Same(bit, count)
    {
      ghost var bits := WordsBits(store.All(), false);
      var rest := PushWhole(bit, count);
      SetPending(bit, rest);
      SameTwice(bits, bit, count - rest, rest);
    }

    /** Fewer bits than fill the pending word */
    method AddShort(bit: bool, count: nat)
      requires Valid() && len % 32 + count < 32
      modifies `len, `active, `pending
      ensures Valid() && Contents() == old(Contents()) + Same(bit, count)
    {
      hide FullBuckets, LastOk;
      ghost var remain := len % 32;
      OnesSame(Contents(), bit, count);
      AssocBits(WordsBits(store.All(), false), ToBits(pending, remain), Same(bit, count));
      AddPending(bit, count);
      PendingSet(remain + count);
    }

    method AddPending(bit: bool, count: nat)
      requires pending < Pow2(len % 32) && len % 32 + count <= 32
      modifies `len, `active, `pending
      ensures len == old(len) + count && active == old(active) + if bit then count else 0
      ensures pending < Pow2(old(len) % 32 + count)
      ensures ToBits(pending, old(len) % 32 + count) == ToBits(old(pending), old(len) % 32) + Same(bit, count)
    {
      var remain := len % 32;
      if bit {
        OnesAfter(pending, remain, count);
        Small(Or(pending, Mask(remain, count)), remain + count);
        pending := Or(pending, Mask(remain, count));
        active := active + count;
      } else {
        ZerosAfter(pending, remain, count);
      }
      len := len + count;
    }

    /** The pending word is filled up. */
    method Complete(bit: bool)
      requires Valid() && |store.last.tab| < LIMIT && len % 32 > 0
      modifies `len, `active, `store, `bucketsShift, `pending
      ensures Ready() && |store.last.tab| < ONES - 1
      ensures WordsBits(store.All(), false) == old(Contents()) + Same(bit, 32 - old(len) % 32)
    {
      hide Filled, LastOk;
      ghost var words, remain := store.All(), len % 32;
      ghost var w := CompletePending(bit);
      Completed(words, w, ToBits(old(pending), remain), bit, 32 - remain);
    }

    method CompletePending(bit: bool) returns (ghost w: U32)
      requires Valid() && |store.last.tab| < LIMIT && len % 32 > 0
      modifies `len, `active, `store, `bucketsShift, `pending
      ensures Aligned() && pending == 0 && |store.last.tab| < ONES - 1 && Laid()
      ensures active == old(active) + if bit then 32 - old(len) % 32 else 0
      ensures store.All() == old(store.All()) + [w]
      ensures ToBits(w, 32) == ToBits(old(pending), old(len) % 32) + Same(bit, 32 - old(len) % 32)
    {
      hide Filled, LastOk;
      FillPending(bit);
      w := pending;
      FinishWord(active == if bit then len else 0);
    }

    method FillPending(bit: bool)
      requires Valid() && len % 32 > 0
      modifies `len, `active, `pending
      ensures len == 32 * |store.All()| + 32 && Filled(len - 32)
      ensures active == old(active) + (if bit then 32 - old(len) % 32 else 0) && active <= len
      ensures if bit then active > 0 else active < len
      ensures ToBits(pending, 32) == ToBits(old(pending), old(len) % 32) + Same(bit, 32 - old(len) % 32)
    {
      hide FullBuckets, Store.Ok, Store.All, Contents, Ones, Times, ToBits;
      AddPending(bit, 32 - len % 32);
      assert len - 32 == old(len - len % 32);
    }

    /** The whole words among the bits to add; the others are left. */
    method PushWhole(bit: bool, count: nat) returns (rest: nat)
      requires Ready() && |store.last.tab| < ONES - 1
      modifies `len, `active, `store, `bucketsShift
      ensures Ready() && rest < 32 && rest <= count
      ensures WordsBits(store.All(), false) == old(WordsBits(store.All(), false)) + Same(bit, count - rest)
    {
      rest := count;
      if count >= 32 {
        var words := count / 32;
        PushedBits(store.All(), bit, words);
        PushEqual(bit, words);
        rest := count - words * 32;
      } else {
        assert Same(bit, 0) == [];
      }
    }

    /** The bits that are left are pending. */
    method SetPending(bit: bool, count: nat)
      requires Ready() && count < 32
      modifies `len, `active, `pending
      ensures Valid() && Contents() == WordsBits(store.All(), false) + Same(bit, count)
    {
      hide FullBuckets, LastOk;
      OnesSame(WordsBits(store.All(), false), bit, count);
      EqualBits(bit, count);
      if bit {
        pending := Pow2(count) - 1;
        active := active + count;
      }
      len := len + count;
      PendingSet(count);
    }

    /** `n` bits are pending. */
    lemma PendingSet(n: nat)
      requires store.Ok() && (store.Empty() ==> store.closed == []) && n < 32 && len == 32 * |store.All()| + n
      requires Filled(len - n) && pending < Pow2(n)
      requires active <= len && (store.closed != [] ==> 0 < active < len)
      requires active == Ones(WordsBits(store.All(), false) + ToBits(pending, n))
      ensures Valid() && Contents() == WordsBits(store.All(), false) + ToBits(pending, n)
    {
      hide FullBuckets, LastOk;
      assert len % 32 == n;
    }

    /** `wah_add1_at` past the end */
    method Add1At(pos: nat) returns (ok: bool)
      requires Valid() && pos >= len && |store.last.tab| < LIMIT
      modifies this
      ensures Valid()
      ensures ok ==> Contents() == old(Contents()) + Same(false, pos - old(len)) + [true]
      ensures !ok ==> |store.last.tab| >= LIMIT
    {
      if pos != len {
        Add(false, pos - len);
      }
      if |store.last.tab| >= LIMIT {
        return false;
      }
      assert old(Contents()) + Same(false, 0) == old(Contents());
      Add(true, 1);
      assert Same(true, 1) == [true];
      ok := true;
    }

    /** The bitmap as its readers see it */
    ghost function Value(): Wah
      reads this
    {
      Wah(len, store.closed + [store.last.tab], pending)
    }

    /** All words, as its readers see them */
    lemma AllBuckets()
      requires store.Ok() && !store.Empty()
      ensures BucketsOk(store.closed + [store.last.tab]) && BucketsWords(store.closed + [store.last.tab]) == store.All()
    {
      WholeBucket(store.last);
      JoinBuckets(store.closed, store.last.tab);
    }

    /** What was written is a well-formed bitmap and stands for the bits that were added. */
    lemma WrittenIsRead()
      requires Readable()
      ensures WellFormed(Value()) && BitsOf(Value(), false) == Contents() && FullWords(Value()) == store.All()
    {
      if len < 32 {
        assert store.All() == [];
        NoWords(store.last);
      } else {
        if store.Empty() { EmptyBucket(store.last); }
        AllBuckets();
      }
    }

    lemma NothingPending()
      requires Valid() && len % 32 == 0
      ensures Ready() && Contents() == WordsBits(store.All(), false)
    {
      assert Pow2(0) == 1;
      assert Contents() == WordsBits(store.All(), false);
    }
  }

  lemma Completed(words: seq<U32>, w: U32, a: seq<bool>, bit: bool, n: nat)
    requires ToBits(w, 32) == a + Same(bit, n)
    ensures WordsBits(words + [w], false) == (WordsBits(words, false) + a) + Same(bit, n)
    ensures Ones(WordsBits(words + [w], false)) == Ones(WordsBits(words, false) + a) + if bit then n else 0
  {
    WordsBitsJoin(words, [w]);
    OneWord(w);
    AssocBits(WordsBits(words, false), a, Same(bit, n));
    OnesSame(WordsBits(words, false) + a, bit, n);
  }

  lemma PushedBits(all: seq<U32>, bit: bool, words: nat)
    ensures WordsBits(all + Repeat(RunWord(bit), words), false) == WordsBits(all, false) + Same(bit, words * 32)
    ensures Ones(WordsBits(all, false) + Same(bit, words * 32)) == Ones(WordsBits(all, false)) + if bit then words * 32 else 0
  {
    WordsBitsJoin(all, Repeat(RunWord(bit), words));
    RunBits(bit, words);
    OnesSame(WordsBits(all, false), bit, words * 32);
  }

  /** Pending bits that are all equal */
  lemma EqualBits(bit: bool, n: nat)
    requires n < 32
    ensures var x := if bit then Pow2(n) - 1 else 0; x <= ONES && x < Pow2(n) && ToBits(x, n) == Same(bit, n)
  {
    var x := if bit then Pow2(n) - 1 else 0;
    forall i | 0 <= i < n ensures Bit(x, i) == bit {
      if bit { WahBits.OnesBit(n, i); } else { BitZero(i); }
    }
    Small(x, n);
  }

  lemma Small(x: nat, n: nat)
    requires x < Pow2(n) && n <= 32
    ensures x <= ONES
  {
    Pow2Grows(n, 32);
    WahBits.OnesIsPow2();
  }

  lemma SameTwice(s: seq<bool>, bit: bool, m: nat, n: nat)
    ensures (s + Same(bit, m)) + Same(bit, n) == s + Same(bit, m + n)
  {
  }

  // ---------------------------------------------------------------- writing and reading

  /** Equal bits to add */
  datatype Stretch = Stretch(bit: bool, count: nat)

  function Expand(items: seq<Stretch>): seq<bool> {
    if items == [] then [] else Same(items[0].bit, items[0].count) + Expand(items[1..])
  }

  /**
   Building a bitmap from any list of runs of bits and enumerating it, or its complement, visits exactly the positions
   of the set, or unset, bits of the list.
   */
  method BuildAndVisit(bitsInBucket: nat, items: seq<Stretch>, reverse: bool)
    returns (bitmap: Map, done: nat, keys: seq<nat>)
    requires bitsInBucket > 0 && bitsInBucket % 32 == 0
    ensures done <= |items| && (done < |items| ==> |bitmap.store.last.tab| >= LIMIT)
    ensures bitmap.Valid() && bitmap.Contents() == Expand(items[..done])
    ensures forall k: nat :: k in keys <==> k < |Expand(items[..done])| && Expand(items[..done])[k] != reverse
    ensures forall i, j | 0 <= i < j < |keys| :: keys[i] < keys[j]
  {
    bitmap, done := Build(bitsInBucket, items);
    bitmap.WrittenIsRead();
    keys := WahBits.ForEach(Wah(bitmap.len, bitmap.store.closed + [bitmap.store.last.tab], bitmap.pending), reverse);
    WahBits.PositionsIncrease(BitsOf(bitmap.Value(), reverse), 0);
    forall k: nat ensures k in keys <==> k < |Expand(items[..done])| && Expand(items[..done])[k] != reverse {
      WahBits.VisitedExactly(bitmap.Value(), reverse, k);
    }
  }

  /** A new bitmap with the bits of the list, as far as the vector of a bucket can hold them */
  method Build(bitsInBucket: nat, items: seq<Stretch>) returns (bitmap: Map, done: nat)
    requires bitsInBucket > 0 && bitsInBucket % 32 == 0
    ensures done <= |items| && (done < |items| ==> |bitmap.store.last.tab| >= LIMIT)
    ensures bitmap.Valid() && bitmap.Contents() == Expand(items[..done])
  {
    bitmap := new Map(bitsInBucket);
    done := AddAll(bitmap, items, []);
  }

  method AddAll(bitmap: Map, items: seq<Stretch>, ghost bits: seq<bool>) returns (done: nat)
    requires bitmap.Valid() && bitmap.Contents() == bits
    modifies bitmap
    ensures done <= |items| && (done < |items| ==> |bitmap.store.last.tab| >= LIMIT)
    ensures bitmap.Valid() && bitmap.Contents() == bits + Expand(items[..done])
    decreases |items|
  {
    if items == [] || |bitmap.store.last.tab| >= LIMIT {
      assert items[..0] == [];
      return 0;
    }
    ghost var first := Same(items[0].bit, items[0].count);
    bitmap.Add(items[0].bit, items[0].count);
    done := AddAll(bitmap, items[1..], bits + first);
    ExpandHead(items, done);
    AssocBits(bits, first, Expand(items[1..][..done]));
    done := done + 1;
  }

  lemma ExpandHead(items: seq<Stretch>, n: nat)
    requires items != [] && n < |items|
    ensures Expand(items[..n + 1]) == Same(items[0].bit, items[0].count) + Expand(items[1..][..n])
  {
    assert items[..n + 1][1..] == items[1..][..n];
  }
}
