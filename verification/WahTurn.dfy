/**
 The intersection of two word-aligned hybrid bitmaps as a sequence of turns that depend on the operands only: which words
 a turn writes, and whether the literals that it copies cross the end of a bucket.
 */
module WahTurn {
  import opened Bits
  import opened WahFormat
  import opened WahBucket
  import opened WahSpan
  import opened WahWrite
  import WahBits
  import WahGet

  // ---------------------------------------------------------------- words

  /** An operand: its words, with the pending bits as the last one, to be complemented or not */
  datatype Operand = Operand(words: seq<U32>, reverse: bool) {
    /** Word `i`, zeros past the end */
    function At(i: nat): U32 { Flip(if i < |words| then words[i] else 0, reverse) }

    function From(n: nat, k: nat): (ws: seq<U32>)
      ensures |ws| == k && forall i | 0 <= i < k :: ws[i] == At(n + i)
    {
      if k == 0 then [] else From(n, k - 1) + [At(n + k - 1)]
    }
  }

  ghost function OperandOf(wah: Wah, reverse: bool): Operand
    requires WellFormed(wah)
  {
    Operand(if wah.len % 32 != 0 then FullWords(wah) + [wah.pending] else FullWords(wah), reverse)
  }

  function AndWord(x: U32, y: U32): U32 { AndSmaller(x, y); And(x, y) }

  /** The `k` words of the result from word `n` on */
  function Both(a: Operand, b: Operand, n: nat, k: nat): (ws: seq<U32>)
    ensures |ws| == k && forall i | 0 <= i < k :: ws[i] == AndWord(a.At(n + i), b.At(n + i))
  {
    if k == 0 then [] else Both(a, b, n, k - 1) + [AndWord(a.At(n + k - 1), b.At(n + k - 1))]
  }

  lemma BothJoin(a: Operand, b: Operand, n: nat, k: nat)
    ensures Both(a, b, 0, n) + Both(a, b, n, k) == Both(a, b, 0, n + k)
  {
  }

  lemma AndZero(x: U32)
    ensures AndWord(x, 0) == 0 == AndWord(0, x)
  {
    forall i: nat ensures Bit(And(x, 0), i) == Bit(0, i) { BitAnd(x, 0, i); BitZero(i); }
    SameBits(And(x, 0), 0);
  }

  lemma AndOnes(x: U32)
    ensures AndWord(x, ONES) == x == AndWord(ONES, x)
  {
    forall i: nat
      ensures Bit(And(x, ONES), i) == Bit(x, i)
      ensures Bit(And(ONES, x), i) == Bit(x, i)
    {
      BitAnd(x, ONES, i);
      BitAnd(ONES, x, i);
      WahBits.OnesIsPow2();
      if i < 32 { WahBits.OnesBit(32, i); } else { BitAbove(x, 32, i); }
    }
    SameBits(And(x, ONES), x);
    SameBits(And(ONES, x), x);
  }

  lemma {:induction false} AllEqual(ws: seq<U32>, w: U32)
    requires forall i | 0 <= i < |ws| :: ws[i] == w
    ensures ws == Repeat(w, |ws|)
  {
    if ws != [] { AllEqual(ws[1..], w); }
  }

  lemma BothZero(a: Operand, b: Operand, n: nat, k: nat)
    requires a.From(n, k) == Repeat(0, k) || b.From(n, k) == Repeat(0, k)
    ensures Both(a, b, n, k) == Repeat(0, k)
  {
    var ws := Both(a, b, n, k);
    forall i | 0 <= i < k ensures ws[i] == 0 {
      WahGet.RepeatAt(0, k, i);
      assert a.From(n, k)[i] == a.At(n + i) && b.From(n, k)[i] == b.At(n + i);
      AndZero(a.At(n + i));
      AndZero(b.At(n + i));
    }
    AllEqual(ws, 0);
  }

  lemma BothOnes(a: Operand, b: Operand, n: nat, k: nat)
    ensures a.From(n, k) == Repeat(ONES, k) ==> Both(a, b, n, k) == b.From(n, k)
    ensures b.From(n, k) == Repeat(ONES, k) ==> Both(a, b, n, k) == a.From(n, k)
  {
    forall i | 0 <= i < k
      ensures a.From(n, k) == Repeat(ONES, k) ==> Both(a, b, n, k)[i] == b.From(n, k)[i]
      ensures b.From(n, k) == Repeat(ONES, k) ==> Both(a, b, n, k)[i] == a.From(n, k)[i]
    {
      WahGet.RepeatAt(ONES, k, i);
      assert a.From(n, k)[i] == a.At(n + i) && b.From(n, k)[i] == b.At(n + i);
      AndOnes(a.At(n + i));
      AndOnes(b.At(n + i));
    }
  }

  lemma FromJoin(op: Operand, n: nat, j: nat, k: nat)
    ensures op.From(n, j) + op.From(n + j, k) == op.From(n, j + k)
  {
  }

  lemma BothSwap(a: Operand, b: Operand, n: nat, k: nat)
    ensures Both(a, b, n, k) == Both(b, a, n, k)
  {
    forall i | 0 <= i < k ensures Both(a, b, n, k)[i] == Both(b, a, n, k)[i] {
      AndSwap(a.At(n + i), b.At(n + i));
    }
  }

  lemma AndSwap(x: nat, y: nat)
    ensures And(x, y) == And(y, x)
  {
    forall i: nat ensures Bit(And(x, y), i) == Bit(And(y, x), i) { BitAnd(x, y, i); BitAnd(y, x, i); }
    SameBits(And(x, y), And(y, x));
  }

  lemma OperandSize(wah: Wah)
    requires WellFormed(wah)
    ensures |FullWords(wah)| == wah.len / 32
    ensures |OperandOf(wah, false).words| == wah.len / 32 + if wah.len % 32 != 0 then 1 else 0
  {
  }

  lemma OnesJoin(a: seq<bool>, b: seq<bool>)
    ensures Ones(a + b) == Ones(a) + Ones(b)
  {
    if a == [] {
      assert a + b == b;
    } else {
      assert (a + b)[1..] == a[1..] + b;
      OnesJoin(a[1..], b);
    }
  }

  lemma CountJoin(ws: seq<U32>, more: seq<U32>)
    ensures Ones(WordsBits(ws + more, false)) == Ones(WordsBits(ws, false)) + Ones(WordsBits(more, false))
  {
    WordsBitsJoin(ws, more);
    OnesJoin(WordsBits(ws, false), WordsBits(more, false));
  }

  // ---------------------------------------------------------------- turns

  function Max(x: nat, y: nat): nat { if x < y then y else x }

  function Min(x: nat, y: nat): nat { if x < y then x else y }

  /** What an operand has at a word: equal words, or its end, which is like a run; literals; pending bits */
  datatype View = Equal(bit: bool, words: nat) | Literal(words: nat) | Pending

  ghost function ViewAt(wah: Wah, reverse: bool, n: nat, full: nat): View
    requires WellFormed(wah)
  {
    if n < wah.len / 32 then
      match SpanOf(wah.buckets, n)
      case Run(bit, left) => Equal(bit != reverse, left)
      case Literals(left) => Literal(left)
    else if n == wah.len / 32 && wah.len % 32 != 0 then Pending
    else Equal(reverse, if full < n then 0 else Min(full - n, MAX_RUN))
  }

  /** The cases of the switch of `wah_and_`: equal words, literals of one operand, or one word of each */
  datatype Step = Fill(words: nat, bit: bool) | Copy(words: nat) | Word

  function StepOf(s: View, o: View): Step {
    match (s, o)
    case (Equal(x, k), Equal(y, l)) =>
      if x && y then Fill(Min(k, l), true) else Fill(Max(if x then 0 else k, if y then 0 else l), false)
    case (Equal(x, k), Literal(l)) => if x then Copy(Min(k, l)) else Fill(k, false)
    case (Literal(k), Equal(y, l)) => if y then Copy(Min(l, k)) else Fill(l, false)
    case _ => Word
  }

  function StepWords(t: Step): nat { if t.Word? then 1 else t.words }

  // ---------------------------------------------------------------- layouts

  /** The buckets are filled as they should be, or the last of them is overfull, which may be the first, or one before it. */
  datatype Layout = Kept(shift: nat) | Overfull(shift: nat, first: bool) | Gone

  ghost predicate Matches(bitmap: Map, n: nat, l: Layout)
    reads bitmap
  {
    match l
    case Kept(shift) => bitmap.Filled(n) && bitmap.bucketsShift == shift
    case Overfull(shift, first) => bitmap.Over(n) && bitmap.bucketsShift == shift && (first <==> bitmap.store.closed == [])
    case Gone => bitmap.Lost()
  }

  /** All words are equal. */
  predicate Uniform(ws: seq<U32>, bit: bool) { Ones(WordsBits(ws, false)) == if bit then 32 * |ws| else 0 }

  /** After `ws`, `k` equal words: while all are equal, the first bucket takes them and the others shift. */
  function AfterEqual(l: Layout, size: nat, ws: seq<U32>, bit: bool, k: nat): Layout {
    var n, m := 32 * |ws|, 32 * (|ws| + k);
    if Uniform(ws, bit) then
      match l
      case Kept(shift) => if n > size + shift then Gone else if m > size then Kept(m - size) else l
      case Overfull(_, first) => if first && m > size then Kept(m - size) else Gone
      case Gone => Gone
    else if l.Kept? then l else Gone
  }

  /** One word of any kind */
  function AfterWord(l: Layout, size: nat, ws: seq<U32>, w: U32): Layout {
    if w == 0 || w == ONES then AfterEqual(l, size, ws, w == ONES, 1) else if l.Kept? then l else Gone
  }

  /** The bits that the last bucket has room for after `n` words, or a new bucket if it is full */
  function RoomAt(size: nat, shift: nat, n: nat): int
    requires size > 0
  {
    if 32 * n < size + shift then size + shift - 32 * n else size - (32 * n - shift) % size
  }

  /** After `n` words, `k` literals at once: they all go to one bucket. */
  function AfterLiterals(l: Layout, size: nat, n: nat, k: nat): Layout {
    match l
    case Kept(shift) =>
      if size > 0 && k > 0 && 32 * k > RoomAt(size, shift, n) then Overfull(shift, 32 * n < size + shift) else l
    case _ => l
  }

  /** Literals that are copied: a first one that is all zeros or all ones goes its own way. */
  function AfterCopy(l: Layout, size: nat, ws: seq<U32>, w: U32, k: nat): Layout {
    if k > 0 && (w == 0 || w == ONES) then AfterLiterals(AfterWord(l, size, ws, w), size, |ws| + 1, k - 1)
    else AfterLiterals(l, size, |ws|, k)
  }

  function AfterStep(l: Layout, size: nat, ws: seq<U32>, w: U32, t: Step): Layout {
    match t
    case Fill(k, bit) => AfterEqual(l, size, ws, bit, k)
    case Copy(k) => AfterCopy(l, size, ws, w, k)
    case Word => AfterWord(l, size, ws, w)
  }

  /** Two operands and whether they are complemented */
  datatype Pair = Pair(a: Wah, notA: bool, b: Wah, notB: bool) {
    ghost predicate Ok() { WellFormed(a) && WellFormed(b) }

    /** The whole words of the result */
    function Full(): nat { Max(a.len, b.len) / 32 }

    ghost function Step(n: nat): Step
      requires Ok()
    {
      StepOf(ViewAt(a, notA, n, Full()), ViewAt(b, notB, n, Full()))
    }

    /** The first `n` words of the result */
    ghost function Words(n: nat): (ws: seq<U32>)
      requires Ok()
      ensures |ws| == n
    {
      Both(OperandOf(a, notA), OperandOf(b, notB), 0, n)
    }

    ghost function WordAt(n: nat): U32
      requires Ok()
    {
      AndWord(OperandOf(a, notA).At(n), OperandOf(b, notB).At(n))
    }

    ghost function Next(size: nat, n: nat, l: Layout): Layout
      requires Ok()
    {
      AfterStep(l, size, Words(n), WordAt(n), Step(n))
    }

    /** The layout of the result, from word `n` on */
    ghost function LayoutFrom(size: nat, n: nat, l: Layout): Layout
      requires Ok()
      decreases Full() - n
    {
      if n >= Full() || StepWords(Step(n)) == 0 then l else LayoutFrom(size, n + StepWords(Step(n)), Next(size, n, l))
    }

    ghost function FinalLayout(size: nat): Layout
      requires Ok()
    {
      LayoutFrom(size, 0, Kept(0))
    }
  }

  /** Words fit into the last bucket exactly when there is room for them. */
  lemma RoomIs(bitmap: Map, n: nat)
    requires bitmap.Aligned() && bitmap.Filled(bitmap.len) && bitmap.len == 32 * n
    ensures bitmap.Room() == RoomAt(bitmap.bitsInBucket, bitmap.bucketsShift, n)
    ensures bitmap.store.closed == [] <==> bitmap.len <= bitmap.bitsInBucket + bitmap.bucketsShift
  {
    hide FullBuckets, LastOk;
    if bitmap.store.closed != [] { MoreThanOne(bitmap); }
    bitmap.BucketLen();
    TimesIs(1, bitmap.bitsInBucket);
  }

  /** After a bucket that is full there are more words. */
  lemma MoreThanOne(bitmap: Map)
    requires bitmap.store.Ok() && (bitmap.store.Empty() ==> bitmap.store.closed == [])
    requires bitmap.Filled(32 * |bitmap.store.All()|) && bitmap.store.closed != []
    ensures 32 * |bitmap.store.All()| > bitmap.bitsInBucket + bitmap.bucketsShift
  {
    hide Words, Chunked;
    var closed, size := bitmap.store.closed, bitmap.bitsInBucket;
    FullBits(closed, size, bitmap.bucketsShift);
    assert Times(|closed|, size) == Times(|closed| - 1, size) + size;
    if LastWords(bitmap.store.last) == [] { NoWords(bitmap.store.last); }
  }

  // ---------------------------------------------------------------- operands with buckets at multiples of their size

  /** A stretch of `k` words from word `n` on goes past the end of a bucket that begins at a multiple of `size` bits. */
  predicate Crosses(size: nat, n: nat, k: nat) { size > 0 && k > 0 && 32 * n / size != (32 * (n + k) - 1) / size }

  /** No literals of the operand lie across the end of a bucket. */
  ghost predicate LiteralsStay(wah: Wah, size: nat)
    requires WellFormed(wah)
  {
    forall n: nat | n < wah.len / 32 ::
      var s := SpanOf(wah.buckets, n); s.Literals? ==> !Crosses(size, n, s.left)
  }

  lemma CrossesLess(size: nat, n: nat, k: nat, i: nat, j: nat)
    requires !Crosses(size, n, k) && i + j <= k
    ensures !Crosses(size, n + i, j)
  {
    if size > 0 && j > 0 {
      DivGrows(32 * n, 32 * (n + i), size);
      DivGrows(32 * (n + i), 32 * (n + i + j) - 1, size);
      DivGrows(32 * (n + i + j) - 1, 32 * (n + k) - 1, size);
    }
  }

  lemma DivGrows(x: nat, y: nat, d: nat)
    requires d > 0 && x <= y
    ensures x / d <= y / d
  {
    if x / d > y / d { TimesGrows(y / d + 1, x / d, d); }
  }

  lemma TimesGrows(x: nat, y: nat, d: nat)
    requires x <= y
    ensures x * d <= y * d
  {
    assert y * d == x * d + (y - x) * d;
  }

  /** Everything in one bucket */
  lemma ShortStays(wah: Wah, size: nat)
    requires WellFormed(wah) && size > 0 && 32 * (wah.len / 32) <= size
    ensures LiteralsStay(wah, size)
  {
    hide SpanOf;
    forall n: nat | n < wah.len / 32 && SpanOf(wah.buckets, n).Literals?
      ensures !Crosses(size, n, SpanOf(wah.buckets, n).left)
    {
      OperandSize(wah);
      SpanEnds(wah.buckets, n);
      Within(32 * n, 32 * SpanOf(wah.buckets, n).left, size, 0);
    }
  }

  /** All buckets but the last are full, and the last is not overfull. */
  ghost predicate Even(buckets: seq<seq<U32>>, size: nat) {
    && BucketsOk(buckets)
    && forall i | 0 <= i < |buckets| ::
         var bits := 32 * |Words(buckets[i], 0)|; if i < |buckets| - 1 then bits == size else bits <= size
  }

  /** Buckets at multiples of their size */
  lemma EvenStays(wah: Wah, size: nat)
    requires WellFormed(wah) && size > 0 && Even(wah.buckets, size)
    ensures LiteralsStay(wah, size)
  {
    hide SpanOf, Even;
    forall n: nat | n < wah.len / 32 && SpanOf(wah.buckets, n).Literals?
      ensures !Crosses(size, n, SpanOf(wah.buckets, n).left)
    {
      OperandSize(wah);
      EvenSpan(wah.buckets, size, n);
    }
  }

  lemma {:induction false} EvenSpan(buckets: seq<seq<U32>>, size: nat, n: nat)
    requires Even(buckets, size) && size > 0 && n < |BucketsWords(buckets)|
    ensures !Crosses(size, n, SpanOf(buckets, n).left)
    decreases |buckets|
  {
    hide SpanIn, Words, Chunked;
    var words := |Words(buckets[0], 0)|;
    if n < words {
      SpanInEnds(buckets[0], 0, n);
      Within(32 * n, 32 * SpanIn(buckets[0], 0, n).left, size, 0);
    } else {
      assert forall i | 0 <= i < |buckets[1..]| :: buckets[1..][i] == buckets[i + 1];
      EvenSpan(buckets[1..], size, n - words);
      CrossesLater(size, n - words, SpanOf(buckets, n).left, words);
    }
  }

  lemma CrossesLater(size: nat, n: nat, k: nat, words: nat)
    requires 32 * words == size && !Crosses(size, n, k)
    ensures !Crosses(size, n + words, k)
  {
    if size > 0 && k > 0 {
      NextMultiple(32 * n, size);
      NextMultiple(32 * (n + k) - 1, size);
    }
  }

  lemma NextMultiple(x: nat, d: nat)
    requires d > 0
    ensures (x + d) / d == x / d + 1
  {
    DivIs(x + d, d, x / d + 1);
  }

  // ---------------------------------------------------------------- bits that are not all equal

  /** More words than fill a bucket are not all off, nor all on, in the bucket and one word more. */
  predicate Mixed(ws: seq<U32>, size: nat) {
    32 * |ws| <= size || 0 < Ones(WordsBits(ws[..size / 32 + 1], false)) < 32 * (size / 32 + 1)
  }

  lemma MixedBefore(ws: seq<U32>, more: seq<U32>, size: nat)
    requires Mixed(ws + more, size)
    ensures Mixed(ws, size)
  {
    if 32 * |ws| > size { assert (ws + more)[..size / 32 + 1] == ws[..size / 32 + 1]; }
  }

  lemma MixedOnes(ws: seq<U32>, size: nat)
    requires Mixed(ws, size) && 32 * |ws| > size
    ensures 0 < Ones(WordsBits(ws, false)) < 32 * |ws|
  {
    var n := size / 32 + 1;
    assert ws == ws[..n] + ws[n..];
    CountJoin(ws[..n], ws[n..]);
    WahBits.WordsBitsLength(ws[n..], false);
    OnesAtMost(WordsBits(ws[n..], false));
  }

  /** Literals that do not cross the end of a bucket fit. */
  lemma NotCrossing(size: nat, n: nat, k: nat)
    requires size > 0 && k > 0 && !Crosses(size, n, k)
    ensures 32 * k <= RoomAt(size, 0, n)
  {
    var q := 32 * n / size;
    assert 32 * n == q * size + 32 * n % size;
    Within(32 * n, 32 * k, size, q);
    if 32 * n < size { DivIs(32 * n, size, 0); }
  }

  /** Equal words keep it unless there are more than a bucket of them. */
  lemma EqualKept(ws: seq<U32>, size: nat, bit: bool, k: nat)
    requires Mixed(ws + Repeat(RunWord(bit), k), size)
    ensures AfterEqual(Kept(0), size, ws, bit, k) == Kept(0)
  {
    var all := ws + Repeat(RunWord(bit), k);
    if Uniform(ws, bit) && 32 * |all| > size {
      PushedBits(ws, bit, k);
      MixedOnes(all, size);
    }
  }

  /** Where an operand has equal words */
  lemma ViewEqual(wah: Wah, reverse: bool, n: nat, full: nat, i: nat)
    requires WellFormed(wah) && ViewAt(wah, reverse, n, full).Equal? && i < ViewAt(wah, reverse, n, full).words
    ensures OperandOf(wah, reverse).At(n + i) == RunWord(ViewAt(wah, reverse, n, full).bit)
    ensures wah.len / 32 <= full ==> n + i < full
  {
    hide SpanOf;
    OperandSize(wah);
    if n < wah.len / 32 { SpanEnds(wah.buckets, n); RunWords(wah.buckets, n, i); }
  }

  lemma ViewEnds(wah: Wah, reverse: bool, n: nat, full: nat)
    requires WellFormed(wah) && wah.len / 32 <= full && n < full
    ensures var v := ViewAt(wah, reverse, n, full); v.Pending? || n + v.words <= full
  {
    hide SpanOf;
    OperandSize(wah);
    if n < wah.len / 32 { SpanEnds(wah.buckets, n); }
  }

  lemma StepEnds(pair: Pair, n: nat)
    requires pair.Ok() && n < pair.Full()
    ensures n + StepWords(pair.Step(n)) <= pair.Full()
  {
    hide ViewAt, WellFormed;
    LongestWords(pair.a.len, pair.b.len);
    ViewEnds(pair.a, pair.notA, n, pair.Full());
    ViewEnds(pair.b, pair.notB, n, pair.Full());
  }

  lemma LongestWords(x: nat, y: nat)
    ensures x / 32 <= Max(x, y) / 32 && y / 32 <= Max(x, y) / 32
  {
  }

  lemma FillWord(pair: Pair, n: nat, i: nat)
    requires pair.Ok() && n < pair.Full() && pair.Step(n).Fill? && i < pair.Step(n).words
    ensures pair.WordAt(n + i) == RunWord(pair.Step(n).bit)
  {
    hide ViewAt, And;
    var full := pair.Full();
    var s, o := ViewAt(pair.a, pair.notA, n, full), ViewAt(pair.b, pair.notB, n, full);
    var a, b := OperandOf(pair.a, pair.notA), OperandOf(pair.b, pair.notB);
    if s.Equal? && i < s.words { ViewEqual(pair.a, pair.notA, n, full, i); }
    if o.Equal? && i < o.words { ViewEqual(pair.b, pair.notB, n, full, i); }
    AndZero(a.At(n + i));
    AndZero(b.At(n + i));
    AndOnes(ONES);
  }

  /** A step stays within the words of the result, and fills in what it says. */
  lemma StepIn(pair: Pair, n: nat)
    requires pair.Ok() && n < pair.Full()
    ensures n + StepWords(pair.Step(n)) <= pair.Full()
    ensures var t := pair.Step(n);
      t.Fill? ==> pair.Words(n + t.words) == pair.Words(n) + Repeat(RunWord(t.bit), t.words)
  {
    hide SpanOf, ViewAt;
    StepEnds(pair, n);
    var t := pair.Step(n);
    if t.Fill? {
      var a, b := OperandOf(pair.a, pair.notA), OperandOf(pair.b, pair.notB);
      var ws := Both(a, b, n, t.words);
      forall i | 0 <= i < t.words ensures ws[i] == RunWord(t.bit) { FillWord(pair, n, i); }
      AllEqual(ws, RunWord(t.bit));
      BothJoin(a, b, n, t.words);
    }
  }

  lemma StepKept(pair: Pair, size: nat, n: nat)
    requires pair.Ok() && size > 0 && LiteralsStay(pair.a, size) && LiteralsStay(pair.b, size)
    requires n < pair.Full() && Mixed(pair.Words(pair.Full()), size)
    ensures pair.Next(size, n, Kept(0)) == Kept(0)
  {
    hide ViewAt, AfterEqual, AfterWord, AfterLiterals, Mixed, LiteralsStay, WellFormed, Pair.Step, Pair.Words, Pair.WordAt;
    StepIn(pair, n);
    PrefixMixed(pair, size, n + StepWords(pair.Step(n)));
    match pair.Step(n) {
      case Fill(k, bit) => EqualKept(pair.Words(n), size, bit, k);
      case Word => WordKept(pair, size, n);
      case Copy(k) => CopyKept(pair, size, n);
    }
  }

  lemma CopyKept(pair: Pair, size: nat, n: nat)
    requires pair.Ok() && size > 0 && LiteralsStay(pair.a, size) && LiteralsStay(pair.b, size)
    requires pair.Step(n).Copy? && n + pair.Step(n).words <= pair.Full() && Mixed(pair.Words(pair.Full()), size)
    ensures pair.Next(size, n, Kept(0)) == Kept(0)
  {
    hide ViewAt, AfterWord, AfterLiterals, Mixed, LiteralsStay, WellFormed, Pair.Step, Pair.Words, Pair.WordAt;
    LiteralsKept(pair, size, n);
    if pair.Step(n).words > 0 {
      PrefixMixed(pair, size, n + 1);
      WordKept(pair, size, n);
    }
  }

  lemma PrefixMixed(pair: Pair, size: nat, n: nat)
    requires pair.Ok() && n <= pair.Full() && Mixed(pair.Words(pair.Full()), size)
    ensures Mixed(pair.Words(n), size)
  {
    hide Mixed, Both, OperandOf, WellFormed;
    var a, b := OperandOf(pair.a, pair.notA), OperandOf(pair.b, pair.notB);
    BothJoin(a, b, n, pair.Full() - n);
    MixedBefore(pair.Words(n), Both(a, b, n, pair.Full() - n), size);
  }

  lemma WordKept(pair: Pair, size: nat, n: nat)
    requires pair.Ok() && Mixed(pair.Words(n + 1), size)
    ensures AfterWord(Kept(0), size, pair.Words(n), pair.WordAt(n)) == Kept(0)
  {
    hide Mixed, AfterEqual;
    var w := pair.WordAt(n);
    assert pair.Words(n + 1) == pair.Words(n) + [w];
    OneWord(w);
    if w == 0 || w == ONES { EqualKept(pair.Words(n), size, w == ONES, 1); }
  }

  lemma LiteralsKept(pair: Pair, size: nat, n: nat)
    requires pair.Ok() && size > 0 && LiteralsStay(pair.a, size) && LiteralsStay(pair.b, size) && pair.Step(n).Copy?
    ensures var k := pair.Step(n).words;
      && AfterLiterals(Kept(0), size, n, k) == Kept(0)
      && (k > 0 ==> AfterLiterals(Kept(0), size, n + 1, k - 1) == Kept(0))
  {
    hide SpanOf, Crosses, RoomAt;
    var k := pair.Step(n).words;
    var s := SpanOf(if ViewAt(pair.a, pair.notA, n, pair.Full()).Literal? then pair.a.buckets else pair.b.buckets, n);
    CrossesLess(size, n, s.left, 0, k);
    if k > 0 { NotCrossing(size, n, k); }
    if k > 1 {
      CrossesLess(size, n, s.left, 1, k - 1);
      NotCrossing(size, n + 1, k - 1);
    }
  }

  /** Then the layout is kept, unless the result begins with more than a bucket of equal bits. */
  lemma {:induction false} StaysKept(pair: Pair, size: nat, n: nat)
    requires pair.Ok() && size > 0 && LiteralsStay(pair.a, size) && LiteralsStay(pair.b, size)
    requires Mixed(pair.Words(pair.Full()), size)
    ensures pair.LayoutFrom(size, n, Kept(0)) == Kept(0)
    decreases pair.Full() - n
  {
    hide WellFormed, Pair.Step, Pair.Words, LiteralsStay, Mixed, Pair.Next;
    if n < pair.Full() && StepWords(pair.Step(n)) > 0 {
      StepKept(pair, size, n);
      StaysKept(pair, size, n + StepWords(pair.Step(n)));
    }
  }

  /** Whether positions from `x` on stay below the next multiple of `size` */
  lemma Within(x: nat, m: nat, size: nat, q: nat)
    requires size > 0 && m > 0 && q * size <= x < q * size + size
    ensures x / size == q
    ensures (x + m - 1) / size == q <==> x + m <= q * size + size
  {
    DivIs(x, size, q);
    var y := x + m - 1;
    if y < q * size + size { DivIs(y, size, q); } else { DivGrows((q + 1) * size, y, size); DivIs((q + 1) * size, size, q + 1); }
  }

  lemma DivIs(x: nat, d: nat, q: nat)
    requires d > 0 && q * d <= x < q * d + d
    ensures x / d == q
  {
    var k := x / d - q;
    assert k * d == x / d * d - q * d;
    SmallMultiple(k, d);
  }
}
