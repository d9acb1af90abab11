/**
 Intersection of two word-aligned hybrid bitmaps, either of them complemented: both are enumerated word by word, and
 runs and literals of the result are written as they come.
 */
module WahAnd {
  import opened Bits
  import opened WahFormat
  import opened WahEnum
  import opened WahBucket
  import opened WahTurn
  import opened WahWrite
  import WahBits
  import WahGet
  import WahSpan

  // ---------------------------------------------------------------- enumerators in step

  /** The enumerator has passed `n` words of its operand. */
  ghost predicate Synced(en: WordEnum, op: Operand, n: nat)
    reads en
  {
    WellFormed(en.wah) && en.Valid() && op == OperandOf(en.wah, en.reverse) && en.Rest() == Drop(op.words, n)
  }

  /** What the state of an enumerator says about the words to come */
  lemma Ahead(en: WordEnum, op: Operand, n: nat)
    requires Synced(en, op, n)
    ensures en.current == op.At(n)
    ensures en.state == END <==> n >= |op.words|
    ensures en.state == PENDING ==> n == en.wah.len / 32 && en.wah.len % 32 != 0 && en.remainWords == 1
    ensures en.state in {RUN, LITERAL} ==> 0 < en.remainWords && n + en.remainWords <= en.wah.len / 32
    ensures |op.words| == en.wah.len / 32 + if en.wah.len % 32 != 0 then 1 else 0
  {
    OperandSize(en.wah);
    if en.state in {RUN, LITERAL} { LeftLong(en.wah, en.At()); }
  }

  lemma LeftLong(wah: Wah, at: Place)
    requires WellFormed(wah) && PlaceOk(wah, at) && at.state in {RUN, LITERAL}
    ensures 0 < at.remainWords <= |Left(wah, at)|
  {
  }

  /** In a run and at the end the words to come are equal. */
  lemma EqualAhead(en: WordEnum, op: Operand, n: nat, k: nat)
    requires Synced(en, op, n) && (en.state == END || (en.state == RUN && k <= en.remainWords))
    ensures en.current in {0, ONES} && op.From(n, k) == Repeat(en.current, k)
  {
    var ws := op.From(n, k);
    if en.state == RUN {
      OperandSize(en.wah);
      LeftLong(en.wah, en.At());
      RunAhead(en.wah, en.At(), 0);
      forall i | 0 <= i < k ensures ws[i] == en.current { RunAhead(en.wah, en.At(), i); }
    }
    AllEqual(ws, en.current);
  }

  lemma RunAhead(wah: Wah, at: Place, i: nat)
    requires WellFormed(wah) && PlaceOk(wah, at) && at.state == RUN && i < at.remainWords
    ensures i < |Left(wah, at)| && Left(wah, at)[i] == RunWord(HeadBit(wah.buckets[at.bucket][at.pos]))
  {
    WahGet.RepeatAt(RunWord(HeadBit(wah.buckets[at.bucket][at.pos])), at.remainWords, i);
  }

  /** Literals are the words to come. */
  lemma LiteralsAhead(en: WordEnum, op: Operand, n: nat, k: nat, ws: seq<U32>)
    requires Synced(en, op, n) && en.state == LITERAL && k <= |en.left| && ws == en.left[..k]
    ensures Flipped(ws, en.reverse) == op.From(n, k)
  {
    OperandSize(en.wah);
  }

  function Flipped(ws: seq<U32>, reverse: bool): (fs: seq<U32>)
    ensures |fs| == |ws| && forall i | 0 <= i < |ws| :: fs[i] == Flip(ws[i], reverse)
  {
    if ws == [] then [] else Flipped(ws[..|ws| - 1], reverse) + [Flip(ws[|ws| - 1], reverse)]
  }

  method StartOn(wah: Wah, reverse: bool) returns (en: WordEnum)
    requires WellFormed(wah)
    ensures fresh(en) && en.wah == wah && en.reverse == reverse && Synced(en, OperandOf(wah, reverse), 0)
  {
    en := new WordEnum(wah, reverse);
  }

  method SkipWords(en: WordEnum, ghost op: Operand, ghost n: nat, k: nat)
    requires Synced(en, op, n)
    modifies en
    ensures Synced(en, op, n + k)
  {
    DropDrop(op.words, n, k);
    var _ := en.Skip(k);
  }

  method NextWord(en: WordEnum, ghost op: Operand, ghost n: nat)
    requires Synced(en, op, n)
    modifies en
    ensures Synced(en, op, n + 1)
    ensures old(en.state) == LITERAL && old(en.remainWords) > 1 ==> en.state == LITERAL && en.remainWords == old(en.remainWords) - 1
  {
    DropDrop(op.words, n, 1);
    en.ValidIsPlaced();
    var _ := en.Advance();
  }

  /** `REMAIN_WORDS`, for an enumerator that is at its end */
  method SetRemain(en: WordEnum, ghost op: Operand, ghost n: nat, remain: nat)
    requires Synced(en, op, n) && en.state == END
    modifies en
    ensures Synced(en, op, n) && en.state == END && en.remainWords == remain
  {
    hide WellFormed, OperandOf, Drop;
    en.remainWords := remain;
  }

  // ---------------------------------------------------------------- writing the result

  /** The words `ws` are written and counted, in buckets laid out as `l` says. */
  ghost predicate Written(bitmap: Map, ws: seq<U32>, l: Layout)
    reads bitmap
  {
    && bitmap.Aligned() && bitmap.store.All() == ws && bitmap.active == Ones(WordsBits(ws, false))
    && Matches(bitmap, bitmap.len, l)
  }

  /** `wah_push_pending_0s`, `wah_push_pending_1s` */
  method WriteEqual(bitmap: Map, bit: bool, k: nat, ghost ws: seq<U32>, ghost l: Layout)
    requires Written(bitmap, ws, l) && k > 0 && |ws| + k <= BOUND
    modifies bitmap`len, bitmap`active, bitmap`store, bitmap`bucketsShift
    ensures Written(bitmap, ws + Repeat(RunWord(bit), k), AfterEqual(l, bitmap.bitsInBucket, ws, bit, k))
  {
    hide LastOk, FullBuckets, Repeat, WordsBits;
    BucketShort(bitmap.store);
    PushedBits(ws, bit, k);
    if l.Kept? { RoomIs(bitmap, |ws|); }
    bitmap.PushEqual(bit, k);
  }

  method WriteWord(bitmap: Map, w: U32, ghost ws: seq<U32>, ghost l: Layout)
    requires Written(bitmap, ws, l) && |ws| < BOUND
    modifies bitmap`len, bitmap`active, bitmap`store, bitmap`bucketsShift
    ensures Written(bitmap, ws + [w], AfterWord(l, bitmap.bitsInBucket, ws, w))
  {
    hide LastOk, FullBuckets, Map.Filled, AfterEqual;
    OneWord(w);
    if w == 0 {
      WriteEqual(bitmap, false, 1, ws, l);
    } else if w == ONES {
      WriteEqual(bitmap, true, 1, ws, l);
    } else {
      CountJoin(ws, [w]);
      bitmap.PushOne(w);
    }
  }

  method WriteLiterals(bitmap: Map, more: seq<U32>, ghost ws: seq<U32>, ghost l: Layout)
    requires Written(bitmap, ws, l) && more != [] && |ws| + |more| <= BOUND
    modifies bitmap`len, bitmap`active, bitmap`store
    ensures Written(bitmap, ws + more, AfterLiterals(l, bitmap.bitsInBucket, |ws|, |more|))
  {
    hide LastOk, FullBuckets, WordsBits, RoomAt;
    CountJoin(ws, more);
    if l.Kept? { RoomIs(bitmap, |ws|); FirstRoom(bitmap); }
    bitmap.AppendLiterals(more);
  }

  /** Whether literals go to the first bucket */
  lemma FirstRoom(bitmap: Map)
    requires bitmap.Aligned() && bitmap.Filled(bitmap.len)
    ensures bitmap.store.closed == [] && !(bitmap.len != 0 && bitmap.len == bitmap.Capacity()) <==>
      bitmap.len < bitmap.bitsInBucket + bitmap.bucketsShift
  {
    RoomIs(bitmap, |bitmap.store.All()|);
    TimesIs(1, bitmap.bitsInBucket);
  }

  // ---------------------------------------------------------------- copying literals

  /** `wah_copy_run`: literals of one operand where the other one has ones; equal words at their start join a run. */
  method CopyRun(bitmap: Map, run: WordEnum, data: WordEnum, ghost r: Operand, ghost d: Operand, ghost n: nat,
                 ghost ws: seq<U32>, ghost l: Layout)
    returns (ghost k: nat)
    requires Written(bitmap, ws, l) && run != data && Synced(run, r, n) && Synced(data, d, n)
    requires data.state == LITERAL && run.remainWords > 0 && |ws| + data.remainWords <= BOUND
    modifies bitmap`len, bitmap`active, bitmap`store, bitmap`bucketsShift, run, data
    ensures 0 < k && k == if old(run.remainWords) < old(data.remainWords) then old(run.remainWords) else old(data.remainWords)
    ensures Written(bitmap, ws + d.From(n, k), AfterCopy(l, bitmap.bitsInBucket, ws, d.At(n), k))
    ensures Synced(run, r, n + k) && Synced(data, d, n + k)
  {
    hide Synced, Written, AfterLiterals, AfterWord, Operand.From, Operand.At;
    Ahead(data, d, n);
    var count := if run.remainWords < data.remainWords then run.remainWords else data.remainWords;
    k := count;
    SkipWords(run, r, n, count);
    var first := CopyFirst(bitmap, data, d, n, ws, l);
    ghost var l1 := if first == 1 then AfterWord(l, bitmap.bitsInBucket, ws, d.At(n)) else l;
    CopyRest(bitmap, data, d, n + first, count - first, ws + d.From(n, first), l1);
    FromJoin(d, n, first, count - first);
    Assoc3(ws, d.From(n, first), d.From(n + first, count - first));
  }

  /** The first literal, if it is all zeros or all ones */
  method CopyFirst(bitmap: Map, data: WordEnum, ghost d: Operand, ghost n: nat, ghost ws: seq<U32>, ghost l: Layout)
    returns (first: nat)
    requires Written(bitmap, ws, l) && Synced(data, d, n)
    requires data.state == LITERAL && data.remainWords > 0 && |ws| + data.remainWords <= BOUND
    modifies bitmap`len, bitmap`active, bitmap`store, bitmap`bucketsShift, data
    ensures first == (if d.At(n) == 0 || d.At(n) == ONES then 1 else 0) && Synced(data, d, n + first)
    ensures Written(bitmap, ws + d.From(n, first), if first == 1 then AfterWord(l, bitmap.bitsInBucket, ws, d.At(n)) else l)
    ensures first < old(data.remainWords) ==> data.state == LITERAL && data.remainWords == old(data.remainWords) - first
  {
    hide Synced, Written, AfterWord;
    Ahead(data, d, n);
    assert d.From(n, 1) == [d.At(n)];
    if data.current == 0 || data.current == ONES {
      WriteWord(bitmap, data.current, ws, l);
      NextWord(data, d, n);
      first := 1;
    } else {
      assert ws + d.From(n, 0) == ws;
      first := 0;
    }
  }

  method CopyRest(bitmap: Map, data: WordEnum, ghost d: Operand, ghost n: nat, count: nat, ghost ws: seq<U32>, ghost l: Layout)
    requires Written(bitmap, ws, l) && Synced(data, d, n) && |ws| + count <= BOUND
    requires count > 0 ==> data.state == LITERAL && count <= data.remainWords
    modifies bitmap`len, bitmap`active, bitmap`store, data
    ensures Written(bitmap, ws + d.From(n, count), AfterLiterals(l, bitmap.bitsInBucket, |ws|, count)) && Synced(data, d, n + count)
  {
    hide Written, RoomAt;
    if count > 0 {
      var words := data.Literals(count);
      LiteralsAhead(data, d, n, count, words);
      SkipWords(data, d, n, count);
      var more := FlipWords(words, data.reverse);
      WriteLiterals(bitmap, more, ws, l);
    } else {
      assert ws + d.From(n, 0) == ws;
    }
  }

  /** The literals are complemented after they are copied. */
  method FlipWords(ws: seq<U32>, reverse: bool) returns (fs: seq<U32>)
    ensures fs == Flipped(ws, reverse)
  {
    fs := ws;
    if reverse {
      for i := 0 to |ws|
        invariant |fs| == |ws| && fs[..i] == Flipped(ws, reverse)[..i] && fs[i..] == ws[i..]
      {
        fs := fs[i := ONES - fs[i]];
      }
    }
  }

  // ---------------------------------------------------------------- the loop

  /** What the state of an enumerator is for a turn */
  ghost function ViewOf(en: WordEnum): View
    reads en
  {
    match en.state
    case LITERAL => Literal(en.remainWords)
    case PENDING => Pending
    case _ => Equal(en.current != 0, en.remainWords)
  }

  /** `n` words of the result are written, and both operands are read up to there. */
  ghost predicate InStep(bitmap: Map, src: WordEnum, other: WordEnum, a: Operand, b: Operand, n: nat, l: Layout)
    reads bitmap, src, other
  {
    Written(bitmap, Both(a, b, 0, n), l) && src != other && Synced(src, a, n) && Synced(other, b, n)
  }

  /** What the layout is after a step from word `n` on */
  ghost function Stepped(l: Layout, size: nat, a: Operand, b: Operand, n: nat, t: Step): Layout {
    AfterStep(l, size, Both(a, b, 0, n), AndWord(a.At(n), b.At(n)), t)
  }

  /** `PUSH_0RUN`: one of the operands has zeros only. */
  method PushZeros(bitmap: Map, src: WordEnum, other: WordEnum, ghost a: Operand, ghost b: Operand, ghost n: nat, ghost l: Layout, k: nat)
    requires InStep(bitmap, src, other, a, b, n, l) && 0 < k && n + k <= BOUND
    requires a.From(n, k) == Repeat(0, k) || b.From(n, k) == Repeat(0, k)
    modifies bitmap`len, bitmap`active, bitmap`store, bitmap`bucketsShift, src, other
    ensures InStep(bitmap, src, other, a, b, n + k, Stepped(l, bitmap.bitsInBucket, a, b, n, Fill(k, false)))
  {
    hide Synced, Written, AfterEqual;
    BothZero(a, b, n, k);
    BothJoin(a, b, n, k);
    WriteEqual(bitmap, false, k, Both(a, b, 0, n), l);
    SkipWords(src, a, n, k);
    SkipWords(other, b, n, k);
  }

  /** `PUSH_1RUN`: both operands have ones only. */
  method PushOnes(bitmap: Map, src: WordEnum, other: WordEnum, ghost a: Operand, ghost b: Operand, ghost n: nat, ghost l: Layout, k: nat)
    requires InStep(bitmap, src, other, a, b, n, l) && 0 < k && n + k <= BOUND
    requires a.From(n, k) == Repeat(ONES, k) && b.From(n, k) == Repeat(ONES, k)
    modifies bitmap`len, bitmap`active, bitmap`store, bitmap`bucketsShift, src, other
    ensures InStep(bitmap, src, other, a, b, n + k, Stepped(l, bitmap.bitsInBucket, a, b, n, Fill(k, true)))
  {
    hide Synced, Written, AfterEqual;
    BothOnes(a, b, n, k);
    BothJoin(a, b, n, k);
    WriteEqual(bitmap, true, k, Both(a, b, 0, n), l);
    SkipWords(other, b, n, k);
    SkipWords(src, a, n, k);
  }

  /** One word of each operand */
  method PushBoth(bitmap: Map, src: WordEnum, other: WordEnum, ghost a: Operand, ghost b: Operand, ghost n: nat, ghost l: Layout)
    requires InStep(bitmap, src, other, a, b, n, l) && n < BOUND
    modifies bitmap`len, bitmap`active, bitmap`store, bitmap`bucketsShift, src, other
    ensures InStep(bitmap, src, other, a, b, n + 1, Stepped(l, bitmap.bitsInBucket, a, b, n, Word))
  {
    hide Synced, Written, AfterWord;
    Ahead(src, a, n);
    Ahead(other, b, n);
    assert Both(a, b, n, 1) == [AndWord(a.At(n), b.At(n))];
    BothJoin(a, b, n, 1);
    WriteWord(bitmap, AndWord(src.current, other.current), Both(a, b, 0, n), l);
    NextWord(src, a, n);
    NextWord(other, b, n);
  }

  /** Where one operand has ones, the result has the words of the other. */
  lemma CopiedIsBoth(src: WordEnum, a: Operand, b: Operand, n: nat, k: nat)
    requires Synced(src, a, n) && src.current != 0 && (src.state == END || (src.state == RUN && k <= src.remainWords))
    ensures Both(a, b, 0, n) + b.From(n, k) == Both(a, b, 0, n + k)
    ensures AndWord(a.At(n), b.At(n)) == b.At(n)
  {
    hide Synced, Both, Repeat, Operand.From, Operand.At, And;
    Ahead(src, a, n);
    EqualAhead(src, a, n, k);
    BothOnes(a, b, n, k);
    BothJoin(a, b, n, k);
    AndOnes(b.At(n));
  }

  /** `PUSH_COPY`: literals of one operand, while the other has ones only */
  method PushCopy(bitmap: Map, src: WordEnum, other: WordEnum, ghost a: Operand, ghost b: Operand, ghost n: nat, ghost l: Layout)
    returns (ghost k: nat)
    requires InStep(bitmap, src, other, a, b, n, l) && n + other.remainWords <= BOUND
    requires src.state in {RUN, END} && src.current != 0 && src.remainWords > 0 && other.state == LITERAL
    modifies bitmap`len, bitmap`active, bitmap`store, bitmap`bucketsShift, src, other
    ensures 0 < k == Min(old(src.remainWords), old(other.remainWords))
    ensures InStep(bitmap, src, other, a, b, n + k, Stepped(l, bitmap.bitsInBucket, a, b, n, Copy(k)))
  {
    hide Synced, Written, AfterCopy, Both, Repeat, Operand.From, Operand.At, And;
    CopiedIsBoth(src, a, b, n, Min(src.remainWords, other.remainWords));
    k := CopyRun(bitmap, src, other, a, b, n, Both(a, b, 0, n), l);
  }

  /** The words that an enumerator can take at once stay below `full`. */
  ghost predicate Turning(en: WordEnum, n: nat, full: nat)
    reads en
  {
    0 < en.remainWords && n + en.remainWords <= full
  }

  /** Literals of one operand where the other has a run, or is at its end */
  method PushLiterals(bitmap: Map, src: WordEnum, other: WordEnum, ghost a: Operand, ghost b: Operand, ghost n: nat,
                      ghost l: Layout, ghost full: nat)
    returns (ghost k: nat)
    requires InStep(bitmap, src, other, a, b, n, l) && full <= BOUND
    requires Turning(src, n, full) && Turning(other, n, full)
    requires src.state in {RUN, END} && other.state == LITERAL
    modifies bitmap`len, bitmap`active, bitmap`store, bitmap`bucketsShift, src, other
    ensures 0 < k && n + k <= full && k == StepWords(old(StepOf(ViewOf(src), ViewOf(other))))
    ensures InStep(bitmap, src, other, a, b, n + k,
                   Stepped(l, bitmap.bitsInBucket, a, b, n, old(StepOf(ViewOf(src), ViewOf(other)))))
  {
    hide Synced, Written, Stepped, Both, Repeat, Operand.From;
    if src.current != 0 {
      k := PushCopy(bitmap, src, other, a, b, n, l);
    } else {
      k := src.remainWords;
      EqualAhead(src, a, n, k);
      PushZeros(bitmap, src, other, a, b, n, l, src.remainWords);
    }
  }

  /** The same with the operands exchanged */
  method PushLiteralsOf(bitmap: Map, src: WordEnum, other: WordEnum, ghost a: Operand, ghost b: Operand, ghost n: nat,
                        ghost l: Layout, ghost full: nat)
    returns (ghost k: nat)
    requires InStep(bitmap, src, other, a, b, n, l) && full <= BOUND
    requires Turning(src, n, full) && Turning(other, n, full)
    requires src.state == LITERAL && other.state in {RUN, END}
    modifies bitmap`len, bitmap`active, bitmap`store, bitmap`bucketsShift, src, other
    ensures 0 < k && n + k <= full && k == StepWords(old(StepOf(ViewOf(src), ViewOf(other))))
    ensures InStep(bitmap, src, other, a, b, n + k,
                   Stepped(l, bitmap.bitsInBucket, a, b, n, old(StepOf(ViewOf(src), ViewOf(other)))))
  {
    hide Synced, Written, AfterStep, Both;
    BothSwap(a, b, 0, n);
    AndSwap(a.At(n), b.At(n));
    k := PushLiterals(bitmap, other, src, b, a, n, l, full);
    BothSwap(a, b, 0, n + k);
  }

  /** Two runs, or a run and an end: zeros win over the longest stretch, ones hold for the shortest. */
  method PushRuns(bitmap: Map, src: WordEnum, other: WordEnum, ghost a: Operand, ghost b: Operand, ghost n: nat,
                  ghost l: Layout, ghost full: nat)
    returns (ghost k: nat)
    requires InStep(bitmap, src, other, a, b, n, l) && full <= BOUND
    requires Turning(src, n, full) && Turning(other, n, full)
    requires src.state in {RUN, END} && other.state in {RUN, END}
    modifies bitmap`len, bitmap`active, bitmap`store, bitmap`bucketsShift, src, other
    ensures 0 < k && n + k <= full && k == StepWords(old(StepOf(ViewOf(src), ViewOf(other))))
    ensures InStep(bitmap, src, other, a, b, n + k,
                   Stepped(l, bitmap.bitsInBucket, a, b, n, old(StepOf(ViewOf(src), ViewOf(other)))))
  {
    hide Synced, Written, Stepped, Both, Repeat, Operand.From, Operand.At;
    EqualAhead(src, a, n, src.remainWords);
    EqualAhead(other, b, n, other.remainWords);
    if other.current == 0 || src.current == 0 {
      var run := 0;
      if other.current == 0 {
        run := other.remainWords;
      }
      if src.current == 0 && run < src.remainWords {
        run := src.remainWords;
      }
      k := run;
      PushZeros(bitmap, src, other, a, b, n, l, run);
    } else {
      var run := if other.remainWords < src.remainWords then other.remainWords else src.remainWords;
      EqualAhead(src, a, n, run);
      EqualAhead(other, b, n, run);
      k := run;
      PushOnes(bitmap, src, other, a, b, n, l, run);
    }
  }

  /** Only pending bits are left, of one operand or of both. */
  predicate LastTurn(s: State, o: State) { s in {END, PENDING} && o in {END, PENDING} && (s == PENDING || o == PENDING) }

  /** The switch of `wah_and_`, without its first case */
  method Turn(bitmap: Map, src: WordEnum, other: WordEnum, ghost a: Operand, ghost b: Operand, ghost n: nat,
              ghost l: Layout, ghost full: nat)
    returns (ghost k: nat)
    requires InStep(bitmap, src, other, a, b, n, l) && full <= BOUND && n < full
    requires src.state != PENDING ==> Turning(src, n, full)
    requires other.state != PENDING ==> Turning(other, n, full)
    modifies bitmap`len, bitmap`active, bitmap`store, bitmap`bucketsShift, src, other
    ensures 0 < k && n + k <= full && k == StepWords(old(StepOf(ViewOf(src), ViewOf(other))))
    ensures InStep(bitmap, src, other, a, b, n + k,
                   Stepped(l, bitmap.bitsInBucket, a, b, n, old(StepOf(ViewOf(src), ViewOf(other)))))
  {
    hide Synced, Written, InStep, Stepped;
    if src.state in {RUN, END} && other.state == LITERAL {
      k := PushLiterals(bitmap, src, other, a, b, n, l, full);
    } else if src.state == LITERAL && other.state in {RUN, END} {
      k := PushLiteralsOf(bitmap, src, other, a, b, n, l, full);
    } else if src.state in {RUN, END} && other.state in {RUN, END} {
      k := PushRuns(bitmap, src, other, a, b, n, l, full);
    } else {
      PushBoth(bitmap, src, other, a, b, n, l);
      k := 1;
    }
  }

  // ---------------------------------------------------------------- the whole operation

  /** `REMAIN_WORDS` */
  method SetRemains(bitmap: Map, src: WordEnum, other: WordEnum, ghost a: Operand, ghost b: Operand, ghost n: nat, ghost l: Layout)
    requires InStep(bitmap, src, other, a, b, n, l) && (src.state != END || other.state != END)
    modifies src, other
    ensures InStep(bitmap, src, other, a, b, n, l) && src.state == old(src.state) && other.state == old(other.state)
    ensures var full := Max(src.wah.len, other.wah.len) / 32;
      if LastTurn(src.state, other.state) then n == full && Max(src.wah.len, other.wah.len) % 32 != 0
      else
        && n < full && (src.state != PENDING ==> Turning(src, n, full)) && (other.state != PENDING ==> Turning(other, n, full))
        && (src.state == END ==> src.remainWords == Min(full - n, MAX_RUN))
        && (other.state == END ==> other.remainWords == Min(full - n, MAX_RUN))
  {
    hide Synced, Written;
    Ahead(src, a, n);
    Ahead(other, b, n);
    WrittenLen(bitmap, Both(a, b, 0, n), l);
    if src.state == END {
      SetRemain(src, a, n, Min((other.wah.len - bitmap.len) / 32, MAX_RUN));
    } else if other.state == END {
      SetRemain(other, b, n, Min((src.wah.len - bitmap.len) / 32, MAX_RUN));
    }
  }

  lemma WrittenLen(bitmap: Map, ws: seq<U32>, l: Layout)
    requires Written(bitmap, ws, l)
    ensures bitmap.len == 32 * |ws|
  {
  }

  /** The result: whole words and pending bits, which are counted with whatever lies above them. */
  ghost predicate Result(bitmap: Map, a: Operand, b: Operand, max: nat, l: Layout)
    reads bitmap
  {
    && bitmap.store.Ok() && (bitmap.store.Empty() ==> bitmap.store.closed == []) && bitmap.Shaped()
    && bitmap.store.All() == Both(a, b, 0, max / 32) && bitmap.len == max
    && bitmap.pending == (if max % 32 != 0 then AndWord(a.At(max / 32), b.At(max / 32)) else 0)
    && bitmap.active == Ones(WordsBits(bitmap.store.All(), false)) + Ones(ToBits(bitmap.pending, 32))
    && Matches(bitmap, 32 * (max / 32), l)
  }

  /** The first case of the switch: the pending bits */
  method PushPendingBits(bitmap: Map, src: WordEnum, other: WordEnum, ghost a: Operand, ghost b: Operand, ghost n: nat, ghost l: Layout)
    requires InStep(bitmap, src, other, a, b, n, l) && LastTurn(src.state, other.state)
    requires n == Max(src.wah.len, other.wah.len) / 32 && Max(src.wah.len, other.wah.len) % 32 != 0
    modifies bitmap`len, bitmap`active, bitmap`pending, src, other
    ensures Result(bitmap, a, b, Max(src.wah.len, other.wah.len), l) && src.state == END && other.state == END
  {
    hide Synced, Written, Result, Both, Operand.At, And;
    Ahead(src, a, n);
    Ahead(other, b, n);
    StorePending(bitmap, AndWord(src.current, other.current), Max(other.wah.len, src.wah.len), a, b, n, l);
    NextWord(src, a, n);
    NextWord(other, b, n);
    Ahead(src, a, n + 1);
    Ahead(other, b, n + 1);
  }

  method StorePending(bitmap: Map, w: U32, max: nat, ghost a: Operand, ghost b: Operand, ghost n: nat, ghost l: Layout)
    requires Written(bitmap, Both(a, b, 0, n), l) && n == max / 32 && max % 32 != 0 && w == AndWord(a.At(n), b.At(n))
    modifies bitmap`len, bitmap`active, bitmap`pending
    ensures Result(bitmap, a, b, max, l)
  {
    hide LastOk, FullBuckets;
    bitmap.len := max;
    bitmap.pending := w;
    bitmap.active := bitmap.active + Ones(ToBits(w, 32));
  }

  /** What an enumerator shows follows from the number of words that it has passed. */
  lemma ViewIs(en: WordEnum, op: Operand, n: nat, full: nat)
    requires Synced(en, op, n) && n <= full && (en.state == END ==> en.remainWords == Min(full - n, MAX_RUN))
    ensures ViewOf(en) == ViewAt(en.wah, en.reverse, n, full)
  {
    hide WahSpan.SpanOf;
    Ahead(en, op, n);
    OperandSize(en.wah);
    if en.state == RUN { RunView(en, op, n, full); }
    if en.state == LITERAL { LiteralView(en, op, n, full); }
  }

  lemma RunView(en: WordEnum, op: Operand, n: nat, full: nat)
    requires Synced(en, op, n) && en.state == RUN && n < en.wah.len / 32
    ensures ViewOf(en) == ViewAt(en.wah, en.reverse, n, full)
  {
    hide WahSpan.SpanOf;
    OperandSize(en.wah);
    WahSpan.RunSpan(en.wah, en.At());
    RunAhead(en.wah, en.At(), 0);
  }

  lemma LiteralView(en: WordEnum, op: Operand, n: nat, full: nat)
    requires Synced(en, op, n) && en.state == LITERAL && n < en.wah.len / 32
    ensures ViewOf(en) == ViewAt(en.wah, en.reverse, n, full)
  {
    hide WahSpan.SpanOf;
    OperandSize(en.wah);
    WahSpan.LiteralSpan(en.wah, en.At());
  }

  ghost function PairOf(src: WordEnum, other: WordEnum): Pair { Pair(src.wah, src.reverse, other.wah, other.reverse) }

  /** The turn follows from the number of words that are written. */
  lemma StepIs(src: WordEnum, other: WordEnum, a: Operand, b: Operand, n: nat, pair: Pair)
    requires Synced(src, a, n) && Synced(other, b, n) && pair == PairOf(src, other) && n < pair.Full()
    requires src.state == END ==> src.remainWords == Min(pair.Full() - n, MAX_RUN)
    requires other.state == END ==> other.remainWords == Min(pair.Full() - n, MAX_RUN)
    ensures pair.Ok() && pair.Step(n) == StepOf(ViewOf(src), ViewOf(other))
    ensures forall l, size: nat :: pair.Next(size, n, l) == Stepped(l, size, a, b, n, pair.Step(n))
  {
    hide ViewAt, ViewOf, WellFormed, AfterStep;
    ViewIs(src, a, n, pair.Full());
    ViewIs(other, b, n, pair.Full());
  }

  lemma PairOk(src: WordEnum, other: WordEnum, a: Operand, b: Operand)
    requires Synced(src, a, 0) && Synced(other, b, 0)
    ensures PairOf(src, other).Ok()
  {
  }

  /** The loop of `wah_and_` */
  method AndLoop(bitmap: Map, src: WordEnum, other: WordEnum, ghost a: Operand, ghost b: Operand)
    requires InStep(bitmap, src, other, a, b, 0, Kept(0)) && bitmap.pending == 0
    requires PairOf(src, other).Full() <= BOUND
    modifies bitmap, src, other
    ensures var pair := PairOf(src, other);
      pair.Ok() && Result(bitmap, a, b, Max(src.wah.len, other.wah.len), pair.FinalLayout(bitmap.bitsInBucket))
  {
    hide Synced, Written, Result, Both, ViewOf, Stepped, Pair.Step, Pair.Next, WellFormed;
    ghost var pair, size := PairOf(src, other), bitmap.bitsInBucket;
    ghost var max := Max(src.wah.len, other.wah.len);
    ghost var n: nat, l, done := 0, Kept(0), false;
    PairOk(src, other, a, b);
    while src.state != END || other.state != END
      invariant done ==> src.state == END && other.state == END && Result(bitmap, a, b, max, l) && n == pair.Full()
      invariant !done ==> InStep(bitmap, src, other, a, b, n, l) && bitmap.pending == 0 && n <= pair.Full()
      invariant pair.LayoutFrom(size, n, l) == pair.FinalLayout(size)
      decreases !done, pair.Full() - n
    {
      SetRemains(bitmap, src, other, a, b, n, l);
      if LastTurn(src.state, other.state) {
        PushPendingBits(bitmap, src, other, a, b, n, l);
        done := true;
      } else {
        StepIs(src, other, a, b, n, pair);
        ghost var k := Turn(bitmap, src, other, a, b, n, l, pair.Full());
        l, n := pair.Next(size, n, l), n + k;
      }
    }
    if !done { NothingLeft(bitmap, src, other, a, b, n, l); }
  }

  lemma NothingLeft(bitmap: Map, src: WordEnum, other: WordEnum, a: Operand, b: Operand, n: nat, l: Layout)
    requires InStep(bitmap, src, other, a, b, n, l) && src.state == END && other.state == END && bitmap.pending == 0
    requires n <= Max(src.wah.len, other.wah.len) / 32
    ensures Result(bitmap, a, b, Max(src.wah.len, other.wah.len), l) && n == Max(src.wah.len, other.wah.len) / 32
  {
    hide Synced, Both, Store.Ok, Store.All, Store.Empty, Matches, Operand.At, And, WordsBits;
    BothEnded(src, other, a, b, n);
    NoOnes();
  }

  lemma BothEnded(src: WordEnum, other: WordEnum, a: Operand, b: Operand, n: nat)
    requires Synced(src, a, n) && Synced(other, b, n) && src.state == END && other.state == END
    requires n <= Max(src.wah.len, other.wah.len) / 32
    ensures 32 * n == Max(src.wah.len, other.wah.len)
  {
    hide Synced, Operand.At;
    Ahead(src, a, n);
    Ahead(other, b, n);
  }

  lemma NoOnes()
    ensures Ones(ToBits(0, 32)) == 0
  {
    forall i: nat | i < 32 ensures !ToBits(0, 32)[i] { BitZero(i); }
    assert ToBits(0, 32) == [] + Same(false, 32);
    OnesSame([], false, 32);
  }

  // ---------------------------------------------------------------- bits

  /** The operand stands for these bits, followed by bits that are off. */
  ghost predicate Spells(op: Operand, bits: seq<bool>) {
    forall i: nat {:trigger BitAt(bits, i)} :: Bit(op.At(i / 32), i % 32) == (BitAt(bits, i) != op.reverse)
  }

  lemma MapSpells(bitmap: Map, reverse: bool)
    requires bitmap.Readable()
    ensures WellFormed(bitmap.Value()) && |bitmap.Contents()| == bitmap.len
    ensures Spells(OperandOf(bitmap.Value(), reverse), bitmap.Contents())
  {
    bitmap.WrittenIsRead();
    WahGet.ContentsAt(bitmap, 0);
    var op := OperandOf(bitmap.Value(), reverse);
    forall i: nat ensures Bit(op.At(i / 32), i % 32) == (BitAt(bitmap.Contents(), i) != reverse) {
      WahGet.ContentsAt(bitmap, i);
      var w := if i / 32 < |op.words| then op.words[i / 32] else 0;
      OperandBit(bitmap.store.All(), bitmap.pending, bitmap.len, i, w);
      FlipBit(w, reverse, i % 32);
    }
  }

  /** Bit `i` of the words of an operand, one of which are its pending bits */
  lemma OperandBit(all: seq<U32>, pending: U32, len: nat, i: nat, w: U32)
    requires len == 32 * |all| + len % 32 && pending < Pow2(len % 32)
    requires var words := if len % 32 != 0 then all + [pending] else all; w == if i / 32 < |words| then words[i / 32] else 0
    ensures Bit(w, i % 32) == (i < len && Bit(if i < 32 * |all| then all[i / 32] else pending, i % 32))
  {
    if i >= len {
      BitZero(i % 32);
      if i / 32 == |all| { BitAbove(pending, len % 32, i % 32); }
    }
  }

  lemma FlipBit(w: U32, reverse: bool, k: nat)
    requires k < 32
    ensures Bit(Flip(w, reverse), k) == (Bit(w, k) != reverse)
  {
    WahBits.OnesIsPow2();
    WahBits.FlipBit(32, w, k);
  }

  /** Both sequences, complemented or not, each followed by bits that are off; as long as the longer one */
  function AndBits(x: seq<bool>, notX: bool, y: seq<bool>, notY: bool): (s: seq<bool>)
    ensures |s| == Max(|x|, |y|)
    ensures forall i | 0 <= i < |s| :: s[i] == (BitAt(x, i) != notX && BitAt(y, i) != notY)
  {
    seq(Max(|x|, |y|), i requires 0 <= i < Max(|x|, |y|) => BitAt(x, i) != notX && BitAt(y, i) != notY)
  }

  /** Bit `i` of the result, in the words and in the pending bits, even above the length */
  lemma BothBit(a: Operand, b: Operand, x: seq<bool>, y: seq<bool>, i: nat)
    requires Spells(a, x) && Spells(b, y)
    ensures Bit(AndWord(a.At(i / 32), b.At(i / 32)), i % 32) == (BitAt(x, i) != a.reverse && BitAt(y, i) != b.reverse)
  {
    BitAnd(a.At(i / 32), b.At(i / 32), i % 32);
  }

  lemma ResultSize(bitmap: Map, a: Operand, b: Operand, max: nat, l: Layout)
    requires Result(bitmap, a, b, max, l)
    ensures bitmap.store.Ok() && |bitmap.Contents()| == max
  {
    hide LastOk;
    WahGet.ContentsAt(bitmap, 0);
  }

  lemma ResultBit(bitmap: Map, a: Operand, b: Operand, x: seq<bool>, y: seq<bool>, i: nat, l: Layout)
    requires Result(bitmap, a, b, Max(|x|, |y|), l) && Spells(a, x) && Spells(b, y) && i < Max(|x|, |y|)
    ensures bitmap.store.Ok() && |bitmap.Contents()| == Max(|x|, |y|)
    ensures bitmap.Contents()[i] == (BitAt(x, i) != a.reverse && BitAt(y, i) != b.reverse)
  {
    hide Spells, Store.Ok, Store.All, Store.Empty, Map.Contents, Map.Shaped, BitAt, And, Bit, Operand.At, WordsBits, Ones;
    WahGet.ContentsAt(bitmap, i);
    BothBit(a, b, x, y, i);
  }

  lemma ResultBits(bitmap: Map, a: Operand, b: Operand, x: seq<bool>, y: seq<bool>, l: Layout)
    requires Result(bitmap, a, b, Max(|x|, |y|), l) && Spells(a, x) && Spells(b, y)
    ensures bitmap.Contents() == AndBits(x, a.reverse, y, b.reverse)
  {
    hide Spells, Result, AndBits, Map.Contents, BitAt;
    var s := AndBits(x, a.reverse, y, b.reverse);
    ResultSize(bitmap, a, b, Max(|x|, |y|), l);
    forall i | 0 <= i < |s| ensures bitmap.Contents()[i] == s[i] { ResultBit(bitmap, a, b, x, y, i, l); }
  }

  /** The bits above the pending ones are off, unless both operands are complemented. */
  lemma AboveBits(p: U32, a: Operand, b: Operand, x: seq<bool>, y: seq<bool>)
    requires Spells(a, x) && Spells(b, y) && Max(|x|, |y|) % 32 != 0
    requires var max := Max(|x|, |y|); p == AndWord(a.At(max / 32), b.At(max / 32))
    ensures var m := Max(|x|, |y|) % 32;
      && ToBits(p, 32) == ToBits(p, m) + Same(a.reverse && b.reverse, 32 - m)
      && (p < Pow2(m) <==> !(a.reverse && b.reverse))
  {
    hide Spells;
    var max := Max(|x|, |y|);
    var m, both := max % 32, a.reverse && b.reverse;
    forall k: nat | m <= k < 32 ensures Bit(p, k) == both {
      var i := 32 * (max / 32) + k;
      assert i / 32 == max / 32 && i % 32 == k && i >= max;
      BothBit(a, b, x, y, i);
    }
    if both {
      if p < Pow2(m) { BitAbove(p, m, 31); }
    } else {
      WahBits.OnesIsPow2();
      forall k | k >= m ensures !Bit(p, k) { if k >= 32 { BitAbove(p, 32, k); } }
      BelowPow2(p, m);
    }
  }

  /** The bits that are counted by mistake when both operands are complemented */
  function Excess(both: bool, len: nat): nat { if both && len % 32 != 0 then 32 - len % 32 else 0 }

  lemma ResultCount(bitmap: Map, a: Operand, b: Operand, x: seq<bool>, y: seq<bool>, l: Layout)
    requires Result(bitmap, a, b, Max(|x|, |y|), l) && Spells(a, x) && Spells(b, y)
    ensures bitmap.active == Ones(bitmap.Contents()) + Excess(a.reverse && b.reverse, bitmap.len)
    ensures bitmap.Readable() <==> Excess(a.reverse && b.reverse, bitmap.len) == 0
  {
    hide Spells, LastOk, Both, Store.All, Store.Empty, Map.Shaped;
    var p, m := bitmap.pending, bitmap.len % 32;
    OnesJoin(WordsBits(bitmap.store.All(), false), ToBits(p, m));
    if m != 0 {
      AboveBits(p, a, b, x, y);
      OnesSame(ToBits(p, m), a.reverse && b.reverse, 32 - m);
    } else {
      NoOnes();
      assert ToBits(0, 0) == [];
      assert Pow2(0) == 1;
    }
  }

  /** More bits than fill a bucket are not all off, nor all on, in the bucket and 32 bits more. */
  predicate Uneven(bits: seq<bool>, size: nat) { |bits| < size + 32 || 0 < Ones(bits[..size + 32]) < size + 32 }

  lemma UnevenIsMixed(bitmap: Map)
    requires bitmap.store.Ok() && bitmap.len == 32 * |bitmap.store.All()| + bitmap.len % 32
    requires bitmap.bitsInBucket % 32 == 0
    ensures Uneven(bitmap.Contents(), bitmap.bitsInBucket) <==> Mixed(bitmap.store.All(), bitmap.bitsInBucket)
  {
    hide Ones, WordsBits, ToBits, Store.Ok, Store.All;
    var ws, n := bitmap.store.All(), bitmap.bitsInBucket / 32 + 1;
    WahGet.ContentsAt(bitmap, 0);
    if |ws| >= n {
      assert ws == ws[..n] + ws[n..];
      WordsBitsJoin(ws[..n], ws[n..]);
      WahBits.WordsBitsLength(ws[..n], false);
      assert bitmap.Contents()[..32 * n] == WordsBits(ws[..n], false);
    }
  }

  /** The operands as they are read */
  ghost function Operands(bitmap: Map, mapNot: bool, other: Map, otherNot: bool): Pair
    reads bitmap, other
  {
    Pair(bitmap.Value(), mapNot, other.Value(), otherNot)
  }

  /**
   The layout of the result is as it should be exactly when it is kept at the end of the last step, and bits that are all
   equal have not been spread over several buckets.
   */
  predicate LaidOut(l: Layout, size: nat, bits: seq<bool>) {
    l.Kept? && (|bits| - |bits| % 32 > size + l.shift ==> 0 < Ones(bits) < |bits|)
  }

  /** Buckets of that size begin at its multiples. */
  ghost predicate Regular(bitmap: Map, size: nat)
    reads bitmap
  {
    bitmap.Valid() && bitmap.bucketsShift == 0 && bitmap.bitsInBucket == size
  }

  /** Such buckets hold their literals. */
  lemma RegularStays(bitmap: Map, size: nat)
    requires Regular(bitmap, size)
    ensures WellFormed(bitmap.Value()) && LiteralsStay(bitmap.Value(), size)
  {
    hide LiteralsStay, WellFormed, Words, Chunked, LastOk, LastWords;
    bitmap.WrittenIsRead();
    if bitmap.len < 32 {
      ShortStays(bitmap.Value(), size);
    } else {
      RegularEven(bitmap, size);
      EvenStays(bitmap.Value(), size);
    }
  }

  lemma RegularEven(bitmap: Map, size: nat)
    requires Regular(bitmap, size) && bitmap.len >= 32
    ensures Even(bitmap.Value().buckets, size)
  {
    hide Words, Chunked, LastWords;
    if bitmap.store.Empty() { EmptyBucket(bitmap.store.last); }
    bitmap.AllBuckets();
    WholeBucket(bitmap.store.last);
    FullBits(bitmap.store.closed, size, 0);
  }

  /**
   `wah_and_`: the intersection of two bitmaps, either of them complemented.  When both are, the bits above the pending
   ones are set and counted.  The layout of the result follows from the operands.  It is kept if their buckets begin at
   multiples of their size, unless the result begins with more than a bucket of equal bits.
   */
  method AndInto(bitmap: Map, other: Map, mapNot: bool, otherNot: bool)
    requires bitmap != other && bitmap.Readable() && other.Readable()
    requires bitmap.bitsInBucket > 0 && bitmap.bitsInBucket % 32 == 0
    requires Max(bitmap.len, other.len) / 32 <= BOUND
    modifies bitmap
    ensures bitmap.store.Ok() && bitmap.len == Max(old(bitmap.len), other.len)
    ensures bitmap.Contents() == AndBits(old(bitmap.Contents()), mapNot, other.Contents(), otherNot)
    ensures bitmap.active == Ones(bitmap.Contents()) + Excess(mapNot && otherNot, bitmap.len)
    ensures bitmap.Readable() <==> Excess(mapNot && otherNot, bitmap.len) == 0
    ensures var pair, size := old(Operands(bitmap, mapNot, other, otherNot)), bitmap.bitsInBucket;
      && pair.Ok() && Matches(bitmap, bitmap.len - bitmap.len % 32, pair.FinalLayout(size))
      && (bitmap.Readable() ==> (bitmap.Valid() <==> LaidOut(pair.FinalLayout(size), size, bitmap.Contents())))
    ensures bitmap.Readable() && bitmap.len <= bitmap.bitsInBucket ==> bitmap.Valid()
    ensures var size := bitmap.bitsInBucket;
      old(Regular(bitmap, size)) && Regular(other, size) && bitmap.Readable() && Uneven(bitmap.Contents(), size) ==> Regular(bitmap, size)
  {
    hide Spells, Outcome, Store.Ok, Store.All, WellFormed, LiteralsStay, Pair.FinalLayout, Uneven, LaidOut, Regular, Matches;
    hide Map.Contents, Map.Valid, AndBits, Excess, Ones;
    MapSpells(bitmap, mapNot);
    MapSpells(other, otherNot);
    ghost var x, y, pair := bitmap.Contents(), other.Contents(), Operands(bitmap, mapNot, other, otherNot);
    if Regular(bitmap, bitmap.bitsInBucket) { RegularStays(bitmap, bitmap.bitsInBucket); }
    if Regular(other, bitmap.bitsInBucket) { RegularStays(other, bitmap.bitsInBucket); }
    var src := Wah(bitmap.len, bitmap.store.closed + [bitmap.store.last.tab], bitmap.pending);
    var en := Wah(other.len, other.store.closed + [other.store.last.tab], other.pending);
    Intersect(bitmap, src, mapNot, en, otherNot);
    Conclude(bitmap, pair, x, y);
  }

  /** `wah_and_` once the first operand is copied */
  method Intersect(bitmap: Map, src: Wah, srcNot: bool, other: Wah, otherNot: bool)
    requires WellFormed(src) && WellFormed(other) && Max(src.len, other.len) / 32 <= BOUND
    requires bitmap.bitsInBucket > 0 && bitmap.bitsInBucket % 32 == 0
    modifies bitmap
    ensures Outcome(bitmap, Pair(src, srcNot, other, otherNot))
  {
    hide Synced, Result, LastOk, WellFormed, Pair.FinalLayout;
    var s := StartOn(src, srcNot);
    var o := StartOn(other, otherNot);
    bitmap.Reset();
    AndLoop(bitmap, s, o, OperandOf(src, srcNot), OperandOf(other, otherNot));
  }

  /** The words of the result, and its layout */
  ghost predicate Outcome(bitmap: Map, pair: Pair)
    requires pair.Ok()
    reads bitmap
  {
    Result(bitmap, OperandOf(pair.a, pair.notA), OperandOf(pair.b, pair.notB), Max(pair.a.len, pair.b.len),
           pair.FinalLayout(bitmap.bitsInBucket))
  }

  lemma Conclude(bitmap: Map, pair: Pair, x: seq<bool>, y: seq<bool>)
    requires pair.Ok() && Outcome(bitmap, pair) && |x| == pair.a.len && |y| == pair.b.len
    requires Spells(OperandOf(pair.a, pair.notA), x) && Spells(OperandOf(pair.b, pair.notB), y)
    ensures bitmap.store.Ok() && bitmap.len == Max(|x|, |y|)
    ensures bitmap.Contents() == AndBits(x, pair.notA, y, pair.notB)
    ensures bitmap.active == Ones(bitmap.Contents()) + Excess(pair.notA && pair.notB, bitmap.len)
    ensures bitmap.Readable() <==> Excess(pair.notA && pair.notB, bitmap.len) == 0
    ensures var size := bitmap.bitsInBucket;
      && Matches(bitmap, bitmap.len - bitmap.len % 32, pair.FinalLayout(size))
      && (bitmap.Readable() ==> (bitmap.Valid() <==> LaidOut(pair.FinalLayout(size), size, bitmap.Contents())))
      && (LiteralsStay(pair.a, size) && LiteralsStay(pair.b, size) && Uneven(bitmap.Contents(), size) ==>
            pair.FinalLayout(size) == Kept(0) && (bitmap.Readable() ==> Regular(bitmap, size)))
      && (bitmap.Readable() && bitmap.len <= size ==> bitmap.Valid())
  {
    hide Spells, LastOk, WellFormed, LaidOut, Map.Valid, Mixed, Pair.FinalLayout, LiteralsStay;
    var a, b, l := OperandOf(pair.a, pair.notA), OperandOf(pair.b, pair.notB), pair.FinalLayout(bitmap.bitsInBucket);
    ResultBits(bitmap, a, b, x, y, l);
    ResultCount(bitmap, a, b, x, y, l);
    ResultSize(bitmap, a, b, Max(|x|, |y|), l);
    if bitmap.Readable() { ValidIs(bitmap, l); }
    if bitmap.len <= bitmap.bitsInBucket {
      ShortStays(pair.a, bitmap.bitsInBucket);
      ShortStays(pair.b, bitmap.bitsInBucket);
      assert Uneven(bitmap.Contents(), bitmap.bitsInBucket);
    }
    var stay := LiteralsStay(pair.a, bitmap.bitsInBucket) && LiteralsStay(pair.b, bitmap.bitsInBucket);
    if stay && Uneven(bitmap.Contents(), bitmap.bitsInBucket) { EvenResult(bitmap, pair); }
  }
  lemma ValidIs(bitmap: Map, l: Layout)
    requires bitmap.Readable() && bitmap.active == Ones(bitmap.Contents()) && Matches(bitmap, 32 * (bitmap.len / 32), l)
    ensures bitmap.Valid() <==> LaidOut(l, bitmap.bitsInBucket, bitmap.Contents())
  {
    hide LastOk, FullBuckets, Map.Contents, Store.All;
    WahGet.ContentsAt(bitmap, 0);
    OnesAtMost(bitmap.Contents());
    TimesIs(1, bitmap.bitsInBucket);
    if l.Kept? && bitmap.store.closed != [] { MoreThanOne(bitmap); }
  }

  /** From operands whose literals stay in buckets at multiples of their size */
  lemma EvenResult(bitmap: Map, pair: Pair)
    requires pair.Ok() && bitmap.store.Ok() && bitmap.bitsInBucket > 0 && bitmap.bitsInBucket % 32 == 0
    requires bitmap.len == 32 * pair.Full() + bitmap.len % 32 && bitmap.store.All() == pair.Words(pair.Full())
    requires LiteralsStay(pair.a, bitmap.bitsInBucket) && LiteralsStay(pair.b, bitmap.bitsInBucket)
    requires Uneven(bitmap.Contents(), bitmap.bitsInBucket)
    ensures pair.FinalLayout(bitmap.bitsInBucket) == Kept(0) && LaidOut(Kept(0), bitmap.bitsInBucket, bitmap.Contents())
  {
    hide Mixed, LiteralsStay, Pair.LayoutFrom, Pair.Words, Pair.Full, WellFormed, Store.Ok, Store.All, Map.Contents, Ones;
    UnevenIsMixed(bitmap);
    StaysKept(pair, bitmap.bitsInBucket, 0);
    WahGet.ContentsAt(bitmap, 0);
    if |bitmap.Contents()| >= bitmap.bitsInBucket + 32 { UnevenOnes(bitmap.Contents(), bitmap.bitsInBucket); }
  }

  lemma UnevenOnes(bits: seq<bool>, size: nat)
    requires Uneven(bits, size) && |bits| >= size + 32
    ensures 0 < Ones(bits) < |bits|
  {
    var n := size + 32;
    assert bits == bits[..n] + bits[n..];
    OnesJoin(bits[..n], bits[n..]);
    OnesAtMost(bits[n..]);
  }

  /** Two bitmaps of one bit that is off, both complemented: one bit is on, and 32 are counted. */
  method BothComplemented(bitsInBucket: nat) returns (bitmap: Map)
    requires bitsInBucket > 0 && bitsInBucket % 32 == 0
    ensures fresh(bitmap) && bitmap.len == 1 && bitmap.store.Ok() && bitmap.Contents() == [true] && bitmap.active == 32
  {
    hide Matches, LaidOut, Pair.FinalLayout, WellFormed, Regular, Uneven, Store.All, Map.Filled;
    bitmap := OneOff(bitsInBucket);
    var other := OneOff(bitsInBucket);
    AndInto(bitmap, other, true, true);
    assert bitmap.Contents() == [true];
  }

  method OneOff(bitsInBucket: nat) returns (bitmap: Map)
    requires bitsInBucket > 0 && bitsInBucket % 32 == 0
    ensures fresh(bitmap) && bitmap.Valid() && bitmap.Contents() == [false] && bitmap.len == 1 && bitmap.bitsInBucket == bitsInBucket
  {
    bitmap := new Map(bitsInBucket);
    bitmap.Add(false, 1);
    assert bitmap.Contents() == [false];
    WahGet.ContentsAt(bitmap, 0);
  }
}
