/**
 The bits of a word-aligned hybrid bitmap, enumerated one set bit at a time.
 */
module WahBits {
  import opened Bits
  import opened WahFormat
  import opened WahEnum

  // ---------------------------------------------------------------- positions of set bits

  /** The positions of the set bits of `s`, counted from `base`. */
  function Positions(s: seq<bool>, base: nat): seq<nat> {
    if s == [] then [] else (if s[0] then [base] else []) + Positions(s[1..], base + 1)
  }

  lemma {:induction false} PositionsAre(s: seq<bool>, base: nat, k: nat)
    ensures k in Positions(s, base) <==> base <= k < base + |s| && s[k - base]
    decreases |s|
  {
    if s != [] {
      var rest := Positions(s[1..], base + 1);
      PositionsAre(s[1..], base + 1, k);
      assert k in Positions(s, base) <==> (s[0] && k == base) || k in rest;
      assert base < k < base + |s| ==> s[1..][k - base - 1] == s[k - base];
    }
  }

  lemma {:induction false} PositionsIncrease(s: seq<bool>, base: nat)
    ensures forall i, j | 0 <= i < j < |Positions(s, base)| :: Positions(s, base)[i] < Positions(s, base)[j]
    ensures forall i | 0 <= i < |Positions(s, base)| :: base <= Positions(s, base)[i]
    decreases |s|
  {
    if s != [] { PositionsIncrease(s[1..], base + 1); }
  }

  ghost predicate AllOff(s: seq<bool>) {
    forall i | 0 <= i < |s| :: !s[i]
  }

  /** Bits that are off can be skipped. */
  lemma {:induction false} PositionsSkip(s: seq<bool>, t: seq<bool>, base: nat)
    requires AllOff(s)
    ensures Positions(s + t, base) == Positions(t, base + |s|)
    decreases |s|
  {
    if s == [] {
      assert s + t == t;
    } else {
      assert (s + t)[1..] == s[1..] + t;
      PositionsSkip(s[1..], t, base + 1);
    }
  }

  // ---------------------------------------------------------------- the bits of words

  lemma {:induction false} OnesBit(n: nat, i: nat)
    requires i < n
    ensures Bit(Pow2(n) - 1, i)
  {
    if i > 0 {
      OnesBit(n - 1, i - 1);
      assert (Pow2(n) - 1) / 2 == Pow2(n - 1) - 1;
    }
  }

  lemma OnesIsPow2()
    ensures ONES == Pow2(32) - 1
  {
    assert Pow2(4) == 16;
    Pow2Twice(4, 16);
    Pow2Twice(8, 0x100);
    Pow2Twice(16, 0x1_0000);
  }

  lemma RunBits(bit: bool)
    ensures ToBits(RunWord(bit), 32) == Same(bit, 32)
  {
    OnesIsPow2();
    forall i | 0 <= i < 32 ensures Bit(RunWord(bit), i) == bit {
      if bit { OnesBit(32, i); } else { BitZero(i); }
    }
  }

  lemma {:induction false} RepeatBits(bit: bool, n: nat, ws: seq<U32>, reverse: bool)
    ensures WordsBits(Repeat(RunWord(bit), n) + ws, reverse) == Same(bit != reverse, 32 * n) + WordsBits(ws, reverse)
    decreases n
  {
    var all := Repeat(RunWord(bit), n) + ws;
    if n == 0 {
      assert all == ws;
    } else {
      assert all[1..] == Repeat(RunWord(bit), n - 1) + ws;
      RepeatBits(bit, n - 1, ws, reverse);
      assert Flip(all[0], reverse) == RunWord(bit != reverse);
      RunBits(bit != reverse);
      assert Same(bit != reverse, 32) + Same(bit != reverse, 32 * (n - 1)) == Same(bit != reverse, 32 * n);
    }
  }

  lemma ToBitsShr(x: nat, n: nat, k: nat)
    requires k <= n
    ensures ToBits(Shr(x, k), n - k) == ToBits(x, n)[k..]
  {
    forall i | 0 <= i < n - k ensures Bit(Shr(x, k), i) == Bit(x, i + k) {
      BitShr(x, k, i);
    }
  }

  lemma {:induction false} ShrBelow(x: nat, n: nat, k: nat)
    requires x < Pow2(n) && k <= n
    ensures Shr(x, k) < Pow2(n - k)
    decreases k
  {
    if k > 0 { ShrBelow(x / 2, n - 1, k - 1); }
  }

  lemma ToBitsZero(n: nat)
    ensures AllOff(ToBits(0, n))
  {
    forall i | 0 <= i < n ensures !Bit(0, i) { BitZero(i); }
  }

  lemma LowBits(x: nat, n: nat)
    ensures ToBits(Low(x, n), n) == ToBits(x, n) && Low(x, n) < Pow2(n)
  {
    forall i | 0 <= i < n ensures Bit(Low(x, n), i) == Bit(x, i) { BitLow(x, n, i); }
    ShrLow(x, n);
  }

  // ---------------------------------------------------------------- the bit enumerator

  /** The bits loaded from the current word, or from a run of ones. */
  function Loaded(word: U32, remain: nat): (s: seq<bool>)
    ensures |s| == remain
  {
    if remain <= 32 then ToBits(word, remain) else Same(true, remain)
  }

  ghost function PendingBits(wah: Wah, reverse: bool): seq<bool> {
    ToBits(Flip(wah.pending, reverse), wah.len % 32)
  }

  /** The bits of a word enumerator from its current word on. */
  ghost function Whole(wah: Wah, reverse: bool, state: State, left: seq<U32>): seq<bool> {
    match state
    case END => []
    case PENDING => PendingBits(wah, reverse)
    case _ => WordsBits(left, reverse) + PendingBits(wah, reverse)
  }

  /** The bits of a word enumerator after its current word. */
  ghost function Later(wah: Wah, reverse: bool, state: State, left: seq<U32>): seq<bool> {
    match state
    case END => []
    case PENDING => []
    case _ => if left == [] then [] else WordsBits(left[1..], reverse) + PendingBits(wah, reverse)
  }

  /** A run of words: all its bits, then those after its last word. */
  lemma RunWhole(wah: Wah, reverse: bool, current: U32, n: nat, left: seq<U32>, last: seq<U32>)
    requires last != [] && current in {RunWord(true), RunWord(false)}
    requires left == Repeat(Flip(current, reverse), n) + last[1..]
    ensures Whole(wah, reverse, RUN, left) == Same(current != 0, 32 * n) + Later(wah, reverse, RUN, last)
  {
    var bit := (current != 0) != reverse;
    assert Flip(current, reverse) == RunWord(bit);
    RepeatBits(bit, n, last[1..], reverse);
  }

  lemma FirstWhole(wah: Wah, reverse: bool, state: State, left: seq<U32>)
    requires left != [] && state in {RUN, LITERAL}
    ensures Whole(wah, reverse, state, left) == Loaded(Flip(left[0], reverse), 32) + Later(wah, reverse, state, left)
  {
  }

  lemma PendingWhole(wah: Wah, reverse: bool)
    ensures var n := wah.len % 32; var word := Low(Flip(wah.pending, reverse), n);
      && word < Pow2(n) && word <= ONES
      && Whole(wah, reverse, PENDING, [wah.pending]) == Loaded(word, n) + Later(wah, reverse, PENDING, [wah.pending])
  {
    var n := wah.len % 32;
    LowBits(Flip(wah.pending, reverse), n);
    LowBelow(Flip(wah.pending, reverse), n);
  }

  lemma {:induction false} LowBelow(x: nat, n: nat)
    ensures Low(x, n) <= x
    decreases n
  {
    if n > 0 { LowBelow(x / 2, n - 1); }
  }

  lemma {:induction false} WordsBitsLength(ws: seq<U32>, reverse: bool)
    ensures |WordsBits(ws, reverse)| == 32 * |ws|
  {
    if ws != [] { WordsBitsLength(ws[1..], reverse); }
  }

  ghost predicate WordFits(word: U32, remain: nat) {
    if remain <= 32 then word < Pow2(remain) else word == ONES
  }

  /** The word after its first bit is passed: in a run of more than 32 ones, nothing is shifted. */
  function Shifted(word: U32, remain: nat): nat {
    if remain <= 32 then Shr(word, 1) else word
  }

  lemma LoadedDrop(word: U32, remain: nat)
    requires 0 < remain && WordFits(word, remain)
    ensures Shifted(word, remain) <= ONES && WordFits(Shifted(word, remain), remain - 1)
    ensures Loaded(word, remain)[1..] == Loaded(Shifted(word, remain), remain - 1)
  {
    OnesIsPow2();
    if remain <= 32 {
      ShrAtMost(word, 1);
      ToBitsShr(word, remain, 1);
      ShrBelow(word, remain, 1);
    } else {
      RunBits(true);
    }
  }

  lemma LoadedShift(word: U32, remain: nat, rest: seq<bool>, key: nat)
    requires 0 < remain && WordFits(word, remain) && Loaded(word, remain)[0]
    ensures Shifted(word, remain) <= ONES && WordFits(Shifted(word, remain), remain - 1)
    ensures Positions(Loaded(word, remain) + rest, key)
         == [key] + Positions(Loaded(Shifted(word, remain), remain - 1) + rest, key + 1)
  {
    LoadedDrop(word, remain);
    assert (Loaded(word, remain) + rest)[1..] == Loaded(word, remain)[1..] + rest;
  }

  lemma LoadedSkip(word: U32, remain: nat, later: seq<bool>, key: nat)
    requires remain <= 32 && 0 < word < Pow2(remain)
    ensures var bit := Lsb(word);
      && bit < remain && Shr(word, bit) < Pow2(remain - bit) && Shr(word, bit) <= ONES && ToBits(Shr(word, bit), remain - bit)[0]
      && Positions(Loaded(word, remain) + later, key) == Positions(ToBits(Shr(word, bit), remain - bit) + later, key + bit)
  {
    var bit := Lsb(word);
    if bit >= remain { BitAbove(word, remain, bit); }
    ToBitsShr(word, remain, bit);
    ShrBelow(word, remain, bit);
    ShrAtMost(word, bit);
    var off := Loaded(word, remain)[..bit];
    assert Loaded(word, remain) + later == off + (Loaded(word, remain)[bit..] + later);
    PositionsSkip(off, Loaded(word, remain)[bit..] + later, key);
  }

  /** `wah_bit_enum_t` */
  class BitEnum {
    const wah: Wah
    const reverse: bool
    const words: WordEnum
    var key: nat
    var remainBits: nat
    var currentWord: U32
    /** The bits after those of the current word. */
    ghost var rest: seq<bool>

    /** Up to 32 bits are those of `currentWord`, more are ones; and `key` is where the enumerator stands. */
    ghost predicate Stands()
      reads this
    {
      && WordFits(currentWord, remainBits)
      && key + remainBits + |rest| == wah.len
    }

    /** The bits not passed yet, the one at `key` first. */
    ghost function Ahead(): seq<bool>
      reads this
    {
      Loaded(currentWord, remainBits) + rest
    }

    ghost predicate OnBit()
      reads this
    {
      Stands() && remainBits > 0 && Loaded(currentWord, remainBits)[0]
    }

    ghost predicate Words()
      requires WellFormed(wah)
      reads words
    {
      words.wah == wah && words.reverse == reverse && words.Valid()
    }

    ghost function LaterBits(): seq<bool>
      reads words
    {
      Later(wah, reverse, words.state, words.left)
    }

    ghost function WholeBits(): seq<bool>
      reads words
    {
      Whole(wah, reverse, words.state, words.left)
    }

    ghost function WordsToGo(): nat
      reads words
    {
      match words.state
      case END => 0
      case PENDING => 1
      case _ => |words.left| + 1
    }

    /** `wah_word_enum_next`, seen through the bits */
    method NextWord() returns (ok: bool)
      requires WellFormed(wah) && Words() && words.state != END
      modifies words
      ensures Words() && (ok <==> words.state != END)
      ensures WholeBits() == old(LaterBits()) && WordsToGo() < old(WordsToGo())
    {
      ok := words.Next();
    }

    /** The start of `wah_bit_enum_next` */
    method Shift()
      requires OnBit()
      modifies this
      ensures Stands() && rest == old(rest)
      ensures old(Positions(Ahead(), key)) == [old(key)] + Positions(Ahead(), key)
    {
      LoadedShift(currentWord, remainBits, rest, key);
      key := key + 1;
      if remainBits <= 32 {
        currentWord := Shr(currentWord, 1);
      }
      remainBits := remainBits - 1;
    }

    /** The end of `wah_bit_enum_scan` */
    method SkipOff()
      requires Stands() && currentWord != 0
      modifies this
      ensures OnBit() && rest == old(rest)
      ensures Positions(Ahead(), key) == old(Positions(Ahead(), key))
    {
      if remainBits <= 32 {
        LoadedSkip(currentWord, remainBits, rest, key);
        var bit := Lsb(currentWord);
        key := key + bit;
        currentWord := Shr(currentWord, bit);
        remainBits := remainBits - bit;
      }
    }

    /** Where the enumerator stands among the words. */
    ghost predicate Valid()
      requires WellFormed(wah)
      reads this, words
    {
      Words() && (words.state != END ==> Stands() && rest == LaterBits())
    }

    /** The positions of the set bits to come, the one at `key` first. */
    ghost function ToCome(): seq<nat>
      reads this, words
    {
      if words.state == END then [] else Positions(Ahead(), key)
    }

    /** `wah_bit_enum_start` */
    constructor (wah: Wah, reverse: bool)
      requires WellFormed(wah)
      ensures this.wah == wah && this.reverse == reverse && fresh(words)
      ensures Valid() && (words.state != END ==> OnBit())
      ensures ToCome() == Positions(BitsOf(wah, reverse), 0)
    {
      this.wah, this.reverse := wah, reverse;
      key, remainBits, currentWord := 0, 0, 0;
      rest := [];
      words := new WordEnum(wah, reverse);
      new;
      StartBits(wah, reverse, words.state, words.left);
      if words.state != END {
        LoadFirst();
        Scan();
      }
    }

    method LoadFirst()
      requires WellFormed(wah) && Words() && words.state != END && key == 0 && |WholeBits()| == wah.len
      modifies this
      ensures Stands() && rest == LaterBits() && key == 0 && Ahead() == WholeBits()
    {
      OnesIsPow2();
      currentWord := words.current;
      remainBits := 32;
      if words.state == PENDING {
        PendingWhole(wah, reverse);
        remainBits := wah.len % 32;
        currentWord := Low(currentWord, remainBits);
      } else {
        FirstWhole(wah, reverse, words.state, words.left);
      }
      rest := LaterBits();
    }

    /** The loop of `wah_for_each_1` */
    method VisitAll() returns (keys: seq<nat>)
      requires WellFormed(wah) && Valid() && (words.state != END ==> OnBit())
      modifies this, words
      ensures keys == old(ToCome())
    {
      hide Valid, OnBit, Positions, Ahead, WellFormed;
      keys := [];
      while words.state != END
        invariant WellFormed(wah) && Valid() && (words.state != END ==> OnBit())
        invariant keys + ToCome() == old(ToCome())
        decreases |ToCome()|
      {
        ghost var before, here := keys, key;
        keys := keys + [key];
        Next();
        Appended(before, here, ToCome());
      }
    }

    /** `wah_bit_enum_next` */
    method Next()
      requires WellFormed(wah) && Valid() && words.state != END && OnBit()
      modifies this, words
      ensures Valid() && (words.state != END ==> OnBit())
      ensures old(ToCome()) == [old(key)] + ToCome()
    {
      Shift();
      Scan();
    }

    /** `wah_bit_enum_scan`: passes the bits that are off. */
    method Scan()
      requires WellFormed(wah) && Valid() && words.state != END
      modifies this, words
      ensures Valid() && (words.state != END ==> OnBit())
      ensures ToCome() == old(ToCome())
    {
      if currentWord == 0 {
        var ok := ScanWord();
        if !ok {
          return;
        }
      }
      SkipOff();
    }

    /** `wah_bit_enum_scan_word`: passes to the next word that is not zero. */
    method ScanWord() returns (ok: bool)
      requires WellFormed(wah) && Valid() && words.state != END && currentWord == 0
      modifies this, words
      ensures Valid() && (ok <==> words.state != END)
      ensures ok ==> currentWord != 0
      ensures ToCome() == old(ToCome())
    {
      ok := LeaveWord();
      while ok
        invariant Words() && (ok <==> words.state != END)
        invariant Positions(WholeBits(), key) == old(ToCome())
        invariant ok ==> key + |WholeBits()| == wah.len
        decreases WordsToGo()
      {
        var found := Load();
        if found {
          return true;
        }
        ok := NextWord();
      }
    }

    method LeaveWord() returns (ok: bool)
      requires WellFormed(wah) && Valid() && words.state != END && currentWord == 0
      modifies this, words
      ensures Words() && (ok <==> words.state != END)
      ensures Positions(WholeBits(), key) == old(ToCome()) && key + |WholeBits()| == wah.len
    {
      PassWord();
      ok := NextWord();
    }

    method PassWord()
      requires Stands() && currentWord == 0
      modifies this
      ensures rest == old(rest) && key + |rest| == wah.len
      ensures Positions(rest, key) == old(Positions(Ahead(), key))
    {
      PassZero(remainBits, rest, key);
      key := key + remainBits;
    }

    /** The body of the loop of `wah_bit_enum_scan_word` */
    method Load() returns (found: bool)
      requires WellFormed(wah) && Words() && words.state != END
      modifies this, words
      ensures Words() && words.state == old(words.state) && |words.left| <= old(|words.left|)
      ensures found ==> currentWord != 0 && key == old(key) && Ahead() == old(WholeBits())
      ensures found ==> WordFits(currentWord, remainBits)
      ensures found ==> rest == LaterBits()
      ensures !found ==> Positions(LaterBits(), key) == old(Positions(WholeBits(), key))
      ensures !found && words.state != PENDING ==> key + |LaterBits()| == old(key + |WholeBits()|)
    {
      if words.state == RUN {
        found := LoadRun();
      } else {
        found := LoadWord();
      }
    }

    method LoadWord() returns (found: bool)
      requires words.state in {LITERAL, PENDING} && words.left != [] && words.current == Flip(words.left[0], reverse)
      requires words.state == PENDING ==> words.left == [wah.pending]
      modifies this
      ensures found ==> currentWord != 0 && key == old(key) && Ahead() == WholeBits()
      ensures found ==> WordFits(currentWord, remainBits)
      ensures found ==> rest == LaterBits()
      ensures !found ==> Positions(LaterBits(), key) == Positions(WholeBits(), old(key))
      ensures !found && words.state != PENDING ==> key + |LaterBits()| == old(key) + |WholeBits()|
    {
      hide Whole, ToBits, WordsBits;
      TakeWord();
      if currentWord != 0 {
        return true;
      }
      PassZero(remainBits, rest, key);
      key := key + 32;
      found := false;
    }

    method TakeWord()
      requires words.state in {LITERAL, PENDING} && words.left != [] && words.current == Flip(words.left[0], reverse)
      requires words.state == PENDING ==> words.left == [wah.pending]
      modifies this
      ensures key == old(key) && rest == LaterBits() && Ahead() == WholeBits()
      ensures WordFits(currentWord, remainBits) && (words.state != PENDING ==> remainBits == 32)
    {
      OnesIsPow2();
      currentWord := words.current;
      if words.state == PENDING {
        PendingWhole(wah, reverse);
        remainBits := wah.len % 32;
        currentWord := Low(currentWord, remainBits);
      } else {
        FirstWhole(wah, reverse, words.state, words.left);
        remainBits := 32;
      }
      rest := LaterBits();
      assert Ahead() == WholeBits();
    }

    method LoadRun() returns (found: bool)
      requires WellFormed(wah) && Words() && words.state == RUN
      modifies this, words
      ensures Words() && words.state == RUN && |words.left| <= old(|words.left|)
      ensures found ==> currentWord != 0 && key == old(key) && Ahead() == old(WholeBits())
      ensures found ==> WordFits(currentWord, remainBits)
      ensures found ==> rest == LaterBits()
      ensures !found ==> Positions(LaterBits(), key) == old(Positions(WholeBits(), key))
      ensures !found ==> key + |LaterBits()| == old(key + |WholeBits()|)
    {
      ghost var left := words.left;
      currentWord := words.current;
      var n := words.remainWords;
      words.LastOfRun();
      found := TakeRun(n, left);
    }

    method TakeRun(n: nat, ghost left: seq<U32>) returns (found: bool)
      requires n > 0 && words.state == RUN && words.left != [] && currentWord in {RunWord(true), RunWord(false)}
      requires left == Repeat(Flip(currentWord, reverse), n) + words.left[1..]
      modifies this
      ensures found ==> currentWord != 0 && WordFits(currentWord, remainBits) && key == old(key)
      ensures found ==> Ahead() == Whole(wah, reverse, RUN, left) && rest == LaterBits()
      ensures !found ==> Positions(LaterBits(), key) == Positions(Whole(wah, reverse, RUN, left), old(key))
      ensures !found ==> key + |LaterBits()| == old(key) + |Whole(wah, reverse, RUN, left)|
    {
      RunWhole(wah, reverse, currentWord, n, left, words.left);
      rest := LaterBits();
      if currentWord != 0 {
        RunBits(true);
        OnesIsPow2();
        remainBits := n * 32;
        return true;
      }
      PositionsSkip(Same(false, 32 * n), rest, key);
      key := key + n * 32;
      found := false;
    }
  }

  lemma StartBits(wah: Wah, reverse: bool, state: State, left: seq<U32>)
    requires WellFormed(wah)
    requires state == END <==> wah.len == 0
    requires state == PENDING <==> 0 < wah.len < 32
    requires wah.len >= 32 ==> left == FullWords(wah)
    ensures Whole(wah, reverse, state, left) == BitsOf(wah, reverse)
    ensures |BitsOf(wah, reverse)| == wah.len
  {
    WordsBitsLength(FullWords(wah), reverse);
  }

  /** `wah_for_each_1`, `wah_for_each_0`: the keys an enumeration visits. */
  method ForEach(wah: Wah, reverse: bool) returns (keys: seq<nat>)
    requires WellFormed(wah)
    ensures keys == Positions(BitsOf(wah, reverse), 0)
  {
    var en := new BitEnum(wah, reverse);
    keys := en.VisitAll();
  }

  lemma {:induction false} FlipBit(n: nat, w: nat, i: nat)
    requires w < Pow2(n) && i < n
    ensures Bit(Pow2(n) - 1 - w, i) == !Bit(w, i)
    decreases n
  {
    if i > 0 {
      FlipBit(n - 1, w / 2, i - 1);
      assert (Pow2(n) - 1 - w) / 2 == Pow2(n - 1) - 1 - w / 2;
    }
  }

  lemma FlippedWord(w: U32, n: nat, i: nat)
    requires i < n <= 32
    ensures ToBits(Flip(w, true), n)[i] == !ToBits(w, n)[i]
  {
    OnesIsPow2();
    FlipBit(32, w, i);
  }

  lemma {:induction false} FlippedWords(ws: seq<U32>, i: nat)
    requires i < |WordsBits(ws, false)|
    ensures |WordsBits(ws, true)| == |WordsBits(ws, false)|
    ensures WordsBits(ws, true)[i] == !WordsBits(ws, false)[i]
  {
    WordsBitsLength(ws, true);
    WordsBitsLength(ws, false);
    if i < 32 {
      FlippedWord(ws[0], 32, i);
    } else {
      FlippedWords(ws[1..], i - 32);
    }
  }

  /** An enumeration visits exactly the positions of the bits that are set, or unset when reversed, in order. */
  lemma VisitedExactly(wah: Wah, reverse: bool, k: nat)
    requires WellFormed(wah)
    ensures |BitsOf(wah, false)| == wah.len
    ensures k in Positions(BitsOf(wah, reverse), 0) <==> k < wah.len && BitsOf(wah, false)[k] != reverse
  {
    var words := FullWords(wah);
    WordsBitsLength(words, false);
    WordsBitsLength(words, reverse);
    PositionsAre(BitsOf(wah, reverse), 0, k);
    if k < wah.len && reverse {
      if k < 32 * |words| {
        FlippedWords(words, k);
      } else {
        FlippedWord(wah.pending, wah.len % 32, k - 32 * |words|);
      }
    }
  }

  lemma Appended(s: seq<nat>, k: nat, t: seq<nat>)
    ensures (s + [k]) + t == s + ([k] + t)
  {
  }

  lemma PassZero(n: nat, later: seq<bool>, key: nat)
    requires n <= 32
    ensures Positions(Loaded(0, n) + later, key) == Positions(later, key + n)
  {
    ToBitsZero(n);
    PositionsSkip(Loaded(0, n), later, key);
  }
}
