/**
 The end of a word-aligned hybrid bitmap while it is written: the last bucket, with the positions of its last chunk
 and of the one before it.
 */
module WahBucket {
  import opened WahFormat

  // ---------------------------------------------------------------- appending chunks

  lemma {:induction false} ShiftChunks(a: seq<U32>, b: seq<U32>, q: nat)
    requires Chunked(b, q)
    ensures Chunked(a + b, |a| + q) && Words(a + b, |a| + q) == Words(b, q)
    decreases |b| - q
  {
    if q < |b| {
      ShiftChunk(a, b, q);
      ShiftChunks(a, b, ChunkEnd(b, q));
    }
  }

  lemma ShiftChunk(a: seq<U32>, b: seq<U32>, q: nat)
    requires ChunkAt(b, q)
    ensures var t, p := a + b, |a| + q;
      && ChunkAt(t, p) && ChunkEnd(t, p) == |a| + ChunkEnd(b, q) && t[p] == b[q] && t[p + 1] == b[q + 1]
      && t[p + 2..ChunkEnd(t, p)] == b[q + 2..ChunkEnd(b, q)]
  {
  }

  /** The words of two lists of chunks one after the other. */
  lemma {:induction false} JoinChunks(a: seq<U32>, p: nat, b: seq<U32>)
    requires Chunked(a, p) && Chunked(b, 0)
    ensures Chunked(a + b, p) && Words(a + b, p) == Words(a, p) + Words(b, 0)
    decreases |a| - p
  {
    if p == |a| {
      ShiftChunks(a, b, 0);
    } else {
      SameChunk(a, p, b);
      JoinChunks(a, ChunkEnd(a, p), b);
      Assoc(Repeat(RunWord(HeadBit(a[p])), HeadWords(a[p])), a[p + 2..ChunkEnd(a, p)], Words(a, ChunkEnd(a, p)), Words(b, 0));
    }
  }

  lemma SameChunk(a: seq<U32>, p: nat, b: seq<U32>)
    requires ChunkAt(a, p)
    ensures ChunkAt(a + b, p) && ChunkEnd(a + b, p) == ChunkEnd(a, p) && (a + b)[p] == a[p] && (a + b)[p + 1] == a[p + 1]
    ensures (a + b)[p + 2..ChunkEnd(a, p)] == a[p + 2..ChunkEnd(a, p)]
  {
  }

  lemma Assoc(a: seq<U32>, b: seq<U32>, c: seq<U32>, d: seq<U32>)
    ensures a + (b + (c + d)) == (a + (b + c)) + d
  {
  }

  /** A chunk as it is stored */
  function Chunk(head: U32, literals: seq<U32>): seq<U32>
    requires |literals| <= ONES
  {
    [head, |literals|] + literals
  }

  function ChunkWords(head: U32, literals: seq<U32>): seq<U32> {
    Repeat(RunWord(HeadBit(head)), HeadWords(head)) + literals
  }

  lemma RunOnly(n: nat, bit: bool)
    requires n <= MAX_RUN
    ensures HeadWords(Head(n, bit)) == n && HeadBit(Head(n, bit)) == bit
    ensures ChunkWords(Head(n, bit), []) == Repeat(RunWord(bit), n)
  {
    NoMore(Repeat(RunWord(bit), n));
  }

  lemma NoRepeat(s: seq<U32>, w: U32)
    ensures s + Repeat(w, 0) == s
  {
  }

  lemma NoMore(s: seq<U32>)
    ensures s + [] == s
  {
  }

  lemma OneChunk(head: U32, literals: seq<U32>)
    requires |literals| <= ONES && (HeadWords(head) > 0 || literals != [])
    ensures Chunked(Chunk(head, literals), 0) && Words(Chunk(head, literals), 0) == ChunkWords(head, literals)
  {
    var c := Chunk(head, literals);
    assert ChunkAt(c, 0) && ChunkEnd(c, 0) == |c| && c[2..|c|] == literals;
    assert literals + [] == literals;
  }

  // ---------------------------------------------------------------- the last bucket

  /** `previous_run_pos` and `last_run_pos` of the last bucket */
  datatype Last = Last(tab: seq<U32>, prev: int, run: nat)

  /** The last chunk begins at `run` and ends with the bucket. */
  predicate Ends(tab: seq<U32>, run: nat) {
    run + 2 <= |tab| && run + 2 + tab[run + 1] == |tab|
  }

  /** The chunk at `prev` ends where the last one begins; it is not empty and not a run of one word. */
  predicate PrevFits(front: seq<U32>, prev: int) {
    && 0 <= prev && Ends(front, prev) && Chunked(front[..prev], 0)
    && !EmptyChunk(front, prev) && HeadWords(front[prev]) != 1
  }

  /** The last bucket is a list of chunks, of which only the last may be empty. */
  predicate Parsed(l: Last) {
    Ends(l.tab, l.run) && Chunked(l.tab[..l.run], 0) && (l.prev != -1 ==> PrevFits(l.tab[..l.run], l.prev))
  }

  /**
   A run of a single word is the last chunk, without literals, and can still join the chunk before it; only a new
   bucket is empty.
   */
  predicate LastOk(l: Last) {
    && Parsed(l)
    && (HeadWords(l.tab[l.run]) == 1 ==> l.tab[l.run + 1] == 0 && l.prev != -1)
    && (EmptyChunk(l.tab, l.run) ==> l.run == 0)
  }

  /** The words that the last bucket stands for */
  function LastWords(l: Last): seq<U32>
    requires Parsed(l)
  {
    Words(l.tab[..l.run], 0) + ChunkWords(l.tab[l.run], l.tab[l.run + 2..])
  }

  /** The last bucket as a list of chunks, once its last chunk is not empty */
  lemma WholeBucket(l: Last)
    requires Parsed(l) && !EmptyChunk(l.tab, l.run)
    ensures Chunked(l.tab, 0) && Words(l.tab, 0) == LastWords(l)
  {
    Taken(l);
    WithChunk(l.tab[..l.run], l.tab[l.run], l.tab[l.run + 2..]);
  }

  /** One more chunk after a list of chunks */
  lemma WithChunk(front: seq<U32>, head: U32, literals: seq<U32>)
    requires Chunked(front, 0) && |literals| <= ONES && (HeadWords(head) > 0 || literals != [])
    ensures Chunked(front + Chunk(head, literals), 0)
    ensures Words(front + Chunk(head, literals), 0) == Words(front, 0) + ChunkWords(head, literals)
  {
    OneChunk(head, literals);
    JoinChunks(front, 0, Chunk(head, literals));
  }

  /** The last bucket made of what comes before its last chunk and that chunk */
  function Made(front: seq<U32>, prev: int, head: U32, literals: seq<U32>): Last
    requires |literals| <= ONES
  {
    Last(front + Chunk(head, literals), prev, |front|)
  }

  lemma MadeIs(front: seq<U32>, prev: int, head: U32, literals: seq<U32>)
    requires |literals| <= ONES
    ensures var l := Made(front, prev, head, literals);
      && Ends(l.tab, l.run) && l.tab[..l.run] == front && l.tab[l.run] == head && l.tab[l.run + 2..] == literals
      && l.tab[l.run + 1] == |literals|
  {
  }

  /** Every last bucket is made so. */
  lemma Taken(l: Last)
    requires Ends(l.tab, l.run)
    ensures |l.tab[l.run + 2..]| <= ONES
    ensures l == Made(l.tab[..l.run], l.prev, l.tab[l.run], l.tab[l.run + 2..])
  {
    assert l.tab == l.tab[..l.run] + Chunk(l.tab[l.run], l.tab[l.run + 2..]);
  }

  /** `wah_flatten_last_run`: a run of one word becomes a literal. */
  method FlattenLastRun(l: Last) returns (f: Last)
    requires Parsed(l) && |l.tab| < ONES && (EmptyChunk(l.tab, l.run) ==> l.run == 0)
    requires HeadWords(l.tab[l.run]) == 1 ==> l.tab[l.run + 1] == 0 && (l.prev == -1 ==> l.run == 0)
    ensures LastOk(f) && LastWords(f) == LastWords(l)
    ensures HeadWords(f.tab[f.run]) != 1 && |f.tab| <= |l.tab| + 1
    ensures !EmptyChunk(l.tab, l.run) ==> !EmptyChunk(f.tab, f.run)
  {
    var head := l.tab[l.run];
    if HeadWords(head) != 1 {
      return l;
    }
    if l.run > 0 {
      var tab := l.tab[..|l.tab| - 2];
      tab := tab[l.prev + 1 := tab[l.prev + 1] + 1];
      f := Last(tab + [RunWord(HeadBit(head))], -1, l.prev);
      JoinsPrevious(l, f);
    } else {
      var tab := l.tab[0 := Head(0, HeadBit(head))][1 := 1];
      f := Last(tab + [RunWord(HeadBit(head))], l.prev, 0);
    }
  }

  lemma JoinsPrevious(l: Last, f: Last)
    requires Parsed(l) && l.prev != -1 && HeadWords(l.tab[l.run]) == 1 && l.tab[l.run + 1] == 0 && |l.tab| < ONES
    requires f.tab == l.tab[..|l.tab| - 2][l.prev + 1 := l.tab[l.prev + 1] + 1] + [RunWord(HeadBit(l.tab[l.run]))]
    requires f.prev == -1 && f.run == l.prev
    ensures Parsed(f) && LastWords(f) == LastWords(l) && f.tab[f.run] == l.tab[l.prev] && f.tab[f.run + 1] > 0
  {
    hide Words, Chunked, Repeat, EmptyChunk;
    var front, w := l.tab[..l.run], RunWord(HeadBit(l.tab[l.run]));
    var before, head, literals := front[..l.prev], front[l.prev], front[l.prev + 2..];
    assert l.tab[..|l.tab| - 2] == front;
    LongerChunk(front, l.prev, [w]);
    assert f == Made(before, -1, head, literals + [w]);
    MadeIs(before, -1, head, literals + [w]);
    PrevWords(front, l.prev);
    SingleWord(l);
    LiteralLast(Words(before, 0), Repeat(RunWord(HeadBit(head)), HeadWords(head)), literals, w);
  }

  /** A last chunk that is a run of one word */
  lemma SingleWord(l: Last)
    requires Parsed(l) && HeadWords(l.tab[l.run]) == 1 && l.tab[l.run + 1] == 0
    ensures LastWords(l) == Words(l.tab[..l.run], 0) + [RunWord(HeadBit(l.tab[l.run]))]
  {
    hide Words, Chunked;
    var w := RunWord(HeadBit(l.tab[l.run]));
    assert l.tab[l.run + 2..] == [];
    assert Repeat(w, 1) == [w];
    NoMore([w]);
  }

  lemma PrevWords(front: seq<U32>, prev: int)
    requires PrevFits(front, prev)
    ensures Chunked(front, 0)
    ensures Words(front, 0) == Words(front[..prev], 0) + ChunkWords(front[prev], front[prev + 2..])
  {
    WholeBucket(Last(front, -1, prev));
  }

  lemma LiteralLast(a: seq<U32>, b: seq<U32>, c: seq<U32>, w: U32)
    ensures a + (b + (c + [w])) == (a + (b + c)) + [w]
  {
  }

  lemma {:induction false} RepeatSum(w: U32, m: nat, n: nat)
    ensures Repeat(w, m) + Repeat(w, n) == Repeat(w, m + n)
    decreases m
  {
    if m > 0 {
      RepeatSum(w, m - 1, n);
      assert Repeat(w, m) + Repeat(w, n) == [w] + (Repeat(w, m - 1) + Repeat(w, n));
    } else {
      assert Repeat(w, m) + Repeat(w, n) == Repeat(w, n);
    }
  }

  /** `r` holds the words of `l` and then `ws`. */
  ghost predicate Pushed(l: Last, r: Last, ws: seq<U32>) {
    Parsed(l) && Parsed(r) && LastWords(r) == LastWords(l) + ws
  }

  lemma PushedNone(l: Last)
    requires Parsed(l)
    ensures Pushed(l, l, [])
  {
  }

  lemma PushedMore(l: Last, m: Last, r: Last, a: seq<U32>, b: seq<U32>)
    requires Pushed(l, m, a) && Pushed(m, r, b)
    ensures Pushed(l, r, a + b)
  {
    Assoc3(LastWords(l), a, b);
  }

  lemma PushedSame(l: Last, m: Last, r: Last, ws: seq<U32>)
    requires Pushed(l, m, ws) && Parsed(r) && LastWords(r) == LastWords(m)
    ensures Pushed(l, r, ws)
  {
  }

  lemma Assoc3(a: seq<U32>, b: seq<U32>, c: seq<U32>)
    ensures (a + b) + c == a + (b + c)
  {
  }

  /** `__wah_push_pending`: the pending word, `words` times, at the end of the last bucket. */
  method PushPending(l: Last, pending: U32, words: nat) returns (r: Last)
    requires LastOk(l) && words > 0 && |l.tab| < ONES
    requires pending != 0 && pending != ONES ==> |l.tab| + words < ONES
    ensures LastOk(r) && !EmptyChunk(r.tab, r.run) && |r.tab| <= |l.tab| + 1 + 2 * words
    ensures Pushed(l, r, Repeat(pending, words))
  {
    if pending != 0 && pending != ONES {
      var f := FlattenLastRun(l);
      r := AddLiterals(f, pending, words);
    } else {
      r := PushRun(l, pending != 0, words);
    }
  }

  method PushRun(l: Last, bit: bool, words: nat) returns (r: Last)
    requires LastOk(l) && words > 0 && |l.tab| < ONES
    ensures LastOk(r) && !EmptyChunk(r.tab, r.run) && |r.tab| <= |l.tab| + 1 + 2 * words
    ensures Pushed(l, r, Repeat(RunWord(bit), words))
  {
    ghost var added, more;
    var f, left;
    f, left, added := MergeFlat(l, bit, words);
    r, more := NewRuns(f, bit, left);
    PushedMore(l, f, r, added, more);
    RepeatSum(RunWord(bit), words - left, left);
  }

  /** The start of a push of equal words: no run of one word remains in front of a new one. */
  method MergeFlat(l: Last, bit: bool, words: nat) returns (f: Last, left: nat, ghost added: seq<U32>)
    requires LastOk(l) && words > 0 && |l.tab| < ONES
    ensures LastOk(f) && !EmptyChunk(f.tab, f.run) && HeadWords(f.tab[f.run]) != 1 && |f.tab| <= |l.tab| + 1
    ensures left <= words && added == Repeat(RunWord(bit), words - left) && Pushed(l, f, added)
  {
    var m;
    m, left, added := MergeRun(l, bit, words);
    f := m;
    if HeadWords(m.tab[m.run]) < 2 {
      f := FlattenLastRun(m);
    }
    PushedSame(l, m, f, added);
  }

  /** The words are added to the last run if they fit. */
  method MergeRun(l: Last, bit: bool, words: nat) returns (r: Last, left: nat, ghost added: seq<U32>)
    requires LastOk(l) && words > 0
    ensures left <= words && added == Repeat(RunWord(bit), words - left) && Pushed(l, r, added)
    ensures |r.tab| == |l.tab| && !EmptyChunk(r.tab, r.run)
    ensures HeadWords(r.tab[r.run]) == 1 ==> r.tab[r.run + 1] == 0 && (r.prev == -1 ==> r.run == 0)
  {
    var head := l.tab[l.run];
    if l.tab[l.run + 1] == 0 && (HeadBit(head) == bit || HeadWords(head) == 0) {
      r, left, added := LengthenRun(l, bit, words);
    } else {
      r, left, added := l, words, [];
      PushedNone(l);
    }
  }

  method LengthenRun(l: Last, bit: bool, words: nat) returns (r: Last, left: nat, ghost added: seq<U32>)
    requires LastOk(l) && words > 0 && l.tab[l.run + 1] == 0
    requires HeadBit(l.tab[l.run]) == bit || HeadWords(l.tab[l.run]) == 0
    ensures left <= words && added == Repeat(RunWord(bit), words - left) && Pushed(l, r, added)
    ensures |r.tab| == |l.tab| && HeadWords(r.tab[r.run]) > 0
    ensures HeadWords(r.tab[r.run]) == 1 ==> r.tab[r.run + 1] == 0 && (r.prev == -1 ==> r.run == 0)
  {
    var head := l.tab[l.run];
    var room := MAX_RUN - HeadWords(head);
    var toAdd := if words < room then words else room;
    r := l.(tab := l.tab[l.run := Head(HeadWords(head) + toAdd, bit)]);
    left := words - toAdd;
    added := Repeat(RunWord(bit), toAdd);
    Merged(l, r, bit, toAdd, added);
  }

  lemma Merged(l: Last, r: Last, bit: bool, n: nat, added: seq<U32>)
    requires LastOk(l) && l.tab[l.run + 1] == 0 && HeadWords(l.tab[l.run]) + n <= MAX_RUN
    requires HeadBit(l.tab[l.run]) == bit || HeadWords(l.tab[l.run]) == 0
    requires r == l.(tab := l.tab[l.run := Head(HeadWords(l.tab[l.run]) + n, bit)])
    requires added == Repeat(RunWord(bit), n)
    ensures Pushed(l, r, added)
    ensures HeadWords(r.tab[r.run]) == HeadWords(l.tab[l.run]) + n
  {
    var m := HeadWords(l.tab[l.run]);
    assert r.tab[..r.run] == l.tab[..l.run];
    assert l.tab[l.run + 2..] == [] && r.tab[r.run + 2..] == [];
    RepeatSum(RunWord(bit), m, n);
    RunOnly(m + n, bit);
    NoMore(Repeat(RunWord(HeadBit(l.tab[l.run])), m));
    Assoc3(Words(l.tab[..l.run], 0), Repeat(RunWord(bit), m), added);
  }

  /** New runs for the words that are left, each as long as a run can be. */
  method NewRuns(l: Last, bit: bool, words: nat) returns (r: Last, ghost added: seq<U32>)
    requires LastOk(l) && !EmptyChunk(l.tab, l.run) && (words > 0 ==> HeadWords(l.tab[l.run]) != 1)
    ensures LastOk(r) && !EmptyChunk(r.tab, r.run) && |r.tab| <= |l.tab| + 2 * words
    ensures added == Repeat(RunWord(bit), words) && Pushed(l, r, added)
  {
    var left: nat := words;
    r, added := l, [];
    PushedNone(l);
    while left > 0
      invariant LastOk(r) && !EmptyChunk(r.tab, r.run) && (left > 0 ==> HeadWords(r.tab[r.run]) != 1) && left <= words
      invariant |r.tab| <= |l.tab| + 2 * (words - left)
      invariant added == Repeat(RunWord(bit), words - left) && Pushed(l, r, added)
    {
      var next, toAdd;
      ghost var run;
      next, toAdd, run := NewRun(r, bit, left);
      PushedMore(l, r, next, added, run);
      RepeatSum(RunWord(bit), words - left, toAdd);
      r, left, added := next, left - toAdd, added + run;
    }
  }

  method NewRun(l: Last, bit: bool, left: nat) returns (r: Last, toAdd: nat, ghost added: seq<U32>)
    requires LastOk(l) && !EmptyChunk(l.tab, l.run) && HeadWords(l.tab[l.run]) != 1 && left > 0
    ensures LastOk(r) && !EmptyChunk(r.tab, r.run) && 0 < toAdd <= left && |r.tab| == |l.tab| + 2
    ensures toAdd < left ==> HeadWords(r.tab[r.run]) != 1
    ensures added == Repeat(RunWord(bit), toAdd) && Pushed(l, r, added)
  {
    toAdd := if left < MAX_RUN then left else MAX_RUN;
    r := Last(l.tab + [Head(toAdd, bit), 0], l.run, |l.tab|);
    added := Repeat(RunWord(bit), toAdd);
    Opened(l, r, bit, toAdd, added);
  }

  lemma Opened(l: Last, r: Last, bit: bool, n: nat, added: seq<U32>)
    requires LastOk(l) && !EmptyChunk(l.tab, l.run) && HeadWords(l.tab[l.run]) != 1 && 0 < n <= MAX_RUN
    requires r == Last(l.tab + [Head(n, bit), 0], l.run, |l.tab|)
    requires added == Repeat(RunWord(bit), n)
    ensures LastOk(r) && HeadWords(r.tab[r.run]) == n && Pushed(l, r, added)
  {
    WholeBucket(l);
    assert r.tab == Made(l.tab, l.run, Head(n, bit), []).tab;
    MadeIs(l.tab, l.run, Head(n, bit), []);
    RunOnly(n, bit);
  }

  /** Literal words at the end of the last chunk */
  method AddLiterals(l: Last, w: U32, words: nat) returns (r: Last)
    requires LastOk(l) && HeadWords(l.tab[l.run]) != 1 && words > 0 && |l.tab| + words <= ONES
    ensures LastOk(r) && !EmptyChunk(r.tab, r.run) && |r.tab| == |l.tab| + words
    ensures Pushed(l, r, Repeat(w, words))
  {
    var tab := l.tab[l.run + 1 := l.tab[l.run + 1] + words];
    ghost var start := tab;
    NoRepeat(start, w);
    for i := 0 to words
      invariant tab == start + Repeat(w, i)
    {
      RepeatSum(w, i, 1);
      tab := tab + [w];
    }
    r := l.(tab := tab);
    Lengthened(l, r, Repeat(w, words));
  }

  lemma LongerChunk(tab: seq<U32>, run: nat, ws: seq<U32>)
    requires Ends(tab, run) && |tab| + |ws| <= ONES
    ensures tab[run + 1 := tab[run + 1] + |ws|] + ws == tab[..run] + Chunk(tab[run], tab[run + 2..] + ws)
  {
  }

  lemma Lengthened(l: Last, r: Last, ws: seq<U32>)
    requires LastOk(l) && HeadWords(l.tab[l.run]) != 1 && ws != [] && |l.tab| + |ws| <= ONES
    requires r == l.(tab := l.tab[l.run + 1 := l.tab[l.run + 1] + |ws|] + ws)
    ensures LastOk(r) && !EmptyChunk(r.tab, r.run) && Pushed(l, r, ws)
  {
    var front, head, literals := l.tab[..l.run], l.tab[l.run], l.tab[l.run + 2..];
    LongerChunk(l.tab, l.run, ws);
    assert r == Made(front, l.prev, head, literals + ws);
    MadeIs(front, l.prev, head, literals + ws);
    Assoc(Words(front, 0), Repeat(RunWord(HeadBit(head)), HeadWords(head)), literals, ws);
  }
}
