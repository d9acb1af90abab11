/**
 Enumerating a word-aligned hybrid bitmap word by word.
 */
module WahEnum {
  import opened WahFormat

  /** `wah_enum_state_t` */
  datatype State = END | PENDING | LITERAL | RUN

  /** The words of the bitmap from position `p` of bucket `b` on. */
  ghost function Tail(wah: Wah, b: nat, p: nat): seq<U32>
    requires BucketsOk(wah.buckets) && b < |wah.buckets| && Chunked(wah.buckets[b], p)
  {
    Words(wah.buckets[b], p) + BucketsWords(wah.buckets[b + 1..])
  }

  /** The words after the run of the chunk at position `p` */
  ghost function AfterRun(wah: Wah, b: nat, p: nat): seq<U32>
    requires BucketsOk(wah.buckets) && b < |wah.buckets| && Chunked(wah.buckets[b], p) && p < |wah.buckets[b]|
  {
    wah.buckets[b][p + 2..ChunkEnd(wah.buckets[b], p)] + Tail(wah, b, ChunkEnd(wah.buckets[b], p))
  }

  lemma TailChunk(wah: Wah, b: nat, p: nat)
    requires BucketsOk(wah.buckets) && b < |wah.buckets| && Chunked(wah.buckets[b], p) && p < |wah.buckets[b]|
    ensures var tab := wah.buckets[b];
      Tail(wah, b, p) == Repeat(RunWord(HeadBit(tab[p])), HeadWords(tab[p])) + AfterRun(wah, b, p)
  {
  }

  /** Where a word enumerator stands: the state, the bucket, the position in it and the words left to pass there. */
  datatype Place = Place(state: State, bucket: nat, pos: nat, remainWords: nat)

  /** Passing chunks from position `q` on leads to position `p`. */
  predicate Reaches(tab: seq<U32>, q: nat, p: nat)
    decreases |tab| - q
  {
    q == p || (q < p && ChunkAt(tab, q) && Reaches(tab, ChunkEnd(tab, q), p))
  }

  lemma {:induction false} ReachesNext(tab: seq<U32>, q: nat, p: nat)
    requires Reaches(tab, q, p) && ChunkAt(tab, p)
    ensures Reaches(tab, q, ChunkEnd(tab, p))
    decreases |tab| - q
  {
    if q < p {
      ReachesNext(tab, ChunkEnd(tab, q), p);
    } else {
      assert Reaches(tab, ChunkEnd(tab, p), ChunkEnd(tab, p));
    }
  }

  /** The chunk at `p`, which ends at `pos`, has at least that many literals. */
  predicate LiteralsEnd(tab: seq<U32>, p: nat, pos: nat, remain: nat) {
    Reaches(tab, 0, p) && ChunkAt(tab, p) && Chunked(tab, p) && ChunkEnd(tab, p) == pos && remain <= tab[p + 1]
  }

  ghost predicate InChunks(wah: Wah, at: Place)
    requires WellFormed(wah)
  {
    && wah.len >= 32
    && at.bucket < |wah.buckets| && Chunked(wah.buckets[at.bucket], at.pos) && Reaches(wah.buckets[at.bucket], 0, at.pos)
  }

  ghost predicate PlaceOk(wah: Wah, at: Place)
    requires WellFormed(wah)
  {
    && at.bucket < |wah.buckets|
    && match at.state
       case END => true
       case PENDING => at.remainWords == 1 && wah.len % 32 != 0
       case LITERAL =>
         InChunks(wah, at) && 1 <= at.remainWords <= at.pos
         && exists p: nat :: LiteralsEnd(wah.buckets[at.bucket], p, at.pos, at.remainWords)
       case RUN =>
         InChunks(wah, at) && at.pos < |wah.buckets[at.bucket]|
         && 1 <= at.remainWords <= HeadWords(wah.buckets[at.bucket][at.pos])
  }

  /** The words left, the current one first; pending bits count as a word at their turn only. */
  ghost function Left(wah: Wah, at: Place): (ws: seq<U32>)
    requires WellFormed(wah) && PlaceOk(wah, at)
    ensures at.state != END ==> ws != []
  {
    match at.state
    case END => []
    case PENDING => [wah.pending]
    case LITERAL => wah.buckets[at.bucket][at.pos - at.remainWords..at.pos] + Tail(wah, at.bucket, at.pos)
    case RUN =>
      Repeat(RunWord(HeadBit(wah.buckets[at.bucket][at.pos])), at.remainWords) + AfterRun(wah, at.bucket, at.pos)
  }

  /** An enumerator at `at` shows `current`; at the end it shows zeros. */
  ghost predicate Shows(wah: Wah, reverse: bool, at: Place, current: U32)
    requires WellFormed(wah)
  {
    PlaceOk(wah, at) && current == Flip(if at.state == END then 0 else Left(wah, at)[0], reverse)
  }

  /** The words after the first `n`, none when there are fewer */
  function Drop(ws: seq<U32>, n: nat): seq<U32> { if n <= |ws| then ws[n..] else [] }

  lemma LongerDrop(a: seq<U32>, b: seq<U32>, n: nat)
    requires n <= |a|
    ensures Drop(a, n) == a[n..] && Drop(a + b, n) == a[n..] + b
  {
  }

  lemma DropNone(ws: seq<U32>)
    ensures Drop(ws, 0) == ws
  {
  }

  lemma DropDrop(ws: seq<U32>, m: nat, n: nat)
    ensures Drop(Drop(ws, m), n) == Drop(ws, m + n)
  {
  }

  lemma AtRun(wah: Wah, reverse: bool, b: nat, p: nat)
    requires WellFormed(wah) && InChunks(wah, Place(RUN, b, p, 0)) && p < |wah.buckets[b]| && HeadWords(wah.buckets[b][p]) > 0
    ensures var tab := wah.buckets[b]; var at := Place(RUN, b, p, HeadWords(tab[p]));
      Shows(wah, reverse, at, Flip(RunWord(HeadBit(tab[p])), reverse)) && Left(wah, at) == Tail(wah, b, p)
  {
    TailChunk(wah, b, p);
  }

  lemma AtLiterals(wah: Wah, reverse: bool, b: nat, p: nat)
    requires WellFormed(wah) && InChunks(wah, Place(RUN, b, p, 0)) && p < |wah.buckets[b]|
    requires HeadWords(wah.buckets[b][p]) == 0
    ensures var tab := wah.buckets[b]; var at := Place(LITERAL, b, ChunkEnd(tab, p), tab[p + 1]);
      Shows(wah, reverse, at, Flip(tab[p + 2], reverse)) && Left(wah, at) == Tail(wah, b, p)
  {
    TailChunk(wah, b, p);
    ReachesNext(wah.buckets[b], 0, p);
    assert LiteralsEnd(wah.buckets[b], p, ChunkEnd(wah.buckets[b], p), wah.buckets[b][p + 1]);
  }

  /** The next word of the same run */
  lemma RunStep(wah: Wah, reverse: bool, at: Place, current: U32)
    requires WellFormed(wah) && Shows(wah, reverse, at, current) && at.state == RUN && at.remainWords > 1
    ensures var next := at.(remainWords := at.remainWords - 1);
      Shows(wah, reverse, next, current) && Left(wah, next) == Left(wah, at)[1..]
  {
    hide AfterRun, Tail, Repeat, Chunked;
    RepeatDrop(RunWord(HeadBit(wah.buckets[at.bucket][at.pos])), at.remainWords, AfterRun(wah, at.bucket, at.pos));
  }

  lemma RepeatDrop(w: U32, n: nat, ws: seq<U32>)
    requires n > 1
    ensures (Repeat(w, n) + ws)[0] == (Repeat(w, n - 1) + ws)[0]
    ensures (Repeat(w, n) + ws)[1..] == Repeat(w, n - 1) + ws
  {
  }

  lemma RunLast(wah: Wah, reverse: bool, at: Place, current: U32)
    requires WellFormed(wah) && Shows(wah, reverse, at, current) && at.state == RUN
    ensures var last := at.(remainWords := 1);
      && Shows(wah, reverse, last, current) && current in {RunWord(true), RunWord(false)}
      && Left(wah, at) == Repeat(Flip(current, reverse), at.remainWords) + Left(wah, last)[1..]
  {
    hide AfterRun, Tail, Repeat, Chunked;
    RunThen(RunWord(HeadBit(wah.buckets[at.bucket][at.pos])), at.remainWords, AfterRun(wah, at.bucket, at.pos));
  }

  lemma RunThen(w: U32, n: nat, ws: seq<U32>)
    requires n > 0
    ensures (Repeat(w, n) + ws)[0] == w == (Repeat(w, 1) + ws)[0] && (Repeat(w, 1) + ws)[1..] == ws
  {
  }

  /** Words of the same run, or literals of the same chunk, that are passed at once */
  lemma Within(wah: Wah, at: Place, n: nat)
    requires WellFormed(wah) && PlaceOk(wah, at) && at.state in {RUN, LITERAL} && n < at.remainWords
    ensures n < |Left(wah, at)| && PlaceOk(wah, at.(remainWords := at.remainWords - n))
    ensures Left(wah, at.(remainWords := at.remainWords - n)) == Left(wah, at)[n..]
    ensures at.state == RUN ==> Left(wah, at)[n] == Left(wah, at)[0]
  {
    if at.state == RUN {
      hide AfterRun, Tail, Repeat, Chunked;
      RepeatFrom(RunWord(HeadBit(wah.buckets[at.bucket][at.pos])), at.remainWords, n, AfterRun(wah, at.bucket, at.pos));
    } else {
      hide Tail, Chunked, Reaches;
      var tab := wah.buckets[at.bucket];
      var p: nat :| LiteralsEnd(tab, p, at.pos, at.remainWords);
      assert LiteralsEnd(tab, p, at.pos, at.remainWords - n);
    }
  }

  lemma {:induction false} RepeatFrom(w: U32, n: nat, k: nat, ws: seq<U32>)
    requires k < n
    ensures (Repeat(w, n) + ws)[k..] == Repeat(w, n - k) + ws && (Repeat(w, n - k) + ws)[0] == w
    decreases k
  {
    if k > 0 {
      RepeatFrom(w, n - 1, k - 1, ws);
      var rest := Repeat(w, n - 1) + ws;
      assert Repeat(w, n) + ws == [w] + rest;
      assert ([w] + rest)[k..] == rest[k - 1..];
    }
  }

  /** From the last word of a run to the literals of its chunk */
  lemma RunOver(wah: Wah, reverse: bool, at: Place)
    requires WellFormed(wah) && PlaceOk(wah, at) && at.state == RUN && at.remainWords == 1
    ensures var tab := wah.buckets[at.bucket]; var end := ChunkEnd(tab, at.pos);
      && InChunks(wah, Place(LITERAL, at.bucket, end, tab[at.pos + 1]))
      && (tab[at.pos + 1] == 0 ==> Left(wah, at)[1..] == Tail(wah, at.bucket, end))
      && (tab[at.pos + 1] != 0 ==>
            && Shows(wah, reverse, Place(LITERAL, at.bucket, end, tab[at.pos + 1]), Flip(tab[at.pos + 2], reverse))
            && Left(wah, at)[1..] == Left(wah, Place(LITERAL, at.bucket, end, tab[at.pos + 1])))
  {
    var tab := wah.buckets[at.bucket];
    var end := ChunkEnd(tab, at.pos);
    var literals, tail := tab[at.pos + 2..end], Tail(wah, at.bucket, end);
    RunThen(RunWord(HeadBit(tab[at.pos])), 1, literals + tail);
    NoneThen(literals, tail);
    ReachesNext(tab, 0, at.pos);
    assert LiteralsEnd(tab, at.pos, end, tab[at.pos + 1]);
  }

  lemma NoneThen(a: seq<U32>, b: seq<U32>)
    ensures a == [] ==> a + b == b
    ensures a != [] ==> (a + b)[0] == a[0]
  {
  }

  /** The next literal of the same chunk */
  lemma LiteralStep(wah: Wah, reverse: bool, at: Place)
    requires WellFormed(wah) && PlaceOk(wah, at) && at.state == LITERAL && at.remainWords > 1
    ensures var next := at.(remainWords := at.remainWords - 1);
      && PlaceOk(wah, next) && Left(wah, next) == Left(wah, at)[1..]
      && Shows(wah, reverse, next, Flip(wah.buckets[at.bucket][at.pos - next.remainWords], reverse))
  {
    hide Tail, Chunked, Reaches;
    Within(wah, at, 1);
  }

  lemma LiteralOver(wah: Wah, at: Place)
    requires WellFormed(wah) && PlaceOk(wah, at) && at.state == LITERAL && at.remainWords == 1
    ensures Left(wah, at)[1..] == Tail(wah, at.bucket, at.pos)
  {
  }

  lemma BucketEnd(wah: Wah, b: nat)
    requires BucketsOk(wah.buckets) && b < |wah.buckets|
    ensures Tail(wah, b, |wah.buckets[b]|) == if b + 1 < |wah.buckets| then Tail(wah, b + 1, 0) else []
  {
    var rest := wah.buckets[b + 1..];
    if rest != [] {
      assert rest[0] == wah.buckets[b + 1] && rest[1..] == wah.buckets[b + 2..];
    }
  }

  /** `wah_word_enum_t` */
  class WordEnum {
    const wah: Wah
    const reverse: bool
    var state: State
    var bucket: nat
    var pos: nat
    var remainWords: nat
    var current: U32
    /** The words left, the current one first. */
    ghost var left: seq<U32>

    ghost function At(): Place
      reads this
    {
      Place(state, bucket, pos, remainWords)
    }

    ghost predicate Valid()
      requires WellFormed(wah)
      reads this
    {
      Shows(wah, reverse, At(), current) && left == Left(wah, At())
    }

    /** The place is right, but after part of a literal chunk has been passed `current` may be behind. */
    ghost predicate Placed()
      requires WellFormed(wah)
      reads this
    {
      PlaceOk(wah, At()) && left == Left(wah, At()) && (state != LITERAL ==> Valid())
    }

    lemma ValidIsPlaced()
      requires WellFormed(wah) && Valid()
      ensures Placed()
    {
    }

    /** All words left, with the pending bits as the last one */
    ghost function Rest(): seq<U32>
      reads this
    {
      if state in {RUN, LITERAL} && wah.len % 32 != 0 then left + [wah.pending] else left
    }

    lemma LastRest()
      requires WellFormed(wah) && Valid() && state in {END, PENDING}
      ensures |Rest()| == if state == END then 0 else 1
    {
    }

    /** `wah_word_enum_start` */
    constructor (wah: Wah, reverse: bool)
      requires WellFormed(wah)
      ensures this.wah == wah && this.reverse == reverse && Valid()
      ensures state == END <==> wah.len == 0
      ensures state == PENDING <==> 0 < wah.len < 32
      ensures wah.len >= 32 ==> left == FullWords(wah)
    {
      this.wah, this.reverse := wah, reverse;
      state, bucket, pos, remainWords := END, 0, 0, 0;
      current := Flip(0, reverse);
      left := [];
      new;
      if wah.len != 0 {
        assert wah.len >= 32 ==> wah.buckets[0..] == wah.buckets;
        StartChunk();
      }
    }

    /** `__wah_word_enum_start` */
    method StartChunk()
      requires WellFormed(wah)
      requires if wah.len < 32 then Tiny(wah) && bucket == pos == 0 && wah.len != 0
               else InChunks(wah, At()) && pos < |wah.buckets[bucket]|
      modifies this
      ensures Valid()
      ensures wah.len < 32 ==> state == PENDING
      ensures wah.len >= 32 ==> state in {RUN, LITERAL} && left == old(Tail(wah, bucket, pos))
    {
      var tab := wah.buckets[bucket];
      if HeadWords(tab[pos]) > 0 {
        StartRun();
      } else if tab[pos + 1] > 0 {
        StartLiterals();
      } else {
        StartPending();
      }
    }

    method StartRun()
      requires WellFormed(wah) && InChunks(wah, At())
      requires pos < |wah.buckets[bucket]| && HeadWords(wah.buckets[bucket][pos]) > 0
      modifies this
      ensures Valid() && state == RUN && left == old(Tail(wah, bucket, pos))
    {
      var tab := wah.buckets[bucket];
      ghost var next := Place(RUN, bucket, pos, HeadWords(tab[pos]));
      AtRun(wah, reverse, bucket, pos);
      state, remainWords := RUN, HeadWords(tab[pos]);
      current, left := Flip(RunWord(HeadBit(tab[pos])), reverse), Left(wah, next);
      assert At() == next;
    }

    method StartLiterals()
      requires WellFormed(wah) && InChunks(wah, At())
      requires pos < |wah.buckets[bucket]| && HeadWords(wah.buckets[bucket][pos]) == 0
      modifies this
      ensures Valid() && state == LITERAL && left == old(Tail(wah, bucket, pos))
    {
      var tab := wah.buckets[bucket];
      ghost var next := Place(LITERAL, bucket, ChunkEnd(tab, pos), tab[pos + 1]);
      AtLiterals(wah, reverse, bucket, pos);
      state, remainWords, pos := LITERAL, tab[pos + 1], pos + tab[pos + 1] + 2;
      current, left := Flip(tab[pos - remainWords], reverse), Left(wah, next);
      assert At() == next;
    }

    /** The pending bits as the last word */
    method StartPending()
      requires WellFormed(wah) && bucket < |wah.buckets| && wah.len % 32 != 0
      modifies this
      ensures Valid() && state == PENDING
    {
      state := PENDING;
      remainWords := 1;
      current := Flip(wah.pending, reverse);
      left := [wah.pending];
    }

    method Finish()
      requires WellFormed(wah) && bucket < |wah.buckets|
      modifies this
      ensures Valid() && state == END
    {
      state := END;
      current := Flip(0, reverse);
      left := [];
    }

    /** What `wah_word_enum_next` comes to when `ws` are the whole words after the current one. */
    ghost predicate Reached(ws: seq<U32>, ok: bool)
      requires WellFormed(wah)
      reads this
    {
      && Valid() && (ok <==> state != END)
      && (ws != [] ==> state in {RUN, LITERAL} && left == ws)
      && (ws == [] ==> state == if wah.len % 32 != 0 then PENDING else END)
    }

    /** The enumerator gives up the rest of a run. */
    method LastOfRun()
      requires WellFormed(wah) && Valid() && state == RUN
      modifies this
      ensures Valid() && state == RUN && current == old(current)
      ensures current in {RunWord(true), RunWord(false)}
      ensures old(left) == Repeat(Flip(current, reverse), old(remainWords)) + left[1..]
    {
      ghost var next := At().(remainWords := 1);
      RunLast(wah, reverse, At(), current);
      remainWords, left := 1, Left(wah, next);
      assert At() == next;
    }

    /** `wah_word_enum_next`; what it returns at the end depends on a counter that means nothing there. */
    method Next() returns (ok: bool)
      requires WellFormed(wah) && Placed()
      modifies this
      ensures old(state) == END ==> (ok <==> old(remainWords) != 1) && state == END && Valid()
      ensures old(state) == PENDING ==> !ok && state == END && Valid()
      ensures old(state) in {RUN, LITERAL} ==> Reached(old(left)[1..], ok)
      ensures old(state) == LITERAL && old(remainWords) > 1 ==> state == LITERAL && remainWords == old(remainWords) - 1
    {
      hide Shows, Left;
      if remainWords != 1 {
        StepWithin();
        return true;
      }
      match state
      case END =>
        ok := false;
      case PENDING =>
        Finish();
        ok := false;
      case RUN =>
        ok := LeaveRun();
      case LITERAL =>
        ok := LeaveLiterals();
    }

    method StepWithin()
      requires WellFormed(wah) && Placed() && remainWords != 1
      modifies this
      ensures Valid() && state == old(state) && state != PENDING
      ensures state in {RUN, LITERAL} ==> left == old(left)[1..] && left != []
      ensures state == LITERAL ==> remainWords == old(remainWords) - 1
    {
      match state
      case LITERAL => StepLiteral();
      case RUN => StepRun();
      case END => remainWords := if remainWords == 0 then ONES else remainWords - 1;
    }

    /** `wah_word_enum_next` when words of the run remain */
    method StepRun()
      requires WellFormed(wah) && Valid() && state == RUN && remainWords != 1
      modifies this
      ensures Valid() && state == RUN && left == old(left)[1..] && left != []
    {
      ghost var next := At().(remainWords := remainWords - 1);
      RunStep(wah, reverse, At(), current);
      remainWords, left := remainWords - 1, left[1..];
      assert At() == next;
    }

    /** `wah_word_enum_next` when literals of the chunk remain */
    method StepLiteral()
      requires WellFormed(wah) && Placed() && state == LITERAL && remainWords != 1
      modifies this
      ensures Valid() && state == LITERAL && left == old(left)[1..] && left != [] && remainWords == old(remainWords) - 1
    {
      hide Tail, Reaches, LiteralsEnd;
      ghost var next := At().(remainWords := remainWords - 1);
      LiteralStep(wah, reverse, At());
      remainWords, left := remainWords - 1, left[1..];
      current := Flip(wah.buckets[bucket][pos - remainWords], reverse);
      assert At() == next;
    }

    /** `wah_word_enum_next` at the end of a run */
    method LeaveRun() returns (ok: bool)
      requires WellFormed(wah) && Valid() && state == RUN && remainWords == 1
      modifies this
      ensures Reached(old(left)[1..], ok)
    {
      RunOver(wah, reverse, At());
      var tab := wah.buckets[bucket];
      ghost var next := Place(LITERAL, bucket, ChunkEnd(tab, pos), tab[pos + 1]);
      state, remainWords, pos, left := LITERAL, tab[pos + 1], pos + 2 + tab[pos + 1], left[1..];
      assert At() == next;
      if remainWords != 0 {
        current := Flip(tab[pos - remainWords], reverse);
        assert At() == next;
        return true;
      }
      ok := NextChunk();
    }

    /** `wah_word_enum_next` at the end of the literals of a chunk */
    method LeaveLiterals() returns (ok: bool)
      requires WellFormed(wah) && Placed() && state == LITERAL && remainWords == 1
      modifies this
      ensures Reached(old(left)[1..], ok)
    {
      LiteralOver(wah, At());
      ok := NextChunk();
    }

    /** The end of `wah_word_enum_next`, after a chunk */
    method NextChunk() returns (ok: bool)
      requires WellFormed(wah) && InChunks(wah, At())
      modifies this
      ensures Reached(old(Tail(wah, bucket, pos)), ok)
    {
      if pos == |wah.buckets[bucket]| {
        BucketEnd(wah, bucket);
        if bucket < |wah.buckets| - 1 {
          NextBucket();
          ok := true;
        } else if wah.len % 32 != 0 {
          StartPending();
          ok := true;
        } else {
          Finish();
          ok := false;
        }
      } else {
        StartChunk();
        ok := true;
      }
    }

    method NextBucket()
      requires WellFormed(wah) && wah.len >= 32 && bucket + 1 < |wah.buckets|
      modifies this
      ensures Valid() && state in {RUN, LITERAL} && left == old(Tail(wah, bucket + 1, 0))
    {
      bucket := bucket + 1;
      pos := 0;
      StartChunk();
    }

    /** `wah_word_enum_next` as one word less to come */
    method Advance() returns (ok: bool)
      requires WellFormed(wah) && Placed()
      modifies this
      ensures Valid() && Rest() == Drop(old(Rest()), 1)
      ensures old(state) == LITERAL && old(remainWords) > 1 ==> state == LITERAL && remainWords == old(remainWords) - 1
    {
      hide Shows, PlaceOk;
      ok := Next();
      assert old(state) in {RUN, LITERAL} ==> Rest() == old(Rest())[1..];
    }

    /** The next `n` literals as they are stored */
    method Literals(n: nat) returns (ws: seq<U32>)
      requires WellFormed(wah) && Valid() && state == LITERAL && n <= remainWords
      ensures n <= |left| && ws == left[..n]
    {
      ws := wah.buckets[bucket][pos - remainWords..pos - remainWords + n];
      assert ws == wah.buckets[bucket][pos - remainWords..pos][..n];
    }

    /** `wah_word_enum_skip` */
    method Skip(skip: nat) returns (ok: bool)
      requires WellFormed(wah) && Valid()
      modifies this
      ensures Valid() && Rest() == Drop(old(Rest()), skip)
    {
      hide *;
      var todo := skip;
      ghost var rest := Rest();
      ok := true;
      DropNone(rest);
      while todo != 0
        invariant WellFormed(wah) && Valid() && 0 <= todo <= skip && Rest() == Drop(rest, skip - todo)
        decreases todo
      {
        ghost var before := todo;
        todo, ok := SkipTurn(todo);
        DropDrop(rest, skip - before, before - todo);
      }
    }

    /** One turn of the loop */
    method SkipTurn(skip: nat) returns (todo: nat, ok: bool)
      requires WellFormed(wah) && Valid() && skip > 0
      modifies this
      ensures Valid() && todo < skip && Rest() == Drop(old(Rest()), skip - todo)
    {
      hide Shows, PlaceOk, Left;
      match state
      case END =>
        LastRest();
        todo, ok := 0, false;
      case PENDING =>
        LastRest();
        ValidIsPlaced();
        ok := Advance();
        todo := 0;
      case _ =>
        todo := SkipChunk(skip);
        ok := true;
    }

    method SkipChunk(skip: nat) returns (todo: nat)
      requires WellFormed(wah) && Valid() && skip > 0 && state in {RUN, LITERAL}
      modifies this
      ensures Valid() && todo < skip && Rest() == Drop(old(Rest()), skip - todo)
    {
      var skippable := if skip < remainWords then skip else remainWords;
      SkipWithin(skippable);
      todo := skip - skippable;
    }

    /** The last word is passed by `wah_word_enum_next`. */
    method SkipWithin(n: nat)
      requires WellFormed(wah) && Valid() && state in {RUN, LITERAL} && 0 < n <= remainWords
      modifies this
      ensures Valid() && Rest() == Drop(old(Rest()), n)
    {
      hide Shows;
      ghost var rest := Rest();
      LowerRemain(n - 1);
      DropDrop(rest, n - 1, 1);
      var _ := Advance();
    }

    method LowerRemain(n: nat)
      requires WellFormed(wah) && Valid() && state in {RUN, LITERAL} && n < remainWords
      modifies this
      ensures Placed() && Rest() == Drop(old(Rest()), n)
    {
      hide Left;
      ghost var next := At().(remainWords := remainWords - n);
      Within(wah, At(), n);
      remainWords, left := remainWords - n, left[n..];
      assert At() == next;
      LongerDrop(old(left), [wah.pending], n);
    }
  }
}
