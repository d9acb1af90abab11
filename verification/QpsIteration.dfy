/**
 Whole runs of the QPS bitmap enumerator, in terms of rows: iteration with arbitrary mutations
 between the steps, iteration without, and `go_to` against repeated `next`.
 */
module QpsIteration {
  import opened QpsTrie
  import opened QpsBitmap
  import opened QpsEnumerator

  // ---------------------------------------------------------------- rows

  ghost predicate NoneIn(contents: imap<nat, bool>, from: nat, to: nat) {
    forall r: nat | from <= r < to :: r !in contents
  }

  /** `row` is the least present row at or above `from`. */
  ghost predicate LeastRow(contents: imap<nat, bool>, from: nat, row: nat) {
    from <= row < ROWS && row in contents && NoneIn(contents, from, row)
  }

  /** `lo` is `from` seen as a key, possibly one past the last bit of a word. */
  ghost predicate Starts(nullable: bool, lo: Key, from: nat) {
    forall k: Key {:trigger Val(nullable, k)} | ValidKey(nullable, k) :: Le(lo, k) <==> from <= Val(nullable, k)
  }

  lemma RowStarts(nullable: bool, row: nat)
    requires row < ROWS
    ensures Starts(nullable, Split(nullable, row), row)
  {
    ValSplit(nullable, row);
    forall k: Key | ValidKey(nullable, k)
      ensures Le(Split(nullable, row), k) <==> row <= Val(nullable, k)
    {
      LtIsLess(nullable, Split(nullable, row), k);
      SplitVal(nullable, k);
    }
  }

  lemma NextStarts(nullable: bool, key: Key)
    requires ValidKey(nullable, key)
    ensures Starts(nullable, key.(bit := key.bit + 1), Val(nullable, key) + 1)
  {
    forall k: Key | ValidKey(nullable, k)
      ensures Le(key.(bit := key.bit + 1), k) <==> Val(nullable, key) + 1 <= Val(nullable, k)
    {
      LtIsLess(nullable, key, k);
    }
  }

  /** A row is in the contents exactly when its key is stored. */
  lemma RowStored(nullable: bool, roots: Roots, row: nat)
    requires GoodRoots(nullable, roots) && row < ROWS
    ensures ValidKey(nullable, Split(nullable, row)) && Val(nullable, Split(nullable, row)) == row
    ensures row in Contents(nullable, roots) <==> Stored(nullable, roots, Split(nullable, row))
  {
    ValSplit(nullable, row);
    StoredIsPresent(nullable, roots, Split(nullable, row));
  }

  lemma NoKeyNoRow(nullable: bool, roots: Roots, lo: Key, from: nat)
    requires GoodRoots(nullable, roots) && Starts(nullable, lo, from)
    requires NoneFrom(nullable, roots, lo)
    ensures NoneIn(Contents(nullable, roots), from, ROWS)
  {
    forall r: nat | from <= r < ROWS ensures r !in Contents(nullable, roots) {
      RowStored(nullable, roots, r);
    }
  }

  lemma LeastKeyLeastRow(nullable: bool, roots: Roots, lo: Key, from: nat, key: Key)
    requires GoodRoots(nullable, roots) && Starts(nullable, lo, from)
    requires LeastFrom(nullable, roots, lo, key)
    ensures LeastRow(Contents(nullable, roots), from, Val(nullable, key))
  {
    SplitVal(nullable, key);
    RowStored(nullable, roots, Val(nullable, key));
    forall r: nat | from <= r < Val(nullable, key) ensures r !in Contents(nullable, roots) {
      RowStored(nullable, roots, r);
      LtIsLess(nullable, Split(nullable, r), key);
    }
  }

  /** The enumerator stands on the least present row from `from` on, with its value, or has ended. */
  ghost predicate StandsAt(en: Enumerator, contents: imap<nat, bool>, from: nat)
    reads en
  {
    if en.end then NoneIn(contents, from, ROWS)
    else
      && LeastRow(contents, from, Val(en.nullable, en.key))
      && contents[Val(en.nullable, en.key)] == en.value
  }

  lemma AtToStandsAt(en: Enumerator, lo: Key, from: nat)
    requires en.nullable == en.bitmap.nullable && GoodRoots(en.nullable, en.bitmap.roots)
    requires en.At(lo) && Starts(en.nullable, lo, from)
    ensures StandsAt(en, en.bitmap.Rows(), from)
  {
    var nullable, roots := en.nullable, en.bitmap.roots;
    if en.end {
      NoKeyNoRow(nullable, roots, lo, from);
    } else {
      LeastKeyLeastRow(nullable, roots, lo, from, en.key);
      SplitVal(nullable, en.key);
      StoredIsPresent(nullable, roots, en.key);
      assert LeafAt(roots, en.key.root, en.key.dispatch) == en.leaf;
    }
  }

  // ---------------------------------------------------------------- safe iteration

  datatype Mutation = DoSet(row: nat) | DoReset(row: nat) | DoRemove(row: nat) | DoClear

  predicate ValidMutation(m: Mutation) {
    m.DoClear? || m.row < ROWS
  }

  /** Fewer than 2^32 mutations per turn, so that `bitmap_gen` cannot come back to the same value. */
  ghost predicate ValidScripts(script: seq<seq<Mutation>>) {
    forall i | 0 <= i < |script| :: |script[i]| < ROWS && forall m | m in script[i] :: ValidMutation(m)
  }

  /** What a mutator does to the contents. */
  ghost function Applied(nullable: bool, c: imap<nat, bool>, m: Mutation): imap<nat, bool> {
    match m
    case DoSet(row) => c[row := true]
    case DoReset(row) => if nullable then c[row := false] else Without(c, row)
    case DoRemove(row) => Without(c, row)
    case DoClear => imap[]
  }

  ghost function AppliedAll(nullable: bool, c: imap<nat, bool>, script: seq<Mutation>): imap<nat, bool> {
    if script == [] then c
    else Applied(nullable, AppliedAll(nullable, c, script[..|script| - 1]), script[|script| - 1])
  }

  /** Every mutator refines the map operation. */
  method Mutate(bitmap: Bitmap, m: Mutation)
    requires bitmap.Valid() && ValidMutation(m)
    modifies bitmap
    ensures bitmap.Valid() && bitmap.mutations == old(bitmap.mutations) + 1
    ensures bitmap.Rows() ==
            Applied(bitmap.nullable, old(bitmap.Rows()), m)
  {
    match m {
      case DoSet(row) => var _ := bitmap.Set(row);
      case DoReset(row) => var _ := bitmap.Reset(row);
      case DoRemove(row) => var _ := bitmap.Remove(row);
      case DoClear => bitmap.Clear();
    }
  }

  /** Where step `i` of an iteration searches from. */
  function StepFrom(visited: seq<nat>, i: nat): nat
    requires i <= |visited|
  {
    if i == 0 then 0 else visited[i - 1] + 1
  }

  /**
   `visited` are the rows of an iteration and `views[i]` the contents as step `i` found them: each
   step took the least row present at that time above the last one, and the last step found none.
   */
  ghost predicate Iteration(views: seq<imap<nat, bool>>, visited: seq<nat>, complete: bool) {
    && |views| == |visited| + (if complete then 1 else 0)
    && (forall i {:trigger views[i]} | 0 <= i < |visited| :: LeastRow(views[i], StepFrom(visited, i), visited[i]))
    && (complete ==> NoneIn(views[|visited|], StepFrom(visited, |visited|), ROWS))
  }

  /** The mutations of turn `i`. */
  function TurnScript(script: seq<seq<Mutation>>, i: nat): seq<Mutation> {
    if i < |script| then script[i] else []
  }

  /** Each view is the one before it, changed by the mutations of the turn in between. */
  ghost predicate Evolves(nullable: bool, views: seq<imap<nat, bool>>, script: seq<seq<Mutation>>, start: imap<nat, bool>) {
    forall i {:trigger views[i]} | 0 <= i < |views| :: views[i] == ViewAt(nullable, script, start, i)
  }

  ghost function ViewAt(nullable: bool, script: seq<seq<Mutation>>, start: imap<nat, bool>, i: nat): imap<nat, bool> {
    if i == 0 then start
    else AppliedAll(nullable, ViewAt(nullable, script, start, i - 1), TurnScript(script, i - 1))
  }

  /** `values[i]` is the value the row visited at step `i` had then. */
  ghost predicate ValuesSeen(views: seq<imap<nat, bool>>, visited: seq<nat>, values: seq<bool>) {
    && |values| == |visited| <= |views|
    && forall i {:trigger views[i]} | 0 <= i < |visited| :: visited[i] in views[i] && views[i][visited[i]] == values[i]
  }

  lemma IterationStep(views: seq<imap<nat, bool>>, visited: seq<nat>, values: seq<bool>, view: imap<nat, bool>, row: nat)
    requires Iteration(views, visited, false) && ValuesSeen(views, visited, values)
    requires LeastRow(view, StepFrom(visited, |visited|), row)
    ensures Iteration(views + [view], visited + [row], false)
    ensures ValuesSeen(views + [view], visited + [row], values + [view[row]])
  {
    var visited2 := visited + [row];
    forall i | 0 <= i < |visited2| ensures LeastRow((views + [view])[i], StepFrom(visited2, i), visited2[i]) {
      assert StepFrom(visited2, i) == StepFrom(visited, i);
    }
  }

  /** `qps_bitmap_for_each_safe` whose body runs `script[i]` on the bitmap in its `i`-th turn. */
  method ForEachSafe(bitmap: Bitmap, script: seq<seq<Mutation>>)
    returns (visited: seq<nat>, values: seq<bool>, ghost views: seq<imap<nat, bool>>)
    requires bitmap.Valid()
    requires ValidScripts(script)
    modifies bitmap
    ensures bitmap.Valid()
    ensures Iteration(views, visited, true)
    ensures ValuesSeen(views, visited, values)
    ensures Evolves(bitmap.nullable, views, script, old(bitmap.Rows()))
  {
    var en := Start(bitmap);
    ghost var start := bitmap.Rows();
    visited, values, views := Turns(bitmap, en, script, start);
    Finished(bitmap.nullable, views, visited, values, script, start);
    views := views + [ViewAt(bitmap.nullable, script, start, |visited|)];
  }

  /** The turns of the loop, up to the step that finds no more row. */
  method Turns(bitmap: Bitmap, en: Enumerator, script: seq<seq<Mutation>>, ghost start: imap<nat, bool>)
    returns (visited: seq<nat>, values: seq<bool>, ghost views: seq<imap<nat, bool>>)
    requires Running(en, bitmap) && ValidScripts(script)
    requires bitmap.Rows() == start && StandsAt(en, start, 0)
    modifies bitmap, en
    ensures bitmap.Valid()
    ensures Traced(bitmap.nullable, views, visited, values, script, start)
    ensures NoneIn(ViewAt(bitmap.nullable, script, start, |visited|), StepFrom(visited, |visited|), ROWS)
  {
    ghost var nullable := bitmap.nullable;
    visited, values, views := [], [], [];
    var i := 0;
    while !en.end
      invariant i == |visited| && Running(en, bitmap)
      invariant bitmap.Rows() == ViewAt(nullable, script, start, i)
      invariant StandsAt(en, ViewAt(nullable, script, start, i), StepFrom(visited, |visited|))
      invariant Traced(nullable, views, visited, values, script, start)
      decreases !en.end, ROWS - StepFrom(visited, |visited|)
    {
      var row := Val(en.nullable, en.key);
      Extended(nullable, views, visited, values, script, start, row);
      views := views + [ViewAt(nullable, script, start, i)];
      visited := visited + [row];
      values := values + [en.value];
      Turn(bitmap, en, script, i, row, start);
      i := i + 1;
    }
  }

  lemma Finished(nullable: bool, views: seq<imap<nat, bool>>, visited: seq<nat>, values: seq<bool>,
                 script: seq<seq<Mutation>>, start: imap<nat, bool>)
    requires Traced(nullable, views, visited, values, script, start)
    requires NoneIn(ViewAt(nullable, script, start, |visited|), StepFrom(visited, |visited|), ROWS)
    ensures var views2 := views + [ViewAt(nullable, script, start, |visited|)];
            Iteration(views2, visited, true) && ValuesSeen(views2, visited, values) && Evolves(nullable, views2, script, start)
  {
    EvolvesStep(nullable, views, script, start);
  }

  /** The record of an iteration that has not ended yet. */
  ghost predicate Traced(nullable: bool, views: seq<imap<nat, bool>>, visited: seq<nat>, values: seq<bool>,
                         script: seq<seq<Mutation>>, start: imap<nat, bool>) {
    && Iteration(views, visited, false)
    && ValuesSeen(views, visited, values)
    && Evolves(nullable, views, script, start)
  }

  lemma Extended(nullable: bool, views: seq<imap<nat, bool>>, visited: seq<nat>, values: seq<bool>,
                 script: seq<seq<Mutation>>, start: imap<nat, bool>, row: nat)
    requires Traced(nullable, views, visited, values, script, start)
    requires LeastRow(ViewAt(nullable, script, start, |visited|), StepFrom(visited, |visited|), row)
    ensures var view := ViewAt(nullable, script, start, |visited|);
            Traced(nullable, views + [view], visited + [row], values + [view[row]], script, start)
  {
    IterationStep(views, visited, values, ViewAt(nullable, script, start, |visited|), row);
    EvolvesStep(nullable, views, script, start);
  }

  lemma ViewAtNext(nullable: bool, script: seq<seq<Mutation>>, start: imap<nat, bool>, i: nat)
    ensures ViewAt(nullable, script, start, i + 1) ==
            AppliedAll(nullable, ViewAt(nullable, script, start, i), TurnScript(script, i))
  {
  }

  lemma EvolvesStep(nullable: bool, views: seq<imap<nat, bool>>, script: seq<seq<Mutation>>, start: imap<nat, bool>)
    requires Evolves(nullable, views, script, start)
    ensures Evolves(nullable, views + [ViewAt(nullable, script, start, |views|)], script, start)
  {
  }

  /** A valid bitmap and an enumerator in step with it. */
  ghost predicate Running(en: Enumerator, bitmap: Bitmap)
    reads en, bitmap
  {
    en.bitmap == bitmap && bitmap.Valid() && en.Live() && en.seen == bitmap.mutations
  }

  /** `qps_bitmap_get_enumerator`, in terms of rows. */
  method Start(bitmap: Bitmap) returns (en: Enumerator)
    requires bitmap.Valid()
    ensures fresh(en) && Running(en, bitmap)
    ensures StandsAt(en, bitmap.Rows(), 0)
  {
    GoodIsShaped(bitmap.nullable, bitmap.roots);
    en := new Enumerator(bitmap, 0);
    RowStarts(bitmap.nullable, 0);
    AtToStandsAt(en, Split(bitmap.nullable, 0), 0);
  }

  /** The body of turn `i`: its mutations. */
  method Body(bitmap: Bitmap, script: seq<seq<Mutation>>, i: nat, ghost start: imap<nat, bool>)
    requires bitmap.Valid() && ValidScripts(script)
    requires bitmap.Rows() == ViewAt(bitmap.nullable, script, start, i)
    modifies bitmap
    ensures bitmap.Valid() && old(bitmap.mutations) <= bitmap.mutations < old(bitmap.mutations) + ROWS
    ensures bitmap.Rows() == ViewAt(bitmap.nullable, script, start, i + 1)
    ensures bitmap.mutations == old(bitmap.mutations) ==> bitmap.roots == old(bitmap.roots)
  {
    RunScript(bitmap, TurnScript(script, i));
    ViewAtNext(bitmap.nullable, script, start, i);
  }

  /** The step after it, in terms of rows. */
  method Step(bitmap: Bitmap, en: Enumerator, safe: bool, ghost row: nat)
    requires en.bitmap == bitmap && bitmap.Valid() && en.Live() && !en.end
    requires row == Val(en.nullable, en.key) && (safe || en.seen == bitmap.mutations)
    modifies en
    ensures Running(en, bitmap)
    ensures StandsAt(en, bitmap.Rows(), row + 1)
  {
    ghost var at := en.key;
    en.Next(safe);
    NextStarts(en.nullable, at);
    AtToStandsAt(en, at.(bit := at.bit + 1), row + 1);
  }

  /** One turn of a safe iteration. */
  method Turn(bitmap: Bitmap, en: Enumerator, script: seq<seq<Mutation>>, i: nat, ghost row: nat, ghost start: imap<nat, bool>)
    requires Running(en, bitmap) && !en.end && row == Val(en.nullable, en.key)
    requires ValidScripts(script)
    requires bitmap.Rows() == ViewAt(bitmap.nullable, script, start, i)
    modifies bitmap, en
    ensures Running(en, bitmap)
    ensures bitmap.Rows() == ViewAt(bitmap.nullable, script, start, i + 1)
    ensures StandsAt(en, ViewAt(bitmap.nullable, script, start, i + 1), row + 1)
  {
    Body(bitmap, script, i, start);
    GoodIsShaped(bitmap.nullable, bitmap.roots);
    Step(bitmap, en, true, row);
  }

  method RunScript(bitmap: Bitmap, script: seq<Mutation>)
    requires bitmap.Valid() && forall m | m in script :: ValidMutation(m)
    modifies bitmap
    ensures bitmap.Valid() && bitmap.mutations == old(bitmap.mutations) + |script|
    ensures bitmap.Rows() ==
            AppliedAll(bitmap.nullable, old(bitmap.Rows()), script)
    ensures script == [] ==> bitmap.roots == old(bitmap.roots)
  {
    for i := 0 to |script|
      invariant bitmap.Valid() && bitmap.mutations == old(bitmap.mutations) + i
      invariant bitmap.Rows() ==
                AppliedAll(bitmap.nullable, old(bitmap.Rows()), script[..i])
      invariant i == 0 ==> bitmap.roots == old(bitmap.roots)
    {
      Mutate(bitmap, script[i]);
      assert script[..i + 1][..i] == script[..i];
    }
    assert script[..|script|] == script;
  }

  lemma {:induction false} VisitedIncrease(views: seq<imap<nat, bool>>, visited: seq<nat>, i: nat, j: nat)
    requires Iteration(views, visited, true)
    requires i < j < |visited|
    ensures visited[i] < visited[j]
    decreases j
  {
    assert LeastRow(views[j], StepFrom(visited, j), visited[j]);
    if i < j - 1 { VisitedIncrease(views, visited, i, j - 1); }
  }

  /** A row present from step `i` on is visited at or after step `i`, unless it is already behind. */
  lemma {:induction false} VisitedLater(views: seq<imap<nat, bool>>, visited: seq<nat>, row: nat, i: nat)
    requires Iteration(views, visited, true)
    requires row < ROWS && i <= |visited| && StepFrom(visited, i) <= row
    requires forall j | i <= j < |views| :: row in views[j]
    ensures row in visited
    decreases |visited| - i
  {
    if i < |visited| {
      assert LeastRow(views[i], StepFrom(visited, i), visited[i]);
      if visited[i] != row { VisitedLater(views, visited, row, i + 1); }
    }
  }

  /**
   Safe iteration: rows come in strictly increasing order, each was present when it was visited,
   and every row that stays present throughout is visited exactly once, whatever else changes.
   */
  lemma SafeIteration(views: seq<imap<nat, bool>>, visited: seq<nat>)
    requires Iteration(views, visited, true)
    ensures forall i, j | 0 <= i < j < |visited| :: visited[i] < visited[j]
    ensures forall i | 0 <= i < |visited| :: visited[i] in views[i]
    ensures forall row: nat | row < ROWS && (forall i | 0 <= i < |views| :: row in views[i]) ::
              multiset(visited)[row] == 1
  {
    forall i, j | 0 <= i < j < |visited| ensures visited[i] < visited[j] {
      VisitedIncrease(views, visited, i, j);
    }
    forall row: nat | row < ROWS && (forall i | 0 <= i < |views| :: row in views[i])
      ensures multiset(visited)[row] == 1
    {
      VisitedLater(views, visited, row, 0);
      OnceInIncreasing(visited, row);
    }
  }

  lemma {:induction false} OnceInIncreasing(s: seq<nat>, x: nat)
    requires x in s && forall i, j | 0 <= i < j < |s| :: s[i] < s[j]
    ensures multiset(s)[x] == 1
    decreases |s|
  {
    var n := |s| - 1;
    assert s == s[..n] + [s[n]];
    if x == s[n] {
      assert x !in s[..n];
    } else {
      OnceInIncreasing(s[..n], x);
    }
  }

  /** Without mutation, iteration visits exactly the present rows. */
  lemma UnsafeIteration(nullable: bool, contents: imap<nat, bool>, views: seq<imap<nat, bool>>, visited: seq<nat>)
    requires Iteration(views, visited, true)
    requires Evolves(nullable, views, [], contents)
    ensures forall i, j | 0 <= i < j < |visited| :: visited[i] < visited[j]
    ensures forall row: nat | row < ROWS :: row in visited <==> row in contents
  {
    SafeIteration(views, visited);
    forall i | 0 <= i < |views| ensures views[i] == contents { StillView(nullable, contents, i); }
    forall row: nat | row < ROWS && row in contents ensures row in visited {
      VisitedLater(views, visited, row, 0);
    }
  }

  /** `qps_bitmap_for_each_unsafe`: exactly the present rows, in order, with their values. */
  method ForEachUnsafe(bitmap: Bitmap) returns (visited: seq<nat>, values: seq<bool>)
    requires bitmap.Valid()
    ensures forall i, j | 0 <= i < j < |visited| :: visited[i] < visited[j]
    ensures forall row: nat | row < ROWS :: row in visited <==> row in bitmap.Rows()
    ensures |values| == |visited| && forall i | 0 <= i < |visited| :: visited[i] in bitmap.Rows() && bitmap.Rows()[visited[i]] == values[i]
  {
    var en := Start(bitmap);
    ghost var nullable, contents := bitmap.nullable, bitmap.Rows();
    ghost var views;
    visited, values, views := StillTurns(bitmap, en, contents);
    StillView(nullable, contents, |visited|);
    Finished(nullable, views, visited, values, [], contents);
    AllVisited(nullable, contents, views + [contents], visited, values);
  }

  /** The turns of the loop without mutation */
  method StillTurns(bitmap: Bitmap, en: Enumerator, ghost start: imap<nat, bool>)
    returns (visited: seq<nat>, values: seq<bool>, ghost views: seq<imap<nat, bool>>)
    requires Running(en, bitmap) && bitmap.Rows() == start && StandsAt(en, start, 0)
    modifies en
    ensures Traced(bitmap.nullable, views, visited, values, [], start)
    ensures NoneIn(start, StepFrom(visited, |visited|), ROWS)
  {
    hide Contents, GoodRoots, NoneIn, ViewAt;
    ghost var nullable := bitmap.nullable;
    visited, values, views := [], [], [];
    while !en.end
      invariant Running(en, bitmap) && bitmap.Rows() == start
      invariant StandsAt(en, start, StepFrom(visited, |visited|))
      invariant Traced(nullable, views, visited, values, [], start)
      decreases !en.end, ROWS - StepFrom(visited, |visited|)
    {
      var row := Val(en.nullable, en.key);
      ExtendedStill(nullable, views, visited, values, start, row);
      views := views + [start];
      visited := visited + [row];
      values := values + [en.value];
      StillTurn(bitmap, en, row, start);
    }
  }

  method StillTurn(bitmap: Bitmap, en: Enumerator, ghost row: nat, ghost start: imap<nat, bool>)
    requires Running(en, bitmap) && !en.end && row == Val(en.nullable, en.key) && bitmap.Rows() == start
    modifies en
    ensures Running(en, bitmap) && bitmap.Rows() == start
    ensures StandsAt(en, start, row + 1)
  {
    Step(bitmap, en, false, row);
  }

  lemma ExtendedStill(nullable: bool, views: seq<imap<nat, bool>>, visited: seq<nat>, values: seq<bool>,
                      start: imap<nat, bool>, row: nat)
    requires Traced(nullable, views, visited, values, [], start)
    requires LeastRow(start, StepFrom(visited, |visited|), row)
    ensures Traced(nullable, views + [start], visited + [row], values + [start[row]], [], start)
  {
    StillView(nullable, start, |visited|);
    Extended(nullable, views, visited, values, [], start, row);
  }

  lemma AllVisited(nullable: bool, contents: imap<nat, bool>, views: seq<imap<nat, bool>>, visited: seq<nat>, values: seq<bool>)
    requires Iteration(views, visited, true) && ValuesSeen(views, visited, values) && Evolves(nullable, views, [], contents)
    ensures forall i, j | 0 <= i < j < |visited| :: visited[i] < visited[j]
    ensures forall row: nat | row < ROWS :: row in visited <==> row in contents
    ensures forall i | 0 <= i < |visited| :: visited[i] in contents && contents[visited[i]] == values[i]
  {
    UnsafeIteration(nullable, contents, views, visited);
    forall i | 0 <= i < |visited| ensures visited[i] in contents && contents[visited[i]] == values[i] {
      StillView(nullable, contents, i);
      assert views[i] == contents;
    }
  }

  lemma {:induction false} StillView(nullable: bool, contents: imap<nat, bool>, i: nat)
    ensures ViewAt(nullable, [], contents, i) == contents
  {
    if i > 0 { StillView(nullable, contents, i - 1); }
  }

  // ---------------------------------------------------------------- go_to against next

  /** Repeat `next` until the key is at or above `row`. */
  method NextUntil(en: Enumerator, row: nat)
    requires InStep(en) && !en.end && row < ROWS
    modifies en
    ensures InStep(en)
    ensures var target := Split(en.nullable, row);
            en.At(if Lt(old(en.key), target) then target else old(en.key))
  {
    var target := Split(en.nullable, row);
    ValSplit(en.nullable, row);
    ghost var lo := en.key;
    while !en.end && Val(en.nullable, en.key) < row
      invariant InStep(en) && en.At(lo)
      invariant lo == old(en.key) || (Lt(old(en.key), target) && Le(lo, target))
      decreases !en.end, ROWS - Val(en.nullable, en.key)
    {
      ghost var first := lo == old(en.key);
      if first { LtIsLess(en.nullable, en.key, target); }
      lo := NextToward(en, row);
    }
    if !en.end { LtIsLess(en.nullable, en.key, target); }
    if Lt(old(en.key), target) { Raise(en, lo, target); }
  }

  ghost predicate InStep(en: Enumerator)
    reads en, en.bitmap
  {
    en.Live() && en.seen == en.bitmap.mutations
  }

  /** One `next` from a key below `row`. */
  method NextToward(en: Enumerator, row: nat) returns (ghost lo: Key)
    requires InStep(en) && !en.end && Val(en.nullable, en.key) < row < ROWS
    modifies en
    ensures InStep(en) && en.At(lo) && Le(lo, Split(en.nullable, row))
    ensures !en.end ==> old(Val(en.nullable, en.key)) < Val(en.nullable, en.key) < ROWS
    ensures lo != old(en.key)
  {
    ghost var at := en.key;
    lo := at.(bit := at.bit + 1);
    ValSplit(en.nullable, row);
    LtIsLess(en.nullable, at, Split(en.nullable, row));
    en.Next(false);
    if !en.end { LtIsLess(en.nullable, at, en.key); SplitVal(en.nullable, en.key); }
  }

  /** A search from `lo` that passed `target` without stopping is a search from `target`. */
  lemma Raise(en: Enumerator, lo: Key, target: Key)
    requires en.At(lo) && Le(lo, target)
    requires !en.end ==> Le(target, en.key)
    ensures en.At(target)
  {
  }

  /** Two enumerators that searched the same bitmap from the same key are in the same state. */
  lemma SameState(a: Enumerator, b: Enumerator, lo: Key)
    requires a.bitmap == b.bitmap && a.nullable == b.nullable
    requires a.At(lo) && b.At(lo)
    ensures a.end == b.end
    ensures !a.end ==> SameFields(a, b)
  {
    if !a.end && !b.end { Total(a.key, b.key); }
  }

  ghost predicate SameFields(a: Enumerator, b: Enumerator)
    reads a, b
  {
    && a.key == b.key && a.value == b.value && a.leaf == b.leaf
    && a.dispatch == b.dispatch && a.currentWord == b.currentWord
  }

  /**
   `go_to(row)` searches from where repeated `next` would stop exactly when `row` is not behind the
   current key, or is behind it in no field at all; otherwise it starts beyond the current key.
   */
  lemma GoToTargetIff(at: Key, row: Key)
    ensures GoToTarget(at, row) == (if Lt(at, row) then row else at) <==> GoToSafe(at, row)
    ensures !GoToSafe(at, row) ==> Lt(at, GoToTarget(at, row))
  {
  }

  predicate GoToSafe(at: Key, row: Key) {
    || Le(at, row)
    || (row.root <= at.root && row.dispatch <= at.dispatch && row.word <= at.word && row.bit <= at.bit)
  }

  /** From two equal enumerators, `go_to(row)` and repeated `next` agree exactly when `GoToSafe`. */
  method GoToVersusNext(a: Enumerator, b: Enumerator, row: nat)
    requires a != b && a.bitmap == b.bitmap && row < ROWS
    requires InStep(a) && InStep(b) && !a.end && !b.end && a.key == b.key
    modifies a, b
    ensures (a.end == b.end && (!a.end ==> SameFields(a, b))) <==> GoToSafe(old(a.key), Split(a.nullable, row))
  {
    ghost var at, target := a.key, Split(a.nullable, row);
    GoToTargetIff(at, target);
    a.GoTo(row, false);
    NextUntil(b, row);
    if GoToSafe(at, target) {
      SameState(a, b, GoToTarget(at, target));
    }
  }

  /**
   An enumerator on the first of rows 1 << 26 and (1 << 26) + 1 that goes to row 1 << 15, behind it, ends: it passes
   both rows, although repeated `next` would not move at all.
   */
  method GoToBackwardsSkips() returns (bitmap: Bitmap, en: Enumerator)
    ensures bitmap.Valid() && bitmap.Rows() == imap[0x400_0000 := true, 0x400_0001 := true]
    ensures Running(en, bitmap) && en.end
  {
    bitmap := TwoRows();
    en := Start(bitmap);
    FirstOfTwo(bitmap.Rows(), Val(en.nullable, en.key), en.end);
    GoBehind(bitmap, en);
    NoneBehind(bitmap.Rows(), Val(en.nullable, en.key), en.end);
  }

  method GoBehind(bitmap: Bitmap, en: Enumerator)
    requires Running(en, bitmap) && !bitmap.nullable && !en.end && Val(false, en.key) == 0x400_0000
    modifies en
    ensures Running(en, bitmap) && StandsAt(en, bitmap.Rows(), 0x400_8000)
  {
    SplitVal(false, en.key);
    FarTarget();
    en.GoTo(0x8000, false);
    AtToStandsAt(en, Split(false, 0x400_8000), 0x400_8000);
  }

  method TwoRows() returns (bitmap: Bitmap)
    ensures fresh(bitmap) && bitmap.Valid() && !bitmap.nullable
    ensures bitmap.Rows() == imap[0x400_0000 := true, 0x400_0001 := true]
  {
    bitmap := new Bitmap(false);
    var _ := bitmap.Set(0x400_0000);
    var _ := bitmap.Set(0x400_0001);
  }

  lemma FirstOfTwo(contents: imap<nat, bool>, row: nat, end: bool)
    requires contents == imap[0x400_0000 := true, 0x400_0001 := true]
    requires if end then NoneIn(contents, 0, ROWS) else LeastRow(contents, 0, row)
    ensures !end && row == 0x400_0000
  {
    assert 0x400_0000 in contents;
  }

  lemma NoneBehind(contents: imap<nat, bool>, row: nat, end: bool)
    requires contents == imap[0x400_0000 := true, 0x400_0001 := true]
    requires if end then NoneIn(contents, 0x400_8000, ROWS) else LeastRow(contents, 0x400_8000, row)
    ensures end
  {
  }

  lemma FarTarget()
    ensures GoToTarget(Split(false, 0x400_0000), Split(false, 0x8000)) == Split(false, 0x400_8000)
    ensures Starts(false, Split(false, 0x400_8000), 0x400_8000)
  {
    RowStarts(false, 0x400_8000);
  }
}
