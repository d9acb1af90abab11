/**
 The 4-ary min or max heap.  Elements are nodes that record their own position in the table; the
 sift loops move a hole through the table and store the moving node only at the end.
 */
module QHeap {

  function Parent(i: int): int { (i - 1) / 4 }

  predicate ChildOf(i: int, p: int) { 4 * p + 1 <= i <= 4 * p + 4 }

  lemma ParentIs(i: int, p: int)
    requires p >= 0
    ensures i > 0 && Parent(i) == p <==> ChildOf(i, p)
    ensures i > 0 ==> 0 <= Parent(i) < i
  {
  }

  // ---------------------------------------------------------------- order, on keys

  /** The edge from its parent into `i` is in order. */
  predicate EdgeOk(ks: seq<int>, i: int)
    requires 0 < i < |ks|
  {
    ks[Parent(i)] <= ks[i]
  }

  ghost predicate Ordered(ks: seq<int>) {
    forall i | 0 < i < |ks| :: EdgeOk(ks, i)
  }

  /** The children of `pos` are in order with its parent, whatever is at `pos` itself. */
  ghost predicate Bridged(ks: seq<int>, pos: int) {
    0 < pos < |ks| ==> forall i | 0 < i < |ks| && ChildOf(i, pos) :: ks[Parent(pos)] <= ks[i]
  }

  /** Ordered, but for the edges into and out of `pos`. */
  ghost predicate OrderedBut(ks: seq<int>, pos: int) {
    && (forall i | 0 < i < |ks| && i != pos && !ChildOf(i, pos) :: EdgeOk(ks, i))
    && Bridged(ks, pos)
  }

  /** What `__qhp_down` and `__qhp_up` keep while the hole is at `pos`. */
  ghost predicate Sinking(ks: seq<int>, pos: int) {
    && (forall i | 0 < i < |ks| && !ChildOf(i, pos) :: EdgeOk(ks, i))
    && Bridged(ks, pos)
  }

  ghost predicate Rising(ks: seq<int>, pos: int) {
    && (forall i | 0 < i < |ks| && i != pos :: EdgeOk(ks, i))
    && Bridged(ks, pos)
  }

  function Swap<T>(s: seq<T>, i: nat, j: nat): (r: seq<T>)
    requires i < |s| && j < |s|
    ensures |r| == |s| && r[i] == s[j] && r[j] == s[i]
    ensures forall k | 0 <= k < |s| && k != i && k != j :: r[k] == s[k]
  {
    s[i := s[j]][j := s[i]]
  }

  lemma SwapMultiset<T>(s: seq<T>, i: nat, j: nat)
    requires i < |s| && j < |s|
    ensures multiset(Swap(s, i, j)) == multiset(s)
  {
  }

  /** Moving the least child of `pos` up keeps the invariant, one level down. */
  lemma SinkStep(ks: seq<int>, pos: nat, c: nat)
    requires Sinking(ks, pos) && c < |ks| && ChildOf(c, pos) && ks[c] <= ks[pos]
    requires forall i | 0 < i < |ks| && ChildOf(i, pos) :: ks[c] <= ks[i]
    ensures Sinking(Swap(ks, pos, c), c)
  {
    var k2 := Swap(ks, pos, c);
    forall i | 0 < i < |k2| && !ChildOf(i, c) ensures EdgeOk(k2, i) {
      ParentIs(i, pos);
      ParentIs(i, c);
      if !ChildOf(i, pos) {
        assert EdgeOk(ks, i);
        if i == pos { ParentIs(c, pos); assert Bridged(ks, pos); }
      }
    }
    ParentIs(c, pos);
    forall i | 0 < i < |k2| && ChildOf(i, c) ensures k2[Parent(c)] <= k2[i] {
      ParentIs(i, c);
      assert EdgeOk(ks, i);
    }
  }

  lemma SinkDone(ks: seq<int>, pos: nat)
    requires Sinking(ks, pos)
    requires forall i | 0 < i < |ks| && ChildOf(i, pos) :: ks[pos] <= ks[i]
    ensures Ordered(ks)
  {
    forall i | 0 < i < |ks| ensures EdgeOk(ks, i) { ParentIs(i, pos); }
  }

  /** Moving the parent of `pos` down keeps the invariant, one level up. */
  lemma RiseStep(ks: seq<int>, pos: nat)
    requires 0 < pos < |ks| && Rising(ks, pos) && ks[pos] <= ks[Parent(pos)]
    ensures Rising(Swap(ks, pos, Parent(pos)), Parent(pos))
  {
    var p := Parent(pos);
    ParentIs(pos, p);
    var k2 := Swap(ks, pos, p);
    forall i | 0 < i < |k2| && i != p ensures EdgeOk(k2, i) {
      ParentIs(i, p);
      ParentIs(i, pos);
      if i != pos { assert EdgeOk(ks, i); }
    }
    if p > 0 {
      assert EdgeOk(ks, p);
      ParentIs(p, Parent(p));
      forall i | 0 < i < |k2| && ChildOf(i, p) ensures k2[Parent(p)] <= k2[i] {
        ParentIs(i, p);
        if i != pos { assert EdgeOk(ks, i); }
      }
    }
  }

  lemma RiseDone(ks: seq<int>, pos: nat)
    requires pos < |ks| && Rising(ks, pos)
    requires pos == 0 || ks[Parent(pos)] <= ks[pos]
    ensures Ordered(ks)
  {
  }

  /** Changing one key of an ordered table leaves it ordered but for that place. */
  lemma ChangeKey(ks: seq<int>, pos: nat, x: int)
    requires Ordered(ks) && pos < |ks|
    ensures OrderedBut(ks[pos := x], pos)
  {
    var k2 := ks[pos := x];
    forall i | 0 < i < |k2| && i != pos && !ChildOf(i, pos) ensures EdgeOk(k2, i) {
      ParentIs(i, pos);
      assert EdgeOk(ks, i);
    }
    if pos > 0 {
      ParentIs(pos, Parent(pos));
      assert EdgeOk(ks, pos);
      forall i | 0 < i < |k2| && ChildOf(i, pos) ensures k2[Parent(pos)] <= k2[i] {
        ParentIs(i, pos);
        assert EdgeOk(ks, i);
      }
    }
  }

  /** What decides the direction in `qhp_fixup`. */
  lemma FixDirection(ks: seq<int>, pos: nat)
    requires pos < |ks| && OrderedBut(ks, pos)
    ensures pos > 0 && ks[Parent(pos)] >= ks[pos] ==> Rising(ks, pos)
    ensures !(pos > 0 && ks[Parent(pos)] >= ks[pos]) ==> Sinking(ks, pos)
  {
    if pos > 0 { ParentIs(pos, Parent(pos)); }
    forall i | 0 < i < |ks| && ChildOf(i, pos) ensures Parent(i) == pos { ParentIs(i, pos); }
  }

  /** The last place can go. */
  lemma DropLast(ks: seq<int>)
    requires |ks| > 0 && Ordered(ks)
    ensures Ordered(ks[..|ks| - 1])
  {
    var k2 := ks[..|ks| - 1];
    forall i | 0 < i < |k2| ensures EdgeOk(k2, i) { assert EdgeOk(ks, i); }
  }

  /** The first key is the least. */
  lemma {:induction false} FirstIsLeast(ks: seq<int>, i: nat)
    requires Ordered(ks) && i < |ks|
    ensures ks[0] <= ks[i]
    decreases i
  {
    if i > 0 {
      assert EdgeOk(ks, i);
      FirstIsLeast(ks, Parent(i));
    }
  }

  // ---------------------------------------------------------------- the heap

  /** A user node; `pos` is what `set_pos` writes. */
  class Node {
    var val: int
    var pos: int

    constructor (v: int)
      ensures val == v && pos == -1
    {
      val, pos := v, -1;
    }
  }

  ghost predicate Distinct(s: seq<Node>) {
    forall i, j | 0 <= i < j < |s| :: s[i] != s[j]
  }

  class Heap {
    const isMin: bool
    var tab: seq<Node>

    /** `QHP_CMP` compares keys: values in a min heap, opposite values in a max heap. */
    function Key(n: Node): int
      reads n
    {
      if isMin then n.val else -n.val
    }

    ghost predicate KeysOf(ks: seq<int>, v: seq<Node>)
      reads v
    {
      |ks| == |v| && forall i | 0 <= i < |v| :: ks[i] == Key(v[i])
    }

    /** The keys of the table, in order. */
    ghost function Keys(): (ks: seq<int>)
      reads this, tab
      ensures KeysOf(ks, tab)
    {
      KeysFrom(tab)
    }

    ghost function KeysFrom(v: seq<Node>): (ks: seq<int>)
      reads v
      ensures KeysOf(ks, v)
    {
      if v == [] then [] else KeysFrom(v[..|v| - 1]) + [Key(v[|v| - 1])]
    }

    /** Every node knows its place, except perhaps the one at `but`. */
    ghost predicate PositionsBut(v: seq<Node>, but: int)
      reads v
    {
      forall i | 0 <= i < |v| && i != but :: v[i].pos == i
    }

    ghost predicate Valid()
      reads this, tab
    {
      Distinct(tab) && PositionsBut(tab, -1) && Ordered(Keys())
    }

    constructor (isMinHeap: bool)
      ensures Valid() && tab == [] && isMin == isMinHeap
    {
      isMin, tab := isMinHeap, [];
    }

    /** `__qhp_set` */
    method SetNode(pos: nat, node: Node) returns (r: nat)
      requires pos < |tab|
      modifies `tab, node`pos
      ensures tab == old(tab)[pos := node] && node.pos == pos && r == pos
    {
      node.pos := pos;
      tab := tab[pos := node];
      r := pos;
    }

    /** The least of the children of `pos`, `n` in C: the first that no later one beats. */
    method LeastChild(pos: nat) returns (c: nat)
      requires 4 * pos + 1 < |tab|
      ensures c < |tab| && ChildOf(c, pos)
      ensures forall i | 0 < i < |tab| && ChildOf(i, pos) :: Key(tab[c]) <= Key(tab[i])
    {
      var first := 4 * pos + 1;
      c := first;
      if first + 1 < |tab| && Key(tab[first + 1]) < Key(tab[c]) { c := first + 1; }
      if first + 2 < |tab| && Key(tab[first + 2]) < Key(tab[c]) { c := first + 2; }
      if first + 3 < |tab| && Key(tab[first + 3]) < Key(tab[c]) { c := first + 3; }
    }

    /**
     A sift in progress: `node` belongs in the hole at `pos`; `v` is the table with `node` put there,
     `ks` its keys.  All other nodes know their place.
     */
    ghost predicate HoleAt(pos: nat, node: Node, v: seq<Node>, ks: seq<int>, all: multiset<Node>)
      reads this, tab, v
    {
      && pos < |tab|
      && v == tab[pos := node]
      && Distinct(v)
      && multiset(v) == all
      && KeysOf(ks, v)
      && PositionsBut(tab, pos)
    }

    /** Fill the hole at `pos` from `c`, where the hole is now. */
    method MoveHole(pos: nat, c: nat, moved: Node, ghost node: Node, ghost v: seq<Node>, ghost ks: seq<int>, ghost all: multiset<Node>)
      requires HoleAt(pos, node, v, ks, all) && c < |tab| && c != pos && moved == tab[c]
      modifies `tab, moved`pos
      ensures |tab| == |old(tab)|
      ensures HoleAt(c, node, Swap(v, pos, c), Swap(ks, pos, c), all)
      ensures node.pos == old(node.pos)
    {
      SwapMultiset(v, pos, c);
      assert moved == v[c] && node == v[pos];
      var _ := SetNode(pos, moved);
    }

    /** The last store of a sift, skipped when the hole never moved. */
    method FillHole(start: nat, pos: nat, node: Node, ghost v: seq<Node>, ghost ks: seq<int>, ghost all: multiset<Node>)
      returns (r: nat)
      requires HoleAt(pos, node, v, ks, all) && Ordered(ks)
      requires pos == start ==> node.pos == start && tab == v
      modifies `tab, node`pos
      ensures tab == v && Valid() && r == pos
    {
      assert node == v[pos];
      if start != pos {
        r := SetNode(pos, node);
      } else {
        r := start;
      }
      assert tab == v;
      assert PositionsBut(tab, -1);
      assert Keys() == ks;
    }

    /** One turn of `__qhp_down`: move the least child of `pos` up, if it is less than `node`. */
    method SinkOnce(pos: nat, node: Node, ghost v: seq<Node>, ghost ks: seq<int>, ghost all: multiset<Node>)
      returns (moved: bool, c: nat, ghost v2: seq<Node>, ghost ks2: seq<int>)
      requires HoleAt(pos, node, v, ks, all) && Sinking(ks, pos) && 4 * pos + 1 < |tab|
      modifies `tab, all`pos
      ensures |tab| == |old(tab)| && node.pos == old(node.pos)
      ensures pos < c < |tab|
      ensures moved ==> HoleAt(c, node, v2, ks2, all) && Sinking(ks2, c)
      ensures ChildOf(c, pos) && c < |ks| && (moved ==> ks[c] < ks[pos])
      ensures !moved ==> HoleAt(pos, node, v, ks, all) && tab == old(tab)
      ensures !moved ==> forall i | 0 < i < |ks| && ChildOf(i, pos) :: ks[pos] <= ks[i]
    {
      c := LeastChild(pos);
      LeastKey(ks, v, pos, c);
      v2, ks2 := v, ks;
      moved := Key(tab[c]) < Key(node);
      if moved {
        SinkStep(ks, pos, c);
        assert tab[c] == v[c] && v[c] in multiset(v);
        MoveHole(pos, c, tab[c], node, v, ks, all);
        v2, ks2 := Swap(v, pos, c), Swap(ks, pos, c);
      }
    }

    /** `__qhp_down` */
    method Down(start: nat) returns (r: nat)
      requires start < |tab| && Distinct(tab) && PositionsBut(tab, -1) && Sinking(Keys(), start)
      modifies `tab, tab`pos
      ensures Valid() && multiset(tab) == multiset(old(tab))
      ensures r < |tab| && tab[r] == old(tab)[start]
    {
      var node, pos := tab[start], start;
      ghost var ks, v, all := Keys(), tab, multiset(tab);
      ghost var settled := false;
      while 4 * pos + 1 + 4 <= |tab|
        invariant HoleAt(pos, node, v, ks, all) && Sinking(ks, pos)
        invariant if pos == start then node.pos == start && tab == v else pos > start
        invariant !settled
        decreases |tab| - pos
      {
        var moved, c;
        ghost var v2, ks2;
        moved, c, v2, ks2 := SinkOnce(pos, node, v, ks, all);
        if !moved {
          settled := true;
          break;
        }
        v, ks, pos := v2, ks2, c;
      }
      r := DownEnd(start, pos, node, v, ks, all, settled);
    }

    /** The end of `__qhp_down`: the last, partial group of children, and the final store. */
    method DownEnd(start: nat, pos: nat, node: Node, ghost v: seq<Node>, ghost ks: seq<int>, ghost all: multiset<Node>,
                   ghost settled: bool) returns (r: nat)
      requires HoleAt(pos, node, v, ks, all) && Sinking(ks, pos)
      requires if pos == start then node.pos == start && tab == v else pos > start
      requires if settled then forall i | 0 < i < |ks| && ChildOf(i, pos) :: ks[pos] <= ks[i]
               else 4 * pos + 5 > |tab|
      modifies `tab, all`pos
      ensures Valid() && multiset(tab) == all
      ensures r < |tab| && tab[r] == node
    {
      assert v[pos] in multiset(v);
      if 4 * pos + 1 < |tab| {
        var moved, c;
        ghost var v2, ks2;
        moved, c, v2, ks2 := SinkOnce(pos, node, v, ks, all);
        if moved {
          SinkDone(ks2, c);
          r := FillHole(start, c, node, v2, ks2, all);
          return;
        }
      }
      SinkDone(ks, pos);
      r := FillHole(start, pos, node, v, ks, all);
    }

    lemma LeastKey(ks: seq<int>, v: seq<Node>, pos: nat, c: nat)
      requires pos < |tab| && |v| == |tab| && KeysOf(ks, v) && c < |tab| && ChildOf(c, pos)
      requires forall i | 0 <= i < |tab| && i != pos :: v[i] == tab[i]
      requires forall i | 0 < i < |tab| && ChildOf(i, pos) :: Key(tab[c]) <= Key(tab[i])
      ensures ks[c] == Key(tab[c]) && forall i | 0 < i < |ks| && ChildOf(i, pos) :: ks[c] <= ks[i]
    {
    }

    /** `__qhp_up` */
    method Up(start: nat) returns (r: nat)
      requires start < |tab| && Distinct(tab) && PositionsBut(tab, -1) && Rising(Keys(), start)
      modifies `tab, tab`pos
      ensures Valid() && multiset(tab) == multiset(old(tab))
      ensures r < |tab| && tab[r] == old(tab)[start]
    {
      var node, pos := tab[start], start;
      ghost var ks, v, all := Keys(), tab, multiset(tab);
      while pos > 0
        invariant |tab| == |old(tab)| && HoleAt(pos, node, v, ks, all) && Rising(ks, pos)
        invariant pos == start ==> node.pos == start && tab == v
        invariant pos <= start
      {
        var parentPos := Parent(pos);
        ParentIs(pos, parentPos);
        if Key(node) >= Key(tab[parentPos]) {
          break;
        }
        RiseStep(ks, pos);
        assert v[parentPos] in all;
        MoveHole(pos, parentPos, tab[parentPos], node, v, ks, all);
        v, ks, pos := Swap(v, pos, parentPos), Swap(ks, pos, parentPos), parentPos;
      }
      RiseDone(ks, pos);
      assert v[pos] in all;
      r := FillHole(start, pos, node, v, ks, all);
    }

    /** `qhp_insert` */
    method Insert(node: Node) returns (r: nat)
      requires Valid() && node !in tab
      modifies `tab, tab`pos, node`pos
      ensures Valid() && multiset(tab) == multiset(old(tab)) + multiset{node}
      ensures r < |tab| && tab[r] == node
    {
      node.pos := |tab|;
      tab := tab + [node];
      AppendRises(old(Keys()), Keys());
      r := Up(|tab| - 1);
    }

    /** `qhp_fixup`, after the value of the node at `pos` has changed. */
    method Fixup(pos: nat) returns (r: nat)
      requires pos < |tab| && Distinct(tab) && PositionsBut(tab, -1) && OrderedBut(Keys(), pos)
      modifies `tab, tab`pos
      ensures Valid() && multiset(tab) == multiset(old(tab))
      ensures r < |tab| && tab[r] == old(tab)[pos]
    {
      FixDirection(Keys(), pos);
      if pos > 0 { ParentIs(pos, Parent(pos)); }
      if pos > 0 && Key(tab[Parent(pos)]) >= Key(tab[pos]) {
        r := Up(pos);
      } else {
        r := Down(pos);
      }
    }

    /** What a caller does: change the value of the node at `pos` of a valid heap, and fix it up. */
    method Update(pos: nat, val: int) returns (r: nat)
      requires Valid() && pos < |tab|
      modifies `tab, tab`pos, tab[pos]
      ensures Valid() && multiset(tab) == multiset(old(tab))
      ensures r < |tab| && tab[r] == old(tab)[pos] && tab[r].val == val
    {
      ghost var ks := Keys();
      tab[pos].val := val;
      ghost var x := Key(tab[pos]);
      ChangeKey(ks, pos, x);
      assert Keys() == ks[pos := x] by {
        assert KeysOf(ks[pos := x], tab);
      }
      r := Fixup(pos);
    }

    /** `qhp_remove` */
    method Remove(pos: int) returns (node: Node?)
      requires Valid() && pos < |tab|
      modifies `tab, tab`pos
      ensures Valid()
      ensures pos < 0 ==> node == null && tab == old(tab)
      ensures pos >= 0 ==> node == old(tab)[pos] && node.pos == -1 && node !in tab
      ensures pos >= 0 ==> multiset(tab) + multiset{node} == multiset(old(tab))
    {
      if pos < 0 {
        return null;
      }
      node := TakeOut(pos);
      Gone(old(tab), tab, pos);
      Detach(node);
    }

    /** `set_pos(node, -1)` */
    method Detach(node: Node)
      requires Valid() && node !in tab
      modifies node`pos
      ensures Valid() && node.pos == -1
    {
      node.pos := -1;
    }

    method TakeOut(pos: nat) returns (node: Node)
      requires Valid() && pos < |tab|
      modifies `tab, tab`pos
      ensures Valid() && node == old(tab)[pos]
      ensures multiset(tab) + multiset{node} == multiset(old(tab))
    {
      node := tab[pos];
      if pos == |tab| - 1 {
        ShrinkLast();
      } else {
        ReplaceByLast(pos);
        Replaced(old(tab), pos);
        Members(old(tab), tab, node);
        var _ := Fixup(pos);
      }
    }

    /** `qv_shrink(heap, 1)` on a valid heap. */
    method ShrinkLast()
      requires Valid() && |tab| > 0
      modifies `tab
      ensures Valid()
      ensures multiset(tab) + multiset{old(tab)[|old(tab)| - 1]} == multiset(old(tab))
    {
      var n := |tab| - 1;
      ghost var ks := Keys();
      assert tab == tab[..n] + [tab[n]];
      tab := tab[..n];
      DropLast(ks);
      assert Keys() == ks[..n];
    }

    /** Shrink, and put what was last at `pos`; the table is ordered but for that place. */
    method ReplaceByLast(pos: nat)
      requires Valid() && pos < |tab| - 1
      modifies `tab, tab`pos
      ensures tab == LastAt(old(tab), pos)
      ensures Distinct(tab) && PositionsBut(tab, -1) && OrderedBut(Keys(), pos)
    {
      var n := |tab| - 1;
      ghost var ks := Keys();
      var last := tab[n];
      DropLast(ks);
      ChangeKey(ks[..n], pos, ks[n]);
      tab := tab[..n];
      var _ := SetNode(pos, last);
      assert Keys() == ks[..n][pos := ks[n]] by {
        assert KeysOf(ks[..n][pos := ks[n]], tab);
      }
    }

    /** The table is what is left when the one at `pos` goes. */
    lemma Gone(before: seq<Node>, after: seq<Node>, pos: nat)
      requires pos < |before| && Distinct(before)
      requires multiset(after) + multiset{before[pos]} == multiset(before)
      ensures before[pos] !in after
    {
      OnlyOnce(before, pos);
    }
  }

  lemma Members(before: seq<Node>, after: seq<Node>, gone: Node)
    requires multiset(after) + multiset{gone} == multiset(before)
    ensures forall i | 0 <= i < |after| :: after[i] in before
  {
    forall i | 0 <= i < |after| ensures after[i] in before {
      assert after[i] in multiset(after);
      assert after[i] in multiset(before);
    }
  }

  lemma {:induction false} OnlyOnce(s: seq<Node>, i: nat)
    requires i < |s| && Distinct(s)
    ensures multiset(s)[s[i]] == 1
    decreases |s|
  {
    var n := |s| - 1;
    assert s == s[..n] + [s[n]];
    if i == n {
      assert s[n] !in s[..n];
    } else {
      OnlyOnce(s[..n], i);
    }
  }

  /** The last element in the place of the one at `pos`. */
  function LastAt(s: seq<Node>, pos: nat): seq<Node>
    requires pos < |s| - 1
  {
    s[..|s| - 1][pos := s[|s| - 1]]
  }

  lemma Replaced(s: seq<Node>, pos: nat)
    requires pos < |s| - 1
    ensures multiset(LastAt(s, pos)) + multiset{s[pos]} == multiset(s)
  {
    var n := |s| - 1;
    assert s == s[..n] + [s[n]];
  }

  lemma AppendRises(ks: seq<int>, k2: seq<int>)
    requires Ordered(ks) && |k2| == |ks| + 1 && k2[..|ks|] == ks
    ensures Rising(k2, |ks|)
  {
    forall i | 0 < i < |k2| && i != |ks| ensures EdgeOk(k2, i) {
      assert EdgeOk(ks, i);
      assert k2[..|ks|][i] == k2[i] && k2[..|ks|][Parent(i)] == k2[Parent(i)];
    }
  }

  // ---------------------------------------------------------------- draining

  /** Keys in the order in which the heap gives its elements out. */
  ghost predicate Ascending(ks: seq<int>) {
    forall i, j | 0 <= i < j < |ks| :: ks[i] <= ks[j]
  }

  /** No key of the heap is below `low`. */
  ghost predicate AtLeast(heap: Heap, low: int)
    reads heap, heap.tab
  {
    forall j | 0 <= j < |heap.tab| :: low <= heap.Key(heap.tab[j])
  }

  /** `qhp_take_first` until the heap is empty: a sorted permutation of what it held. */
  method Drain(heap: Heap) returns (out: seq<Node>, ghost ks: seq<int>)
    requires heap.Valid()
    modifies heap`tab, heap.tab`pos
    ensures heap.Valid() && heap.tab == []
    ensures multiset(out) == multiset(old(heap.tab))
    ensures heap.KeysOf(ks, out) && Ascending(ks)
  {
    out, ks := [], [];
    while heap.tab != []
      invariant heap.Valid() && Sorted(heap, out, ks)
      invariant multiset(out) + multiset(heap.tab) == multiset(old(heap.tab))
      invariant forall i | 0 <= i < |heap.tab| :: heap.tab[i] in old(heap.tab)
      decreases |heap.tab|
    {
      ghost var before := heap.tab;
      var node;
      ghost var ks2;
      node, ks2 := TakeNext(heap, out, ks);
      Moved(out, before, heap.tab, node);
      out, ks := out + [node], ks2;
    }
  }

  /** What has been taken out is in order, and not above anything still in the heap. */
  ghost predicate Sorted(heap: Heap, out: seq<Node>, ks: seq<int>)
    reads heap, heap.tab, out
  {
    heap.KeysOf(ks, out) && Ascending(ks) && (ks != [] ==> AtLeast(heap, ks[|ks| - 1]))
  }

  method TakeNext(heap: Heap, ghost out: seq<Node>, ghost ks: seq<int>) returns (node: Node, ghost ks2: seq<int>)
    requires heap.Valid() && heap.tab != [] && Sorted(heap, out, ks)
    modifies heap`tab, heap.tab`pos
    ensures heap.Valid() && multiset(heap.tab) + multiset{node} == multiset(old(heap.tab))
    ensures Sorted(heap, out + [node], ks2)
  {
    ghost var key := heap.Key(heap.tab[0]);
    ks2 := ks + [key];
    node := TakeFirst(heap);
    forall i | 0 <= i < |out + [node]| ensures ks2[i] == heap.Key((out + [node])[i]) {
      if i < |out| { assert ks2[i] == ks[i] && (out + [node])[i] == out[i]; }
    }
  }

  /** `qhp_take_first` gives a least element out. */
  method TakeFirst(heap: Heap) returns (node: Node)
    requires heap.Valid() && heap.tab != []
    modifies heap`tab, heap.tab`pos
    ensures heap.Valid() && node == old(heap.tab)[0] && node.pos == -1
    ensures multiset(heap.tab) + multiset{node} == multiset(old(heap.tab))
    ensures AtLeast(heap, heap.Key(node))
  {
    ghost var before := heap.tab;
    FirstKey(heap);
    node := heap.Remove(0);
    Members(before, heap.tab, node);
  }

  lemma FirstKey(heap: Heap)
    requires heap.Valid() && heap.tab != []
    ensures AtLeast(heap, heap.Key(heap.tab[0]))
    ensures forall x | x in heap.tab :: heap.Key(heap.tab[0]) <= heap.Key(x)
  {
    forall j | 0 <= j < |heap.tab| ensures heap.Key(heap.tab[0]) <= heap.Key(heap.tab[j]) {
      FirstIsLeast(heap.Keys(), j);
    }
  }

  lemma Moved(out: seq<Node>, before: seq<Node>, after: seq<Node>, node: Node)
    requires multiset(after) + multiset{node} == multiset(before)
    ensures multiset(out + [node]) + multiset(after) == multiset(out) + multiset(before)
    ensures |after| < |before|
    ensures forall i | 0 <= i < |after| :: after[i] in before
  {
    Members(before, after, node);
    assert |multiset(before)| == |multiset(after)| + 1;
  }
}
