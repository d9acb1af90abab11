/**
 Circular doubly linked lists.  A list head and the links of its elements form one ring; the
 operations cut and join rings by rewriting a few `next` and `prev` pointers.
 */
module DList {

  /** `dlist_t` */
  class Link {
    var next: Link
    var prev: Link

    /** `dlist_init` of a new link. */
    constructor ()
      ensures next == this && prev == this
    {
      next, prev := this, this;
    }

    /** A link whose pointers are not set to anything in particular. */
    constructor Raw(next: Link, prev: Link)
      ensures this.next == next && this.prev == prev
    {
      this.next, this.prev := next, prev;
    }

    /** `dlist_init` */
    method Init()
      modifies this
      ensures next == this && prev == this
    {
      next, prev := this, this;
    }
  }

  ghost predicate Distinct(s: seq<Link>) {
    forall i, j | 0 <= i < j < |s| :: s[i] != s[j]
  }

  /** Each link points to the one after it and back. */
  ghost predicate Chain(s: seq<Link>)
    reads s
  {
    forall i {:trigger s[i].next} | 0 <= i < |s| - 1 :: s[i].next == s[i + 1] && s[i + 1].prev == s[i]
  }

  /** A ring, seen from `s[0]`: `next` and `prev` are inverse to each other all around it. */
  ghost predicate Ring(s: seq<Link>)
    reads s
  {
    && |s| > 0
    && Distinct(s)
    && Chain(s)
    && s[|s| - 1].next == s[0] && s[0].prev == s[|s| - 1]
  }

  // ---------------------------------------------------------------- pointer surgery

  /** The place after index `k` of a ring of `n` links. */
  function After(k: nat, n: nat): nat { if k + 1 == n then 0 else k + 1 }
  function Before(k: nat, n: nat): int { if k == 0 then n - 1 else k - 1 }

  lemma RingNeighbours(s: seq<Link>, k: nat)
    requires Ring(s) && k < |s|
    ensures s[k].next == s[After(k, |s|)] && s[k].prev == s[Before(k, |s|)]
  {
    if k > 0 { assert s[k - 1].next == s[k]; }
    if k < |s| - 1 { assert s[k].next == s[k + 1]; }
  }

  lemma ChainPart(s: seq<Link>, i: nat, j: nat)
    requires Chain(s) && i <= j <= |s|
    ensures Chain(s[i..j])
  {
    var t := s[i..j];
    forall n {:trigger t[n].next} | 0 <= n < |t| - 1 ensures t[n].next == t[n + 1] && t[n + 1].prev == t[n] {
      assert s[i + n].next == s[i + n + 1];
    }
  }

  /** A chain is kept when only its first `prev` and its last `next` change. */
  twostate lemma ChainKept(s: seq<Link>)
    requires old(Chain(s))
    requires forall i | 0 <= i < |s| - 1 :: s[i].next == old(s[i].next)
    requires forall i | 1 <= i < |s| :: s[i].prev == old(s[i].prev)
    ensures Chain(s)
  {
  }

  lemma ChainJoin(a: seq<Link>, b: seq<Link>)
    requires Chain(a) && Chain(b)
    requires a != [] && b != [] ==> a[|a| - 1].next == b[0] && b[0].prev == a[|a| - 1]
    ensures Chain(a + b)
  {
    var t := a + b;
    forall n {:trigger t[n].next} | 0 <= n < |t| - 1 ensures t[n].next == t[n + 1] && t[n + 1].prev == t[n] {
      if n < |a| - 1 {
        assert a[n].next == a[n + 1];
      } else if n >= |a| {
        assert b[n - |a|].next == b[n - |a| + 1];
      }
    }
  }

  lemma RingClosed(a: seq<Link>, b: seq<Link>)
    requires a != [] && Chain(a) && Chain(b) && Distinct(a + b)
    requires b != [] ==> a[|a| - 1].next == b[0] && b[0].prev == a[|a| - 1]
    requires b != [] ==> b[|b| - 1].next == a[0] && a[0].prev == b[|b| - 1]
    requires b == [] ==> a[|a| - 1].next == a[0] && a[0].prev == a[|a| - 1]
    ensures Ring(a + b)
  {
    ChainJoin(a, b);
  }

  /** `__dlist_add(e, prev, next)` between two neighbours of a ring. */
  method AddBetween(e: Link, prev: Link, next: Link, ghost s: seq<Link>, ghost k: nat)
    requires Ring(s) && e !in s && k < |s| && prev == s[k] && next == s[After(k, |s|)]
    modifies e, prev, next
    ensures Ring(s[..k + 1] + [e] + s[k + 1..])
  {
    ghost var left, right := s[..k + 1], s[k + 1..];
    ChainPart(s, 0, k + 1);
    ChainPart(s, k + 1, |s|);
    next.prev := e;
    e.next := next;
    e.prev := prev;
    prev.next := e;
    ChainKept(left);
    ChainKept(right);
    ChainJoin(left, [e]);
    RingClosed(left + [e], right);
  }

  /** `__dlist_remove(e->prev, e->next)` for the element at index `k` of a ring, or for a link on its own. */
  method Unlink(e: Link, ghost s: seq<Link>, ghost k: nat)
    requires Ring(s) && k < |s| && e == s[k] && (k == 0 ==> |s| == 1)
    modifies e.prev, e.next
    ensures k > 0 ==> Ring(s[..k] + s[k + 1..])
  {
    ghost var left, right := s[..k], s[k + 1..];
    ChainPart(s, 0, k);
    ChainPart(s, k + 1, |s|);
    RingNeighbours(s, k);
    var prev, next := e.prev, e.next;
    next.prev := prev;
    prev.next := next;
    if k > 0 {
      ChainKept(left);
      ChainKept(right);
      RingClosed(left, right);
    }
  }

  ghost predicate Apart(a: seq<Link>, b: seq<Link>) {
    forall i, j | 0 <= i < |a| && 0 <= j < |b| :: a[i] != b[j]
  }

  lemma DistinctSplice(a: seq<Link>, k: nat, b: seq<Link>)
    requires Distinct(a) && Distinct(b) && Apart(a, b) && k < |a| && |b| > 0
    ensures Distinct(a[..k + 1] + b[1..] + a[k + 1..])
  {
  }

  /** `__dlist_splice(prev, next, src)`: the elements of `src` go between two neighbours of `a`. */
  method SpliceBetween(prev: Link, next: Link, src: Link, ghost a: seq<Link>, ghost k: nat, ghost b: seq<Link>)
    requires Ring(a) && Ring(b) && |b| > 1 && src == b[0] && Apart(a, b)
    requires k < |a| && prev == a[k] && next == a[After(k, |a|)]
    modifies prev, next, src, src.next, src.prev
    ensures Ring(a[..k + 1] + b[1..] + a[k + 1..])
    ensures Ring([src])
  {
    ghost var left, mid, right := a[..k + 1], b[1..], a[k + 1..];
    ChainPart(a, 0, k + 1);
    ChainPart(a, k + 1, |a|);
    ChainPart(b, 1, |b|);
    RingNeighbours(b, 0);
    var first, last := src.next, src.prev;
    first.prev := prev;
    prev.next := first;
    last.next := next;
    next.prev := last;
    src.Init();
    ChainKept(left);
    ChainKept(mid);
    ChainKept(right);
    ChainJoin(left, mid);
    DistinctSplice(a, k, b);
    RingClosed(left + mid, right);
  }

  /** `dlist_cut_at` past its first test: `dst` takes the elements up to `e`, the link at index `k`. */
  method CutAfter(src: Link, e: Link, dst: Link, ghost s: seq<Link>, ghost k: nat)
    requires Ring(s) && src == s[0] && 0 < k < |s| && e == s[k] && dst !in s
    modifies src, src.next, e, e.next, dst
    ensures Ring([dst] + s[1..k + 1])
    ensures Ring([src] + s[k + 1..])
  {
    ghost var left, right := s[1..k + 1], s[k + 1..];
    ChainPart(s, 1, k + 1);
    ChainPart(s, k + 1, |s|);
    RingNeighbours(s, 0);
    RingNeighbours(s, k);
    var eNext := e.next;
    dst.next := src.next;
    dst.next.prev := dst;
    dst.prev := e;
    e.next := dst;
    src.next := eNext;
    eNext.prev := src;
    ChainKept(left);
    ChainKept(right);
    DistinctCut(s, dst, k);
    RingClosed([dst], left);
    RingClosed([src], right);
  }

  lemma DistinctCut(s: seq<Link>, dst: Link, k: nat)
    requires Distinct(s) && dst !in s && 0 < k < |s|
    ensures Distinct([dst] + s[1..k + 1]) && Distinct([s[0]] + s[k + 1..])
  {
  }

  // ---------------------------------------------------------------- all the lists of a program

  /** The links of a list, its head first. */
  function Cycle(lists: map<Link, seq<Link>>, h: Link): seq<Link>
    requires h in lists
  {
    [h] + lists[h]
  }

  /** No link is in two lists. */
  ghost predicate Separate(lists: map<Link, seq<Link>>) {
    forall g, h, x {:trigger x in Cycle(lists, g), x in Cycle(lists, h)} |
      g in lists && h in lists && x in Cycle(lists, g) && x in Cycle(lists, h) :: g == h
  }

  ghost predicate Contained(lists: map<Link, seq<Link>>, links: set<Link>) {
    forall h {:trigger Cycle(lists, h)} | h in lists :: forall x | x in Cycle(lists, h) :: x in links
  }

  ghost predicate Rings(lists: map<Link, seq<Link>>, links: set<Link>)
    requires Contained(lists, links)
    reads links
  {
    forall h {:trigger Cycle(lists, h)} | h in lists :: Ring(Cycle(lists, h))
  }

  /** The lists are apart, made of `links` only, and rings. */
  ghost predicate World(lists: map<Link, seq<Link>>, links: set<Link>)
    reads links
  {
    Separate(lists) && Contained(lists, links) && Rings(lists, links)
  }

  /** `x` is in none of the lists but `heads`. */
  ghost predicate Inside(lists: map<Link, seq<Link>>, heads: set<Link>, x: Link) {
    forall h {:trigger Cycle(lists, h)} | h in lists && x in Cycle(lists, h) :: h in heads
  }

  /** The pointers of the links `changed` are rewritten, and the lists `part` take the place of `heads`. */
  datatype Surgery =
    Surgery(lists: map<Link, seq<Link>>, links: set<Link>, heads: set<Link>, part: map<Link, seq<Link>>, changed: set<Link>)
  {
    /** No list but those of `heads` is concerned. */
    ghost predicate Local() {
      && Separate(part)
      && (forall x | x in changed :: Inside(lists, heads, x))
      && forall h, x {:trigger x in Cycle(part, h)} | h in part && x in Cycle(part, h) ::
           x in links && Inside(lists, heads, x)
    }

    function Result(): map<Link, seq<Link>> { (lists - heads) + part }

    lemma Untouched(h: Link)
      requires Local() && h in lists && h !in heads
      ensures forall x | x in Cycle(lists, h) :: x !in changed
    {
    }

    lemma SameCycle(h: Link)
      requires h in Result()
      ensures h in part ==> Cycle(Result(), h) == Cycle(part, h)
      ensures h !in part ==> h in lists && h !in heads && Cycle(Result(), h) == Cycle(lists, h)
    {
    }

    /** Sharing out the links of some lists anew leaves all lists apart from each other. */
    lemma Regroup()
      requires Local() && Separate(lists)
      ensures Separate(Result())
    {
      var after := Result();
      forall g, h, x {:trigger x in Cycle(after, g), x in Cycle(after, h)} |
        g in after && h in after && x in Cycle(after, g) && x in Cycle(after, h)
        ensures g == h
      {
        SameCycle(g);
        SameCycle(h);
      }
    }

    /** With the lists `part` tied into rings and the others as they were, all the lists are rings again. */
    lemma Done()
      requires Local() && Separate(lists) && Contained(lists, links)
      requires forall h {:trigger Cycle(lists, h)} | h in lists && h !in heads :: Ring(Cycle(lists, h))
      requires forall h {:trigger Cycle(part, h)} | h in part :: Ring(Cycle(part, h))
      ensures World(Result(), links)
    {
      Regroup();
      forall h {:trigger Cycle(Result(), h)} | h in Result()
        ensures (forall x | x in Cycle(Result(), h) :: x in links) && Ring(Cycle(Result(), h))
      {
        SameCycle(h);
      }
    }
  }

  // ---------------------------------------------------------------- each kind of surgery among all lists

  /** `e` inserted after the link at index `k` of the ring of `h`. */
  function Inserted(lists: map<Link, seq<Link>>, h: Link, k: nat, e: Link): map<Link, seq<Link>>
    requires h in lists && k <= |lists[h]|
  {
    (lists - {e})[h := lists[h][..k] + [e] + lists[h][k..]]
  }

  ghost function Insertion(lists: map<Link, seq<Link>>, links: set<Link>, h: Link, k: nat, e: Link): Surgery
    requires h in lists && k <= |lists[h]|
  {
    var s := Cycle(lists, h);
    Surgery(lists, links, {h, e}, map[h := lists[h][..k] + [e] + lists[h][k..]], {e, s[k], s[After(k, |s|)]})
  }

  lemma InsertionPlan(lists: map<Link, seq<Link>>, links: set<Link>, h: Link, k: nat, e: Link)
    requires World(lists, links) && h in lists && k <= |lists[h]| && e in links && e != h && Inside(lists, {e}, e)
    ensures Insertion(lists, links, h, k, e).Local()
    ensures Insertion(lists, links, h, k, e).Result() == Inserted(lists, h, k, e)
    ensures Cycle(Insertion(lists, links, h, k, e).part, h) == Cycle(lists, h)[..k + 1] + [e] + Cycle(lists, h)[k + 1..]
  {
    var s, op := Cycle(lists, h), Insertion(lists, links, h, k, e);
    assert s[k] in s && s[After(k, |s|)] in s;
    forall g, x {:trigger x in Cycle(op.part, g)} | g in op.part && x in Cycle(op.part, g)
      ensures x in links && Inside(lists, op.heads, x)
    {
      if x != e {
        assert x in s;
      }
    }
  }

  method AddAt(e: Link, prev: Link, next: Link,
               ghost lists: map<Link, seq<Link>>, ghost links: set<Link>, ghost h: Link, ghost k: nat)
    requires World(lists, links) && e in links && Inside(lists, {e}, e)
    requires h in lists && h != e && k <= |lists[h]|
    requires prev == Cycle(lists, h)[k] && next == prev.next
    modifies e, prev, next
    ensures World(Inserted(lists, h, k, e), links)
  {
    ghost var op := Insertion(lists, links, h, k, e);
    InsertionPlan(lists, links, h, k, e);
    RingNeighbours(Cycle(lists, h), k);
    AddBetween(e, prev, next, Cycle(lists, h), k);
    forall g {:trigger Cycle(lists, g)} | g in lists && g !in op.heads ensures Ring(Cycle(lists, g)) {
      op.Untouched(g);
    }
    op.Done();
  }

  /** The lists without the link at index `k` of the ring of `h`. */
  function Removed(lists: map<Link, seq<Link>>, h: Link, k: nat): map<Link, seq<Link>>
    requires h in lists && k <= |lists[h]|
  {
    if k == 0 then lists - {h} else lists[h := lists[h][..k - 1] + lists[h][k..]]
  }

  ghost function Removal(lists: map<Link, seq<Link>>, links: set<Link>, h: Link, k: nat): Surgery
    requires h in lists && k <= |lists[h]|
  {
    var s := Cycle(lists, h);
    Surgery(lists, links, {h}, if k == 0 then map[] else map[h := lists[h][..k - 1] + lists[h][k..]],
            {s[Before(k, |s|)], s[After(k, |s|)]})
  }

  lemma RemovalPlan(lists: map<Link, seq<Link>>, links: set<Link>, h: Link, k: nat)
    requires World(lists, links) && h in lists && k <= |lists[h]|
    ensures Removal(lists, links, h, k).Local()
    ensures Removal(lists, links, h, k).Result() == Removed(lists, h, k)
    ensures k > 0 ==> Cycle(Removal(lists, links, h, k).part, h) == Cycle(lists, h)[..k] + Cycle(lists, h)[k + 1..]
    ensures Inside(Removed(lists, h, k), {}, Cycle(lists, h)[k])
  {
    var s, op := Cycle(lists, h), Removal(lists, links, h, k);
    assert s[Before(k, |s|)] in s && s[After(k, |s|)] in s && s[k] in s;
    assert k > 0 ==> Cycle(op.part, h) == s[..k] + s[k + 1..];
    forall g, x {:trigger x in Cycle(op.part, g)} | g in op.part && x in Cycle(op.part, g)
      ensures x in links && Inside(lists, op.heads, x)
    {
      assert x in s;
    }
    WithoutOne(s, k);
    forall g {:trigger Cycle(op.Result(), g)} | g in op.Result() ensures s[k] !in Cycle(op.Result(), g) {
      op.SameCycle(g);
    }
  }

  lemma WithoutOne(s: seq<Link>, k: nat)
    requires Distinct(s) && k < |s|
    ensures s[k] !in s[..k] + s[k + 1..]
  {
  }

  method RemoveAt(e: Link, ghost lists: map<Link, seq<Link>>, ghost links: set<Link>, ghost h: Link, ghost k: nat)
    requires World(lists, links) && h in lists && k <= |lists[h]| && e == Cycle(lists, h)[k]
    requires k == 0 ==> lists[h] == []
    modifies e.prev, e.next
    ensures World(Removed(lists, h, k), links)
    ensures Inside(Removed(lists, h, k), {}, e)
  {
    ghost var op := Removal(lists, links, h, k);
    RemovalPlan(lists, links, h, k);
    RingNeighbours(Cycle(lists, h), k);
    Unlink(e, Cycle(lists, h), k);
    forall g {:trigger Cycle(lists, g)} | g in lists && g !in op.heads ensures Ring(Cycle(lists, g)) {
      op.Untouched(g);
    }
    op.Done();
  }

  /** The elements of `src` inserted after the link at index `k` of the ring of `dst`. */
  function Spliced(lists: map<Link, seq<Link>>, dst: Link, k: nat, src: Link): map<Link, seq<Link>>
    requires dst in lists && src in lists && k <= |lists[dst]|
  {
    lists[dst := lists[dst][..k] + lists[src] + lists[dst][k..]][src := []]
  }

  ghost function Splicing(lists: map<Link, seq<Link>>, links: set<Link>, dst: Link, k: nat, src: Link): Surgery
    requires dst in lists && src in lists && k <= |lists[dst]|
  {
    var a, b := Cycle(lists, dst), Cycle(lists, src);
    Surgery(lists, links, {dst, src},
            map[dst := lists[dst][..k] + lists[src] + lists[dst][k..], src := []],
            {a[k], a[After(k, |a|)], src, b[After(0, |b|)], b[|b| - 1]})
  }

  lemma SplicingParts(lists: map<Link, seq<Link>>, links: set<Link>, dst: Link, k: nat, src: Link)
    requires dst in lists && src in lists && k <= |lists[dst]| && dst != src
    ensures Splicing(lists, links, dst, k, src).Result() == Spliced(lists, dst, k, src)
    ensures Cycle(Splicing(lists, links, dst, k, src).part, dst)
         == Cycle(lists, dst)[..k + 1] + Cycle(lists, src)[1..] + Cycle(lists, dst)[k + 1..]
    ensures Cycle(Splicing(lists, links, dst, k, src).part, src) == [src]
  {
  }

  lemma SplicedWithin(a: seq<Link>, k: nat, b: seq<Link>, x: Link)
    requires Distinct(b) && Apart(a, b) && k < |a| && |b| > 0
    requires x in a[..k + 1] + b[1..] + a[k + 1..]
    ensures (x in a || x in b) && x != b[0]
  {
  }

  lemma ListsApart(lists: map<Link, seq<Link>>, g: Link, h: Link)
    requires Separate(lists) && g in lists && h in lists && g != h
    ensures Apart(Cycle(lists, g), Cycle(lists, h))
  {
    var a, b := Cycle(lists, g), Cycle(lists, h);
    forall i, j | 0 <= i < |a| && 0 <= j < |b| ensures a[i] != b[j] {
      assert a[i] in a && b[j] in b;
    }
  }

  lemma SplicingPlan(lists: map<Link, seq<Link>>, links: set<Link>, dst: Link, k: nat, src: Link)
    requires World(lists, links) && dst in lists && src in lists && k <= |lists[dst]| && dst != src
    ensures Splicing(lists, links, dst, k, src).Local()
  {
    var a, b, op := Cycle(lists, dst), Cycle(lists, src), Splicing(lists, links, dst, k, src);
    assert a[k] in a && a[After(k, |a|)] in a && src in b && b[After(0, |b|)] in b && b[|b| - 1] in b;
    SplicingParts(lists, links, dst, k, src);
    ListsApart(lists, dst, src);
    forall g, x {:trigger x in Cycle(op.part, g)} | g in op.part && x in Cycle(op.part, g)
      ensures x in links && Inside(lists, op.heads, x) && (g == dst ==> x != src)
    {
      if g == dst {
        SplicedWithin(a, k, b, x);
      }
    }
  }

  method SpliceAt(prev: Link, next: Link, src: Link,
                  ghost lists: map<Link, seq<Link>>, ghost links: set<Link>, ghost dst: Link, ghost k: nat)
    requires World(lists, links) && dst in lists && src in lists && dst != src && lists[src] != []
    requires k <= |lists[dst]| && prev == Cycle(lists, dst)[k] && next == prev.next
    modifies prev, next, src, src.next, src.prev
    ensures World(Spliced(lists, dst, k, src), links)
  {
    ghost var op := Splicing(lists, links, dst, k, src);
    SplicingPlan(lists, links, dst, k, src);
    SplicingParts(lists, links, dst, k, src);
    ListsApart(lists, dst, src);
    RingNeighbours(Cycle(lists, dst), k);
    RingNeighbours(Cycle(lists, src), 0);
    SpliceBetween(prev, next, src, Cycle(lists, dst), k, Cycle(lists, src));
    forall g {:trigger Cycle(lists, g)} | g in lists && g !in op.heads ensures Ring(Cycle(lists, g)) {
      op.Untouched(g);
    }
    op.Done();
  }

  /** The first `k` elements of `src` moved to the empty list `dst`. */
  function Cut(lists: map<Link, seq<Link>>, src: Link, k: nat, dst: Link): map<Link, seq<Link>>
    requires src in lists && k <= |lists[src]|
  {
    lists[src := lists[src][k..]][dst := lists[src][..k]]
  }

  ghost function Cutting(lists: map<Link, seq<Link>>, links: set<Link>, src: Link, k: nat, dst: Link): Surgery
    requires src in lists && k <= |lists[src]|
  {
    var s := Cycle(lists, src);
    Surgery(lists, links, {src, dst}, map[src := lists[src][k..], dst := lists[src][..k]],
            {src, s[After(0, |s|)], s[k], s[After(k, |s|)], dst})
  }

  lemma CuttingParts(lists: map<Link, seq<Link>>, links: set<Link>, src: Link, k: nat, dst: Link)
    requires src in lists && src != dst && 0 < k <= |lists[src]|
    ensures Cutting(lists, links, src, k, dst).Result() == Cut(lists, src, k, dst)
    ensures Cycle(Cutting(lists, links, src, k, dst).part, src) == [src] + Cycle(lists, src)[k + 1..]
    ensures Cycle(Cutting(lists, links, src, k, dst).part, dst) == [dst] + Cycle(lists, src)[1..k + 1]
  {
  }

  lemma CutWithin(s: seq<Link>, k: nat, dst: Link, x: Link)
    requires Distinct(s) && 0 < k < |s| && dst !in s
    ensures x in [s[0]] + s[k + 1..] ==> x in s && x !in [dst] + s[1..k + 1]
    ensures x in [dst] + s[1..k + 1] ==> x == dst || x in s
  {
  }

  lemma CuttingPlan(lists: map<Link, seq<Link>>, links: set<Link>, src: Link, k: nat, dst: Link)
    requires World(lists, links) && src in lists && dst in links && src != dst && Inside(lists, {dst}, dst)
    requires 0 < k <= |lists[src]|
    ensures Cutting(lists, links, src, k, dst).Local()
    ensures dst !in Cycle(lists, src)
  {
    var s, op := Cycle(lists, src), Cutting(lists, links, src, k, dst);
    assert s[After(0, |s|)] in s && s[k] in s && s[After(k, |s|)] in s && src in s;
    CuttingParts(lists, links, src, k, dst);
    forall g, x {:trigger x in Cycle(op.part, g)} | g in op.part && x in Cycle(op.part, g)
      ensures x in links && Inside(lists, op.heads, x) && (g == src ==> x !in Cycle(op.part, dst))
    {
      CutWithin(s, k, dst, x);
    }
  }

  method CutAt(src: Link, e: Link, dst: Link, ghost lists: map<Link, seq<Link>>, ghost links: set<Link>, ghost k: nat)
    requires World(lists, links) && src in lists && dst in links && src != dst && Inside(lists, {dst}, dst)
    requires 0 < k <= |lists[src]| && e == Cycle(lists, src)[k]
    modifies src, src.next, e, e.next, dst
    ensures World(Cut(lists, src, k, dst), links)
  {
    ghost var op := Cutting(lists, links, src, k, dst);
    CuttingPlan(lists, links, src, k, dst);
    CuttingParts(lists, links, src, k, dst);
    RingNeighbours(Cycle(lists, src), 0);
    RingNeighbours(Cycle(lists, src), k);
    CutAfter(src, e, dst, Cycle(lists, src), k);
    forall g {:trigger Cycle(lists, g)} | g in lists && g !in op.heads ensures Ring(Cycle(lists, g)) {
      op.Untouched(g);
    }
    op.Done();
  }
}
