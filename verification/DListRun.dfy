/**
 Runs of list operations over any number of lists.  The operations work on the links themselves;
 `lists` records, for every list head, the elements of its list in order.
 */
module DListRuns {
  import opened DList

  /** An operation on links; `h` and `k` say where a link is: at index `k` of the ring of `h`, the head being at 0. */
  datatype Op =
    | Add(l: Link, e: Link, h: Link, k: nat)
    | AddTail(l: Link, e: Link, h: Link, k: nat)
    | Remove(e: Link, h: Link, k: nat)
    | Pop(l: Link)
    | Move(l: Link, e: Link, h: Link, k: nat)
    | MoveTail(l: Link, e: Link, h: Link, k: nat)
    | Splice(dst: Link, src: Link)
    | SpliceTail(dst: Link, src: Link)
    | CutAt(src: Link, e: Link, dst: Link, k: nat)

  ghost predicate IsAt(lists: map<Link, seq<Link>>, x: Link, h: Link, k: nat) {
    h in lists && k <= |lists[h]| && x == Cycle(lists, h)[k]
  }

  /** `e` is an element of a list or on its own. */
  ghost predicate Movable(lists: map<Link, seq<Link>>, e: Link, h: Link, k: nat) {
    IsAt(lists, e, h, k) && (k == 0 ==> lists[h] == [])
  }

  /** `e` is in no list, initialised or not, or a list without elements. */
  ghost predicate Free(lists: map<Link, seq<Link>>, links: set<Link>, e: Link) {
    e in links && Inside(lists, {e}, e) && (e in lists ==> lists[e] == [])
  }

  /** What the operations ask of their caller: only links on their own are added, and lists are distinct. */
  ghost predicate Enabled(lists: map<Link, seq<Link>>, links: set<Link>, op: Op) {
    match op
    case Add(l, e, h, k) => IsAt(lists, l, h, k) && Free(lists, links, e) && e != h
    case AddTail(l, e, h, k) => IsAt(lists, l, h, k) && Free(lists, links, e) && e != h
    case Remove(e, h, k) => Movable(lists, e, h, k)
    case Pop(l) => l in lists
    case Move(l, e, h, k) => l in lists && Movable(lists, e, h, k) && l != e
    case MoveTail(l, e, h, k) => l in lists && Movable(lists, e, h, k) && l != e
    case Splice(dst, src) => dst in lists && src in lists && dst != src
    case SpliceTail(dst, src) => dst in lists && src in lists && dst != src
    case CutAt(src, e, dst, k) =>
      src in lists && Free(lists, links, dst) && src != dst && (lists[src] == [] || IsAt(lists, e, src, k))
  }

  function Detached(lists: map<Link, seq<Link>>, h: Link, k: nat): map<Link, seq<Link>>
    requires h in lists && k <= |lists[h]|
  {
    Removed(lists, h, k)[Cycle(lists, h)[k] := []]
  }

  /** The lists after an operation. */
  ghost function Effect(lists: map<Link, seq<Link>>, links: set<Link>, op: Op): map<Link, seq<Link>>
    requires Enabled(lists, links, op)
  {
    match op
    case Add(l, e, h, k) => Inserted(lists, h, k, e)
    case AddTail(l, e, h, k) => Inserted(lists, h, if k == 0 then |lists[h]| else k - 1, e)
    case Remove(e, h, k) => Detached(lists, h, k)
    case Pop(l) => if lists[l] == [] then lists else Detached(lists, l, 1)
    case Move(l, e, h, k) => Inserted(Removed(lists, h, k), l, 0, e)
    case MoveTail(l, e, h, k) => Inserted(Removed(lists, h, k), l, |Removed(lists, h, k)[l]|, e)
    case Splice(dst, src) => Spliced(lists, dst, 0, src)
    case SpliceTail(dst, src) => Spliced(lists, dst, |lists[dst]|, src)
    case CutAt(src, e, dst, k) => if lists[src] == [] then lists[dst := []] else Cut(lists, src, k, dst)
  }

  /** The head of a list without elements is free. */
  lemma Alone(lists: map<Link, seq<Link>>, links: set<Link>, e: Link)
    requires World(lists, links) && e in lists && lists[e] == []
    ensures Free(lists, links, e)
  {
    assert e in Cycle(lists, e);
  }

  /** A free link that is initialised is a list without elements, and was one or joins the others. */
  lemma Initialised(lists: map<Link, seq<Link>>, links: set<Link>, x: Link)
    requires World(lists - {x}, links) && Free(lists, links, x) && Ring([x])
    ensures World(lists[x := []], links)
  {
    forall h {:trigger Cycle(lists - {x}, h)} | h in lists - {x} ensures Cycle(lists - {x}, h) == Cycle(lists, h) {
    }
    Joined(lists - {x}, links, x);
    assert links + {x} == links && (lists - {x})[x := []] == lists[x := []];
  }

  /** The lists apart from a free link do not change when it does. */
  lemma Others(lists: map<Link, seq<Link>>, links: set<Link>, x: Link)
    requires World(lists, links) && Free(lists, links, x)
    ensures World(lists - {x}, links - {x})
  {
    var others := lists - {x};
    forall h {:trigger Cycle(others, h)} | h in others ensures Cycle(others, h) == Cycle(lists, h) && x !in Cycle(lists, h) {
    }
  }

  lemma WiderWorld(lists: map<Link, seq<Link>>, links: set<Link>, x: Link)
    requires World(lists, links - {x}) && x in links
    ensures World(lists, links)
  {
  }

  lemma Neighbours(lists: map<Link, seq<Link>>, links: set<Link>, h: Link, k: nat)
    requires World(lists, links) && h in lists && k <= |lists[h]|
    ensures Cycle(lists, h)[k] in links && Cycle(lists, h)[k].next in links && Cycle(lists, h)[k].prev in links
    ensures var s := Cycle(lists, h); s[k].next == s[After(k, |s|)] && s[k].prev == s[Before(k, |s|)]
    ensures var s := Cycle(lists, h); s[Before(k, |s|)].next == s[k]
  {
    var s := Cycle(lists, h);
    RingNeighbours(s, k);
    RingNeighbours(s, Before(k, |s|));
    assert s[k] in s && s[After(k, |s|)] in s && s[Before(k, |s|)] in s;
  }

  /** A list is empty exactly when its head points to itself. */
  lemma EmptyRing(lists: map<Link, seq<Link>>, links: set<Link>, h: Link)
    requires World(lists, links) && h in lists
    ensures h.next == h <==> lists[h] == []
  {
    RingNeighbours(Cycle(lists, h), 0);
  }

  /** A new list without elements joins the others. */
  lemma Joined(lists: map<Link, seq<Link>>, links: set<Link>, x: Link)
    requires World(lists, links) && Inside(lists, {}, x) && Ring([x])
    ensures World(lists[x := []], links + {x})
  {
    var after := lists[x := []];
    forall h {:trigger Cycle(after, h)} | h in after
      ensures h in lists || h == x
      ensures Cycle(after, h) == if h == x then [x] else Cycle(lists, h)
    {
    }
  }

  lemma SpliceNothing(lists: map<Link, seq<Link>>, dst: Link, k: nat, src: Link)
    requires dst in lists && src in lists && k <= |lists[dst]| && lists[src] == [] && dst != src
    ensures Spliced(lists, dst, k, src) == lists
  {
    assert lists[dst][..k] + [] + lists[dst][k..] == lists[dst];
  }

  method DetachAt(e: Link, ghost lists: map<Link, seq<Link>>, ghost links: set<Link>, ghost h: Link, ghost k: nat)
    requires World(lists, links) && Movable(lists, e, h, k) && e in links
    modifies e, e.prev, e.next
    ensures World(Detached(lists, h, k), links)
  {
    RemoveAt(e, lists, links, h, k);
    e.Init();
    Joined(Removed(lists, h, k), links, e);
    assert links + {e} == links;
  }

  /** A set of lists; a link that is in no list counts as the head of a list without elements. */
  class Lists {
    ghost var lists: map<Link, seq<Link>>
    ghost var links: set<Link>

    /** All lists are rings, with `next` and `prev` inverse to each other, and no two share a link. */
    ghost predicate Valid()
      reads this, links
    {
      World(lists, links)
    }

    constructor ()
      ensures Valid() && lists == map[] && links == {}
    {
      lists, links := map[], {};
    }

    /** `dlist_init` of a new link */
    method New() returns (x: Link)
      requires Valid()
      modifies this
      ensures Valid() && fresh(x) && links == old(links) + {x} && lists == old(lists)[x := []]
    {
      x := new Link();
      Joined(lists, links, x);
      links := links + {x};
      lists := lists[x := []];
    }

    /** A link that is not initialised */
    method NewRaw(next: Link, prev: Link) returns (x: Link)
      requires Valid()
      modifies this
      ensures Valid() && fresh(x) && links == old(links) + {x} && lists == old(lists) && Free(lists, links, x)
    {
      x := new Link.Raw(next, prev);
      links := links + {x};
    }

    /** `dlist_add(l, e)`, `dlist_add_after(l, e)` */
    method Add(l: Link, e: Link, ghost h: Link, ghost k: nat)
      requires Valid() && Enabled(lists, links, Op.Add(l, e, h, k))
      modifies this, links
      ensures Valid() && links == old(links) && lists == Effect(old(lists), links, Op.Add(l, e, h, k))
    {
      Neighbours(lists, links, h, k);
      AddAt(e, l, l.next, lists, links, h, k);
      lists := Inserted(lists, h, k, e);
    }

    /** `dlist_add_tail(l, e)`, `dlist_add_before(l, e)` */
    method AddTail(l: Link, e: Link, ghost h: Link, ghost k: nat)
      requires Valid() && Enabled(lists, links, Op.AddTail(l, e, h, k))
      modifies this, links
      ensures Valid() && links == old(links) && lists == Effect(old(lists), links, Op.AddTail(l, e, h, k))
    {
      Neighbours(lists, links, h, k);
      ghost var n := if k == 0 then |lists[h]| else k - 1;
      AddAt(e, l.prev, l, lists, links, h, n);
      lists := Inserted(lists, h, n, e);
    }

    /** `dlist_remove(e)` */
    method Remove(e: Link, ghost h: Link, ghost k: nat)
      requires Valid() && Enabled(lists, links, Op.Remove(e, h, k))
      modifies this, links
      ensures Valid() && links == old(links) && lists == Effect(old(lists), links, Op.Remove(e, h, k))
    {
      Neighbours(lists, links, h, k);
      DetachAt(e, lists, links, h, k);
      lists := Detached(lists, h, k);
    }

    /** `dlist_pop(l)`; on an empty list it changes nothing */
    method Pop(l: Link)
      requires Valid() && Enabled(lists, links, Op.Pop(l))
      modifies this, links
      ensures Valid() && links == old(links) && lists == Effect(old(lists), links, Op.Pop(l))
    {
      ghost var k := if lists[l] == [] then 0 else 1;
      Neighbours(lists, links, l, 0);
      Remove(l.next, l, k);
    }

    /** `dlist_move(l, e)` */
    method Move(l: Link, e: Link, ghost h: Link, ghost k: nat)
      requires Valid() && Enabled(lists, links, Op.Move(l, e, h, k))
      modifies this, links
      ensures Valid() && links == old(links) && lists == Effect(old(lists), links, Op.Move(l, e, h, k))
    {
      Neighbours(lists, links, h, k);
      RemoveAt(e, lists, links, h, k);
      lists := Removed(lists, h, k);
      Neighbours(lists, links, l, 0);
      AddAt(e, l, l.next, lists, links, l, 0);
      lists := Inserted(lists, l, 0, e);
    }

    /** `dlist_move_tail(l, e)` */
    method MoveTail(l: Link, e: Link, ghost h: Link, ghost k: nat)
      requires Valid() && Enabled(lists, links, Op.MoveTail(l, e, h, k))
      modifies this, links
      ensures Valid() && links == old(links) && lists == Effect(old(lists), links, Op.MoveTail(l, e, h, k))
    {
      Neighbours(lists, links, h, k);
      RemoveAt(e, lists, links, h, k);
      lists := Removed(lists, h, k);
      Neighbours(lists, links, l, 0);
      ghost var n := |lists[l]|;
      AddAt(e, l.prev, l, lists, links, l, n);
      lists := Inserted(lists, l, n, e);
    }

    /** `dlist_splice(dst, src)` */
    method Splice(dst: Link, src: Link)
      requires Valid() && Enabled(lists, links, Op.Splice(dst, src))
      modifies this, links
      ensures Valid() && links == old(links) && lists == Effect(old(lists), links, Op.Splice(dst, src))
    {
      EmptyRing(lists, links, src);
      if src.next != src {
        Neighbours(lists, links, dst, 0);
        Neighbours(lists, links, src, 0);
        SpliceAt(dst, dst.next, src, lists, links, dst, 0);
      } else {
        SpliceNothing(lists, dst, 0, src);
      }
      lists := Spliced(lists, dst, 0, src);
    }

    /** `dlist_splice_tail(dst, src)` */
    method SpliceTail(dst: Link, src: Link)
      requires Valid() && Enabled(lists, links, Op.SpliceTail(dst, src))
      modifies this, links
      ensures Valid() && links == old(links) && lists == Effect(old(lists), links, Op.SpliceTail(dst, src))
    {
      EmptyRing(lists, links, src);
      ghost var n := |lists[dst]|;
      if src.next != src {
        Neighbours(lists, links, dst, 0);
        Neighbours(lists, links, src, 0);
        SpliceAt(dst.prev, dst, src, lists, links, dst, n);
      } else {
        SpliceNothing(lists, dst, n, src);
      }
      lists := Spliced(lists, dst, n, src);
    }

    /** `dlist_cut_at(src, e, dst)` */
    method CutAt(src: Link, e: Link, dst: Link, ghost k: nat)
      requires Valid() && Enabled(lists, links, Op.CutAt(src, e, dst, k))
      modifies this, links
      ensures Valid() && links == old(links) && lists == Effect(old(lists), links, Op.CutAt(src, e, dst, k))
    {
      EmptyRing(lists, links, src);
      if src.next == src || src == e {
        Others(lists, links, dst);
        dst.Init();
        WiderWorld(lists - {dst}, links, dst);
        Initialised(lists, links, dst);
        lists := lists[dst := []];
      } else {
        Neighbours(lists, links, src, 0);
        Neighbours(lists, links, src, k);
        DList.CutAt(src, e, dst, lists, links, k);
        lists := Cut(lists, src, k, dst);
      }
    }

    /** One operation. */
    method Do(op: Op)
      requires Valid() && Enabled(lists, links, op)
      modifies this, links
      ensures Valid() && links == old(links) && lists == Effect(old(lists), links, op)
    {
      match op
      case Add(l, e, h, k) => Add(l, e, h, k);
      case AddTail(l, e, h, k) => AddTail(l, e, h, k);
      case Remove(e, h, k) => Remove(e, h, k);
      case Pop(l) => Pop(l);
      case Move(l, e, h, k) => Move(l, e, h, k);
      case MoveTail(l, e, h, k) => MoveTail(l, e, h, k);
      case Splice(dst, src) => Splice(dst, src);
      case SpliceTail(dst, src) => SpliceTail(dst, src);
      case CutAt(src, e, dst, k) => CutAt(src, e, dst, k);
    }

    /** Any run of operations: all lists stay rings apart from each other, and become what the operations say. */
    method Run(ops: seq<Op>)
      requires Valid() && AllEnabled(lists, links, ops)
      modifies this, links
      ensures Valid() && links == old(links) && lists == Effects(old(lists), links, ops)
    {
      for i := 0 to |ops|
        invariant Valid() && links == old(links) && AllEnabled(lists, links, ops[i..])
        invariant Effects(lists, links, ops[i..]) == Effects(old(lists), links, ops)
      {
        Do(ops[i]);
        assert ops[i..][1..] == ops[i + 1..];
      }
    }

    /** Cutting a list in two and splicing the cut part back in front leaves every pointer as it was. */
    method CutThenSplice(src: Link, e: Link, dst: Link, ghost k: nat)
      requires Valid() && Enabled(lists, links, Op.CutAt(src, e, dst, k))
      modifies this, links
      ensures Valid() && links == old(links) && lists == old(lists)[dst := []]
      ensures forall h, i {:trigger Cycle(lists, h)[i]} | h in old(lists) && 0 <= i <= |lists[h]| ::
                var x := Cycle(lists, h)[i]; x.next == old(x.next) && x.prev == old(x.prev)
    {
      CutSplice(lists, links, src, e, dst, k);
      CutAt(src, e, dst, k);
      Splice(src, dst);
      forall h, i {:trigger Cycle(lists, h)[i]} | h in old(lists) && 0 <= i <= |lists[h]|
        ensures var x := Cycle(lists, h)[i]; x.next == old(x.next) && x.prev == old(x.prev)
      {
        assert Cycle(lists, h) == Cycle(old(lists), h);
        SamePointers(Cycle(lists, h));
      }
    }
  }

  ghost predicate AllEnabled(lists: map<Link, seq<Link>>, links: set<Link>, ops: seq<Op>)
    decreases |ops|
  {
    ops == [] || (Enabled(lists, links, ops[0]) && AllEnabled(Effect(lists, links, ops[0]), links, ops[1..]))
  }

  ghost function Effects(lists: map<Link, seq<Link>>, links: set<Link>, ops: seq<Op>): map<Link, seq<Link>>
    requires AllEnabled(lists, links, ops)
    decreases |ops|
  {
    if ops == [] then lists else Effects(Effect(lists, links, ops[0]), links, ops[1..])
  }

  /** A ring fixes the pointers of its links. */
  twostate lemma SamePointers(s: seq<Link>)
    requires old(Ring(s)) && Ring(s)
    ensures forall i | 0 <= i < |s| :: s[i].next == old(s[i].next)
    ensures forall i | 0 <= i < |s| :: s[i].prev == old(s[i].prev)
  {
    forall i | 0 <= i < |s| ensures s[i].next == old(s[i].next) && s[i].prev == old(s[i].prev) {
      RingNeighbours(s, i);
      if i > 0 { assert old(s[i - 1].next) == s[i]; }
    }
  }

  /** Splicing back what was cut restores the lists. */
  lemma CutSplice(lists: map<Link, seq<Link>>, links: set<Link>, src: Link, e: Link, dst: Link, k: nat)
    requires Enabled(lists, links, Op.CutAt(src, e, dst, k))
    ensures Enabled(Effect(lists, links, Op.CutAt(src, e, dst, k)), links, Op.Splice(src, dst))
    ensures Effect(Effect(lists, links, Op.CutAt(src, e, dst, k)), links, Op.Splice(src, dst)) == lists[dst := []]
  {
    if lists[src] == [] {
      SpliceNothing(lists[dst := []], src, 0, dst);
    } else {
      var cut := Cut(lists, src, k, dst);
      assert cut[src][..0] + cut[dst] + cut[src][0..] == lists[src];
    }
  }
}
