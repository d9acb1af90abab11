/**
 The circular buffer.  Elements sit in a table from `first` on and wrap around its end; the
 abstraction is one sequence.
 */
module Rings {

  /** `ring_pos`, for a position less than two tables away. */
  function Wrap(pos: nat, size: nat): int { if pos >= size then pos - size else pos }

  function Slot<T>(t: seq<T>, first: nat, i: nat): T
    requires first <= |t| && i < |t|
  {
    t[Wrap(first + i, |t|)]
  }

  /** The `len` elements from `first` on, around the end of the table. */
  function View<T>(t: seq<T>, first: nat, len: nat): (v: seq<T>)
    requires first <= |t| && len <= |t|
    ensures |v| == len && forall i | 0 <= i < len :: v[i] == Slot(t, first, i)
  {
    if len == 0 then [] else View(t, first, len - 1) + [Slot(t, first, len - 1)]
  }

  /** `p_alloc_nr` */
  function AllocNr(n: nat): nat { (n + 16) * 3 / 2 }

  /** The slots of a table of `size` slots once it has room for `newLen` elements. */
  function Grown(size: nat, newLen: nat): nat {
    if newLen <= size then size else if AllocNr(size) < newLen then newLen else AllocNr(size)
  }

  /** Moving the right part of a split view to the end of a larger table keeps the view. */
  lemma MovedRight<T>(t: seq<T>, u: seq<T>, first: nat, len: nat)
    requires first <= |t| <= |u| && len <= |t| <= first + len
    requires forall j | |u| - (|t| - first) <= j < |u| :: u[j] == t[j - |u| + |t|]
    requires forall j | 0 <= j < first + len - |t| :: u[j] == t[j]
    ensures View(t, first, len) == View(u, |u| - (|t| - first), len)
  {
    assert forall i | 0 <= i < len :: View(t, first, len)[i] == View(u, |u| - (|t| - first), len)[i];
  }

  /** Appending a copy of the left part of a split view to the table makes it contiguous. */
  lemma CopiedLeft<T>(t: seq<T>, u: seq<T>, first: nat, len: nat)
    requires first <= |t| && len <= |t| <= first + len <= |u|
    requires forall j | |t| <= j < first + len :: u[j] == t[j - |t|]
    requires forall j | 0 <= j < |t| :: u[j] == t[j]
    ensures View(t, first, len) == View(u, first, len)
  {
    assert forall i | 0 <= i < len :: View(t, first, len)[i] == View(u, first, len)[i];
  }

  function Filtered<T>(f: T -> bool, s: seq<T>): seq<T> {
    if s == [] then [] else Filtered(f, s[..|s| - 1]) + if f(s[|s| - 1]) then [s[|s| - 1]] else []
  }

  lemma {:induction false} FilteredShorter<T>(f: T -> bool, s: seq<T>)
    ensures |Filtered(f, s)| <= |s|
  {
    if s != [] {
      FilteredShorter(f, s[..|s| - 1]);
    }
  }

  lemma {:induction false} FilteredNone<T>(f: T -> bool, s: seq<T>)
    ensures Filtered(f, s) == [] <==> forall i | 0 <= i < |s| :: !f(s[i])
  {
    if s != [] {
      FilteredNone(f, s[..|s| - 1]);
    }
  }

  datatype Op<T> = Push(e: T) | Unshift(e: T) | Shift | Pop | Skip(n: int)

  /** The operations on a plain sequence; those that find too few elements change nothing. */
  function Effect<T>(s: seq<T>, op: Op<T>): seq<T> {
    match op
    case Push(e) => s + [e]
    case Unshift(e) => [e] + s
    case Shift => if s == [] then s else s[1..]
    case Pop => if s == [] then s else s[..|s| - 1]
    case Skip(n) => if 0 <= n <= |s| then s[n..] else s
  }

  function Effects<T>(s: seq<T>, ops: seq<Op<T>>): seq<T>
    decreases |ops|
  {
    if ops == [] then s else Effects(Effect(s, ops[0]), ops[1..])
  }

  class Ring<T(0)> {
    var tab: array<T>
    var first: nat
    var len: nat
    var size: nat

    ghost predicate Valid()
      reads this
    {
      tab.Length == size && len <= size && (first < size || first == size == 0)
    }

    ghost function Contents(): seq<T>
      requires Valid()
      reads this, tab
    {
      View(tab[..], first, len)
    }

    constructor ()
      ensures Valid() && Contents() == [] && size == 0 && fresh(tab)
    {
      tab := new T[0];
      first, len, size := 0, 0, 0;
    }

    /**
     `generic_ring_ensure`.  The caller may already have counted in `len` the element it is about to
     add: `live` elements are there.
     */
    method Ensure(newLen: nat, ghost live: nat)
      requires tab.Length == size && live <= size && live <= len <= live + 1 && len <= newLen
      requires first < size || first == size == 0
      modifies this`tab, this`first, this`size
      ensures tab.Length == size == Grown(old(size), newLen) && newLen <= size && old(size) <= size
      ensures first < size || (first == size && live == 0 && (len == 1 || size == 0))
      ensures tab != old(tab) ==> fresh(tab)
      ensures View(tab[..], first, live) == old(View(tab[..], first, live))
    {
      var curSize := size;
      if newLen <= size {
        return;
      }
      size := AllocNr(size);
      if size < newLen {
        size := newLen;
      }
      Reallocate(curSize);
      if first + len > curSize {
        Unsplit(curSize, live, old(tab[..]));
      }
    }

    /** The end of `generic_ring_ensure`: one part of a split view moves, the shorter one where it fits. */
    method Unsplit(curSize: nat, ghost live: nat, ghost t: seq<T>)
      requires tab.Length == size && live <= curSize < size && live <= len <= live + 1 && len <= size
      requires (first < curSize || first == curSize == 0) && first + len > curSize
      requires |t| == curSize && forall j | 0 <= j < curSize :: tab[j] == t[j]
      modifies tab, this`first
      ensures first < size || (first == size && live == 0 && len == 1)
      ensures View(tab[..], first, live) == View(t, old(first), live)
    {
      var rightLen := curSize - first;
      var leftLen := len - rightLen;
      if leftLen > rightLen || leftLen > size - curSize {
        MoveRight(rightLen, live, t);
      } else {
        CopyWithin(curSize, 0, leftLen);
        CopiedLeft(t, tab[..], first, live);
      }
    }

    method MoveRight(rightLen: nat, ghost live: nat, ghost t: seq<T>)
      requires first <= |t| < size == tab.Length && rightLen == |t| - first && live <= |t| <= first + live
      requires forall j | 0 <= j < |t| :: tab[j] == t[j]
      modifies tab, this`first
      ensures first == size - rightLen
      ensures View(tab[..], first, live) == View(t, old(first), live)
    {
      CopyWithin(size - rightLen, first, rightLen);
      first := size - rightLen;
      MovedRight(t, tab[..], old(first), live);
    }

    /** `irealloc`: a table of `size` slots that starts as the old one. */
    method Reallocate(curSize: nat)
      requires tab.Length == curSize <= size
      modifies this`tab
      ensures fresh(tab) && tab.Length == size && tab[..curSize] == old(tab[..])
    {
      var from, to := tab, new T[size];
      for i := 0 to curSize
        invariant to[..i] == from[..i]
      {
        to[i] := from[i];
      }
      tab := to;
    }

    /** `memmove` of `n` slots */
    method CopyWithin(to: nat, from: nat, n: nat)
      requires to + n <= tab.Length && from <= to
      modifies tab
      ensures forall j | to <= j < to + n :: tab[j] == old(tab[j - to + from])
      ensures forall j | 0 <= j < to || to + n <= j < tab.Length :: tab[j] == old(tab[j])
    {
      for i := n downto 0
        invariant forall j | 0 <= j < tab.Length ::
          tab[j] == old(tab[if to + i <= j < to + n then j - to + from else j])
      {
        tab[to + i] := tab[from + i];
      }
    }

    /** `ring_pos` */
    function Pos(idx: nat): (pos: int)
      requires Valid() && idx <= size
      reads this
    {
      Wrap(first + idx, size)
    }

    /** `ring_unshift` */
    method Unshift(e: T)
      requires Valid()
      modifies this, tab
      ensures Valid() && (tab != old(tab) ==> fresh(tab)) && size == Grown(old(size), old(len) + 1)
      ensures Contents() == [e] + old(Contents())
    {
      ghost var before, n := Contents(), len;
      len := len + 1;
      Ensure(len, n);
      ghost var t, at := tab[..], first;
      assert View(t, at, n) == before;
      first := if first != 0 then first - 1 else size - 1;
      tab[first] := e;
      assert tab[..] == t[first := e];
      PutBefore(t, at, first, n, e);
    }

    /** `ring_push` */
    method Push(e: T)
      requires Valid()
      modifies this, tab
      ensures Valid() && (tab != old(tab) ==> fresh(tab)) && size == Grown(old(size), old(len) + 1)
      ensures Contents() == old(Contents()) + [e]
    {
      ghost var before, n := Contents(), len;
      Ensure(len + 1, n);
      ghost var t := tab[..];
      assert View(t, first, n) == before;
      var pos := Pos(len);
      len := len + 1;
      tab[pos] := e;
      assert tab[..] == t[pos := e];
      PutAfter(t, first, n, e);
    }

    /** `ring_shift` */
    method Shift() returns (ok: bool, e: T)
      requires Valid()
      modifies this
      ensures Valid() && tab == old(tab)
      ensures ok <==> old(Contents()) != []
      ensures Contents() == if ok then old(Contents())[1..] else old(Contents())
      ensures ok ==> e == old(Contents())[0]
    {
      if len <= 0 {
        return false, *;
      }
      e := tab[first];
      first := first + 1;
      if first == size {
        first := 0;
      }
      len := len - 1;
      ViewFrom(tab[..], old(first), old(len), 1);
      ok := true;
    }

    /** `ring_pop` */
    method Pop() returns (ok: bool, e: T)
      requires Valid()
      modifies this
      ensures Valid() && tab == old(tab)
      ensures ok <==> old(Contents()) != []
      ensures Contents() == if ok then old(Contents())[..|old(Contents())| - 1] else old(Contents())
      ensures ok ==> e == old(Contents())[|old(Contents())| - 1]
    {
      if len <= 0 {
        return false, *;
      }
      len := len - 1;
      e := tab[Pos(len)];
      ok := true;
    }

    /** `ring_skip` */
    method Skip(n: int) returns (ok: bool)
      requires Valid()
      modifies this
      ensures Valid() && tab == old(tab)
      ensures ok <==> 0 <= n <= |old(Contents())|
      ensures Contents() == if ok then old(Contents())[n..] else old(Contents())
    {
      if len < n || n < 0 {
        return false;
      }
      first := first + n - if first + n >= size then size else 0;
      len := len - n;
      ViewFrom(tab[..], old(first), old(len), n);
      ok := true;
    }

    /** `ring_get` */
    method Get(n: nat) returns (e: T)
      requires Valid() && n < len
      ensures e == Contents()[n]
    {
      e := tab[Pos(n)];
    }

    /** Any run of operations gives what it gives on a plain sequence. */
    method Run(ops: seq<Op<T>>)
      requires Valid()
      modifies this, tab
      ensures Valid() && (tab != old(tab) ==> fresh(tab))
      ensures Contents() == Effects(old(Contents()), ops)
    {
      for i := 0 to |ops|
        invariant Valid() && (tab != old(tab) ==> fresh(tab))
        invariant Effects(Contents(), ops[i..]) == Effects(old(Contents()), ops)
      {
        ghost var before := Contents();
        match ops[i] {
          case Push(e) => Push(e);
          case Unshift(e) => Unshift(e);
          case Shift => var _, _ := Shift();
          case Pop => var _, _ := Pop();
          case Skip(n) => var _ := Skip(n);
        }
        assert Contents() == Effect(before, ops[i]);
        assert ops[i..][1..] == ops[i + 1..];
      }
    }

    /**
     `RING_FILTER`.  The accepted elements remain, in order, except when the table is full and none is
     accepted: then the two cursors meet again after a whole turn and every element remains.
     */
    method Filter(f: T -> bool)
      requires Valid()
      modifies this`len, tab
      ensures Valid()
      ensures Contents() == FilterResult(f, old(Contents()), size)
    {
      ghost var es := Contents();
      var r, w;
      ghost var kept;
      r, w, kept := SiftAll(f);
      len := len - if r >= w then r - w else size + r - w;
      assert len == if |es| == size && kept == [] then |es| else |kept|;
    }

    /** The loop of the filter */
    method SiftAll(f: T -> bool) returns (r: nat, w: nat, ghost kept: seq<T>)
      requires Valid()
      modifies tab
      ensures r == Wrap(first + len, size)
      ensures kept == Filtered(f, old(Contents())) && |kept| <= len
      ensures w == Wrap(first + |kept|, size)
      ensures View(tab[..], first, |kept|) == kept
      ensures kept == [] ==> Contents() == old(Contents())
    {
      ghost var es := Contents();
      kept := [];
      r, w := first, first;
      for i := 0 to len
        invariant kept == Filtered(f, es[..i]) && Sifting(es, tab[..], first, i, kept)
        invariant r == Wrap(first + i, size) && w == Wrap(first + |kept|, size)
      {
        w, kept := Sift(f, r, w, es, i, kept);
        r := r + 1;
        if r == size {
          r := 0;
        }
      }
      SiftDone(f, es, tab[..], first, kept);
    }

    /** One turn of the filter's loop */
    method Sift(f: T -> bool, r: nat, w: nat, ghost es: seq<T>, ghost i: nat, ghost kept: seq<T>)
      returns (next: nat, ghost now: seq<T>)
      requires tab.Length == size && first < size && i < |es| && Sifting(es, tab[..], first, i, kept)
      requires r == Wrap(first + i, size) && w == Wrap(first + |kept|, size) && kept == Filtered(f, es[..i])
      modifies tab
      ensures now == Filtered(f, es[..i + 1])
      ensures Sifting(es, tab[..], first, i + 1, now)
      ensures next == Wrap(first + |now|, size)
    {
      FilteredNext(f, es, i);
      next, now := w, kept;
      ghost var t := tab[..];
      assert t[r] == Slot(t, first, i);
      if f(tab[r]) {
        tab[w] := tab[r];
        now := kept + [es[i]];
        assert tab[..] == t[w := es[i]];
        SiftStep(es, t, first, i, kept);
        next := w + 1;
        if next == size {
          next := 0;
        }
      }
    }
  }

  /** What a filter leaves of the elements `es` of a table of `size` slots. */
  ghost function FilterResult<T>(f: T -> bool, es: seq<T>, size: nat): seq<T> {
    if |es| == size && Filtered(f, es) == [] then es else Filtered(f, es)
  }

  /** The filter is right exactly when it does not reject a whole table. */
  lemma FilterRight<T>(f: T -> bool, es: seq<T>, size: nat)
    requires |es| <= size
    ensures FilterResult(f, es, size) == Filtered(f, es) <==> !(|es| == size > 0 && forall i | 0 <= i < |es| :: !f(es[i]))
  {
    FilteredNone(f, es);
  }

  /** A ring filled up with elements that a filter rejects keeps them all. */
  method FilterKeepsRejected<T(0)>(f: T -> bool, e: T) returns (ring: Ring<T>)
    requires !f(e)
    ensures fresh(ring) && ring.Valid() && Filtered(f, ring.Contents()) == []
    ensures ring.Contents() == seq(24, _ => e)
  {
    ring := FullRing(e);
    ghost var es := ring.Contents();
    FilteredNone(f, es);
    ring.Filter(f);
  }

  /** Pushes until the table is full: the first allocation is of 24 slots. */
  method FullRing<T(0)>(e: T) returns (ring: Ring<T>)
    ensures fresh(ring) && fresh(ring.tab) && ring.Valid() && ring.len == ring.size
    ensures ring.Contents() == seq(24, _ => e)
  {
    ring := new Ring();
    ring.Push(e);
    while ring.len < ring.size
      invariant fresh(ring) && fresh(ring.tab) && ring.Valid() && ring.size == 24
      invariant ring.Contents() == seq(ring.len, _ => e)
      decreases ring.size - ring.len
    {
      ring.Push(e);
    }
  }

  /** The filter has seen `i` elements: the `kept` ones are in front, those to come in their place. */
  ghost predicate Sifting<T>(es: seq<T>, t: seq<T>, first: nat, i: nat, kept: seq<T>) {
    && first <= |t| && |kept| <= i <= |es| <= |t|
    && (forall j | 0 <= j < |kept| :: Slot(t, first, j) == kept[j])
    && (forall j | (if kept == [] then 0 else i) <= j < |es| :: Slot(t, first, j) == es[j])
  }

  lemma SiftStep<T>(es: seq<T>, t: seq<T>, first: nat, i: nat, kept: seq<T>)
    requires Sifting(es, t, first, i, kept) && i < |es|
    ensures Sifting(es, t[Wrap(first + |kept|, |t|) := es[i]], first, i + 1, kept + [es[i]])
  {
    var u := t[Wrap(first + |kept|, |t|) := es[i]];
    assert forall j | 0 <= j < |t| && j != |kept| :: Slot(u, first, j) == Slot(t, first, j);
  }

  lemma FilteredNext<T>(f: T -> bool, es: seq<T>, i: nat)
    requires i < |es|
    ensures Filtered(f, es[..i + 1]) == Filtered(f, es[..i]) + if f(es[i]) then [es[i]] else []
  {
    assert es[..i + 1][..i] == es[..i];
  }

  lemma SiftDone<T>(f: T -> bool, es: seq<T>, t: seq<T>, first: nat, kept: seq<T>)
    requires Sifting(es, t, first, |es|, kept) && kept == Filtered(f, es[..|es|])
    ensures kept == Filtered(f, es) && View(t, first, |kept|) == kept
    ensures kept == [] ==> View(t, first, |es|) == es
  {
    assert es[..|es|] == es;
  }

  lemma PutBefore<T>(t: seq<T>, first: nat, at: nat, len: nat, e: T)
    requires first <= |t| && len < |t| && at == if first != 0 then first - 1 else |t| - 1
    ensures View(t[at := e], at, len + 1) == [e] + View(t, first, len)
  {
    var v, w := View(t[at := e], at, len + 1), [e] + View(t, first, len);
    assert forall i | 0 <= i < len + 1 :: v[i] == w[i];
  }

  lemma PutAfter<T>(t: seq<T>, first: nat, len: nat, e: T)
    requires first <= |t| && len < |t|
    ensures View(t[Wrap(first + len, |t|) := e], first, len + 1) == View(t, first, len) + [e]
  {
    var v, w := View(t[Wrap(first + len, |t|) := e], first, len + 1), View(t, first, len) + [e];
    assert forall i | 0 <= i < len + 1 :: v[i] == w[i];
  }

  /** Dropping the first elements moves `first` on, around the end of the table. */
  lemma ViewFrom<T>(t: seq<T>, first: nat, len: nat, n: nat)
    requires first <= |t| && n <= len <= |t|
    ensures View(t, Wrap(first + n, |t|), len - n) == View(t, first, len)[n..]
  {
    var v, w := View(t, Wrap(first + n, |t|), len - n), View(t, first, len)[n..];
    assert forall i | 0 <= i < len - n :: v[i] == w[i];
  }
}
