/**
 Lookups in red-black trees, and what the operations on whole trees come to.
 */
module RbLookup {
  import opened RbTree
  import Bits

  datatype Option = None | Some(key: int)

  /** `x` is a key of `t`. */
  predicate Has(t: Tree, x: int) {
    t.Node? && (x == t.key || Has(t.left, x) || Has(t.right, x))
  }

  ghost predicate Below(t: Tree, k: int) { forall x | Has(t, x) :: x < k }
  ghost predicate Above(t: Tree, k: int) { forall x | Has(t, x) :: k < x }

  /** A search tree: the keys on the left of a node are smaller, those on the right greater. */
  ghost predicate Search(t: Tree) {
    t.Node? ==> Search(t.left) && Search(t.right) && Below(t.left, t.key) && Above(t.right, t.key)
  }

  lemma {:induction false} HasInorder(t: Tree, x: int)
    ensures Has(t, x) <==> x in Inorder(t)
  {
    if t.Node? {
      HasInorder(t.left, x);
      HasInorder(t.right, x);
    }
  }

  /** A tree is a search tree exactly when its keys are sorted from left to right. */
  lemma {:induction false} SearchSorted(t: Tree)
    ensures Search(t) <==> Sorted(Inorder(t))
  {
    if t.Node? {
      SearchSorted(t.left);
      SearchSorted(t.right);
      if Search(t) { SearchToSorted(t); }
      if Sorted(Inorder(t)) { SortedToSearch(t); }
    }
  }

  lemma SearchToSorted(t: Tree)
    requires t.Node? && Search(t) && Sorted(Inorder(t.left)) && Sorted(Inorder(t.right))
    ensures Sorted(Inorder(t))
  {
    var l, r := Inorder(t.left), Inorder(t.right);
    forall i | 0 <= i < |l| ensures l[i] < t.key { HasInorder(t.left, l[i]); }
    forall i | 0 <= i < |r| ensures t.key < r[i] { HasInorder(t.right, r[i]); }
  }

  lemma SortedToSearch(t: Tree)
    requires t.Node? && Sorted(Inorder(t))
    ensures Sorted(Inorder(t.left)) && Sorted(Inorder(t.right))
    ensures Below(t.left, t.key) && Above(t.right, t.key)
  {
    SortedParts(Inorder(t.left), t.key, Inorder(t.right));
    forall x | Has(t.left, x) ensures x < t.key { HasInorder(t.left, x); }
    forall x | Has(t.right, x) ensures t.key < x { HasInorder(t.right, x); }
  }

  lemma SortedParts(l: seq<int>, k: int, r: seq<int>)
    requires Sorted(l + [k] + r)
    ensures Sorted(l) && Sorted(r)
    ensures forall i | 0 <= i < |l| :: l[i] < k
    ensures forall i | 0 <= i < |r| :: k < r[i]
  {
    var s := l + [k] + r;
    assert s[|l|] == k;
    assert forall i | 0 <= i < |l| :: l[i] == s[i];
    forall i, j | 0 <= i < j < |r| ensures r[i] < r[j] {
      assert s[|l| + 1 + i] < s[|l| + 1 + j];
    }
    forall i | 0 <= i < |r| ensures k < r[i] {
      assert s[|l|] < s[|l| + 1 + i];
    }
  }

  lemma ChildrenHave(t: Tree)
    requires t.Node?
    ensures Has(t, t.key)
    ensures forall x {:trigger Has(t.left, x)} | Has(t.left, x) :: Has(t, x)
    ensures forall x {:trigger Has(t.right, x)} | Has(t.right, x) :: Has(t, x)
  {
  }

  /** `rb_find` */
  method Find(t: Tree, k: int) returns (e: Option)
    requires Search(t)
    ensures e == if Has(t, k) then Some(k) else None
  {
    var node := t;
    while node.Node?
      invariant Search(node) && (Has(t, k) <==> Has(node, k))
      decreases node
    {
      if k < node.key {
        node := node.left;
      } else if k > node.key {
        node := node.right;
      } else {
        return Some(node.key);
      }
    }
    return None;
  }

  /** `e` is the least key at or above `k`. */
  ghost predicate Upper(t: Tree, k: int, e: Option) {
    match e
    case None => Below(t, k)
    case Some(v) => Has(t, v) && k <= v && forall x | Has(t, x) && k <= x :: v <= x
  }

  /** `e` is the greatest key at or below `k`. */
  ghost predicate Lower(t: Tree, k: int, e: Option) {
    match e
    case None => Above(t, k)
    case Some(v) => Has(t, v) && v <= k && forall x | Has(t, x) && x <= k :: x <= v
  }

  /** `rb_find_upper` */
  method FindUpper(t: Tree, k: int) returns (e: Option)
    requires Search(t)
    ensures Upper(t, k, e)
  {
    var node := t;
    e := None;
    while node.Node?
      invariant Search(node) && forall x | Has(node, x) :: Has(t, x)
      invariant e.Some? ==> Has(t, e.key) && k < e.key && Below(node, e.key)
      invariant forall x | Has(t, x) && k <= x :: Has(node, x) || (e.Some? && e.key <= x)
      decreases node
    {
      ChildrenHave(node);
      if k < node.key {
        e := Some(node.key);
        node := node.left;
      } else if k > node.key {
        node := node.right;
      } else {
        return Some(node.key);
      }
    }
  }

  /** `rb_find_lower` */
  method FindLower(t: Tree, k: int) returns (e: Option)
    requires Search(t)
    ensures Lower(t, k, e)
  {
    var node := t;
    e := None;
    while node.Node?
      invariant Search(node) && forall x | Has(node, x) :: Has(t, x)
      invariant e.Some? ==> Has(t, e.key) && e.key < k && Above(node, e.key)
      invariant forall x | Has(t, x) && x <= k :: Has(node, x) || (e.Some? && x <= e.key)
      decreases node
    {
      ChildrenHave(node);
      if k < node.key {
        node := node.left;
      } else if k > node.key {
        e := Some(node.key);
        node := node.right;
      } else {
        return Some(node.key);
      }
    }
  }

  /** `__rb_first_node`: the least key */
  method First(t: Tree) returns (e: Option)
    ensures e == if t.Leaf? then None else Some(Inorder(t)[0])
  {
    if t.Leaf? {
      return None;
    }
    var node := t;
    while node.left.Node?
      invariant node.Node? && FirstKey(node) == FirstKey(t)
      decreases node
    {
      node := node.left;
    }
    return Some(node.key);
  }

  /** `__rb_last_node`: the greatest key */
  method Last(t: Tree) returns (e: Option)
    ensures e == if t.Leaf? then None else Some(Inorder(t)[|Inorder(t)| - 1])
  {
    if t.Leaf? {
      return None;
    }
    var node := t;
    while node.right.Node?
      invariant node.Node? && Inorder(node)[|Inorder(node)| - 1] == Inorder(t)[|Inorder(t)| - 1]
      decreases node
    {
      node := node.right;
    }
    return Some(node.key);
  }

  // ---------------------------------------------------------------- slots

  /** `rb_find_slot`: the place of `k` in the tree, taken by a node with this key or free. */
  method FindSlot(t: Tree, k: int) returns (slot: Tree, p: Path, collision: bool)
    requires Search(t)
    ensures Zip(slot, p) == t && (collision <==> Has(t, k))
    ensures if collision then slot.Node? && slot.key == k else slot.Leaf?
    ensures Smaller(Before(p), k) && Greater(After(p), k)
  {
    slot, p := t, Top;
    while slot.Node?
      invariant Search(slot) && Zip(slot, p) == t && (Has(t, k) <==> Has(slot, k))
      invariant Smaller(Before(p), k) && Greater(After(p), k)
      decreases slot
    {
      SlotBounds(slot, k);
      if k < slot.key {
        slot, p := slot.left, WentLeft(slot.color, slot.key, slot.right, p);
      } else if k > slot.key {
        slot, p := slot.right, WentRight(slot.color, slot.left, slot.key, p);
      } else {
        return slot, p, true;
      }
    }
    collision := false;
  }

  ghost predicate Smaller(s: seq<int>, k: int) { forall i | 0 <= i < |s| :: s[i] < k }
  ghost predicate Greater(s: seq<int>, k: int) { forall i | 0 <= i < |s| :: k < s[i] }

  lemma SlotBounds(t: Tree, k: int)
    requires t.Node? && Search(t)
    ensures k < t.key ==> Greater(Inorder(t.right), k)
    ensures k > t.key ==> Smaller(Inorder(t.left), k)
  {
    var l, r := Inorder(t.left), Inorder(t.right);
    forall i | 0 <= i < |l| ensures l[i] < t.key { HasInorder(t.left, l[i]); }
    forall i | 0 <= i < |r| ensures t.key < r[i] { HasInorder(t.right, r[i]); }
  }

  /** A new key may hang on a free slot exactly when it lies between the keys before and after the slot. */
  lemma SlotFits(t: Tree, p: Path, k: int)
    requires Search(t) && Zip(Leaf, p) == t
    ensures Sorted(Before(p) + [k] + After(p)) <==> Smaller(Before(p), k) && Greater(After(p), k)
  {
    SearchSorted(t);
    ZipInorder(Leaf, p);
    assert Inorder(t) == Before(p) + After(p);
    if Sorted(Before(p) + [k] + After(p)) {
      SortedParts(Before(p), k, After(p));
    }
    if Smaller(Before(p), k) && Greater(After(p), k) {
      SortedInsert(Before(p), k, After(p));
    }
  }

  lemma SortedInsert(b: seq<int>, k: int, a: seq<int>)
    requires Sorted(b + a) && Smaller(b, k) && Greater(a, k)
    ensures Sorted(b + [k] + a)
  {
    var u := b + a;
    assert forall i | 0 <= i < |b| :: u[i] == b[i];
    assert forall i | 0 <= i < |a| :: u[|b| + i] == a[i];
  }

  /** The slot that a search for `k` comes to. */
  function SlotOf(t: Tree, p: Path, k: int): Path
    decreases t
  {
    if t.Leaf? then p
    else if k < t.key then SlotOf(t.left, WentLeft(t.color, t.key, t.right, p), k)
    else SlotOf(t.right, WentRight(t.color, t.left, t.key, p), k)
  }

  lemma {:induction false} SlotOnPath(t: Tree, p: Path, k: int)
    requires Smaller(Before(p), k) && Greater(After(p), k)
    ensures SlotOf(Zip(t, p), Top, k) == SlotOf(t, p, k)
    decreases p
  {
    if p.WentLeft? {
      assert After(p)[0] == p.key;
      forall i | 0 <= i < |After(p.up)| ensures k < After(p.up)[i] {
        assert After(p)[1 + |Inorder(p.right)| + i] == After(p.up)[i];
      }
      SlotOnPath(Parent(t, p), p.up, k);
    } else if p.WentRight? {
      assert Before(p)[|Before(p)| - 1] == p.key;
      forall i | 0 <= i < |Before(p.up)| ensures Before(p.up)[i] < k {
        assert Before(p)[i] == Before(p.up)[i];
      }
      SlotOnPath(Parent(t, p), p.up, k);
    }
  }

  /** There is only one free slot where `k` fits. */
  lemma SlotUnique(p: Path, q: Path, k: int)
    requires Zip(Leaf, p) == Zip(Leaf, q)
    requires Smaller(Before(p), k) && Greater(After(p), k)
    requires Smaller(Before(q), k) && Greater(After(q), k)
    ensures p == q
  {
    SlotOnPath(Leaf, p, k);
    SlotOnPath(Leaf, q, k);
  }

  // ---------------------------------------------------------------- whole trees

  /** The trees that the operations build: sorted and balanced. */
  ghost predicate Valid(t: Tree) { Search(t) && Balanced(t) }

  /** `rb_insert`: the key goes to its place, unless it is there already. */
  method Insert(t: Tree, k: int) returns (root: Tree, entry: Option)
    requires Valid(t)
    ensures Valid(root)
    ensures entry == if Has(t, k) then Some(k) else None
    ensures forall x :: Has(root, x) <==> Has(t, x) || x == k
    ensures Has(t, k) ==> root == t
  {
    var slot, p, collision := FindSlot(t, k);
    if collision {
      return t, Some(slot.key);
    }
    root, entry := Added(k, p), None;
    Inserted(t, p, k, root);
  }

  lemma Inserted(t: Tree, p: Path, k: int, root: Tree)
    requires Search(t) && Zip(Leaf, p) == t && Smaller(Before(p), k) && Greater(After(p), k)
    requires Inorder(root) == Before(p) + [k] + After(p)
    ensures Search(root) && forall x :: Has(root, x) <==> Has(t, x) || x == k
  {
    SlotFits(t, p, k);
    SearchSorted(root);
    ZipInorder(Leaf, p);
    forall x ensures Has(root, x) <==> Has(t, x) || x == k {
      HasInorder(root, x);
      HasInorder(t, x);
      assert Inorder(t) == Before(p) + After(p);
    }
  }

  /** `rb_remove_key` */
  method RemoveKey(t: Tree, k: int) returns (root: Tree, entry: Option)
    requires Valid(t)
    ensures Valid(root)
    ensures entry == if Has(t, k) then Some(k) else None
    ensures forall x :: Has(root, x) <==> Has(t, x) && x != k
    ensures !Has(t, k) ==> root == t
  {
    var slot, p, found := FindSlot(t, k);
    if !found {
      return t, None;
    }
    root := Deleted(slot, p);
    entry := Some(k);
    Removed(t, slot, p, root);
  }

  lemma Removed(t: Tree, z: Tree, p: Path, root: Tree)
    requires Search(t) && z.Node? && Zip(z, p) == t
    requires Inorder(root) == Before(p) + Inorder(z.left) + Inorder(z.right) + After(p)
    ensures Search(root) && forall x :: Has(root, x) <==> Has(t, x) && x != z.key
  {
    SearchSorted(t);
    ZipInorder(z, p);
    var l, r := Before(p) + Inorder(z.left), Inorder(z.right) + After(p);
    Parted(Before(p), Inorder(z.left), z.key, Inorder(z.right), After(p));
    Without(l, z.key, r);
    SearchSorted(root);
    forall x ensures Has(root, x) <==> Has(t, x) && x != z.key {
      HasInorder(root, x);
      HasInorder(t, x);
    }
  }

  lemma Parted(a: seq<int>, b: seq<int>, k: int, c: seq<int>, d: seq<int>)
    ensures a + (b + [k] + c) + d == (a + b) + [k] + (c + d)
    ensures a + b + c + d == (a + b) + (c + d)
  {
  }

  lemma Without(l: seq<int>, k: int, r: seq<int>)
    requires Sorted(l + [k] + r)
    ensures Sorted(l + r) && k !in l + r
    ensures forall x :: x in l + r <==> x in l + [k] + r && x != k
  {
    var s, u := l + [k] + r, l + r;
    SortedParts(l, k, r);
    assert forall i | 0 <= i < |u| :: u[i] == s[if i < |l| then i else i + 1];
  }

  // ---------------------------------------------------------------- traversal

  /** The keys before a node and those after it, in order. */
  function Passed(z: Tree, p: Path): seq<int>
    requires z.Node?
  {
    Before(p) + Inorder(z.left)
  }

  function ToCome(z: Tree, p: Path): seq<int>
    requires z.Node?
  {
    Inorder(z.right) + After(p)
  }

  /** `__rb_next`: the node right after `z` in the order of keys, if there is one. */
  method Next(z: Tree, p: Path) returns (found: bool, f: Tree, q: Path)
    requires z.Node?
    ensures found <==> ToCome(z, p) != []
    ensures found ==> f.Node? && Passed(f, q) == Passed(z, p) + [z.key] && [f.key] + ToCome(f, q) == ToCome(z, p)
    ensures found ==> Zip(f, q) == Zip(z, p)
  {
    if z.right.Node? {
      var first := Leftmost(z.right, WentRight(z.color, z.left, z.key, p));
      f, q, found := first.0, first.1, true;
      FirstOf(f, q, ToCome(z, p));
      assert Passed(f, q) == Before(q);
    } else {
      found, f, q := Climb(z, p);
    }
  }

  lemma FirstOf(f: Tree, q: Path, rest: seq<int>)
    requires f.Node? && f.left.Leaf? && Inorder(f) + After(q) == rest
    ensures [f.key] + ToCome(f, q) == rest
  {
    assert Inorder(f) == [f.key] + Inorder(f.right);
  }

  /** The climb of `__rb_next`: up while coming from the right */
  method Climb(z: Tree, p: Path) returns (found: bool, f: Tree, q: Path)
    requires z.Node? && z.right.Leaf?
    ensures found <==> After(p) != []
    ensures found ==> f.Node? && Passed(f, q) == Passed(z, p) + [z.key] && [f.key] + ToCome(f, q) == After(p)
    ensures found ==> Zip(f, q) == Zip(z, p)
  {
    var n, up := z, p;
    while up.WentRight?
      invariant Zip(n, up) == Zip(z, p)
      invariant n.Node? && Before(up) + Inorder(n) == Passed(z, p) + [z.key] && After(up) == After(p)
      decreases up
    {
      ClimbKeys(n, up);
      n, up := Parent(n, up), up.up;
    }
    if up.Top? {
      return false, n, up;
    }
    found, f, q := true, Parent(n, up), up.up;
    assert After(up) == [f.key] + ToCome(f, q);
  }

  lemma ClimbKeys(n: Tree, up: Path)
    requires up.WentRight?
    ensures Before(up.up) + Inorder(Parent(n, up)) == Before(up) + Inorder(n)
  {
    Rejoin(Before(up.up), Inorder(up.left), up.key, Inorder(n));
  }

  lemma Rejoin(a: seq<int>, b: seq<int>, k: int, c: seq<int>)
    ensures a + (b + [k] + c) == (a + b + [k]) + c
  {
  }

  /** `rb_for_each`: visits every key once, in increasing order. */
  method ForEach(t: Tree) returns (keys: seq<int>)
    ensures keys == Inorder(t)
  {
    keys := [];
    if t.Leaf? {
      return;
    }
    var (node, p) := Leftmost(t, Top);
    var more := true;
    FirstOf(node, p, Inorder(t));
    while more
      invariant more ==> node.Node? && keys == Passed(node, p) && keys + ([node.key] + ToCome(node, p)) == Inorder(t)
      invariant !more ==> keys == Inorder(t)
      decreases more, |Inorder(t)| - |keys|
    {
      ghost var before := keys;
      keys := keys + [node.key];
      Joined(before, node.key, ToCome(node, p), Inorder(t));
      more, node, p := Next(node, p);
    }
  }

  lemma Joined(a: seq<int>, k: int, b: seq<int>, all: seq<int>)
    requires a + ([k] + b) == all
    ensures (a + [k]) + b == all && |a| < |all|
  {
  }

  // ---------------------------------------------------------------- height

  function Height(t: Tree): nat {
    if t.Leaf? then 0 else 1 + if Height(t.left) > Height(t.right) then Height(t.left) else Height(t.right)
  }

  /** No way down is more than twice as long as another. */
  lemma {:induction false} HeightBound(t: Tree)
    requires RB(t)
    ensures Height(t) <= 2 * BlackHeight(t) + if IsBlack(t) then 0 else 1
    ensures |Inorder(t)| + 1 >= Bits.Pow2(BlackHeight(t))
  {
    if t.Node? {
      HeightBound(t.left);
      HeightBound(t.right);
    }
  }

  /** A balanced tree of `n` keys is at most 2 log2(n + 1) high. */
  lemma Logarithmic(t: Tree, h: nat)
    requires Balanced(t) && 2 * h < Height(t)
    ensures |Inorder(t)| + 1 >= 2 * Bits.Pow2(h)
  {
    HeightBound(t);
    Bits.Pow2Grows(h + 1, BlackHeight(t));
  }
}
