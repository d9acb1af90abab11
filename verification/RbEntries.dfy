/**
 Trees of entries: nodes in memory, each with a key, which lookups compare.  The tree stays sorted by these keys.
 */
module RbEntries {
  import opened RbTree
  import opened RbNodes
  import RbLookup

  /** `get_key` of the entry that a node belongs to */
  type KeyOf = map<int, int>

  /** The keys of these nodes increase. */
  ghost predicate Increasing(key: KeyOf, s: seq<int>) {
    && (forall i | 0 <= i < |s| :: s[i] in key)
    && forall i, j | 0 <= i < j < |s| :: key[s[i]] < key[s[j]]
  }

  /** The keys of these nodes are all smaller than `k`, or all greater. */
  ghost predicate AllLess(key: KeyOf, s: seq<int>, k: int) { forall i | 0 <= i < |s| :: s[i] in key && key[s[i]] < k }
  ghost predicate AllMore(key: KeyOf, s: seq<int>, k: int) { forall i | 0 <= i < |s| :: s[i] in key && k < key[s[i]] }

  lemma Around(key: KeyOf, a: seq<int>, x: int, b: seq<int>)
    requires Increasing(key, a + [x] + b)
    ensures x in key && AllLess(key, a, key[x]) && AllMore(key, b, key[x])
  {
    var s := a + [x] + b;
    assert s[|a|] == x;
    assert forall i | 0 <= i < |a| :: s[i] == a[i];
    assert forall i | 0 <= i < |b| :: s[|a| + 1 + i] == b[i];
  }

  lemma Between(key: KeyOf, a: seq<int>, x: int, b: seq<int>)
    requires Increasing(key, a + b) && x in key && AllLess(key, a, key[x]) && AllMore(key, b, key[x])
    ensures Increasing(key, a + [x] + b)
  {
    var s, u := a + [x] + b, a + b;
    assert forall i | 0 <= i < |a| :: u[i] == a[i];
    assert forall i | 0 <= i < |b| :: u[|a| + i] == b[i];
    forall i, j | 0 <= i < j < |s| ensures s[i] in key && s[j] in key && key[s[i]] < key[s[j]] {
      var c, d := if i <= |a| then i else i - 1, if j <= |a| then j else j - 1;
      assert i != |a| ==> s[i] == u[c];
      assert j != |a| ==> s[j] == u[d];
    }
    assert forall i | 0 <= i < |s| :: s[i] == if i < |a| then a[i] else if i == |a| then x else b[i - |a| - 1];
  }

  lemma Without(key: KeyOf, a: seq<int>, x: int, b: seq<int>)
    requires Increasing(key, a + [x] + b)
    ensures Increasing(key, a + b) && x !in a + b
  {
    var s, u := a + [x] + b, a + b;
    Around(key, a, x, b);
    forall i | 0 <= i < |u| ensures u[i] in key && u[i] != x {
      assert u[i] == if i < |a| then a[i] else b[i - |a|];
    }
    forall i, j | 0 <= i < j < |u| ensures key[u[i]] < key[u[j]] {
      var c, d := if i < |a| then i else i + 1, if j < |a| then j else j + 1;
      assert u[i] == s[c] && u[j] == s[d];
    }
  }

  /** A search for `k` in a sorted tree has come to `z`: a node with this key can only be there. */
  ghost predicate Seeking(key: KeyOf, tree: Tree, k: int, z: Tree, p: Path) {
    Zip(z, p) == tree && AllLess(key, Before(p), k) && AllMore(key, After(p), k)
  }

  /** The nodes before a node, itself, and the nodes after it */
  lemma Split(tree: Tree, z: Tree, p: Path)
    requires Zip(z, p) == tree && z.Node?
    ensures Inorder(tree) == (Before(p) + Inorder(z.left)) + [z.key] + (Inorder(z.right) + After(p))
  {
    ZipInorder(z, p);
    RbLookup.Parted(Before(p), Inorder(z.left), z.key, Inorder(z.right), After(p));
  }

  lemma Parts(key: KeyOf, tree: Tree, z: Tree, p: Path)
    requires Zip(z, p) == tree && z.Node? && Increasing(key, Inorder(tree))
    ensures z.key in key
    ensures AllLess(key, Before(p) + Inorder(z.left), key[z.key]) && AllMore(key, Inorder(z.right) + After(p), key[z.key])
  {
    hide Increasing, AllLess, AllMore;
    Split(tree, z, p);
    Around(key, Before(p) + Inorder(z.left), z.key, Inorder(z.right) + After(p));
  }

  lemma SeekLeft(key: KeyOf, tree: Tree, k: int, z: Tree, p: Path)
    requires Seeking(key, tree, k, z, p) && z.Node? && Increasing(key, Inorder(tree)) && z.key in key && k < key[z.key]
    ensures Seeking(key, tree, k, z.left, WentLeft(z.color, z.key, z.right, p))
  {
    hide Increasing, Inorder;
    Parts(key, tree, z, p);
    var b := Inorder(z.right) + After(p);
    assert After(WentLeft(z.color, z.key, z.right, p)) == [z.key] + b;
  }

  lemma SeekRight(key: KeyOf, tree: Tree, k: int, z: Tree, p: Path)
    requires Seeking(key, tree, k, z, p) && z.Node? && Increasing(key, Inorder(tree)) && z.key in key && key[z.key] < k
    ensures Seeking(key, tree, k, z.right, WentRight(z.color, z.left, z.key, p))
  {
    hide Increasing, Inorder;
    Parts(key, tree, z, p);
    var a := Before(p) + Inorder(z.left);
    assert Before(WentRight(z.color, z.left, z.key, p)) == a + [z.key];
  }

  /** There is a node with the key `k`. */
  ghost predicate HasKey(key: KeyOf, s: seq<int>, k: int) { exists i | 0 <= i < |s| :: s[i] in key && key[s[i]] == k }

  /** The search ends at a free place exactly when no node has the key. */
  lemma NotThere(key: KeyOf, tree: Tree, k: int, p: Path)
    requires Seeking(key, tree, k, Leaf, p)
    ensures !HasKey(key, Inorder(tree), k) && Inorder(tree) == Before(p) + After(p)
  {
    ZipInorder(Leaf, p);
    var s := Inorder(tree);
    assert s == Before(p) + After(p);
    forall i | 0 <= i < |s| ensures s[i] in key && key[s[i]] != k {
      assert s[i] == if i < |Before(p)| then Before(p)[i] else After(p)[i - |Before(p)|];
    }
  }

  lemma There(key: KeyOf, tree: Tree, z: Tree, p: Path)
    requires Zip(z, p) == tree && z.Node? && z.key in key
    ensures HasKey(key, Inorder(tree), key[z.key]) && z.key in Inorder(tree)
  {
    ZipInorder(z, p);
    assert Inorder(tree)[|Before(p)| + |Inorder(z.left)|] == z.key;
  }

  lemma {:induction false} NodesInorder(t: Tree)
    ensures forall n :: n in Nodes(t) <==> n in Inorder(t)
  {
    if t.Node? {
      NodesInorder(t.left);
      NodesInorder(t.right);
    }
  }

  lemma {:induction false} PathInorder(p: Path)
    ensures forall n :: n in PathNodes(p) <==> n in Before(p) || n in After(p)
  {
    if !p.Top? {
      NodesInorder(Sibling(p));
      PathInorder(p.up);
    }
  }

  /** `rb_t` */
  class Entries {
    const store: Store
    const key: KeyOf
    /** Which node stands where */
    ghost var tree: Tree

    /** The memory holds a balanced tree, sorted by the keys of its nodes. */
    ghost predicate Valid()
      reads this, store
    {
      At(store.m, store.root, store.o, tree, Top) && Balanced(tree) && Increasing(key, Inorder(tree))
    }

    constructor (store: Store, key: KeyOf)
      requires store.root == NULL && NULL !in store.o && forall n | n in store.o :: n in store.m && store.m[n] == store.o[n]
      ensures this.store == store && this.key == key && tree == Leaf && Valid()
    {
      this.store, this.key, this.tree := store, key, Leaf;
    }

    /** `rb_find` */
    method Find(k: int) returns (node: int, ghost z: Tree, ghost p: Path)
      requires Valid()
      ensures node == Id(z) && Zip(z, p) == tree && At(store.m, store.root, store.o, z, p)
      ensures (node == NULL <==> !HasKey(key, Inorder(tree), k)) && (node == NULL <==> z.Leaf?)
      ensures node != NULL ==> node in key && key[node] == k && node in Inorder(tree)
    {
      node, z, p := store.root, tree, Top;
      while node != NULL
        invariant node == Id(z) && (node == NULL <==> z.Leaf?)
        invariant At(store.m, store.root, store.o, z, p) && Seeking(key, tree, k, z, p)
        decreases z
      {
        Parts(key, tree, z, p);
        if k < key[node] {
          SeekLeft(key, tree, k, z, p);
          node, z, p := GoLeft(node, z, p);
        } else if k > key[node] {
          SeekRight(key, tree, k, z, p);
          node, z, p := GoRight(node, z, p);
        } else {
          There(key, tree, z, p);
          return;
        }
      }
      NotThere(key, tree, k, p);
    }

    method GoLeft(node: int, ghost z: Tree, ghost p: Path) returns (next: int, ghost l: Tree, ghost q: Path)
      requires At(store.m, store.root, store.o, z, p) && z.Node? && node == z.key
      ensures l == z.left && q == WentLeft(z.color, z.key, z.right, p)
      ensures next == Id(l) && (next == NULL <==> l.Leaf?) && At(store.m, store.root, store.o, l, q)
    {
      l, q := z.left, WentLeft(z.color, z.key, z.right, p);
      Children(store.m, store.root, store.o, z, p);
      Up(store.m, store.root, store.o, l, q);
      next := store.m[node].left;
    }

    method GoRight(node: int, ghost z: Tree, ghost p: Path) returns (next: int, ghost r: Tree, ghost q: Path)
      requires At(store.m, store.root, store.o, z, p) && z.Node? && node == z.key
      ensures r == z.right && q == WentRight(z.color, z.left, z.key, p)
      ensures next == Id(r) && (next == NULL <==> r.Leaf?) && At(store.m, store.root, store.o, r, q)
    {
      r, q := z.right, WentRight(z.color, z.left, z.key, p);
      Children(store.m, store.root, store.o, z, p);
      Up(store.m, store.root, store.o, r, q);
      next := store.m[node].right;
    }

    /** `rb_find_slot`: the slot is the root, or the left or right pointer of the node above it. */
    method FindSlot(k: int) returns (slot: int, parent: int, left: bool, collision: bool, ghost z: Tree, ghost p: Path)
      requires Valid()
      ensures slot == Id(z) && Zip(z, p) == tree && At(store.m, store.root, store.o, z, p)
      ensures collision <==> HasKey(key, Inorder(tree), k)
      ensures collision ==> parent == NULL && z.Node? && slot in key && key[slot] == k && slot in Inorder(tree)
      ensures !collision ==> z.Leaf? && Seeking(key, tree, k, z, p)
      ensures !collision ==> parent == ParentId(p) && (!p.Top? ==> left == p.WentLeft?)
    {
      slot, parent, left, z, p := store.root, NULL, false, tree, Top;
      while slot != NULL
        invariant slot == Id(z) && (slot == NULL <==> z.Leaf?)
        invariant At(store.m, store.root, store.o, z, p) && Seeking(key, tree, k, z, p)
        invariant parent == ParentId(p) && (!p.Top? ==> left == p.WentLeft?)
        decreases z
      {
        Parts(key, tree, z, p);
        parent := slot;
        if k < key[slot] {
          SeekLeft(key, tree, k, z, p);
          left := true;
          slot, z, p := GoLeft(slot, z, p);
        } else if k > key[slot] {
          SeekRight(key, tree, k, z, p);
          left := false;
          slot, z, p := GoRight(slot, z, p);
        } else {
          There(key, tree, z, p);
          return slot, NULL, left, true, z, p;
        }
      }
      NotThere(key, tree, k, p);
      collision := false;
    }

    /** `rb_insert`: the entry is linked in at its place, unless there is one with its key. */
    method Insert(e: int) returns (other: int)
      requires Valid() && e != NULL && e in store.m && e in key && e !in store.o
      modifies this`tree, store
      ensures Valid()
      ensures other == NULL <==> !old(HasKey(key, Inorder(tree), key[e]))
      ensures other != NULL ==> other in old(Inorder(tree)) && other in key && key[other] == key[e]
      ensures other != NULL ==> tree == old(tree) && store.m == old(store.m) && store.root == old(store.root)
      ensures other == NULL ==> forall n :: n in Inorder(tree) <==> n in old(Inorder(tree)) || n == e
    {
      hide Added, Balanced, Increasing, HasKey, Zip, Nodes, PathNodes;
      var slot, parent, left, collision;
      ghost var z, p;
      slot, parent, left, collision, z, p := FindSlot(key[e]);
      if collision {
        return slot;
      }
      NotThere(key, tree, key[e], p);
      PathInorder(p);
      store.InsertAt(parent, left, e, p);
      tree := Added(e, p);
      Between(key, Before(p), e, After(p));
      other := NULL;
    }

    /** `rb_remove_key` */
    method RemoveKey(k: int) returns (e: int)
      requires Valid()
      modifies this`tree, store
      ensures Valid()
      ensures e == NULL <==> !old(HasKey(key, Inorder(tree), k))
      ensures e == NULL ==> tree == old(tree) && store.m == old(store.m) && store.root == old(store.root)
      ensures e != NULL ==> e in key && key[e] == k
      ensures e != NULL ==> forall n :: n in old(Inorder(tree)) <==> n in Inorder(tree) || n == e
      ensures e != NULL ==> e !in Inorder(tree)
    {
      hide At, Deleted, Balanced, Increasing, HasKey, Zip;
      ghost var z, p;
      e, z, p := Find(k);
      if e != NULL {
        Removed(z, p);
        store.DelNode(e, z, p);
        tree := Deleted(z, p);
      }
    }

    lemma Removed(z: Tree, p: Path)
      requires Increasing(key, Inorder(tree)) && Balanced(tree) && Zip(z, p) == tree && z.Node?
      ensures Increasing(key, Inorder(Deleted(z, p))) && z.key !in Inorder(Deleted(z, p))
      ensures forall n :: n in Inorder(tree) <==> n in Inorder(Deleted(z, p)) || n == z.key
    {
      hide Deleted, Increasing, Balanced;
      var a, b := Before(p) + Inorder(z.left), Inorder(z.right) + After(p);
      Split(tree, z, p);
      RbLookup.Parted(Before(p), Inorder(z.left), z.key, Inorder(z.right), After(p));
      Without(key, a, z.key, b);
    }
  }
}
