/**
 Red-black trees as nodes that point to each other, with parent pointers.  Nodes are addresses; a tree of `RbTree` whose
 keys are addresses says which node stands where.
 */
module RbNodes {
  import opened RbTree

  const NULL: int := 0

  /** `rb_node_t`; the colour is the low bit of `__parent` */
  datatype Rec = Rec(parent: int, color: Color, left: int, right: int)

  type Memory = map<int, Rec>

  function Id(t: Tree): int { if t.Leaf? then NULL else t.key }

  function ParentId(p: Path): int { if p.Top? then NULL else p.key }

  /** The nodes of `t` are in memory, linked to each other both ways, under the node `parent`. */
  ghost predicate Holds(m: Memory, parent: int, t: Tree)
    decreases t
  {
    t.Leaf? || (
      && t.key != NULL && t.key in m && m[t.key] == Rec(parent, t.color, Id(t.left), Id(t.right))
      && Holds(m, t.key, t.left) && Holds(m, t.key, t.right))
  }

  /** The nodes above a place are in memory, and the node `id` is at that place. */
  ghost predicate HoldsPath(m: Memory, root: int, p: Path, id: int)
    decreases p
  {
    match p
    case Top => root == id
    case WentLeft(c, k, r, up) =>
      && k != NULL && k in m && m[k] == Rec(ParentId(up), c, id, Id(r))
      && Holds(m, k, r) && HoldsPath(m, root, up, k)
    case WentRight(c, l, k, up) =>
      && k != NULL && k in m && m[k] == Rec(ParentId(up), c, Id(l), id)
      && Holds(m, k, l) && HoldsPath(m, root, up, k)
  }

  function Nodes(t: Tree): set<int> {
    if t.Leaf? then {} else Nodes(t.left) + {t.key} + Nodes(t.right)
  }

  function PathNodes(p: Path): set<int> {
    if p.Top? then {} else {p.key} + Nodes(Sibling(p)) + PathNodes(p.up)
  }

  /** No node is at two places. */
  predicate Proper(t: Tree) {
    t.Leaf? || (
      && Proper(t.left) && Proper(t.right) && Nodes(t.left) !! Nodes(t.right)
      && t.key !in Nodes(t.left) && t.key !in Nodes(t.right))
  }

  predicate ProperPath(p: Path)
    decreases p
  {
    p.Top? || (
      && Proper(Sibling(p)) && ProperPath(p.up) && Nodes(Sibling(p)) !! PathNodes(p.up)
      && p.key !in Nodes(Sibling(p)) && p.key !in PathNodes(p.up))
  }

  /** The memory holds the tree `t` at the place `p`, apart from the other nodes `o`. */
  ghost predicate At(m: Memory, root: int, o: Memory, t: Tree, p: Path) {
    && Holds(m, ParentId(p), t) && HoldsPath(m, root, p, Id(t))
    && Proper(t) && ProperPath(p) && Nodes(t) !! PathNodes(p) && Kept(m, o, t, p)
  }

  /** The nodes `o` are in memory as they are there, and not in the tree. */
  ghost predicate Kept(m: Memory, o: Memory, t: Tree, p: Path) {
    NULL !in o && forall k | k in o :: k !in Nodes(t) && k !in PathNodes(p) && k in m && m[k] == o[k]
  }

  /** Looking at the same tree from the parent */
  lemma Up(m: Memory, root: int, o: Memory, t: Tree, p: Path)
    requires !p.Top?
    ensures At(m, root, o, t, p) <==> At(m, root, o, Parent(t, p), p.up)
  {
  }

  /** The nodes `keys` are not changed. */
  ghost predicate Same(m: Memory, m2: Memory, keys: set<int>) {
    forall k | k in keys :: k in m && k in m2 && m2[k] == m[k]
  }

  /** A tree that is in memory is all there. */
  lemma {:induction false} AllThere(m: Memory, parent: int, t: Tree)
    requires Holds(m, parent, t)
    ensures forall k | k in Nodes(t) :: k in m && k != NULL
    decreases t
  {
    if t.Node? {
      AllThere(m, t.key, t.left);
      AllThere(m, t.key, t.right);
    }
  }

  lemma {:induction false} PathThere(m: Memory, root: int, p: Path, id: int)
    requires HoldsPath(m, root, p, id)
    ensures forall k | k in PathNodes(p) :: k in m && k != NULL
    decreases p
  {
    if !p.Top? {
      AllThere(m, p.key, Sibling(p));
      PathThere(m, root, p.up, p.key);
    }
  }

  /** Nodes that are not changed stay where they are. */
  lemma {:induction false} SameTree(m: Memory, m2: Memory, parent: int, t: Tree)
    requires Holds(m, parent, t) && Same(m, m2, Nodes(t))
    ensures Holds(m2, parent, t)
    decreases t
  {
    if t.Node? {
      SameTree(m, m2, t.key, t.left);
      SameTree(m, m2, t.key, t.right);
    }
  }

  lemma {:induction false} SamePath(m: Memory, m2: Memory, root: int, p: Path, id: int)
    requires HoldsPath(m, root, p, id) && Same(m, m2, PathNodes(p))
    ensures HoldsPath(m2, root, p, id)
    decreases p
  {
    if !p.Top? {
      SameTree(m, m2, p.key, Sibling(p));
      SamePath(m, m2, root, p.up, p.key);
    }
  }

  /** The subtree under a new parent, of which only its root needs to know */
  lemma Adopted(m: Memory, m2: Memory, parent: int, t: Tree, newParent: int)
    requires Holds(m, parent, t) && Proper(t)
    requires t.Node? ==> t.key in m2 && m2[t.key] == m[t.key].(parent := newParent)
    requires Same(m, m2, Nodes(t) - {Id(t)})
    ensures Holds(m2, newParent, t)
  {
    if t.Node? {
      SameTree(m, m2, t.key, t.left);
      SameTree(m, m2, t.key, t.right);
    }
  }

  /** The parent with another child in the same place */
  function WithChild(r: Rec, left: bool, id: int): Rec {
    if left then r.(left := id) else r.(right := id)
  }

  /** Another node at the place: only the node above it needs to know, or the root pointer. */
  lemma Replaced(m: Memory, m2: Memory, root: int, p: Path, id: int, newId: int)
    requires HoldsPath(m, root, p, id) && ProperPath(p)
    requires !p.Top? ==> p.key in m2 && m2[p.key] == WithChild(m[p.key], p.WentLeft?, newId)
    requires Same(m, m2, PathNodes(p) - {ParentId(p)})
    ensures HoldsPath(m2, if p.Top? then newId else root, p, newId)
  {
    if !p.Top? {
      SameTree(m, m2, p.key, Sibling(p));
      SamePath(m, m2, root, p.up, p.key);
    }
  }

  /** Which child of its parent a place is can be told by comparing pointers. */
  lemma Side(m: Memory, root: int, o: Memory, t: Tree, p: Path)
    requires At(m, root, o, t, p) && !p.Top? && (t.Node? || Sibling(p).Node?)
    ensures p.key in m && (m[p.key].left == Id(t) <==> p.WentLeft?) && (m[p.key].right == Id(t) <==> p.WentRight?)
  {
  }

  /** `root` is the topmost node. */
  lemma {:induction false} RootAbove(m: Memory, root: int, p: Path, id: int)
    requires HoldsPath(m, root, p, id) && !p.Top?
    ensures root in PathNodes(p) && root != NULL
    decreases p
  {
    if !p.up.Top? { RootAbove(m, root, p.up, p.key); }
  }

  /** `*root` and the nodes it may point to */
  class Store {
    var m: Memory
    var root: int
    /** The nodes that are not the tree's */
    ghost const o: Memory

    constructor (m: Memory, root: int, ghost o: Memory)
      ensures this.m == m && this.root == root && this.o == o
    {
      this.m, this.root, this.o := m, root, o;
    }

    /** `rb_is_red` */
    predicate IsRed(n: int)
      requires n != NULL ==> n in m
      reads this
    {
      n != NULL && m[n].color == Red
    }

    /** `rb_set_red`, `rb_set_black` */
    method Paint(n: int, c: Color, ghost t: Tree, ghost p: Path)
      requires At(m, root, o, t, p) && t.Node? && n == t.key
      modifies `m
      ensures At(m, root, o, t.(color := c), p)
    {
      ghost var before := m;
      AllThere(m, ParentId(p), t);
      PathThere(m, root, p, n);
      m := m[n := m[n].(color := c)];
      SameTree(before, m, n, t.left);
      SameTree(before, m, n, t.right);
      SamePath(before, m, root, p, n);
    }

    /** `rb_set_parent` */
    method SetParent(n: int, parent: int)
      requires n in m
      modifies `m
      ensures m == old(m)[n := old(m)[n].(parent := parent)]
    {
      m := m[n := m[n].(parent := parent)];
    }

    /** `rb_reparent` */
    method Reparent(p: int, before: int, after: int, ghost path: Path)
      requires p == ParentId(path) && (p != NULL ==> p in m)
      requires !path.Top? ==> p != NULL && (m[p].left == before <==> path.WentLeft?)
      modifies this
      ensures root == if path.Top? then after else old(root)
      ensures m == if path.Top? then old(m) else old(m)[p := WithChild(old(m)[p], path.WentLeft?, after)]
    {
      if p != NULL {
        if before == m[p].left {
          m := m[p := m[p].(left := after)];
        } else {
          m := m[p := m[p].(right := after)];
        }
      } else {
        root := after;
      }
    }

    /** `rb_rotate_left` */
    method RotateLeftAt(x: int, ghost t: Tree, ghost path: Path)
      requires At(m, root, o, t, path) && t.Node? && t.right.Node? && x == t.key
      modifies this
      ensures At(m, root, o, RotateLeft(t), path)
    {
      hide Proper, ProperPath, Nodes, PathNodes, Holds, HoldsPath;
      ghost var before, top := m, root;
      NearLeft(m, root, o, t, path);
      var p, y := m[x].parent, m[x].right;
      var b := m[y].left;
      m := m[x := m[x].(right := b)];
      if b != NULL {
        SetParent(b, x);
      }
      m := m[y := m[y].(left := x)];
      SetParent(y, p);
      Reparent(p, x, y, path);
      SetParent(x, y);
      RotatedLeft(before, m, top, root, o, t, path);
    }

    /** `rb_rotate_right` */
    method RotateRightAt(x: int, ghost t: Tree, ghost path: Path)
      requires At(m, root, o, t, path) && t.Node? && t.left.Node? && x == t.key
      modifies this
      ensures At(m, root, o, RotateRight(t), path)
    {
      hide Proper, ProperPath, Nodes, PathNodes, Holds, HoldsPath;
      ghost var before, top := m, root;
      NearRight(m, root, o, t, path);
      var p, y := m[x].parent, m[x].left;
      var b := m[y].right;
      m := m[x := m[x].(left := b)];
      if b != NULL {
        SetParent(b, x);
      }
      m := m[y := m[y].(right := x)];
      SetParent(y, p);
      Reparent(p, x, y, path);
      SetParent(x, y);
      RotatedRight(before, m, top, root, o, t, path);
    }

    /** The red uncle and the parent turn black, the grandparent red. */
    method RecolorAt(pz: int, y: int, gp: int, ghost z: Tree, ghost p: Path)
      requires At(m, root, o, z, p) && RedAt(z, p) && !p.Top? && p.color == Red && !p.up.Top? && !IsBlack(Uncle(p))
      requires pz == p.key && gp == p.up.key && y == Uncle(p).key
      modifies this
      ensures At(m, root, o, Recolor(z, p).0, Recolor(z, p).1)
    {
      hide At, RB, PathOk, BlackHeight;
      ghost var up, parent, uncle := p.up, Blackened(Parent(z, p)), Uncle(p);
      Up(m, root, o, z, p);
      Paint(pz, Black, Parent(z, p), up);
      ghost var beside := Beside(parent, up);
      Up(m, root, o, parent, up);
      Up(m, root, o, uncle, beside);
      Paint(y, Black, uncle, beside);
      Up(m, root, o, Blackened(uncle), beside);
      Paint(gp, Red, Parent(Blackened(uncle), beside), up.up);
      Grandparent(z, p);
    }

    /** The parent is a left child and the uncle black. */
    method AddLeftAt(node: int, parent: int, gp: int, ghost z: Tree, ghost p: Path) returns (next: int)
      requires At(m, root, o, z, p) && RedAt(z, p) && !p.Top? && p.color == Red && p.up.WentLeft? && IsBlack(Uncle(p))
      requires node == z.key && parent == p.key && gp == p.up.key
      modifies this
      ensures At(m, root, o, AddLeft(z, p).0, AddLeft(z, p).1) && next == AddLeft(z, p).0.key
    {
      hide RB, PathOk, BlackHeight, Holds, HoldsPath, Proper, ProperPath, Nodes, PathNodes;
      ghost var up, t := p.up, Parent(z, p);
      var pz := parent;
      next := node;
      Side(m, root, o, z, p);
      Up(m, root, o, z, p);
      if m[pz].right == next {
        RotateLeftAt(pz, t, up);
        t := RotateLeft(t);
        next, pz := pz, next;
      }
      Paint(pz, Black, t, up);
      Up(m, root, o, Blackened(t), up);
      Paint(gp, Red, Parent(Blackened(t), up), up.up);
      ghost var g := Node(Red, Blackened(t), up.key, up.right);
      RotateRightAt(gp, g, up.up);
      Up(m, root, o, AddLeft(z, p).0, AddLeft(z, p).1);
    }

    /** The mirror image */
    method AddRightAt(node: int, parent: int, gp: int, ghost z: Tree, ghost p: Path) returns (next: int)
      requires At(m, root, o, z, p) && RedAt(z, p) && !p.Top? && p.color == Red && p.up.WentRight? && IsBlack(Uncle(p))
      requires node == z.key && parent == p.key && gp == p.up.key
      modifies this
      ensures At(m, root, o, AddRight(z, p).0, AddRight(z, p).1) && next == AddRight(z, p).0.key
    {
      hide RB, PathOk, BlackHeight, Holds, HoldsPath, Proper, ProperPath, Nodes, PathNodes;
      ghost var up, t := p.up, Parent(z, p);
      var pz := parent;
      next := node;
      Side(m, root, o, z, p);
      Up(m, root, o, z, p);
      if m[pz].left == next {
        RotateRightAt(pz, t, up);
        t := RotateRight(t);
        next, pz := pz, next;
      }
      Paint(pz, Black, t, up);
      Up(m, root, o, Blackened(t), up);
      Paint(gp, Red, Parent(Blackened(t), up), up.up);
      ghost var g := Node(Red, up.left, up.key, Blackened(t));
      RotateLeftAt(gp, g, up.up);
      Up(m, root, o, AddRight(z, p).0, AddRight(z, p).1);
    }

    /** `rb_add_fix_color` */
    method AddFixColor(node: int, ghost z: Tree, ghost p: Path)
      requires At(m, root, o, z, p) && RedAt(z, p) && node == z.key
      modifies this
      ensures At(m, root, o, AddFixed(z, p), Top)
    {
      hide RB, PathOk, BlackHeight, Proper, ProperPath, Nodes, PathNodes;
      var n := node;
      ghost var t, path := z, p;
      Around(m, root, o, t, path);
      var pz := m[n].parent;
      while IsRed(pz)
        invariant At(m, root, o, t, path) && RedAt(t, path) && n == t.key && pz == ParentId(path)
        invariant !path.Top? ==> pz in m && pz != NULL && m[pz].color == path.color
        invariant AddFixed(t, path) == AddFixed(z, p)
        decreases Depth(path)
      {
        n := AddTurn(n, pz, t, path);
        ghost var next := AddStep(t, path);
        t, path := next.0, next.1;
        Around(m, root, o, t, path);
        pz := m[n].parent;
      }
      ToTop(m, root, o, t, path);
      ZipNode(t, path);
      Paint(root, Black, Zip(t, path), Top);
    }

    /** One turn of the loop */
    method AddTurn(node: int, pz: int, ghost z: Tree, ghost p: Path) returns (next: int)
      requires At(m, root, o, z, p) && RedAt(z, p) && !p.Top? && p.color == Red && node == z.key && pz == p.key
      modifies this
      ensures At(m, root, o, AddStep(z, p).0, AddStep(z, p).1) && next == AddStep(z, p).0.key
    {
      hide RB, PathOk, BlackHeight, Proper, ProperPath, Nodes, PathNodes;
      Grandparent(z, p);
      Around(m, root, o, z, p);
      Up(m, root, o, z, p);
      Around(m, root, o, Parent(z, p), p.up);
      Aside(m, root, o, Parent(z, p), p.up);
      var gp := m[pz].parent;
      if pz == m[gp].left {
        var y := m[gp].right;
        if IsRed(y) {
          RecolorAt(pz, y, gp, z, p);
          next := gp;
        } else {
          next := AddLeftAt(node, pz, gp, z, p);
        }
      } else {
        var y := m[gp].left;
        if IsRed(y) {
          RecolorAt(pz, y, gp, z, p);
          next := gp;
        } else {
          next := AddRightAt(node, pz, gp, z, p);
        }
      }
    }

    /** `rb_add_node`: the node hangs on the slot and is inserted red. */
    method AddNode(parent: int, node: int, ghost p: Path)
      requires HoldsPath(m, root, p, node) && parent == ParentId(p) && ProperPath(p)
      requires node != NULL && node in m && node !in PathNodes(p) && node !in o && Kept(m, o, Leaf, p) && RedAt(NewNode(node), p)
      modifies this
      ensures At(m, root, o, AddFixed(NewNode(node), p), Top)
    {
      ghost var before := m;
      PathThere(m, root, p, node);
      m := m[node := Rec(parent, Red, NULL, NULL)];
      SamePath(before, m, root, p, node);
      NewNodeAlone(m, parent, node);
      AddFixColor(node, NewNode(node), p);
    }

    /** The slot that a lookup found is filled. */
    method InsertAt(parent: int, left: bool, node: int, ghost p: Path)
      requires At(m, root, o, Leaf, p) && Balanced(Zip(Leaf, p))
      requires parent == ParentId(p) && (!p.Top? ==> left == p.WentLeft?)
      requires node != NULL && node in m && node !in PathNodes(p) && node !in o
      modifies this
      ensures At(m, root, o, Added(node, p), Top)
    {
      ghost var before, top := m, root;
      PathThere(m, root, p, NULL);
      Unzip(Leaf, p);
      if parent == NULL {
        root := node;
      } else {
        m := m[parent := WithChild(m[parent], left, node)];
      }
      Replaced(before, m, top, p, NULL, node);
      AddNode(parent, node, p);
    }

    /** A red sibling turns black and becomes the parent of the parent, which turns red. */
    method SiblingUpLeft(w: int, pz: int, ghost z: Tree, ghost p: Path)
      requires At(m, root, o, z, p) && ShortAt(z, p) && p.WentLeft? && !IsBlack(p.right) && w == p.right.key && pz == p.key
      modifies this
      ensures At(m, root, o, z, BlackSiblingRight(z, p))
    {
      hide At, RB, PathOk, BlackHeight;
      ghost var sib := p.right;
      Across(m, root, o, z, p);
      Paint(w, Black, sib, Beside(z, p));
      Up(m, root, o, Blackened(sib), Beside(z, p));
      Paint(pz, Red, Parent(Blackened(sib), Beside(z, p)), p.up);
      RotateLeftAt(pz, RbTree.Node(Red, z, p.key, Blackened(sib)), p.up);
      ghost var q := BlackSiblingRight(z, p);
      Up(m, root, o, z, q);
      Up(m, root, o, Parent(z, q), q.up);
    }

    /** The near child of a black sibling turns black and goes up. */
    method FarRightAt(w: int, ghost v: Tree, ghost p: Path)
      requires At(m, root, o, v, p) && v.Node? && w == v.key && RB(v) && v.color == Black && IsBlack(v.right) && !IsBlack(v.left)
      modifies this
      ensures At(m, root, o, FarRight(v), p)
    {
      hide RB, PathOk, BlackHeight, Proper, ProperPath, Nodes, PathNodes;
      ghost var down := WentLeft(v.color, v.key, v.right, p);
      Open(m, ParentId(p), v);
      Up(m, root, o, v.left, down);
      Paint(m[w].left, Black, v.left, down);
      Up(m, root, o, Blackened(v.left), down);
      Paint(w, Red, Parent(Blackened(v.left), down), p);
      RotateRightAt(w, RbTree.Node(Red, Blackened(v.left), v.key, v.right), p);
    }

    /** The sibling takes the colour of the parent and its place; its far child and the parent turn black. */
    method AwayLeftAt(w: int, pz: int, ghost z: Tree, ghost q: Path)
      requires At(m, root, o, z, q) && q.WentLeft? && q.right.Node? && q.right.right.Node? && w == q.right.key && pz == q.key
      modifies this
      ensures var v := q.right;
        At(m, root, o, RotateLeft(RbTree.Node(Black, z, q.key, RbTree.Node(q.color, v.left, v.key, Blackened(v.right)))), q.up)
    {
      hide Proper, ProperPath, Nodes, PathNodes;
      ghost var v, beside := q.right, Beside(z, q);
      Aside(m, root, o, z, q);
      Across(m, root, o, z, q);
      Paint(w, m[pz].color, v, beside);
      ghost var u := v.(color := q.color);
      Up(m, root, o, u, beside);
      Paint(pz, Black, Parent(u, beside), q.up);
      ghost var beside2 := WentRight(Black, z, q.key, q.up);
      Up(m, root, o, u, beside2);
      ghost var down := WentRight(u.color, u.left, u.key, beside2);
      Up(m, root, o, u.right, down);
      Open(m, pz, u);
      Paint(m[w].right, Black, u.right, down);
      Up(m, root, o, Blackened(u.right), down);
      Up(m, root, o, Parent(Blackened(u.right), down), beside2);
      RotateLeftAt(pz, RbTree.Node(Black, z, q.key, RbTree.Node(q.color, v.left, v.key, Blackened(v.right))), q.up);
    }

    /** The mirror images */
    method SiblingUpRight(w: int, pz: int, ghost z: Tree, ghost p: Path)
      requires At(m, root, o, z, p) && ShortAt(z, p) && p.WentRight? && !IsBlack(p.left) && w == p.left.key && pz == p.key
      modifies this
      ensures At(m, root, o, z, BlackSiblingLeft(z, p))
    {
      hide At, RB, PathOk, BlackHeight;
      ghost var sib := p.left;
      Across(m, root, o, z, p);
      Paint(w, Black, sib, Beside(z, p));
      Up(m, root, o, Blackened(sib), Beside(z, p));
      Paint(pz, Red, Parent(Blackened(sib), Beside(z, p)), p.up);
      RotateRightAt(pz, RbTree.Node(Red, Blackened(sib), p.key, z), p.up);
      ghost var q := BlackSiblingLeft(z, p);
      Up(m, root, o, z, q);
      Up(m, root, o, Parent(z, q), q.up);
    }

    method FarLeftAt(w: int, ghost v: Tree, ghost p: Path)
      requires At(m, root, o, v, p) && v.Node? && w == v.key && RB(v) && v.color == Black && IsBlack(v.left) && !IsBlack(v.right)
      modifies this
      ensures At(m, root, o, FarLeft(v), p)
    {
      hide RB, PathOk, BlackHeight, Proper, ProperPath, Nodes, PathNodes;
      ghost var down := WentRight(v.color, v.left, v.key, p);
      Open(m, ParentId(p), v);
      Up(m, root, o, v.right, down);
      Paint(m[w].right, Black, v.right, down);
      Up(m, root, o, Blackened(v.right), down);
      Paint(w, Red, Parent(Blackened(v.right), down), p);
      RotateLeftAt(w, RbTree.Node(Red, v.left, v.key, Blackened(v.right)), p);
    }

    method AwayRightAt(w: int, pz: int, ghost z: Tree, ghost q: Path)
      requires At(m, root, o, z, q) && q.WentRight? && q.left.Node? && q.left.left.Node? && w == q.left.key && pz == q.key
      modifies this
      ensures var v := q.left;
        At(m, root, o, RotateRight(RbTree.Node(Black, RbTree.Node(q.color, Blackened(v.left), v.key, v.right), q.key, z)), q.up)
    {
      hide Proper, ProperPath, Nodes, PathNodes;
      ghost var v, beside := q.left, Beside(z, q);
      Aside(m, root, o, z, q);
      Across(m, root, o, z, q);
      Paint(w, m[pz].color, v, beside);
      ghost var u := v.(color := q.color);
      Up(m, root, o, u, beside);
      Paint(pz, Black, Parent(u, beside), q.up);
      ghost var beside2 := WentLeft(Black, q.key, z, q.up);
      Up(m, root, o, u, beside2);
      ghost var down := WentLeft(u.color, u.key, u.right, beside2);
      Up(m, root, o, u.left, down);
      Open(m, pz, u);
      Paint(m[w].left, Black, u.left, down);
      Up(m, root, o, Blackened(u.left), down);
      Up(m, root, o, Parent(Blackened(u.left), down), beside2);
      RotateRightAt(pz, RbTree.Node(Black, RbTree.Node(q.color, Blackened(v.left), v.key, v.right), q.key, z), q.up);
    }

    /** `z` is a left child: one turn of the loop of `rb_del_fix_color` */
    method DelLeftAt(node: int, parent: int, ghost z: Tree, ghost p: Path) returns (done: bool, next: int, above: int)
      requires At(m, root, o, z, p) && ShortAt(z, p) && IsBlack(z) && p.WentLeft? && node == Id(z) && parent == p.key
      modifies this
      ensures var r := DelLeft(z, p);
        At(m, root, o, r.1, r.2) && done == r.0 && (!done ==> next == Id(r.1) && above == ParentId(r.2))
    {
      hide PathOk, BlackHeight, Proper, ProperPath, Nodes, PathNodes;
      Aside(m, root, o, z, p);
      var w := m[parent].right;
      ghost var q := p;
      if IsRed(w) {
        SiblingUpLeft(w, parent, z, p);
        q := BlackSiblingRight(z, p);
        Aside(m, root, o, z, q);
        w := m[parent].right;
      }
      done, next, above := DelLeftBlack(w, parent, z, q);
    }

    /** The same with a black sibling */
    method DelLeftBlack(w: int, parent: int, ghost z: Tree, ghost q: Path) returns (done: bool, next: int, above: int)
      requires At(m, root, o, z, q) && ShortAt(z, q) && IsBlack(z) && q.WentLeft? && IsBlack(q.right) && w == Id(q.right) && parent == q.key
      modifies this
      ensures var r := DelLeft(z, q);
        At(m, root, o, r.1, r.2) && done == r.0 && (!done ==> next == Id(r.1) && above == ParentId(r.2))
    {
      hide Proper, ProperPath, Nodes, PathNodes;
      ghost var v, beside := q.right, Beside(z, q);
      assert v.Node? && RB(v);
      Across(m, root, o, z, q);
      Children(m, root, o, v, beside);
      if !IsRed(m[w].left) && !IsRed(m[w].right) {
        Paint(w, Red, v, beside);
        Up(m, root, o, Reddened(v), beside);
        Aside(m, root, o, Reddened(v), beside);
        done, next, above := false, parent, m[parent].parent;
      } else {
        if !IsRed(m[w].right) {
          FarRightAt(w, v, beside);
        }
        v := FarRight(v);
        Aside(m, root, o, v, beside);
        Across(m, root, o, z, WentLeft(q.color, q.key, v, q.up));
        AwayLeftAt(m[parent].right, parent, z, WentLeft(q.color, q.key, v, q.up));
        done, next, above := true, root, NULL;
      }
    }


    /** `z` is a right child */
    method DelRightAt(node: int, parent: int, ghost z: Tree, ghost p: Path) returns (done: bool, next: int, above: int)
      requires At(m, root, o, z, p) && ShortAt(z, p) && IsBlack(z) && p.WentRight? && node == Id(z) && parent == p.key
      modifies this
      ensures var r := DelRight(z, p);
        At(m, root, o, r.1, r.2) && done == r.0 && (!done ==> next == Id(r.1) && above == ParentId(r.2))
    {
      hide PathOk, BlackHeight, Proper, ProperPath, Nodes, PathNodes;
      Aside(m, root, o, z, p);
      var w := m[parent].left;
      ghost var q := p;
      if IsRed(w) {
        SiblingUpRight(w, parent, z, p);
        q := BlackSiblingLeft(z, p);
        Aside(m, root, o, z, q);
        w := m[parent].left;
      }
      done, next, above := DelRightBlack(w, parent, z, q);
    }

    /** The same with a black sibling */
    method DelRightBlack(w: int, parent: int, ghost z: Tree, ghost q: Path) returns (done: bool, next: int, above: int)
      requires At(m, root, o, z, q) && ShortAt(z, q) && IsBlack(z) && q.WentRight? && IsBlack(q.left) && w == Id(q.left) && parent == q.key
      modifies this
      ensures var r := DelRight(z, q);
        At(m, root, o, r.1, r.2) && done == r.0 && (!done ==> next == Id(r.1) && above == ParentId(r.2))
    {
      hide Proper, ProperPath, Nodes, PathNodes;
      ghost var v, beside := q.left, Beside(z, q);
      assert v.Node? && RB(v);
      Across(m, root, o, z, q);
      Children(m, root, o, v, beside);
      if !IsRed(m[w].left) && !IsRed(m[w].right) {
        Paint(w, Red, v, beside);
        Up(m, root, o, Reddened(v), beside);
        Aside(m, root, o, Reddened(v), beside);
        done, next, above := false, parent, m[parent].parent;
      } else {
        if !IsRed(m[w].left) {
          FarLeftAt(w, v, beside);
        }
        v := FarLeft(v);
        Aside(m, root, o, v, beside);
        Across(m, root, o, z, WentRight(q.color, v, q.key, q.up));
        AwayRightAt(m[parent].left, parent, z, WentRight(q.color, v, q.key, q.up));
        done, next, above := true, root, NULL;
      }
    }

    /** `rb_del_fix_color` */
    method DelFixColor(parent: int, node: int, ghost z: Tree, ghost p: Path)
      requires At(m, root, o, z, p) && ShortAt(z, p) && node == Id(z) && parent == ParentId(p)
      modifies this
      ensures At(m, root, o, DelFixed(z, p), Top)
    {
      hide At, ShortAt, WellAt, RB, Zip, DelLeft, DelRight;
      var n, pz := node, parent;
      ghost var t, path := z, p;
      Standing(m, root, o, t, path);
      while !IsRed(n) && n != root
        invariant At(m, root, o, t, path) && ShortAt(t, path) && n == Id(t) && pz == ParentId(path)
        invariant (n != NULL ==> n in m) && (IsRed(n) <==> !IsBlack(t)) && (n == root <==> path.Top?)
        invariant DelFixed(t, path) == DelFixed(z, p)
        decreases if IsBlack(t) then Depth(path) + 1 else 0
      {
        ShortSide(m, root, o, t, path);
        ghost var next := if path.WentLeft? then DelLeft(t, path) else DelRight(t, path);
        var done;
        if m[pz].left == n {
          done, n, pz := DelLeftAt(n, pz, t, path);
        } else {
          done, n, pz := DelRightAt(n, pz, t, path);
        }
        t, path := next.1, next.2;
        if done {
          PaintRoot(t, path);
          return;
        }
        Standing(m, root, o, t, path);
      }
      PaintLast(n, t, path);
    }

    /** `rb_del_node` */
    method DelNode(node: int, ghost z: Tree, ghost path: Path)
      requires At(m, root, o, z, path) && z.Node? && node == z.key && Balanced(Zip(z, path))
      modifies this
      ensures At(m, root, o, Deleted(z, path), Top)
    {
      hide At, RB, PathOk, BlackHeight;
      Unzip(z, path);
      Children(m, root, o, z, path);
      var child, p, color;
      ghost var f, c, place := z, if z.right.Node? then z.right else z.left, path;
      if m[node].left != NULL && m[node].right != NULL {
        child, p, color := TakeSuccessor(node, z, path);
        place := WentRight(z.color, z.left, FirstKey(z.right), path);
        ghost var first := Leftmost(z.right, place);
        f, c, place := first.0, first.0.right, first.1;
        SuccessorWell(z, path);
      } else {
        child, p, color := LiftChild(node, z, c, path);
      }
      if color == Black {
        ShortWithout(f, c, place);
        DelFixColor(p, child, c, place);
      } else {
        ToTop(m, root, o, c, place);
      }
    }

    /** `__rb_next` of a node with a right child: down its left side */
    method Successor(node: int, ghost z: Tree, ghost path: Path) returns (s: int)
      requires At(m, root, o, z, path) && z.Node? && node == z.key && z.right.Node?
      ensures s == First(z.right).key
    {
      hide Proper, ProperPath, Nodes, PathNodes;
      Children(m, root, o, z, path);
      s := m[node].right;
      ghost var t, p := z.right, WentRight(z.color, z.left, z.key, path);
      Up(m, root, o, t, p);
      Children(m, root, o, t, p);
      while m[s].left != NULL
        invariant t.Node? && s == t.key && At(m, root, o, t, p) && First(t) == First(z.right)
        invariant s in m && m[s].left == Id(t.left) && (t.left.Leaf? <==> Id(t.left) == NULL)
        decreases t
      {
        Up(m, root, o, t.left, WentLeft(t.color, t.key, t.right, p));
        t, p := t.left, WentLeft(t.color, t.key, t.right, p);
        Children(m, root, o, t, p);
        s := m[s].left;
      }
    }

    /** A node with two children is replaced by its successor, and that by its right child. */
    method TakeSuccessor(node: int, ghost z: Tree, ghost path: Path) returns (child: int, p: int, color: Color)
      requires At(m, root, o, z, path) && z.Node? && node == z.key && z.left.Node? && z.right.Node?
      modifies this
      ensures var first := Leftmost(z.right, WentRight(z.color, z.left, FirstKey(z.right), path));
        && At(m, root, o, first.0.right, first.1)
        && child == Id(first.0.right) && p == ParentId(first.1) && color == first.0.color
    {
      hide At, First, FirstKey, Leftmost, Taken;
      ghost var before, top := m, root;
      NearSuccessor(m, root, o, z, path);
      var s := Successor(node, z, path);
      child, p, color := CutFirst(node, s);
      TakePlace(node, s, path);
      TakenBy(before, top, o, z, path);
      SuccessorTaken(before, m, top, root, o, z, path);
    }

    /** The successor is replaced by its right child. */
    method CutFirst(node: int, s: int) returns (child: int, p: int, color: Color)
      requires s in m && m[s].parent in m && (m[s].right != NULL ==> m[s].right in m)
      modifies `m
      ensures m == WithoutFirst(old(m), node, s) && child == old(m)[s].right && color == old(m)[s].color
      ensures p == if old(m)[s].parent == node then s else old(m)[s].parent
    {
      child, p, color := m[s].right, m[s].parent, m[s].color;
      if child != NULL {
        SetParent(child, p);
      }
      if p == node {
        m := m[p := m[p].(right := child)];
        p := s;
      } else {
        m := m[p := m[p].(left := child)];
      }
    }

    /** The successor takes the place of the node. */
    method TakePlace(node: int, s: int, ghost path: Path)
      requires s in m && node in m && m[node].left in m && (m[node].right != NULL ==> m[node].right in m) && m[node].left != NULL
      requires m[node].parent == ParentId(path) && (!path.Top? ==> ParentId(path) in m && ParentId(path) != NULL)
      requires !path.Top? ==> (m[ParentId(path)].left == node <==> path.WentLeft?) && ParentId(path) !in {node, s}
      requires s != node
      modifies this
      ensures m == InPlace(old(m), node, s, path) && root == if path.Top? then s else old(root)
    {
      m := m[s := m[node]];
      Reparent(m[node].parent, node, s, path);
      SetParent(m[node].left, s);
      if m[node].right != NULL {
        SetParent(m[node].right, s);
      }
    }

    /** A node with one child or none is replaced by it. */
    method LiftChild(node: int, ghost z: Tree, ghost c: Tree, ghost path: Path) returns (child: int, p: int, color: Color)
      requires At(m, root, o, z, path) && z.Node? && node == z.key
      requires (z.left.Leaf? || z.right.Leaf?) && c == if z.right.Node? then z.right else z.left
      modifies this
      ensures At(m, root, o, c, path) && child == Id(c) && p == ParentId(path) && color == z.color
    {
      hide Proper, ProperPath, Nodes, PathNodes, Holds, HoldsPath;
      ghost var before, top := m, root;
      NearOne(m, root, o, z, c, path);
      child := if m[node].right != NULL then m[node].right else m[node].left;
      p, color := m[node].parent, m[node].color;
      if child != NULL {
        SetParent(child, p);
      }
      Reparent(p, node, child, path);
      Lifted(before, m, top, root, o, z, c, path);
    }

    /** `rb_set_black2` of the root of a tree that is well again: nothing changes. */
    method PaintRoot(ghost t: Tree, ghost path: Path)
      requires At(m, root, o, t, path) && WellAt(t, path)
      modifies this
      ensures At(m, root, o, Zip(t, path), Top)
    {
      hide At;
      ToTop(m, root, o, t, path);
      ZipBalanced(t, path);
      Standing(m, root, o, Zip(t, path), Top);
      PaintLast(root, Zip(t, path), Top);
    }

    /** `rb_set_black2` at the end */
    method PaintLast(n: int, ghost t: Tree, ghost path: Path)
      requires At(m, root, o, t, path) && n == Id(t)
      modifies this
      ensures At(m, root, o, Zip(if t.Node? then Blackened(t) else t, path), Top)
    {
      hide At;
      Standing(m, root, o, t, path);
      if n != NULL {
        Paint(n, Black, t, path);
      }
      ToTop(m, root, o, if t.Node? then Blackened(t) else t, path);
    }
  }

  /** The children of a node, as they are in memory */
  lemma Children(m: Memory, root: int, o: Memory, t: Tree, p: Path)
    requires At(m, root, o, t, p) && t.Node?
    ensures t.key in m && t.key != NULL && m[t.key] == Rec(ParentId(p), t.color, Id(t.left), Id(t.right))
    ensures t.left.Node? ==> t.left.key in m && t.left.key != NULL && m[t.left.key].color == t.left.color
    ensures t.right.Node? ==> t.right.key in m && t.right.key != NULL && m[t.right.key].color == t.right.color
  {
    Open(m, ParentId(p), t);
  }

  lemma Standing(m: Memory, root: int, o: Memory, t: Tree, p: Path)
    requires At(m, root, o, t, p)
    ensures t.Node? ==> t.key != NULL && t.key in m && m[t.key].color == t.color
    ensures root == Id(t) <==> p.Top?
    ensures !p.Top? ==> p.key in m && p.key != NULL
  {
    if !p.Top? { RootAbove(m, root, p, Id(t)); }
    if t.Node? { assert t.key in Nodes(t); }
  }

  /** Where a black node is missing there is a sibling, so that the side can be told even at an empty place. */
  lemma ShortSide(m: Memory, root: int, o: Memory, z: Tree, p: Path)
    requires At(m, root, o, z, p) && ShortAt(z, p) && !p.Top?
    ensures Sibling(p).Node? && p.key in m && (m[p.key].left == Id(z) <==> p.WentLeft?)
  {
    assert BlackHeight(Sibling(p)) == BlackHeight(z) + 1;
    Side(m, root, o, z, p);
  }

  lemma NearOne(m: Memory, root: int, o: Memory, z: Tree, c: Tree, path: Path)
    requires At(m, root, o, z, path) && z.Node?
    requires (z.left.Leaf? || z.right.Leaf?) && c == if z.right.Node? then z.right else z.left
    ensures var child, p := Id(c), ParentId(path);
      && z.key in m && m[z.key] == Rec(p, z.color, Id(z.left), Id(z.right)) && (z.right.Leaf? <==> Id(z.right) == NULL)
      && (child != NULL ==> child in m && child != p && child != z.key) && (c.Leaf? <==> child == NULL)
      && (p == NULL <==> path.Top?) && (p != NULL ==> p in m && p != z.key) && (!path.Top? ==> (m[p].left == z.key <==> path.WentLeft?))
  {
    Around(m, root, o, z, path);
    Open(m, ParentId(path), z);
  }

  lemma Lifted(m: Memory, m2: Memory, root: int, root2: int, o: Memory, z: Tree, c: Tree, path: Path)
    requires At(m, root, o, z, path) && z.Node?
    requires (z.left.Leaf? || z.right.Leaf?) && c == if z.right.Node? then z.right else z.left
    requires c.Node? ==> c.key in m && c.key in m2 && m2[c.key] == m[c.key].(parent := ParentId(path))
    requires !path.Top? ==> path.key in m && path.key in m2 && m2[path.key] == WithChild(m[path.key], path.WentLeft?, Id(c))
    requires forall k | k in m && k !in {Id(c), ParentId(path)} :: k in m2 && m2[k] == m[k]
    requires root2 == if path.Top? then Id(c) else root
    ensures At(m2, root2, o, c, path)
  {
    Around(m, root, o, z, path);
    Open(m, ParentId(path), z);
    Adopted(m, m2, z.key, c, ParentId(path));
    Replaced(m, m2, root, path, z.key, Id(c));
  }

  // ---------------------------------------------------------------- taking the first node out of a subtree

  /** The first node of a subtree */
  function First(t: Tree): (f: Tree)
    requires t.Node?
    ensures f.Node? && f.left.Leaf? && f.key == FirstKey(t)
    decreases t
  {
    if t.left.Leaf? then t else First(t.left)
  }

  /** The node that is at the place of `t` once its first node is out */
  function IdAfter(t: Tree): int
    requires t.Node?
  {
    if t.left.Leaf? then Id(t.right) else t.key
  }

  /** The node above the first one, where `parent` is above `t` */
  function SpineParent(t: Tree, parent: int): int
    requires t.Node?
    decreases t
  {
    if t.left.Leaf? then parent else SpineParent(t.left, t.key)
  }

  lemma {:induction false} LeftmostIs(t: Tree, p: Path)
    requires t.Node?
    ensures Leftmost(t, p).0 == First(t) && ParentId(Leftmost(t, p).1) == SpineParent(t, ParentId(p))
    decreases t
  {
    if t.left.Node? { LeftmostIs(t.left, WentLeft(t.color, t.key, t.right, p)); }
  }

  /** The memory holds `t` without its first node. */
  ghost predicate SpineOk(m: Memory, t: Tree, parent: int)
    requires t.Node?
    decreases t
  {
    if t.left.Leaf? then Holds(m, parent, t.right)
    else
      && t.key != NULL && t.key in m && m[t.key] == Rec(parent, t.color, IdAfter(t.left), Id(t.right))
      && Holds(m, t.key, t.right) && SpineOk(m, t.left, t.key)
  }

  lemma {:induction false} SpineHolds(m: Memory, root: int, t: Tree, p: Path)
    requires t.Node? && SpineOk(m, t, ParentId(p)) && HoldsPath(m, root, p, IdAfter(t))
    ensures var first := Leftmost(t, p); Holds(m, ParentId(first.1), first.0.right) && HoldsPath(m, root, first.1, Id(first.0.right))
    decreases t
  {
    if t.left.Node? { SpineHolds(m, root, t.left, WentLeft(t.color, t.key, t.right, p)); }
  }

  lemma {:induction false} FirstInside(t: Tree)
    requires t.Node?
    ensures First(t).key in Nodes(t) && Nodes(First(t).right) <= Nodes(t)
    decreases t
  {
    if t.left.Node? { FirstInside(t.left); }
  }

  lemma {:induction false} SpineProper(t: Tree, p: Path)
    requires t.Node? && Proper(t) && ProperPath(p) && Nodes(t) - {First(t).key} !! PathNodes(p)
    ensures var first := Leftmost(t, p);
      Proper(first.0.right) && ProperPath(first.1) && Nodes(first.0.right) !! PathNodes(first.1)
    decreases t
  {
    FirstInside(t);
    if t.left.Node? {
      FirstInside(t.left);
      SpineProper(t.left, WentLeft(t.color, t.key, t.right, p));
    }
  }

  /** A node under a new parent, whose left child may change too */
  function MovedTop(r: Rec, parent: int, last: bool, child: int): Rec {
    r.(parent := parent, left := if last then child else r.left)
  }

  /** What changes in the nodes of `t` when its first node goes and `t` gets a new parent */
  ghost predicate SpineMoved(m: Memory, m2: Memory, t: Tree, parent: int)
    requires t.Node?
  {
    var f, above := First(t), SpineParent(t, parent);
    var child := Id(f.right);
    && (f.right.Node? ==> child in m && child in m2 && m2[child] == m[child].(parent := above))
    && (t.left.Node? ==> t.key in m && t.key in m2 && m2[t.key] == MovedTop(m[t.key], parent, above == t.key, child))
    && (t.left.Node? && above != t.key ==> above in m && above in m2 && m2[above] == m[above].(left := child))
    && Same(m, m2, Nodes(t) - {f.key, t.key, above, child})
  }

  lemma {:induction false} SpineKept(m: Memory, m2: Memory, t: Tree, oldParent: int, parent: int)
    requires t.Node? && Holds(m, oldParent, t) && Proper(t) && SpineMoved(m, m2, t, parent)
    requires parent == First(t).key || parent !in Nodes(t)
    ensures SpineOk(m2, t, parent)
    decreases t
  {
    AllThere(m, oldParent, t);
    Open(m, oldParent, t);
    FirstApart(t);
    if t.left.Leaf? {
      Adopted(m, m2, t.key, t.right, parent);
    } else {
      FirstInside(t.left);
      SpineAbove(t, parent);
      SpineAbove(t.left, t.key);
      assert SpineParent(t, parent) == t.key <==> t.left.left.Leaf?;
      assert m2[t.key] == Rec(parent, t.color, IdAfter(t.left), Id(t.right));
      SameTree(m, m2, t.key, t.right);
      SpineDown(m, m2, t, parent);
      SpineKept(m, m2, t.left, t.key, t.key);
    }
  }

  lemma SpineDown(m: Memory, m2: Memory, t: Tree, parent: int)
    requires t.Node? && t.left.Node? && Holds(m, t.key, t.left) && Proper(t) && SpineMoved(m, m2, t, parent)
    ensures SpineMoved(m, m2, t.left, t.key)
  {
    AllThere(m, t.key, t.left);
    Open(m, t.key, t.left);
    FirstInside(t.left);
    FirstApart(t.left);
    SpineAbove(t.left, t.key);
  }

  /** The node above the first one is `parent` or on the way to it. */
  lemma {:induction false} SpineAbove(t: Tree, parent: int)
    requires t.Node? && Proper(t)
    ensures t.left.Leaf? ==> SpineParent(t, parent) == parent
    ensures t.left.Node? ==> SpineParent(t, parent) in Nodes(t) && SpineParent(t, parent) !in Nodes(t.right)
    ensures t.left.Node? ==> SpineParent(t, parent) != First(t).key && SpineParent(t, parent) !in Nodes(First(t).right)
    decreases t
  {
    if t.left.Node? {
      FirstInside(t.left);
      if t.left.left.Node? { SpineAbove(t.left, t.key); }
    }
  }

  lemma {:induction false} FirstHeld(m: Memory, t: Tree, parent: int)
    requires t.Node? && Holds(m, parent, t)
    ensures var f := First(t);
      && f.key != NULL && f.key in m && m[f.key] == Rec(SpineParent(t, parent), f.color, NULL, Id(f.right))
      && (f.right.Node? ==> f.right.key in m && f.right.key != NULL)
    decreases t
  {
    if t.left.Node? { FirstHeld(m, t.left, t.key); }
  }

  lemma SpineParentSame(t: Tree, p: int, q: int)
    requires t.Node? && t.left.Node?
    ensures SpineParent(t, p) == SpineParent(t, q)
  {
  }

  /** The nodes that taking the successor is about */
  lemma NearSuccessor(m: Memory, root: int, o: Memory, z: Tree, path: Path)
    requires At(m, root, o, z, path) && z.Node? && z.left.Node? && z.right.Node?
    ensures var x, l, r, f, above, p := z.key, z.left.key, z.right.key, First(z.right), SpineParent(z.right, z.key), ParentId(path);
      var s, c := f.key, Id(f.right);
      && x in m && l in m && r in m && above in m && x != NULL && l != NULL && r != NULL && above != NULL
      && m[x] == Rec(p, z.color, l, r) && s in m && s != NULL && m[s] == Rec(above, f.color, NULL, c)
      && x != l && x != r && x != s && l != r && l != s && l != above && s != above
      && (above == x <==> z.right.left.Leaf?) && (r == s <==> z.right.left.Leaf?)
      && (c == NULL <==> f.right.Leaf?) && (c != NULL ==> c in m && c !in {x, l, r, s, above, p})
      && (p == NULL <==> path.Top?) && (p != NULL ==> p in m && p !in {x, l, r, s, above})
      && (!path.Top? ==> (m[p].left == x <==> path.WentLeft?))
  {
    Around(m, root, o, z, path);
    Open(m, ParentId(path), z);
    Open(m, z.key, z.right);
    FirstHeld(m, z.right, z.key);
    FirstInside(z.right);
    SpineAbove(z.right, z.key);
    FirstApart(z.right);
    assert z.left.key in Nodes(z.left);
  }

  /** The first node and its right subtree are apart from the top of the subtree. */
  lemma {:induction false} FirstApart(t: Tree)
    requires t.Node? && Proper(t)
    ensures First(t).key == t.key <==> t.left.Leaf?
    ensures t.key !in Nodes(First(t).right) && First(t).key !in Nodes(First(t).right)
    ensures First(t).right.Node? ==> First(t).right.key in Nodes(First(t).right)
    decreases t
  {
    if t.left.Node? {
      FirstInside(t.left);
      FirstApart(t.left);
    }
  }

  function WithoutFirst(m: Memory, node: int, s: int): Memory
    requires s in m && m[s].parent in m && (m[s].right != NULL ==> m[s].right in m)
  {
    var child, p := m[s].right, m[s].parent;
    var m1 := if child != NULL then m[child := m[child].(parent := p)] else m;
    m1[p := if p == node then m1[p].(right := child) else m1[p].(left := child)]
  }

  function InPlace(m: Memory, node: int, s: int, path: Path): Memory
    requires s in m && node in m && m[node].left in m && (m[node].right != NULL ==> m[node].right in m)
    requires s != node && (!path.Top? ==> path.key in m && path.key != node)
  {
    var l, r := m[node].left, m[node].right;
    var m1 := m[s := m[node]];
    var m2 := if path.Top? then m1 else m1[path.key := WithChild(m1[path.key], path.WentLeft?, s)];
    var m3 := m2[l := m2[l].(parent := s)];
    if r == NULL then m3 else m3[r := m3[r].(parent := s)]
  }

  lemma TakenBy(m: Memory, root: int, o: Memory, z: Tree, path: Path)
    requires At(m, root, o, z, path) && z.Node? && z.left.Node? && z.right.Node?
    ensures var s := FirstKey(z.right);
      && s in m && m[s].parent in m && (m[s].right != NULL ==> m[s].right in m)
      && var m1 := WithoutFirst(m, z.key, s);
      && s in m1 && z.key in m1 && m1[z.key].left in m1 && (m1[z.key].right != NULL ==> m1[z.key].right in m1)
      && s != z.key && (!path.Top? ==> path.key in m1 && path.key != z.key)
      && Taken(m, InPlace(m1, z.key, s, path), z, path)
  {
    hide At, FirstKey;
    NearSuccessor(m, root, o, z, path);
  }

  /** The pointers after the successor has taken the place of `z` */
  ghost predicate Taken(m: Memory, m2: Memory, z: Tree, path: Path)
    requires z.Node? && z.left.Node? && z.right.Node?
  {
    var x, l, r, f, above, p := z.key, z.left.key, z.right.key, First(z.right), SpineParent(z.right, z.key), ParentId(path);
    var s, c := f.key, Id(f.right);
    && s in m && s in m2 && m2[s] == Rec(p, z.color, l, IdAfter(z.right))
    && l in m && l in m2 && m2[l] == m[l].(parent := s)
    && (!path.Top? ==> p in m && p in m2 && m2[p] == WithChild(m[p], path.WentLeft?, s))
    && (f.right.Node? ==> c in m && c in m2 && m2[c] == m[c].(parent := if above == x then s else above))
    && (above != x ==> r in m && r in m2 && m2[r] == MovedTop(m[r], s, above == r, c))
    && (above != x && above != r ==> above in m && above in m2 && m2[above] == m[above].(left := c))
    && forall k | k in m && k !in {x, l, r, s, above, c, p} :: k in m2 && m2[k] == m[k]
  }

  lemma SuccessorTaken(m: Memory, m2: Memory, root: int, root2: int, o: Memory, z: Tree, path: Path)
    requires At(m, root, o, z, path) && z.Node? && z.left.Node? && z.right.Node? && Taken(m, m2, z, path)
    requires root2 == if path.Top? then First(z.right).key else root
    ensures var first := Leftmost(z.right, WentRight(z.color, z.left, FirstKey(z.right), path));
      && At(m2, root2, o, first.0.right, first.1) && first.0 == First(z.right)
      && ParentId(first.1) == SpineParent(z.right, FirstKey(z.right))
  {
    var s := FirstKey(z.right);
    var place := WentRight(z.color, z.left, s, path);
    NearSuccessor(m, root, o, z, path);
    TakenSpine(m, m2, root, o, z, path);
    TakenPath(m, m2, root, root2, o, z, path);
    LeftmostIs(z.right, place);
    SpineHolds(m2, root2, z.right, place);
    SpineProper(z.right, place);
    SpineNodes(z.right, place);
    TakenKept(m, m2, root, o, z, path);
  }

  lemma {:induction false} SpineNodes(t: Tree, p: Path)
    requires t.Node?
    ensures var first := Leftmost(t, p); PathNodes(first.1) <= Nodes(t) + PathNodes(p) && Nodes(first.0.right) <= Nodes(t)
    decreases t
  {
    if t.left.Node? { SpineNodes(t.left, WentLeft(t.color, t.key, t.right, p)); }
  }

  lemma TakenKept(m: Memory, m2: Memory, root: int, o: Memory, z: Tree, path: Path)
    requires At(m, root, o, z, path) && z.Node? && z.left.Node? && z.right.Node? && Taken(m, m2, z, path)
    ensures forall k | k in o :: k !in Nodes(z) && k !in PathNodes(path) && k in m2 && m2[k] == o[k]
    ensures FirstKey(z.right) in Nodes(z.right) && Nodes(z) == Nodes(z.left) + {z.key} + Nodes(z.right)
  {
    Open(m, ParentId(path), z);
    FirstInside(z.right);
    FirstApart(z.right);
    SpineAbove(z.right, z.key);
  }

  lemma TakenSpine(m: Memory, m2: Memory, root: int, o: Memory, z: Tree, path: Path)
    requires At(m, root, o, z, path) && z.Node? && z.left.Node? && z.right.Node? && Taken(m, m2, z, path)
    ensures SpineOk(m2, z.right, FirstKey(z.right))
  {
    Around(m, root, o, z, path);
    NearSuccessor(m, root, o, z, path);
    Open(m, ParentId(path), z);
    if z.right.left.Node? { SpineParentSame(z.right, z.key, FirstKey(z.right)); }
    SpineKept(m, m2, z.right, z.key, FirstKey(z.right));
  }

  lemma TakenPath(m: Memory, m2: Memory, root: int, root2: int, o: Memory, z: Tree, path: Path)
    requires At(m, root, o, z, path) && z.Node? && z.left.Node? && z.right.Node? && Taken(m, m2, z, path)
    requires root2 == if path.Top? then First(z.right).key else root
    ensures var place := WentRight(z.color, z.left, FirstKey(z.right), path);
      && HoldsPath(m2, root2, place, IdAfter(z.right)) && ProperPath(place)
      && Nodes(z.right) - {FirstKey(z.right)} !! PathNodes(place)
  {
    Around(m, root, o, z, path);
    NearSuccessor(m, root, o, z, path);
    Open(m, ParentId(path), z);
    FirstInside(z.right);
    SpineAbove(z.right, z.key);
    Adopted(m, m2, z.key, z.left, FirstKey(z.right));
    Replaced(m, m2, root, path, z.key, FirstKey(z.right));
  }

  lemma SuccessorWell(z: Tree, path: Path)
    requires z.Node? && z.right.Node? && WellAt(z, path)
    ensures var first := Leftmost(z.right, WentRight(z.color, z.left, FirstKey(z.right), path)); WellAt(first.0, first.1)
  {
  }

  lemma NewNodeAlone(m: Memory, parent: int, node: int)
    requires node != NULL && node in m && m[node] == Rec(parent, Red, NULL, NULL)
    ensures Holds(m, parent, NewNode(node)) && Proper(NewNode(node)) && Nodes(NewNode(node)) == {node}
  {
    var t := NewNode(node);
    assert t.left == Leaf && t.right == Leaf && Proper(Leaf) && Nodes(Leaf) == {};
  }

  /** Looking at the sibling */
  lemma Across(m: Memory, root: int, o: Memory, t: Tree, p: Path)
    requires !p.Top?
    ensures At(m, root, o, t, p) <==> At(m, root, o, Sibling(p), Beside(t, p))
  {
    Up(m, root, o, t, p);
    Up(m, root, o, Sibling(p), Beside(t, p));
  }

  /** The same tree seen from the root */
  lemma {:induction false} ToTop(m: Memory, root: int, o: Memory, t: Tree, p: Path)
    requires At(m, root, o, t, p)
    ensures At(m, root, o, Zip(t, p), Top)
    decreases p
  {
    if !p.Top? {
      Up(m, root, o, t, p);
      ToTop(m, root, o, Parent(t, p), p.up);
    }
  }

  /** The sibling of a place, as it is in memory */
  lemma Aside(m: Memory, root: int, o: Memory, t: Tree, p: Path)
    requires At(m, root, o, t, p) && !p.Top?
    ensures p.key in m && p.key != NULL && m[p.key].color == p.color && m[p.key].parent == ParentId(p.up)
    ensures m[p.key] == if p.WentLeft? then m[p.key].(left := Id(t), right := Id(Sibling(p))) else m[p.key].(left := Id(Sibling(p)), right := Id(t))
    ensures Sibling(p).Node? ==> Sibling(p).key in m && Sibling(p).key != NULL && m[Sibling(p).key].color == Sibling(p).color
    ensures t.Node? ==> t.key in m && t.key != NULL && m[t.key].color == t.color
  {
  }

  /** The place of the sibling of `t` */
  function Beside(t: Tree, p: Path): Path
    requires !p.Top?
  {
    if p.WentLeft? then WentRight(p.color, t, p.key, p.up) else WentLeft(p.color, p.key, t, p.up)
  }

  /** What is known about a node, its children and its parent */
  lemma Around(m: Memory, root: int, o: Memory, t: Tree, p: Path)
    requires At(m, root, o, t, p)
    ensures forall k | k in Nodes(t) :: k in m && k != NULL
    ensures forall k | k in PathNodes(p) :: k in m && k != NULL
    ensures !p.Top? ==> p.key in m && (t.Node? ==> (m[p.key].left == Id(t) <==> p.WentLeft?))
  {
    AllThere(m, ParentId(p), t);
    PathThere(m, root, p, Id(t));
  }

  /** A node and its children */
  lemma Open(m: Memory, parent: int, t: Tree)
    requires Holds(m, parent, t) && Proper(t) && t.Node?
    ensures t.key != NULL && t.key in m && m[t.key] == Rec(parent, t.color, Id(t.left), Id(t.right))
    ensures Holds(m, t.key, t.left) && Holds(m, t.key, t.right) && Proper(t.left) && Proper(t.right)
    ensures Nodes(t) == Nodes(t.left) + {t.key} + Nodes(t.right) && Nodes(t.left) !! Nodes(t.right)
    ensures t.key !in Nodes(t.left) && t.key !in Nodes(t.right)
    ensures t.left.Node? ==> t.left.key in Nodes(t.left)
    ensures t.right.Node? ==> t.right.key in Nodes(t.right)
  {
  }

  /** The nodes that a rotation to the left is about */
  lemma NearLeft(m: Memory, root: int, o: Memory, t: Tree, path: Path)
    requires At(m, root, o, t, path) && t.Node? && t.right.Node?
    ensures var x, y, b, p := t.key, t.right.key, Id(t.right.left), ParentId(path);
      && x in m && y in m && x != NULL && y != NULL && x != y && b != x && b != y && p != x && p != y
      && (b != NULL ==> b in m && b != p) && (p != NULL ==> p in m) && (p == NULL <==> path.Top?) && (b == NULL <==> t.right.left.Leaf?)
      && m[x].parent == p && m[x].right == y && m[y].left == b
      && (!path.Top? ==> (m[p].left == x <==> path.WentLeft?))
  {
    Around(m, root, o, t, path);
    Open(m, ParentId(path), t);
    Open(m, t.key, t.right);
    if t.right.left.Node? { assert t.right.left.key in Nodes(t.right.left); }
  }

  /** The pointers after a rotation to the left */
  ghost predicate TurnedLeft(m: Memory, m2: Memory, t: Tree, path: Path)
    requires t.Node? && t.right.Node?
  {
    var x, y, b := t.key, t.right.key, t.right.left;
    && x in m && x in m2 && m2[x] == m[x].(right := Id(b), parent := y)
    && y in m && y in m2 && m2[y] == m[y].(left := x, parent := ParentId(path))
    && (b.Node? ==> b.key in m && b.key in m2 && m2[b.key] == m[b.key].(parent := x))
    && (!path.Top? ==> path.key in m && path.key in m2 && m2[path.key] == WithChild(m[path.key], path.WentLeft?, y))
    && forall k | k in m && k !in {x, y, Id(b), ParentId(path)} :: k in m2 && m2[k] == m[k]
  }

  lemma RotatedLeft(m: Memory, m2: Memory, root: int, root2: int, o: Memory, t: Tree, path: Path)
    requires At(m, root, o, t, path) && t.Node? && t.right.Node?
    requires TurnedLeft(m, m2, t, path) && root2 == if path.Top? then t.right.key else root
    ensures At(m2, root2, o, RotateLeft(t), path)
  {
    Around(m, root, o, t, path);
    Open(m, ParentId(path), t);
    Open(m, t.key, t.right);
    var y := t.right;
    SameTree(m, m2, t.key, t.left);
    Adopted(m, m2, y.key, y.left, t.key);
    SameTree(m, m2, y.key, y.right);
    Replaced(m, m2, root, path, t.key, y.key);
    assert Holds(m2, y.key, t.(right := y.left));
    ProperLeft(t);
  }

  /** A rotation keeps the nodes apart. */
  lemma ProperLeft(t: Tree)
    requires t.Node? && t.right.Node? && Proper(t)
    ensures Proper(RotateLeft(t)) && Nodes(RotateLeft(t)) == Nodes(t)
  {
    var y := t.right;
    var x := t.(right := y.left);
    assert Proper(x) && Nodes(x) == Nodes(t.left) + {t.key} + Nodes(y.left);
    assert RotateLeft(t) == y.(left := x);
  }

  /** The nodes that a rotation to the right is about */
  lemma NearRight(m: Memory, root: int, o: Memory, t: Tree, path: Path)
    requires At(m, root, o, t, path) && t.Node? && t.left.Node?
    ensures var x, y, b, p := t.key, t.left.key, Id(t.left.right), ParentId(path);
      && x in m && y in m && x != NULL && y != NULL && x != y && b != x && b != y && p != x && p != y
      && (b != NULL ==> b in m && b != p) && (p != NULL ==> p in m) && (p == NULL <==> path.Top?) && (b == NULL <==> t.left.right.Leaf?)
      && m[x].parent == p && m[x].left == y && m[y].right == b
      && (!path.Top? ==> (m[p].left == x <==> path.WentLeft?))
  {
    Around(m, root, o, t, path);
    Open(m, ParentId(path), t);
    Open(m, t.key, t.left);
    if t.left.right.Node? { assert t.left.right.key in Nodes(t.left.right); }
  }

  /** The pointers after a rotation to the right */
  ghost predicate TurnedRight(m: Memory, m2: Memory, t: Tree, path: Path)
    requires t.Node? && t.left.Node?
  {
    var x, y, b := t.key, t.left.key, t.left.right;
    && x in m && x in m2 && m2[x] == m[x].(left := Id(b), parent := y)
    && y in m && y in m2 && m2[y] == m[y].(right := x, parent := ParentId(path))
    && (b.Node? ==> b.key in m && b.key in m2 && m2[b.key] == m[b.key].(parent := x))
    && (!path.Top? ==> path.key in m && path.key in m2 && m2[path.key] == WithChild(m[path.key], path.WentLeft?, y))
    && forall k | k in m && k !in {x, y, Id(b), ParentId(path)} :: k in m2 && m2[k] == m[k]
  }

  lemma RotatedRight(m: Memory, m2: Memory, root: int, root2: int, o: Memory, t: Tree, path: Path)
    requires At(m, root, o, t, path) && t.Node? && t.left.Node?
    requires TurnedRight(m, m2, t, path) && root2 == if path.Top? then t.left.key else root
    ensures At(m2, root2, o, RotateRight(t), path)
  {
    Around(m, root, o, t, path);
    Open(m, ParentId(path), t);
    Open(m, t.key, t.left);
    var y := t.left;
    SameTree(m, m2, t.key, t.right);
    Adopted(m, m2, y.key, y.right, t.key);
    SameTree(m, m2, y.key, y.left);
    Replaced(m, m2, root, path, t.key, y.key);
    assert Holds(m2, y.key, t.(left := y.right));
    ProperRight(t);
  }

  /** A rotation keeps the nodes apart. */
  lemma ProperRight(t: Tree)
    requires t.Node? && t.left.Node? && Proper(t)
    ensures Proper(RotateRight(t)) && Nodes(RotateRight(t)) == Nodes(t)
  {
    var y := t.left;
    var x := t.(left := y.right);
    assert Proper(x) && Nodes(x) == Nodes(y.right) + {t.key} + Nodes(t.right);
    assert RotateRight(t) == y.(right := x);
  }
}
