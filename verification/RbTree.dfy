/**
 Red-black trees: rebalancing after insertion and deletion.  The trees are values; a node reached through parent
 pointers is a subtree together with the path back to the root.
 */
module RbTree {
  datatype Color = Red | Black
  datatype Tree = Leaf | Node(color: Color, left: Tree, key: int, right: Tree)

  /** What lies above a subtree, nearest node first: the parent, its other child, and so on up to the root. */
  datatype Path =
    | Top
    | WentLeft(color: Color, key: int, right: Tree, up: Path)
    | WentRight(color: Color, left: Tree, key: int, up: Path)

  /** The node above a subtree, with the subtree in place. */
  function Parent(t: Tree, p: Path): Tree
    requires !p.Top?
  {
    match p
    case WentLeft(c, k, r, _) => Node(c, t, k, r)
    case WentRight(c, l, k, _) => Node(c, l, k, t)
  }

  function Zip(t: Tree, p: Path): Tree
    decreases p
  {
    if p.Top? then t else Zip(Parent(t, p), p.up)
  }

  // ---------------------------------------------------------------- order

  function Inorder(t: Tree): seq<int> {
    match t
    case Leaf => []
    case Node(_, l, k, r) => Inorder(l) + [k] + Inorder(r)
  }

  ghost predicate Sorted(s: seq<int>) {
    forall i, j | 0 <= i < j < |s| :: s[i] < s[j]
  }

  function Before(p: Path): seq<int> {
    match p
    case Top => []
    case WentLeft(_, _, _, up) => Before(up)
    case WentRight(_, l, k, up) => Before(up) + Inorder(l) + [k]
  }

  function After(p: Path): seq<int> {
    match p
    case Top => []
    case WentLeft(_, k, r, up) => [k] + Inorder(r) + After(up)
    case WentRight(_, _, _, up) => After(up)
  }

  /** The keys of the whole tree. */
  function Keys(t: Tree, p: Path): seq<int> { Before(p) + Inorder(t) + After(p) }

  lemma KeysUp(t: Tree, p: Path)
    requires !p.Top?
    ensures Keys(Parent(t, p), p.up) == Keys(t, p)
  {
    match p
    case WentLeft(_, k, r, up) => Regroup(Before(up), Inorder(t), k, Inorder(r), After(up));
    case WentRight(_, l, k, up) => Regroup(Before(up), Inorder(l), k, Inorder(t), After(up));
  }

  lemma Regroup(a: seq<int>, b: seq<int>, k: int, c: seq<int>, d: seq<int>)
    ensures a + (b + [k] + c) + d == a + b + ([k] + c + d)
    ensures a + (b + [k] + c) + d == (a + b + [k]) + c + d
  {
  }

  lemma {:induction false} ZipInorder(t: Tree, p: Path)
    ensures Inorder(Zip(t, p)) == Keys(t, p)
    decreases p
  {
    if !p.Top? {
      KeysUp(t, p);
      ZipInorder(Parent(t, p), p.up);
    }
  }

  // ---------------------------------------------------------------- colours

  predicate IsBlack(t: Tree) { t.Leaf? || t.color == Black }

  function Rank(c: Color): nat { if c == Black then 1 else 0 }

  function BlackHeight(t: Tree): nat {
    if t.Leaf? then 0 else BlackHeight(t.left) + Rank(t.color)
  }

  /** No red node has a red child, and all ways down meet the same number of black nodes. */
  predicate RB(t: Tree) {
    t.Leaf? || (
      && RB(t.left) && RB(t.right) && BlackHeight(t.left) == BlackHeight(t.right)
      && (t.color == Red ==> IsBlack(t.left) && IsBlack(t.right)))
  }

  predicate Balanced(t: Tree) { RB(t) && IsBlack(t) }

  /** The path fits a subtree of black height `n`: it makes a balanced tree if their colours do not clash. */
  predicate PathOk(p: Path, n: nat)
    decreases p
  {
    match p
    case Top => true
    case WentLeft(c, _, r, up) =>
      RB(r) && BlackHeight(r) == n && (c == Red ==> IsBlack(r) && !up.Top? && up.color == Black) && PathOk(up, n + Rank(c))
    case WentRight(c, l, _, up) =>
      RB(l) && BlackHeight(l) == n && (c == Red ==> IsBlack(l) && !up.Top? && up.color == Black) && PathOk(up, n + Rank(c))
  }

  lemma {:induction false} ZipBalanced(t: Tree, p: Path)
    requires RB(t) && PathOk(p, BlackHeight(t)) && (IsBlack(t) || (!p.Top? && p.color == Black))
    ensures Balanced(Zip(t, p))
    decreases p
  {
    if !p.Top? {
      ZipBalanced(Parent(t, p), p.up);
    }
  }

  // ---------------------------------------------------------------- insertion

  function RotateLeft(x: Tree): (y: Tree)
    requires x.Node? && x.right.Node?
    ensures Inorder(y) == Inorder(x)
  {
    var y := x.right;
    assert Inorder(x) == Inorder(x.left) + [x.key] + (Inorder(y.left) + [y.key] + Inorder(y.right));
    y.(left := x.(right := y.left))
  }

  function RotateRight(y: Tree): (x: Tree)
    requires y.Node? && y.left.Node?
    ensures Inorder(x) == Inorder(y)
  {
    var x := y.left;
    assert Inorder(y) == (Inorder(x.left) + [x.key] + Inorder(x.right)) + [y.key] + Inorder(y.right);
    x.(right := y.(left := x.right))
  }

  function Blackened(t: Tree): (b: Tree)
    requires t.Node?
    ensures Inorder(b) == Inorder(t)
  {
    t.(color := Black)
  }

  function Reddened(t: Tree): (r: Tree)
    requires t.Node?
    ensures Inorder(r) == Inorder(t)
  {
    t.(color := Red)
  }

  lemma KeysSame(t: Tree, u: Tree, p: Path)
    requires Inorder(t) == Inorder(u)
    ensures Keys(t, p) == Keys(u, p)
  {
  }

  function Depth(p: Path): nat { if p.Top? then 0 else 1 + Depth(p.up) }

  /** A red node hangs on the path; all is well but that its parent may be red too. */
  predicate RedAt(z: Tree, p: Path) {
    z.Node? && z.color == Red && RB(z) && PathOk(p, BlackHeight(z))
  }

  /** One turn of `rb_add_fix_color` */
  function AddStep(z: Tree, p: Path): (r: (Tree, Path))
    requires RedAt(z, p) && !p.Top? && p.color == Red
    ensures RedAt(r.0, r.1) && Keys(r.0, r.1) == Keys(z, p) && Depth(r.1) < Depth(p)
  {
    Grandparent(z, p);
    assert Depth(p) == 2 + Depth(p.up.up);
    if !IsBlack(Uncle(p)) then Recolor(z, p) else if p.up.WentLeft? then AddLeft(z, p) else AddRight(z, p)
  }

  /** What `rb_add_fix_color` makes of a tree with a new red node: a balanced tree with the same keys in the same order */
  function AddFixed(z: Tree, p: Path): (root: Tree)
    requires RedAt(z, p)
    ensures Balanced(root) && Inorder(root) == Keys(z, p)
    decreases Depth(p)
  {
    if p.Top? || p.color == Black then
      ZipInorder(z, p);
      ZipNode(z, p);
      ZipRedBalanced(z, p);
      Blackened(Zip(z, p))
    else
      var next := AddStep(z, p);
      AddFixed(next.0, next.1)
  }

  lemma ZipRedBalanced(z: Tree, p: Path)
    requires RedAt(z, p) && (p.Top? || p.color == Black)
    ensures Zip(z, p).Node? && Balanced(Blackened(Zip(z, p)))
  {
    ZipNode(z, p);
    if !p.Top? {
      ZipBalanced(z, p);
    }
  }

  lemma {:induction false} ZipNode(t: Tree, p: Path)
    requires t.Node?
    ensures Zip(t, p).Node?
    decreases p
  {
    if !p.Top? {
      ZipNode(Parent(t, p), p.up);
    }
  }

  function Uncle(p: Path): Tree
    requires !p.Top? && !p.up.Top?
  {
    if p.up.WentLeft? then p.up.right else p.up.left
  }

  function Sibling(p: Path): Tree
    requires !p.Top?
  {
    if p.WentLeft? then p.right else p.left
  }

  lemma BlackenedRed(t: Tree)
    requires RB(t) && !IsBlack(t)
    ensures RB(Blackened(t)) && BlackHeight(Blackened(t)) == BlackHeight(t) + 1
  {
  }

  /** Under a red parent there is a black grandparent. */
  lemma Grandparent(z: Tree, p: Path)
    requires RedAt(z, p) && !p.Top? && p.color == Red
    ensures !p.up.Top? && p.up.color == Black
    ensures RB(Sibling(p)) && IsBlack(Sibling(p)) && BlackHeight(Sibling(p)) == BlackHeight(z)
    ensures RB(Uncle(p)) && BlackHeight(Uncle(p)) == BlackHeight(z)
    ensures PathOk(p.up.up, BlackHeight(z) + 1)
  {
    assert PathOk(p.up, BlackHeight(z));
  }

  /** The uncle is red: it and the parent turn black, the grandparent red. */
  function Recolor(z: Tree, p: Path): (r: (Tree, Path))
    requires RedAt(z, p) && !p.Top? && p.color == Red && !p.up.Top? && !IsBlack(Uncle(p))
    ensures RedAt(r.0, r.1) && Keys(r.0, r.1) == Keys(z, p) && r.1 == p.up.up
  {
    Grandparent(z, p);
    BlackenedRed(Uncle(p));
    KeysUp(z, p);
    var up, parent := p.up, Blackened(Parent(z, p));
    KeysSame(Parent(z, p), parent, up);
    KeysUp(parent, up);
    assert RB(parent) && BlackHeight(parent) == BlackHeight(z) + 1;
    var gp := Recolored(parent, up);
    assert RB(gp) && BlackHeight(gp) == BlackHeight(z) + 1;
    KeysSame(Parent(parent, up), gp, up.up);
    (gp, up.up)
  }

  /** A red grandparent over a black parent and a black uncle */
  function Recolored(parent: Tree, up: Path): Tree
    requires !up.Top? && Sibling(up).Node?
  {
    if up.WentLeft? then Node(Red, parent, up.key, Blackened(up.right)) else Node(Red, Blackened(up.left), up.key, parent)
  }

  /** The parent is a left child and the uncle black: up to two rotations. */
  function AddLeft(z: Tree, p: Path): (r: (Tree, Path))
    requires RedAt(z, p) && !p.Top? && p.color == Red && p.up.WentLeft? && IsBlack(Uncle(p))
    ensures RedAt(r.0, r.1) && Keys(r.0, r.1) == Keys(z, p) && !r.1.Top? && r.1.color == Black && r.1.up == p.up.up
  {
    Grandparent(z, p);
    KeysUp(z, p);
    var up, parent := p.up, if p.WentRight? then RotateLeft(Parent(z, p)) else Parent(z, p);
    KeysSame(Parent(z, p), parent, up);
    var gp := Node(Red, Blackened(parent), up.key, up.right);
    KeysUp(parent, up);
    KeysSame(Parent(parent, up), gp, up.up);
    var top := RotateRight(gp);
    KeysSame(gp, top, up.up);
    var (next, path) := (top.left, WentLeft(top.color, top.key, top.right, up.up));
    KeysUp(next, path);
    (next, path)
  }

  /** The mirror image */
  function AddRight(z: Tree, p: Path): (r: (Tree, Path))
    requires RedAt(z, p) && !p.Top? && p.color == Red && p.up.WentRight? && IsBlack(Uncle(p))
    ensures RedAt(r.0, r.1) && Keys(r.0, r.1) == Keys(z, p) && !r.1.Top? && r.1.color == Black && r.1.up == p.up.up
  {
    Grandparent(z, p);
    KeysUp(z, p);
    var up, parent := p.up, if p.WentLeft? then RotateRight(Parent(z, p)) else Parent(z, p);
    KeysSame(Parent(z, p), parent, up);
    var gp := Node(Red, up.left, up.key, Blackened(parent));
    KeysUp(parent, up);
    KeysSame(Parent(parent, up), gp, up.up);
    var top := RotateLeft(gp);
    KeysSame(gp, top, up.up);
    var (next, path) := (top.right, WentRight(top.color, top.left, top.key, up.up));
    KeysUp(next, path);
    (next, path)
  }

  // ---------------------------------------------------------------- deletion

  /** The subtree is one black node short of what its path wants; if its root is red, that root can turn black. */
  predicate ShortAt(z: Tree, p: Path) {
    && (z.Leaf? || RB(Blackened(z)))
    && PathOk(p, BlackHeight(z) + 1)
  }

  /** All is well. */
  predicate WellAt(z: Tree, p: Path) {
    RB(z) && PathOk(p, BlackHeight(z)) && (IsBlack(z) || (!p.Top? && p.color == Black))
  }

  lemma BlackenedHeight(z: Tree)
    requires z.Node?
    ensures BlackHeight(Blackened(z)) == BlackHeight(z) + if z.color == Red then 1 else 0
  {
  }

  /** What `rb_del_fix_color` makes of a tree that is one black node short at a place: a balanced tree with the same keys */
  function DelFixed(z: Tree, p: Path): (root: Tree)
    requires ShortAt(z, p)
    ensures Balanced(root) && Inorder(root) == Keys(z, p)
    decreases if IsBlack(z) then Depth(p) + 1 else 0
  {
    if !IsBlack(z) || p.Top? then
      ZipBlackened(z, p);
      Zip(if z.Node? then Blackened(z) else z, p)
    else
      var next := if p.WentLeft? then DelLeft(z, p) else DelRight(z, p);
      if next.0 then
        ZipInorder(next.1, next.2);
        ZipBalanced(next.1, next.2);
        Zip(next.1, next.2)
      else
        DelFixed(next.1, next.2)
  }

  lemma ZipBlackened(z: Tree, p: Path)
    requires ShortAt(z, p) && (!IsBlack(z) || p.Top?)
    ensures var b := if z.Node? then Blackened(z) else z; Balanced(Zip(b, p)) && Inorder(Zip(b, p)) == Keys(z, p)
  {
    if z.Node? {
      BlackenedHeight(z);
      ZipInorder(Blackened(z), p);
      ZipBalanced(Blackened(z), p);
    }
  }

  /** `z` is a left child: the loop body of `rb_del_fix_color`. */
  function DelLeft(z: Tree, p: Path): (r: (bool, Tree, Path))
    requires ShortAt(z, p) && IsBlack(z) && p.WentLeft?
    ensures Keys(r.1, r.2) == Keys(z, p)
    ensures r.0 ==> WellAt(r.1, r.2)
    ensures !r.0 ==> ShortAt(r.1, r.2) && (!IsBlack(r.1) || r.2 == p.up)
  {
    var q := if IsBlack(p.right) then p else BlackSiblingRight(z, p);
    var w := q.right;
    if IsBlack(w.left) && IsBlack(w.right) then
      var up := Node(q.color, z, q.key, Reddened(w));
      KeysUp(z, q);
      KeysSame(Parent(z, q), up, q.up);
      (false, up, q.up)
    else
      (true, RotateAwayLeft(z, q), q.up)
  }

  /** A red right sibling goes up and hands its left child, which is black, over as the new sibling. */
  function BlackSiblingRight(z: Tree, p: Path): (q: Path)
    requires ShortAt(z, p) && p.WentLeft? && !IsBlack(p.right)
    ensures ShortAt(z, q) && q.WentLeft? && IsBlack(q.right) && q.color == Red
    ensures Keys(z, q) == Keys(z, p)
  {
    var w := p.right;
    var top := RotateLeft(Node(Red, z, p.key, Blackened(w)));
    var q := WentLeft(Red, p.key, w.left, WentLeft(Black, w.key, w.right, p.up));
    assert top == Parent(Parent(z, q), q.up);
    KeysUp(z, q);
    KeysUp(Parent(z, q), q.up);
    KeysUp(z, p);
    KeysSame(Parent(z, p), Node(Red, z, p.key, Blackened(w)), p.up);
    KeysSame(Node(Red, z, p.key, Blackened(w)), top, p.up);
    q
  }

  /** If the red child of a black sibling is the near one, a rotation makes it the far one. */
  function FarRight(w: Tree): (v: Tree)
    requires w.Node? && RB(w) && w.color == Black && (!IsBlack(w.left) || !IsBlack(w.right))
    ensures v.Node? && RB(v) && v.color == Black && !IsBlack(v.right)
    ensures BlackHeight(v) == BlackHeight(w) && Inorder(v) == Inorder(w)
  {
    if IsBlack(w.right) then
      assert RB(w.left) && RB(Node(Red, w.left.right, w.key, w.right));
      assert Inorder(Node(Red, Blackened(w.left), w.key, w.right)) == Inorder(w);
      RotateRight(Node(Red, Blackened(w.left), w.key, w.right))
    else w
  }

  /** A black right sibling with a red child: rotating it up ends the shortage. */
  function RotateAwayLeft(z: Tree, q: Path): (top: Tree)
    requires ShortAt(z, q) && IsBlack(z) && q.WentLeft? && IsBlack(q.right) && q.right.Node?
    requires !IsBlack(q.right.left) || !IsBlack(q.right.right)
    ensures WellAt(top, q.up) && Keys(top, q.up) == Keys(z, q)
  {
    var v := FarRight(q.right);
    assert z.Node? ==> Blackened(z) == z;
    BlackenedRed(v.right);
    var w := Node(q.color, v.left, v.key, Blackened(v.right));
    assert Inorder(w) == Inorder(q.right);
    assert RB(Node(Black, z, q.key, w.left)) && BlackHeight(Node(Black, z, q.key, w.left)) == BlackHeight(w.right);
    var top := RotateLeft(Node(Black, z, q.key, w));
    KeysUp(z, q);
    KeysSame(Parent(z, q), top, q.up);
    top
  }

  /** The mirror image: `z` is a right child. */
  function DelRight(z: Tree, p: Path): (r: (bool, Tree, Path))
    requires ShortAt(z, p) && IsBlack(z) && p.WentRight?
    ensures Keys(r.1, r.2) == Keys(z, p)
    ensures r.0 ==> WellAt(r.1, r.2)
    ensures !r.0 ==> ShortAt(r.1, r.2) && (!IsBlack(r.1) || r.2 == p.up)
  {
    var q := if IsBlack(p.left) then p else BlackSiblingLeft(z, p);
    var w := q.left;
    if IsBlack(w.left) && IsBlack(w.right) then
      var up := Node(q.color, Reddened(w), q.key, z);
      KeysUp(z, q);
      KeysSame(Parent(z, q), up, q.up);
      (false, up, q.up)
    else
      (true, RotateAwayRight(z, q), q.up)
  }

  function BlackSiblingLeft(z: Tree, p: Path): (q: Path)
    requires ShortAt(z, p) && p.WentRight? && !IsBlack(p.left)
    ensures ShortAt(z, q) && q.WentRight? && IsBlack(q.left) && q.color == Red
    ensures Keys(z, q) == Keys(z, p)
  {
    var w := p.left;
    var top := RotateRight(Node(Red, Blackened(w), p.key, z));
    var q := WentRight(Red, w.right, p.key, WentRight(Black, w.left, w.key, p.up));
    assert top == Parent(Parent(z, q), q.up);
    KeysUp(z, q);
    KeysUp(Parent(z, q), q.up);
    KeysUp(z, p);
    KeysSame(Parent(z, p), Node(Red, Blackened(w), p.key, z), p.up);
    KeysSame(Node(Red, Blackened(w), p.key, z), top, p.up);
    q
  }

  function FarLeft(w: Tree): (v: Tree)
    requires w.Node? && RB(w) && w.color == Black && (!IsBlack(w.left) || !IsBlack(w.right))
    ensures v.Node? && RB(v) && v.color == Black && !IsBlack(v.left)
    ensures BlackHeight(v) == BlackHeight(w) && Inorder(v) == Inorder(w)
  {
    if IsBlack(w.left) then
      assert RB(w.right) && RB(Node(Red, w.left, w.key, w.right.left));
      assert Inorder(Node(Red, w.left, w.key, Blackened(w.right))) == Inorder(w);
      RotateLeft(Node(Red, w.left, w.key, Blackened(w.right)))
    else w
  }

  function RotateAwayRight(z: Tree, q: Path): (top: Tree)
    requires ShortAt(z, q) && IsBlack(z) && q.WentRight? && IsBlack(q.left) && q.left.Node?
    requires !IsBlack(q.left.left) || !IsBlack(q.left.right)
    ensures WellAt(top, q.up) && Keys(top, q.up) == Keys(z, q)
  {
    var v := FarLeft(q.left);
    assert z.Node? ==> Blackened(z) == z;
    BlackenedRed(v.left);
    var w := Node(q.color, Blackened(v.left), v.key, v.right);
    assert Inorder(w) == Inorder(q.left);
    assert RB(Node(Black, w.right, q.key, z)) && BlackHeight(Node(Black, w.right, q.key, z)) == BlackHeight(w.left);
    var top := RotateRight(Node(Black, w, q.key, z));
    KeysUp(z, q);
    KeysSame(Parent(z, q), top, q.up);
    top
  }

  // ---------------------------------------------------------------- the node to add

  function NewNode(k: int): (t: Tree)
    ensures t.Node? && t.color == Red && t.key == k && Inorder(t) == [k] && RB(t) && BlackHeight(t) == 0
  {
    assert BlackHeight(Leaf) == 0 && RB(Leaf) && Inorder(Leaf) == [];
    Node(Red, Leaf, k, Leaf)
  }

  /** What `rb_add_node` makes of a balanced tree: balanced, with the new key at its place */
  function Added(k: int, p: Path): (root: Tree)
    requires Balanced(Zip(Leaf, p))
    ensures Balanced(root) && Inorder(root) == Before(p) + [k] + After(p)
  {
    Unzip(Leaf, p);
    AddFixed(NewNode(k), p)
  }

  // ---------------------------------------------------------------- the node to delete

  /** Looking into a balanced tree at any place finds things well there. */
  lemma {:induction false} Unzip(t: Tree, p: Path)
    requires Balanced(Zip(t, p))
    ensures WellAt(t, p)
    decreases p
  {
    if !p.Top? {
      Unzip(Parent(t, p), p.up);
    }
  }

  lemma StepLeft(f: Tree, q: Path)
    requires f.Node?
    ensures var down := WentLeft(f.color, f.key, f.right, q);
      && (WellAt(f, q) ==> WellAt(f.left, down))
      && Before(down) == Before(q) && Inorder(f.left) + After(down) == Inorder(f) + After(q)
  {
    Slide(Inorder(f.left), f.key, Inorder(f.right), After(q));
  }

  lemma Slide(a: seq<int>, k: int, b: seq<int>, c: seq<int>)
    ensures a + ([k] + b + c) == (a + [k] + b) + c
  {
  }

  /** Down the left side of a subtree to its first node */
  function Leftmost(t: Tree, p: Path): (r: (Tree, Path))
    requires t.Node?
    ensures r.0.Node? && r.0.left.Leaf? && (WellAt(t, p) ==> WellAt(r.0, r.1))
    ensures Before(r.1) == Before(p) && Inorder(r.0) + After(r.1) == Inorder(t) + After(p)
    ensures Zip(r.0, r.1) == Zip(t, p)
    decreases t
  {
    StepLeft(t, p);
    if t.left.Leaf? then (t, p) else Leftmost(t.left, WentLeft(t.color, t.key, t.right, p))
  }

  /** The first key of a subtree: the successor of the node above it */
  function FirstKey(t: Tree): (k: int)
    requires t.Node?
    ensures k == Inorder(t)[0]
    decreases t
  {
    if t.left.Leaf? then t.key else FirstKey(t.left)
  }

  /** What `rb_del_node` makes of a balanced tree: all other keys in order, balanced */
  function Deleted(z: Tree, path: Path): (root: Tree)
    requires z.Node? && Balanced(Zip(z, path))
    ensures Balanced(root)
    ensures Inorder(root) == Before(path) + Inorder(z.left) + Inorder(z.right) + After(path)
  {
    Unzip(z, path);
    if z.left.Node? && z.right.Node? then
      var s := FirstKey(z.right);
      var (f, p) := Leftmost(z.right, WentRight(z.color, z.left, s, path));
      SuccessorMoved(z, path, s, f, p);
      CutOut(f, f.right, p)
    else
      CutOut(z, if z.right.Node? then z.right else z.left, path)
  }

  /** The only child of `f` takes its place. */
  function CutOut(f: Tree, child: Tree, p: Path): (root: Tree)
    requires f.Node? && WellAt(f, p)
    requires (f.left.Leaf? && child == f.right) || (f.right.Leaf? && child == f.left)
    ensures Balanced(root) && Inorder(root) == Keys(child, p)
  {
    if f.color == Black then
      ShortWithout(f, child, p);
      DelFixed(child, p)
    else
      ZipInorder(child, p);
      ZipBalanced(child, p);
      Zip(child, p)
  }

  /** Without a black node the tree is one short at its place. */
  lemma ShortWithout(f: Tree, child: Tree, p: Path)
    requires f.Node? && WellAt(f, p) && f.color == Black
    requires (f.left.Leaf? && child == f.right) || (f.right.Leaf? && child == f.left)
    ensures ShortAt(child, p)
  {
    if !IsBlack(child) { BlackenedRed(child); }
  }

  lemma SuccessorMoved(z: Tree, path: Path, s: int, f: Tree, p: Path)
    requires z.Node? && z.right.Node? && f.Node? && f.left.Leaf?
    requires s == Inorder(z.right)[0]
    requires Before(p) == Before(path) + Inorder(z.left) + [s]
    requires Inorder(f) + After(p) == Inorder(z.right) + After(path)
    ensures Keys(f.right, p) == Before(path) + Inorder(z.left) + Inorder(z.right) + After(path)
  {
    assert Inorder(f) == [f.key] + Inorder(f.right);
    assert f.key == s by {
      assert (Inorder(f) + After(p))[0] == f.key && (Inorder(z.right) + After(path))[0] == s;
    }
    Reassembled(Before(path) + Inorder(z.left), s, Inorder(f.right), After(p), Inorder(z.right), After(path));
  }

  lemma Reassembled(a: seq<int>, s: int, b: seq<int>, c: seq<int>, d: seq<int>, e: seq<int>)
    requires ([s] + b) + c == d + e
    ensures (a + [s]) + b + c == a + d + e
  {
    assert (a + [s]) + b + c == a + (([s] + b) + c);
    assert a + (d + e) == a + d + e;
  }
}
