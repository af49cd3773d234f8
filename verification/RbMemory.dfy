/**
 The link fields of all nodes of a tree as one value, and what it means for them to form a
 given shape. Every pointer assignment of ompi_rb_tree.c is an update of this memory; the
 lemmas say what shape the updated memory forms.
 */
module RbMemory {
  import opened RbShape

  datatype Cell<N> = Cell(color: Color, parent: N, left: N, right: N)

  type Mem<N> = map<N, Cell<N>>

  /** The two sentinels: the left child of `root` is the real root, `nill` stands for every leaf. */
  datatype Ends<N> = Ends(root: N, nill: N)

  function Ptr<N>(t: Tree<N>, z: Ends<N>): N {
    if t.Fork? then t.node else z.nill
  }

  /** The node whose child the hole is. */
  function Owner<N>(c: Ctx<N>, z: Ends<N>): N {
    if c.Top? then z.root else c.node
  }

  /** The nodes below parent p form the tree t. */
  ghost predicate Repr<N>(m: Mem<N>, t: Tree<N>, p: N, z: Ends<N>)
    decreases t
  {
    match t
    case Leaf => true
    case Fork(l, n, k, r) =>
      && n in m && m[n] == Cell(k, p, Ptr(l, z), Ptr(r, z))
      && Repr(m, l, n, z) && Repr(m, r, n, z)
  }

  /** The nodes above pointer `hole` form the context c. */
  ghost predicate CtxRepr<N>(m: Mem<N>, c: Ctx<N>, hole: N, z: Ends<N>)
    decreases c
  {
    match c
    case Top => z.root in m && m[z.root].left == hole && m[z.root].right == z.nill && m[z.root].color == Black
    case InLeft(up, n, k, r) =>
      && n in m && m[n] == Cell(k, Owner(up, z), hole, Ptr(r, z))
      && Repr(m, r, n, z) && CtxRepr(m, up, n, z)
    case InRight(up, l, n, k) =>
      && n in m && m[n] == Cell(k, Owner(up, z), Ptr(l, z), hole)
      && Repr(m, l, n, z) && CtxRepr(m, up, n, z)
  }

  /** All node identities, including the sentinels, are different. */
  ghost predicate Separate<N>(c: Ctx<N>, t: Tree<N>, z: Ends<N>) {
    && CtxDistinct(c) && Distinct(t) && CtxNodes(c) !! Nodes(t)
    && z.root != z.nill
    && z.root !in CtxNodes(c) && z.root !in Nodes(t)
    && z.nill !in CtxNodes(c) && z.nill !in Nodes(t)
  }

  /** The memory holds the tree t with the rest c around it, and a black nill sentinel. */
  ghost predicate Focus<N>(m: Mem<N>, c: Ctx<N>, t: Tree<N>, z: Ends<N>) {
    && Separate(c, t, z)
    && z.nill in m && m[z.nill].color == Black
    && Repr(m, t, Owner(c, z), z)
    && CtxRepr(m, c, Ptr(t, z), z)
  }

  // ---------------------------------------------------------------------------------------
  // Framing

  ghost predicate Agree<N>(m: Mem<N>, m': Mem<N>, s: set<N>) {
    forall n :: n in s && n in m ==> n in m' && m'[n] == m[n]
  }

  lemma {:induction false} ReprFrame<N>(m: Mem<N>, m': Mem<N>, t: Tree<N>, p: N, z: Ends<N>)
    requires Repr(m, t, p, z) && Agree(m, m', Nodes(t))
    ensures Repr(m', t, p, z)
    decreases t
  {
    if t.Fork? {
      ReprFrame(m, m', t.left, t.node, z);
      ReprFrame(m, m', t.right, t.node, z);
    }
  }

  lemma {:induction false} CtxFrame<N>(m: Mem<N>, m': Mem<N>, c: Ctx<N>, hole: N, z: Ends<N>)
    requires CtxRepr(m, c, hole, z) && Agree(m, m', CtxNodes(c) + {z.root})
    ensures CtxRepr(m', c, hole, z)
    decreases c
  {
    match c {
      case Top =>
      case InLeft(up, n, k, r) => CtxFrame(m, m', up, n, z); ReprFrame(m, m', r, n, z);
      case InRight(up, l, n, k) => CtxFrame(m, m', up, n, z); ReprFrame(m, m', l, n, z);
    }
  }

  // ---------------------------------------------------------------------------------------
  // Moving the focus

  /** Two ways to look at a tree with the same nodes in the same order. */
  ghost predicate Same<N>(c: Ctx<N>, t: Tree<N>, c': Ctx<N>, t': Tree<N>) {
    && InOrder(Plug(c', t')) == InOrder(Plug(c, t))
    && CtxNodes(c') + Nodes(t') == CtxNodes(c) + Nodes(t)
  }

  lemma SameWhole<N>(c: Ctx<N>, t: Tree<N>, w: Tree<N>)
    requires Same(c, t, Top, w)
    ensures InOrder(w) == InOrder(Plug(c, t)) && Nodes(w) == CtxNodes(c) + Nodes(t)
  {
  }

  lemma SameTrans<N>(c: Ctx<N>, t: Tree<N>, c1: Ctx<N>, t1: Tree<N>, c2: Ctx<N>, t2: Tree<N>)
    requires Same(c, t, c1, t1) && Same(c1, t1, c2, t2)
    ensures Same(c, t, c2, t2)
  {
  }

  lemma SameFlip<N>(c: Ctx<N>, t: Tree<N>, c': Ctx<N>, t': Tree<N>)
    requires Same(c, t, c', t')
    ensures Same(c', t', c, t)
  {
  }

  lemma SameInside<N>(c: Ctx<N>, t: Tree<N>, t': Tree<N>)
    requires InOrder(t') == InOrder(t) && Nodes(t') == Nodes(t)
    ensures Same(c, t, c, t')
  {
    PlugInOrder(c, t);
    PlugInOrder(c, t');
  }

  lemma {:induction false} Zip<N>(m: Mem<N>, c: Ctx<N>, t: Tree<N>, z: Ends<N>)
    requires Focus(m, c, t, z)
    ensures Focus(m, Top, Plug(c, t), z)
    decreases c
  {
    match c {
      case Top =>
      case InLeft(up, n, k, r) => Zip(m, up, Fork(t, n, k, r), z);
      case InRight(up, l, n, k) => Zip(m, up, Fork(l, n, k, t), z);
    }
  }

  /** One level up: the subtree together with its owner. */
  function Join<N>(c: Ctx<N>, t: Tree<N>): (j: Tree<N>)
    requires !c.Top?
    ensures j.Fork? && j.node == c.node && j.color == c.color
  {
    match c
    case InLeft(_, n, k, r) => Fork(t, n, k, r)
    case InRight(_, l, n, k) => Fork(l, n, k, t)
  }

  lemma FocusUp<N>(m: Mem<N>, c: Ctx<N>, t: Tree<N>, z: Ends<N>)
    requires !c.Top?
    ensures Focus(m, c, t, z) <==> Focus(m, c.up, Join(c, t), z)
    ensures Same(c, t, c.up, Join(c, t))
  {
  }

  /** A subtree of a red-black tree that is held in memory, seen from inside. */
  ghost predicate Inside<N>(m: Mem<N>, whole: Tree<N>, c: Ctx<N>, t: Tree<N>, z: Ends<N>) {
    && Focus(m, c, t, z)
    && Balanced(t) && CtxBalanced(c, BlackHeight(t)) && (UnderRed(c) || c.Top? ==> !IsRed(t))
    && Plug(c, t) == whole && CtxNodes(c) + Nodes(t) == Nodes(whole)
  }

  lemma InsideWhole<N>(m: Mem<N>, whole: Tree<N>, c: Ctx<N>, t: Tree<N>, z: Ends<N>)
    requires Inside(m, whole, c, t, z)
    ensures Plug(c, t) == whole && CtxNodes(c) + Nodes(t) == Nodes(whole) && CtxNodes(c) !! Nodes(t)
  {
  }

  lemma InsideLeft<N>(m: Mem<N>, whole: Tree<N>, c: Ctx<N>, t: Tree<N>, z: Ends<N>)
    requires Inside(m, whole, c, t, z) && t.Fork?
    ensures Inside(m, whole, InLeft(c, t.node, t.color, t.right), t.left, z)
    ensures m[t.node] == Cell(t.color, Owner(c, z), Ptr(t.left, z), Ptr(t.right, z))
  {
    FocusUp(m, InLeft(c, t.node, t.color, t.right), t.left, z);
  }

  lemma InsideRight<N>(m: Mem<N>, whole: Tree<N>, c: Ctx<N>, t: Tree<N>, z: Ends<N>)
    requires Inside(m, whole, c, t, z) && t.Fork?
    ensures Inside(m, whole, InRight(c, t.left, t.node, t.color), t.right, z)
    ensures m[t.node] == Cell(t.color, Owner(c, z), Ptr(t.left, z), Ptr(t.right, z))
  {
    FocusUp(m, InRight(c, t.left, t.node, t.color), t.right, z);
  }

  lemma InsideUp<N>(m: Mem<N>, whole: Tree<N>, c: Ctx<N>, t: Tree<N>, z: Ends<N>)
    requires Inside(m, whole, c, t, z) && !c.Top?
    ensures Inside(m, whole, c.up, Join(c, t), z)
  {
    hide Focus;
    FocusUp(m, c, t, z);
  }

  // ---------------------------------------------------------------------------------------
  // Assignments

  function SetColor<N>(m: Mem<N>, n: N, k: Color): Mem<N>
    requires n in m
  {
    m[n := m[n].(color := k)]
  }

  lemma FocusSetColor<N>(m: Mem<N>, c: Ctx<N>, t: Tree<N>, z: Ends<N>, k: Color)
    requires Focus(m, c, t, z) && t.Fork?
    ensures Focus(SetColor(m, t.node, k), c, Paint(t, k), z)
    ensures Same(c, t, c, Paint(t, k))
  {
    SameInside(c, t, Paint(t, k));
    var m' := SetColor(m, t.node, k);
    ReprFrame(m, m', t.left, t.node, z);
    ReprFrame(m, m', t.right, t.node, z);
    CtxFrame(m, m', c, t.node, z);
  }

  /** The child pointer of the owner of the hole is changed from `hole` to `next`. */
  function Relink<N>(m: Mem<N>, owner: N, hole: N, next: N): Mem<N>
    requires owner in m
  {
    if m[owner].left == hole then m[owner := m[owner].(left := next)]
    else m[owner := m[owner].(right := next)]
  }

  function SetParent<N>(m: Mem<N>, n: N, p: N): Mem<N>
    requires n in m
  {
    m[n := m[n].(parent := p)]
  }

  /** The four nodes a rotation touches are in memory and different. */
  predicate LeftReady<N(==)>(m: Mem<N>, x: N) {
    && x in m && m[x].right in m && m[x].parent in m && m[m[x].right].left in m
    && var y, p := m[x].right, m[x].parent; x != y && p !in {x, y, m[y].left} && m[y].left !in {x, y}
  }

  predicate RightReady<N(==)>(m: Mem<N>, x: N) {
    && x in m && m[x].left in m && m[x].parent in m && m[m[x].left].right in m
    && var y, p := m[x].left, m[x].parent; x != y && p !in {x, y, m[y].right} && m[y].right !in {x, y}
  }

  /** left_rotate as a whole: the middle subtree re-hung, the owner re-linked, two cells rewritten. */
  function LeftRotated<N(==)>(m: Mem<N>, x: N, z: Ends<N>): Mem<N>
    requires LeftReady(m, x)
  {
    var y, p := m[x].right, m[x].parent;
    var b := m[y].left;
    var m1 := if b != z.nill then SetParent(m, b, x) else m;
    Relink(m1, p, x, y)[x := Cell(m[x].color, y, m[x].left, b)][y := Cell(m[y].color, p, x, m[y].right)]
  }

  function RightRotated<N(==)>(m: Mem<N>, x: N, z: Ends<N>): Mem<N>
    requires RightReady(m, x)
  {
    var y, p := m[x].left, m[x].parent;
    var b := m[y].right;
    var m1 := if b != z.nill then SetParent(m, b, x) else m;
    Relink(m1, p, x, y)[x := Cell(m[x].color, y, b, m[x].right)][y := Cell(m[y].color, p, m[y].left, x)]
  }

  /** The cells after a rotation, one by one. */
  lemma LeftRotatedAt<N>(m: Mem<N>, x: N, z: Ends<N>)
    requires LeftReady(m, x)
    ensures var y, p, m' := m[x].right, m[x].parent, LeftRotated(m, x, z); var b := m[y].left;
            && m'.Keys == m.Keys
            && m'[x] == Cell(m[x].color, y, m[x].left, b) && m'[y] == Cell(m[y].color, p, x, m[y].right)
            && m'[b] == (if b != z.nill then m[b].(parent := x) else m[b])
            && m'[p] == (if m[p].left == x then m[p].(left := y) else m[p].(right := y))
            && forall n :: n in m && n !in {x, y, b, p} ==> m'[n] == m[n]
  {
  }

  lemma RightRotatedAt<N>(m: Mem<N>, x: N, z: Ends<N>)
    requires RightReady(m, x)
    ensures var y, p, m' := m[x].left, m[x].parent, RightRotated(m, x, z); var b := m[y].right;
            && m'.Keys == m.Keys
            && m'[x] == Cell(m[x].color, y, b, m[x].right) && m'[y] == Cell(m[y].color, p, m[y].left, x)
            && m'[b] == (if b != z.nill then m[b].(parent := x) else m[b])
            && m'[p] == (if m[p].left == x then m[p].(left := y) else m[p].(right := y))
            && forall n :: n in m && n !in {x, y, b, p} ==> m'[n] == m[n]
  {
  }

  lemma {:induction false} RootInMemory<N>(m: Mem<N>, c: Ctx<N>, hole: N, z: Ends<N>)
    requires CtxRepr(m, c, hole, z)
    ensures z.root in m
    decreases c
  {
    if !c.Top? {
      RootInMemory(m, c.up, c.node, z);
    }
  }

  /** Every pointer the rotation follows is that of a node in memory. */
  lemma OwnerInMemory<N>(m: Mem<N>, c: Ctx<N>, t: Tree<N>, z: Ends<N>)
    requires Focus(m, c, t, z)
    ensures Owner(c, z) in m && Ptr(t, z) in m && Owner(c, z) !in Nodes(t) && Owner(c, z) != z.nill
    ensures t.Fork? ==> Ptr(t.left, z) in m && Ptr(t.right, z) in m
  {
    if t.Fork? {
      assert Repr(m, t.left, t.node, z) && Repr(m, t.right, t.node, z);
    }
  }

  /** Changing the child pointer of the owner of the hole re-fills the hole. */
  lemma CtxRelink<N>(m: Mem<N>, c: Ctx<N>, hole: N, next: N, z: Ends<N>)
    requires CtxRepr(m, c, hole, z) && CtxDistinct(c) && z.root !in CtxNodes(c)
    requires hole != z.nill && hole !in CtxNodes(c)
    requires Owner(c, z) in m
    ensures CtxRepr(Relink(m, Owner(c, z), hole, next), c, next, z)
  {
    var m' := Relink(m, Owner(c, z), hole, next);
    match c {
      case Top =>
      case InLeft(up, n, k, r) => CtxFrame(m, m', up, n, z); ReprFrame(m, m', r, n, z);
      case InRight(up, l, n, k) => CtxFrame(m, m', up, n, z); ReprFrame(m, m', l, n, z);
    }
  }

  /** A subtree whose root gets another parent. */
  lemma ReprSetParent<N>(m: Mem<N>, t: Tree<N>, p: N, q: N, z: Ends<N>)
    requires Repr(m, t, p, z) && Distinct(t) && t.Fork?
    ensures t.node in m && Repr(SetParent(m, t.node, q), t, q, z)
  {
    var m' := SetParent(m, t.node, q);
    ReprFrame(m, m', t.left, t.node, z);
    ReprFrame(m, m', t.right, t.node, z);
  }

  /** The middle subtree of a rotation changes parent. */
  function Rehung<N>(m: Mem<N>, b: Tree<N>, q: N): Mem<N>
    requires b.Fork? ==> b.node in m
  {
    if b.Fork? then SetParent(m, b.node, q) else m
  }

  lemma LeftRotatedCells<N>(m: Mem<N>, c: Ctx<N>, t: Tree<N>, z: Ends<N>)
    requires Focus(m, c, t, z) && t.Fork? && t.right.Fork?
    ensures LeftReady(m, t.node)
    ensures t.right.left.Fork? ==> t.right.left.node in m
    ensures Owner(c, z) in m
    ensures var x, y := t.node, t.right.node;
            LeftRotated(m, x, z) ==
              Relink(Rehung(m, t.right.left, x), Owner(c, z), x, y)
                [x := Cell(t.color, y, Ptr(t.left, z), Ptr(t.right.left, z))]
                [y := Cell(t.right.color, Owner(c, z), x, Ptr(t.right.right, z))]
  {
    OwnerInMemory(m, c, t, z);
    var b := t.right.left;
    assert Repr(m, t.right, t.node, z) && Repr(m, b, t.right.node, z);
    assert Distinct(t.right);
    assert b.Fork? ==> b.node in Nodes(t.right) && b.node != t.right.node && b.node != t.node && b.node != Owner(c, z);
  }

  lemma RightRotatedCells<N>(m: Mem<N>, c: Ctx<N>, t: Tree<N>, z: Ends<N>)
    requires Focus(m, c, t, z) && t.Fork? && t.left.Fork?
    ensures RightReady(m, t.node)
    ensures t.left.right.Fork? ==> t.left.right.node in m
    ensures Owner(c, z) in m
    ensures var x, y := t.node, t.left.node;
            RightRotated(m, x, z) ==
              Relink(Rehung(m, t.left.right, x), Owner(c, z), x, y)
                [x := Cell(t.color, y, Ptr(t.left.right, z), Ptr(t.right, z))]
                [y := Cell(t.left.color, Owner(c, z), Ptr(t.left.left, z), x)]
  {
    OwnerInMemory(m, c, t, z);
    var b := t.left.right;
    assert Repr(m, t.left, t.node, z) && Repr(m, b, t.left.node, z);
    assert Distinct(t.left);
    assert b.Fork? ==> b.node in Nodes(t.left) && b.node != t.left.node && b.node != t.node && b.node != Owner(c, z);
  }

  /** The ingredients of a rotation: x with outer subtree a, its child y with subtrees b (middle) and d. */
  ghost predicate Rotatable<N>(m: Mem<N>, c: Ctx<N>, x: N, y: N, a: Tree<N>, b: Tree<N>, d: Tree<N>, z: Ends<N>) {
    && CtxRepr(m, c, x, z) && Owner(c, z) in m
    && Repr(m, a, x, z) && Repr(m, b, y, z) && Repr(m, d, y, z)
    && (b.Fork? ==> b.node in m)
    && Disjoint7(c, x, y, a, b, d, z)
  }

  ghost predicate Outside<N>(n: N, c: Ctx<N>, a: Tree<N>, b: Tree<N>, d: Tree<N>) {
    n !in CtxNodes(c) && n !in Nodes(a) && n !in Nodes(b) && n !in Nodes(d)
  }

  ghost predicate Disjoint7<N>(c: Ctx<N>, x: N, y: N, a: Tree<N>, b: Tree<N>, d: Tree<N>, z: Ends<N>) {
    && CtxDistinct(c) && Distinct(a) && Distinct(b) && Distinct(d) && x != y && z.root != z.nill
    && Outside(x, c, a, b, d) && Outside(y, c, a, b, d) && Outside(z.root, c, a, b, d) && Outside(z.nill, c, a, b, d)
    && z.root != x && z.root != y && z.nill != x && z.nill != y
    && CtxNodes(c) !! Nodes(a) && CtxNodes(c) !! Nodes(b) && CtxNodes(c) !! Nodes(d)
    && Nodes(a) !! Nodes(b) && Nodes(b) !! Nodes(d) && Nodes(a) !! Nodes(d)
  }

  /** The left or the right child of x is y. */
  lemma SeparateNested<N>(c: Ctx<N>, x: N, kx: Color, y: N, ky: Color, a: Tree<N>, b: Tree<N>, d: Tree<N>, z: Ends<N>)
    ensures Separate(c, Fork(a, x, kx, Fork(b, y, ky, d)), z) <==> Disjoint7(c, x, y, a, b, d, z)
    ensures Separate(c, Fork(Fork(d, y, ky, b), x, kx, a), z) <==> Disjoint7(c, x, y, a, b, d, z)
  {
    hide Separate, Disjoint7;
    var l, r := Fork(d, y, ky, b), Fork(b, y, ky, d);
    assert Nodes(l) == Nodes(r) == Nodes(b) + {y} + Nodes(d) && Distinct(l) == Distinct(r);
    assert Nodes(Fork(l, x, kx, a)) == Nodes(Fork(a, x, kx, r));
    SeparateSame(c, Fork(l, x, kx, a), Fork(a, x, kx, r), z);
    SeparateBelow(c, x, kx, r, a, y, b, d, z);
  }

  lemma SeparateSame<N>(c: Ctx<N>, t: Tree<N>, t': Tree<N>, z: Ends<N>)
    requires Nodes(t) == Nodes(t') && Distinct(t) == Distinct(t')
    ensures Separate(c, t, z) <==> Separate(c, t', z)
  {
    hide Nodes, Distinct;
  }

  lemma SeparateBelow<N>(c: Ctx<N>, x: N, kx: Color, t: Tree<N>, a: Tree<N>, y: N, b: Tree<N>, d: Tree<N>, z: Ends<N>)
    requires Nodes(t) == Nodes(b) + {y} + Nodes(d)
    requires Distinct(t) <==> y !in Nodes(b) && y !in Nodes(d) && Nodes(b) !! Nodes(d) && Distinct(b) && Distinct(d)
    ensures Separate(c, Fork(a, x, kx, t), z) <==> Disjoint7(c, x, y, a, b, d, z)
  {
    hide Distinct, CtxDistinct, Nodes, CtxNodes;
    ForkParts(x, kx, t, a);
    DisjointParts(Nodes(a), Nodes(b), y, Nodes(d));
    DisjointParts(CtxNodes(c), Nodes(a), x, Nodes(t));
    DisjointParts(CtxNodes(c), Nodes(b), y, Nodes(d));
  }

  lemma ForkParts<N>(x: N, kx: Color, t: Tree<N>, a: Tree<N>)
    ensures Nodes(Fork(a, x, kx, t)) == Nodes(a) + {x} + Nodes(t)
    ensures Distinct(Fork(a, x, kx, t)) <==> Distinct(a) && Distinct(t) && x !in Nodes(a) && x !in Nodes(t) && Nodes(a) !! Nodes(t)
  {
  }

  lemma DisjointParts<N>(s: set<N>, a: set<N>, x: N, b: set<N>)
    ensures s !! a + {x} + b <==> s !! a && x !in s && s !! b
  {
    if s !! a + {x} + b {
      forall n | n in s ensures n !in a && n != x && n !in b {
        assert n !in a + {x} + b;
      }
    }
  }

  /** What re-hanging and re-linking leave intact around a rotation of x with its child y. */
  lemma RotateFrame<N>(m: Mem<N>, c: Ctx<N>, x: N, y: N, a: Tree<N>, b: Tree<N>, d: Tree<N>, z: Ends<N>,
                             cx: Cell<N>, cy: Cell<N>)
    requires Rotatable(m, c, x, y, a, b, d, z)
    ensures var m' := Relink(Rehung(m, b, x), Owner(c, z), x, y)[x := cx][y := cy];
            Repr(m', a, x, z) && Repr(m', b, x, z) && Repr(m', d, y, z) && CtxRepr(m', c, y, z)
  {
    hide Repr, CtxRepr, Distinct, CtxDistinct;
    var m2 := Relink(Rehung(m, b, x), Owner(c, z), x, y);
    var m' := m2[x := cx][y := cy];
    RotateLinks(m, c, x, y, a, b, d, z);
    ReprFrame(m2, m', a, x, z);
    ReprFrame(m2, m', b, x, z);
    ReprFrame(m2, m', d, y, z);
    CtxFrame(m2, m', c, y, z);
  }

  lemma RotateLinks<N>(m: Mem<N>, c: Ctx<N>, x: N, y: N, a: Tree<N>, b: Tree<N>, d: Tree<N>, z: Ends<N>)
    requires Rotatable(m, c, x, y, a, b, d, z)
    ensures var m2 := Relink(Rehung(m, b, x), Owner(c, z), x, y);
            Repr(m2, a, x, z) && Repr(m2, b, x, z) && Repr(m2, d, y, z) && CtxRepr(m2, c, y, z)
  {
    var m1 := Rehung(m, b, x);
    var m2 := Relink(m1, Owner(c, z), x, y);
    if b.Fork? {
      ReprSetParent(m, b, y, x, z);
      assert b.node in Nodes(b);
    }
    assert Owner(c, z) in CtxNodes(c) + {z.root};
    hide Repr, CtxRepr, Distinct, CtxDistinct, Nodes, CtxNodes, Owner;
    CtxFrame(m, m1, c, x, z);
    CtxRelink(m1, c, x, y, z);
    ReprFrame(m, m2, a, x, z);
    ReprFrame(m1, m2, b, x, z);
    ReprFrame(m, m2, d, y, z);
  }

  lemma FocusLeftRotate<N>(m: Mem<N>, c: Ctx<N>, t: Tree<N>, z: Ends<N>)
    requires Focus(m, c, t, z) && t.Fork? && t.right.Fork?
    ensures LeftReady(m, t.node)
    ensures Focus(LeftRotated(m, t.node, z), c, RotateLeft(t), z) && Same(c, t, c, RotateLeft(t))
    ensures LeftRotated(m, t.node, z)[z.nill] == m[z.nill]
  {
    RotateInOrder(t.left, t.node, t.color, t.right.left, t.right.node, t.right.color, t.right.right);
    RotateNodes(t.left, t.node, t.color, t.right.left, t.right.node, t.right.color, t.right.right);
    SameInside(c, t, RotateLeft(t));
    LeftRotatedFocus(m, c, t, z);
  }

  lemma LeftRotatedFocus<N>(m: Mem<N>, c: Ctx<N>, t: Tree<N>, z: Ends<N>)
    requires Focus(m, c, t, z) && t.Fork? && t.right.Fork?
    ensures LeftReady(m, t.node)
    ensures Focus(LeftRotated(m, t.node, z), c, RotateLeft(t), z)
    ensures LeftRotated(m, t.node, z)[z.nill] == m[z.nill]
  {
    var x, y, a, b, d := t.node, t.right.node, t.left, t.right.left, t.right.right;
    LeftRotatedCells(m, c, t, z);
    SeparateNested(c, x, t.color, y, t.right.color, a, b, d, z);
    SeparateNested(c, y, t.right.color, x, t.color, d, b, a, z);
    assert Repr(m, t.right, x, z);
    RotateFrame(m, c, x, y, a, b, d, z, Cell(t.color, y, Ptr(a, z), Ptr(b, z)),
                Cell(t.right.color, Owner(c, z), x, Ptr(d, z)));
  }

  lemma FocusRightRotate<N>(m: Mem<N>, c: Ctx<N>, t: Tree<N>, z: Ends<N>)
    requires Focus(m, c, t, z) && t.Fork? && t.left.Fork?
    ensures RightReady(m, t.node)
    ensures Focus(RightRotated(m, t.node, z), c, RotateRight(t), z) && Same(c, t, c, RotateRight(t))
    ensures RightRotated(m, t.node, z)[z.nill] == m[z.nill]
  {
    RotateInOrder(t.left.left, t.left.node, t.left.color, t.left.right, t.node, t.color, t.right);
    RotateNodes(t.left.left, t.left.node, t.left.color, t.left.right, t.node, t.color, t.right);
    SameInside(c, t, RotateRight(t));
    RightRotatedFocus(m, c, t, z);
  }

  lemma RightRotatedFocus<N>(m: Mem<N>, c: Ctx<N>, t: Tree<N>, z: Ends<N>)
    requires Focus(m, c, t, z) && t.Fork? && t.left.Fork?
    ensures RightReady(m, t.node)
    ensures Focus(RightRotated(m, t.node, z), c, RotateRight(t), z)
    ensures RightRotated(m, t.node, z)[z.nill] == m[z.nill]
  {
    var x, y, a, b, d := t.node, t.left.node, t.right, t.left.right, t.left.left;
    RightRotatedCells(m, c, t, z);
    SeparateNested(c, x, t.color, y, t.left.color, a, b, d, z);
    SeparateNested(c, y, t.left.color, x, t.color, d, b, a, z);
    assert Repr(m, t.left, x, z);
    RotateFrame(m, c, x, y, a, b, d, z, Cell(t.color, y, Ptr(b, z), Ptr(a, z)),
                Cell(t.left.color, Owner(c, z), Ptr(d, z), x));
  }

  /** The child pointer on the side of the hole is set. */
  function SetChild<N>(m: Mem<N>, c: Ctx<N>, z: Ends<N>, next: N): Mem<N>
    requires Owner(c, z) in m
  {
    var o := Owner(c, z);
    if c.InRight? then m[o := m[o].(right := next)] else m[o := m[o].(left := next)]
  }

  lemma CtxSetChild<N>(m: Mem<N>, c: Ctx<N>, hole: N, next: N, z: Ends<N>)
    requires CtxRepr(m, c, hole, z) && CtxDistinct(c) && z.root !in CtxNodes(c)
    ensures Owner(c, z) in m && CtxRepr(SetChild(m, c, z, next), c, next, z)
  {
    var m' := SetChild(m, c, z, next);
    match c {
      case Top =>
      case InLeft(up, n, k, r) => CtxFrame(m, m', up, n, z); ReprFrame(m, m', r, n, z);
      case InRight(up, l, n, k) => CtxFrame(m, m', up, n, z); ReprFrame(m, m', l, n, z);
    }
  }

  /** A new red leaf node is linked in where the search ended. */
  lemma FocusAttach<N>(m: Mem<N>, c: Ctx<N>, n: N, z: Ends<N>)
    requires Focus(m, c, Leaf, z) && n !in CtxNodes(c) && n != z.root && n != z.nill
    ensures Owner(c, z) in m
    ensures Focus(SetChild(m, c, z, n)[n := Cell(Red, Owner(c, z), z.nill, z.nill)], c, Fork(Leaf, n, Red, Leaf), z)
  {
    CtxSetChild(m, c, z.nill, n, z);
    var m1 := SetChild(m, c, z, n);
    var m' := m1[n := Cell(Red, Owner(c, z), z.nill, z.nill)];
    CtxFrame(m1, m', c, n, z);
  }

  /** Lines 238-248: the only subtree b below a node takes the place of the node. */
  function Unlinked<N>(m: Mem<N>, c: Ctx<N>, b: Tree<N>, z: Ends<N>): Mem<N>
    requires Ptr(b, z) in m && Owner(c, z) in m
  {
    SetChild(SetParent(m, Ptr(b, z), Owner(c, z)), c, z, Ptr(b, z))
  }

  lemma FocusUnlink<N>(m: Mem<N>, c: Ctx<N>, t: Tree<N>, b: Tree<N>, z: Ends<N>)
    requires Focus(m, c, t, z) && t.Fork? && ((b == t.left && t.right.Leaf?) || (b == t.right && t.left.Leaf?))
    ensures Ptr(b, z) in m && Owner(c, z) in m && Owner(c, z) != t.node && Ptr(b, z) != t.node
    ensures var m' := Unlinked(m, c, b, z);
            && Focus(m' - {t.node}, c, b, z)
            && (m' - {t.node})[z.nill].parent == (if b.Leaf? then Owner(c, z) else m[z.nill].parent)
  {
    OwnerInMemory(m, c, t, z);
    assert Distinct(b) && Repr(m, b, t.node, z);
    var m1 := SetParent(m, Ptr(b, z), Owner(c, z));
    CtxFrame(m, m1, c, t.node, z);
    if b.Fork? {
      ReprSetParent(m, b, t.node, Owner(c, z), z);
    }
    CtxSetChild(m1, c, t.node, Ptr(b, z), z);
    var m2 := Unlinked(m, c, b, z);
    var m' := m2 - {t.node};
    CtxFrame(m2, m', c, Ptr(b, z), z);
    ReprFrame(m1, m', b, Owner(c, z), z);
  }
}
