/**
 Red-black trees as values: the shape that the linked nodes of ompi_rb_tree.c form, a
 one-hole context for the part of the tree above a node, and the balance facts that
 insertion and deletion rely on. `N` is the type of node identities.
 */
module RbShape {

  datatype Color = Red | Black

  datatype Tree<N> = Leaf | Fork(left: Tree<N>, node: N, color: Color, right: Tree<N>)

  /** The path from a subtree up to the root sentinel: InLeft means the hole is the left child. */
  datatype Ctx<N> =
    | Top
    | InLeft(up: Ctx<N>, node: N, color: Color, right: Tree<N>)
    | InRight(up: Ctx<N>, left: Tree<N>, node: N, color: Color)

  ghost function Nodes<N>(t: Tree<N>): set<N> {
    match t
    case Leaf => {}
    case Fork(l, n, _, r) => Nodes(l) + {n} + Nodes(r)
  }

  ghost function CtxNodes<N>(c: Ctx<N>): set<N> {
    match c
    case Top => {}
    case InLeft(up, n, _, r) => CtxNodes(up) + {n} + Nodes(r)
    case InRight(up, l, n, _) => CtxNodes(up) + {n} + Nodes(l)
  }

  ghost function InOrder<N>(t: Tree<N>): seq<N> {
    match t
    case Leaf => []
    case Fork(l, n, _, r) => InOrder(l) + [n] + InOrder(r)
  }

  /** What comes before and after the hole in the in-order sequence. */
  ghost function Pre<N>(c: Ctx<N>): seq<N> {
    match c
    case Top => []
    case InLeft(up, _, _, _) => Pre(up)
    case InRight(up, l, n, _) => Pre(up) + InOrder(l) + [n]
  }

  ghost function Post<N>(c: Ctx<N>): seq<N> {
    match c
    case Top => []
    case InLeft(up, n, _, r) => [n] + InOrder(r) + Post(up)
    case InRight(up, _, _, _) => Post(up)
  }

  ghost function Plug<N>(c: Ctx<N>, t: Tree<N>): Tree<N>
    decreases c
  {
    match c
    case Top => t
    case InLeft(up, n, k, r) => Plug(up, Fork(t, n, k, r))
    case InRight(up, l, n, k) => Plug(up, Fork(l, n, k, t))
  }

  ghost function Depth<N>(c: Ctx<N>): nat {
    match c
    case Top => 0
    case InLeft(up, _, _, _) => Depth(up) + 1
    case InRight(up, _, _, _) => Depth(up) + 1
  }

  /** No node identity occurs twice. */
  ghost predicate Distinct<N>(t: Tree<N>) {
    match t
    case Leaf => true
    case Fork(l, n, _, r) => n !in Nodes(l) && n !in Nodes(r) && Nodes(l) !! Nodes(r) && Distinct(l) && Distinct(r)
  }

  ghost predicate CtxDistinct<N>(c: Ctx<N>) {
    match c
    case Top => true
    case InLeft(up, n, _, t) =>
      && n !in CtxNodes(up) && n !in Nodes(t) && CtxNodes(up) !! Nodes(t)
      && CtxDistinct(up) && Distinct(t)
    case InRight(up, t, n, _) =>
      && n !in CtxNodes(up) && n !in Nodes(t) && CtxNodes(up) !! Nodes(t)
      && CtxDistinct(up) && Distinct(t)
  }

  predicate IsRed<N>(t: Tree<N>) {
    t.Fork? && t.color == Red
  }

  /** The hole hangs below a red node. */
  predicate UnderRed<N>(c: Ctx<N>) {
    !c.Top? && c.color == Red
  }

  function Paint<N>(t: Tree<N>, k: Color): Tree<N>
    requires t.Fork?
  {
    t.(color := k)
  }

  function Weight(k: Color): nat {
    if k == Black then 1 else 0
  }

  /** Number of black nodes on the leftmost path. */
  function BlackHeight<N>(t: Tree<N>): nat {
    match t
    case Leaf => 0
    case Fork(l, _, k, _) => BlackHeight(l) + Weight(k)
  }

  /** Equal black heights and no red node below a red node. */
  predicate Balanced<N>(t: Tree<N>) {
    match t
    case Leaf => true
    case Fork(l, _, k, r) =>
      && Balanced(l) && Balanced(r) && BlackHeight(l) == BlackHeight(r)
      && (k == Red ==> !IsRed(l) && !IsRed(r))
  }

  /** A red-black tree: balanced, with a black root. */
  predicate RedBlack<N>(t: Tree<N>) {
    Balanced(t) && !IsRed(t)
  }

  /** The context is the rest of a red-black tree whose missing subtree has black height h. */
  predicate CtxBalanced<N>(c: Ctx<N>, h: nat) {
    match c
    case Top => true
    case InLeft(up, _, k, t) =>
      && Balanced(t) && BlackHeight(t) == h
      && (k == Red ==> !IsRed(t) && !up.Top? && up.color == Black)
      && CtxBalanced(up, h + Weight(k))
    case InRight(up, t, _, k) =>
      && Balanced(t) && BlackHeight(t) == h
      && (k == Red ==> !IsRed(t) && !up.Top? && up.color == Black)
      && CtxBalanced(up, h + Weight(k))
  }

  // ---------------------------------------------------------------------------------------
  // Plugging

  lemma {:induction false} PlugInOrder<N>(c: Ctx<N>, t: Tree<N>)
    ensures InOrder(Plug(c, t)) == Pre(c) + InOrder(t) + Post(c)
    decreases c
  {
    match c {
      case Top =>
      case InLeft(up, n, k, r) =>
        PlugInOrder(up, Fork(t, n, k, r));
        Regroup(Pre(up), InOrder(t), [n], InOrder(r), Post(up));
      case InRight(up, l, n, k) =>
        PlugInOrder(up, Fork(l, n, k, t));
        Regroup(Pre(up), InOrder(l), [n], InOrder(t), Post(up));
    }
  }

  lemma Regroup<N>(p: seq<N>, a: seq<N>, n: seq<N>, b: seq<N>, q: seq<N>)
    ensures p + (a + n + b) + q == p + a + (n + b + q)
    ensures p + (a + n + b) + q == p + a + n + b + q
  {
  }

  lemma {:induction false} PlugNodes<N>(c: Ctx<N>, t: Tree<N>)
    ensures Nodes(Plug(c, t)) == CtxNodes(c) + Nodes(t)
    decreases c
  {
    match c {
      case Top =>
      case InLeft(up, n, k, r) => PlugNodes(up, Fork(t, n, k, r));
      case InRight(up, l, n, k) => PlugNodes(up, Fork(l, n, k, t));
    }
  }

  /** Filling the hole with a balanced tree of the right height gives a red-black tree. */
  lemma {:induction false} PlugBalanced<N>(c: Ctx<N>, t: Tree<N>, h: nat)
    requires CtxBalanced(c, h) && Balanced(t) && (c.Top? || BlackHeight(t) == h)
    requires UnderRed(c) || c.Top? ==> !IsRed(t)
    ensures RedBlack(Plug(c, t))
    decreases c
  {
    match c {
      case Top =>
      case InLeft(up, n, k, r) => PlugBalanced(up, Fork(t, n, k, r), h + Weight(k));
      case InRight(up, l, n, k) => PlugBalanced(up, Fork(l, n, k, t), h + Weight(k));
    }
  }

  /** The root of a plugged tree comes from the top of the context. */
  lemma {:induction false} PlugRoot<N>(c: Ctx<N>, t: Tree<N>, h: nat)
    requires !c.Top? && CtxBalanced(c, h)
    ensures Plug(c, t).Fork? && Plug(c, t).node in CtxNodes(c) && Plug(c, t).color == Black
    decreases c
  {
    match c {
      case InLeft(up, n, k, r) =>
        if !up.Top? { PlugRoot(up, Fork(t, n, k, r), h + Weight(k)); }
      case InRight(up, l, n, k) =>
        if !up.Top? { PlugRoot(up, Fork(l, n, k, t), h + Weight(k)); }
    }
  }

  // ---------------------------------------------------------------------------------------
  // Height

  function Pow2(n: nat): (p: nat)
    ensures p >= 1
  {
    if n == 0 then 1 else 2 * Pow2(n - 1)
  }

  /** A balanced tree has at least 2 ^ blackheight - 1 nodes. */
  lemma {:induction false} SizeFromBlackHeight<N>(t: Tree<N>)
    requires Balanced(t)
    ensures Pow2(BlackHeight(t)) <= |InOrder(t)| + 1
  {
    if t.Fork? {
      SizeFromBlackHeight(t.left);
      SizeFromBlackHeight(t.right);
    }
  }

  /** Red nodes have black owners, so a path is at most twice as long as it is black. */
  lemma {:induction false} DepthBound<N>(c: Ctx<N>, t: Tree<N>)
    requires Balanced(t) && CtxBalanced(c, BlackHeight(t)) && (UnderRed(c) || c.Top? ==> !IsRed(t))
    ensures BlackHeight(t) <= BlackHeight(Plug(c, t))
    ensures Depth(c) <= 2 * (BlackHeight(Plug(c, t)) - BlackHeight(t))
    ensures !c.Top? && !UnderRed(c) ==> Depth(c) < 2 * (BlackHeight(Plug(c, t)) - BlackHeight(t))
    decreases c
  {
    match c {
      case Top =>
      case InLeft(up, n, k, r) => DepthBound(up, Fork(t, n, k, r));
      case InRight(up, l, n, k) => DepthBound(up, Fork(l, n, k, t));
    }
  }

  /** The number of nodes looked at on the way to t is at most 2 * log2(n + 1). */
  lemma PathBound<N>(c: Ctx<N>, t: Tree<N>, looked: nat)
    requires Balanced(t) && CtxBalanced(c, BlackHeight(t)) && (UnderRed(c) || c.Top? ==> !IsRed(t))
    requires RedBlack(Plug(c, t)) && looked == Depth(c) + if t.Fork? then 1 else 0
    ensures Pow2((looked + 1) / 2) <= |InOrder(Plug(c, t))| + 1
  {
    DepthBound(c, t);
    SizeFromBlackHeight(Plug(c, t));
    Pow2Monotone((looked + 1) / 2, BlackHeight(Plug(c, t)));
  }

  lemma {:induction false} Pow2Monotone(a: nat, b: nat)
    requires a <= b
    ensures Pow2(a) <= Pow2(b)
    decreases b
  {
    if a < b {
      Pow2Monotone(a, b - 1);
    }
  }

  // ---------------------------------------------------------------------------------------
  // Rotations

  function RotateLeft<N>(t: Tree<N>): Tree<N>
    requires t.Fork? && t.right.Fork?
  {
    var y := t.right;
    y.(left := t.(right := y.left))
  }

  function RotateRight<N>(t: Tree<N>): Tree<N>
    requires t.Fork? && t.left.Fork?
  {
    var y := t.left;
    y.(right := t.(left := y.right))
  }

  lemma RotateInOrder<N>(a: Tree<N>, x: N, kx: Color, b: Tree<N>, y: N, ky: Color, c: Tree<N>)
    ensures InOrder(Fork(a, x, kx, Fork(b, y, ky, c))) == InOrder(Fork(Fork(a, x, kx, b), y, ky, c))
  {
    var p, q, r := InOrder(a), InOrder(b), InOrder(c);
    assert InOrder(Fork(a, x, kx, Fork(b, y, ky, c))) == p + [x] + (q + [y] + r);
    assert InOrder(Fork(Fork(a, x, kx, b), y, ky, c)) == (p + [x] + q) + [y] + r;
  }

  lemma RotateNodes<N>(a: Tree<N>, x: N, kx: Color, b: Tree<N>, y: N, ky: Color, c: Tree<N>)
    ensures Nodes(Fork(a, x, kx, Fork(b, y, ky, c))) == Nodes(Fork(Fork(a, x, kx, b), y, ky, c))
    ensures Distinct(Fork(a, x, kx, Fork(b, y, ky, c))) <==> Distinct(Fork(Fork(a, x, kx, b), y, ky, c))
  {
    assert Nodes(Fork(a, x, kx, Fork(b, y, ky, c))) == Nodes(a) + {x} + (Nodes(b) + {y} + Nodes(c));
    assert Nodes(Fork(Fork(a, x, kx, b), y, ky, c)) == Nodes(a) + {x} + Nodes(b) + {y} + Nodes(c);
  }
}
