/**
 The red-black tree of ompi/class/ompi_rb_tree.c: linked nodes with parent pointers, a root
 sentinel whose left child is the real root, and a shared nill sentinel.
 */
module OmpiRbTree {
  import opened Wrappers
  import opened RbShape
  import opened RbMemory
  import opened RbFixup

  type Key(!new)
  type Value(!new)

  datatype Entry = Entry(key: Key, value: Value)

  datatype Status = Success | OutOfResource | NotFound

  class Node {
    var color: Color
    var parent: Node
    var left: Node
    var right: Node
    var key: Key
    var value: Value

    constructor (key: Key, value: Value)
      ensures fresh(this)
    {
      color, parent, left, right := Black, this, this, this;
      this.key, this.value := key, value;
    }
  }

  ghost function CellOf(n: Node): Cell<Node>
    reads n`color, n`parent, n`left, n`right
  {
    Cell(n.color, n.parent, n.left, n.right)
  }

  /** m holds the link fields of the nodes in s. */
  ghost predicate Tracks(m: Mem<Node>, s: set<Node>)
    reads s`color, s`parent, s`left, s`right
  {
    m.Keys == s && forall n :: n in s ==> m[n] == CellOf(n)
  }

  /** Two cells of the nodes in s, or of new ones, have been written. */
  lemma TracksTwo(m: Mem<Node>, s: set<Node>, a: Node, b: Node)
    requires m.Keys == s && forall n :: n in s && n != a && n != b ==> m[n] == CellOf(n)
    ensures Tracks(m[a := CellOf(a)][b := CellOf(b)], s + {a, b})
  {
    var m' := m[a := CellOf(a)][b := CellOf(b)];
    forall n | n in s + {a, b} ensures n in m' && m'[n] == CellOf(n) {
    }
  }

  /** left_rotate: x becomes the left child of its right child. */
  method LeftRotate(x: Node, z: Ends<Node>, ghost m: Mem<Node>, ghost s: set<Node>)
    requires Tracks(m, s) && LeftReady(m, x)
    modifies s`parent, s`left, s`right
    ensures Tracks(LeftRotated(m, x, z), s)
  {
    hide LeftRotated;
    var y := x.right;
    ghost var b, p := y.left, x.parent;
    if y.left != z.nill {
      y.left.parent := x;
    }
    if x == x.parent.left {
      x.parent.left := y;
    } else {
      x.parent.right := y;
    }
    y.parent := x.parent;
    x.parent := y;
    x.right := y.left;
    y.left := x;
    assert CellOf(x) == Cell(m[x].color, y, m[x].left, b);
    assert CellOf(y) == Cell(m[y].color, p, x, m[y].right);
    assert CellOf(b) == if b != z.nill then m[b].(parent := x) else m[b];
    assert CellOf(p) == if m[p].left == x then m[p].(left := y) else m[p].(right := y);
    assert forall n :: n in s - {x, y, b, p} ==> CellOf(n) == m[n];
    LeftRotatedAt(m, x, z);
  }

  /** right_rotate: x becomes the right child of its left child. */
  method RightRotate(x: Node, z: Ends<Node>, ghost m: Mem<Node>, ghost s: set<Node>)
    requires Tracks(m, s) && RightReady(m, x)
    modifies s`parent, s`left, s`right
    ensures Tracks(RightRotated(m, x, z), s)
  {
    hide RightRotated;
    var y := x.left;
    ghost var b, p := y.right, x.parent;
    if y.right != z.nill {
      y.right.parent := x;
    }
    if x == x.parent.left {
      x.parent.left := y;
    } else {
      x.parent.right := y;
    }
    y.parent := x.parent;
    x.parent := y;
    x.left := y.right;
    y.right := x;
    assert CellOf(x) == Cell(m[x].color, y, b, m[x].right);
    assert CellOf(y) == Cell(m[y].color, p, m[y].left, x);
    assert CellOf(b) == if b != z.nill then m[b].(parent := x) else m[b];
    assert CellOf(p) == if m[p].left == x then m[p].(left := y) else m[p].(right := y);
    assert forall n :: n in s - {x, y, b, p} ==> CellOf(n) == m[n];
    RightRotatedAt(m, x, z);
  }

  /** The assignments at the end of btree_insert: node becomes a red leaf below parent. */
  method LinkLeaf(node: Node, parent: Node, onLeft: bool, nill: Node, ghost m: Mem<Node>, ghost s: set<Node>)
    requires Tracks(m, s) && parent in s && node !in s
    modifies parent`left, parent`right, node`color, node`parent, node`left, node`right
    ensures var m1 := if onLeft then m[parent := m[parent].(left := node)] else m[parent := m[parent].(right := node)];
            Tracks(m1[node := Cell(Red, parent, nill, nill)], s + {node})
  {
    node.color := Red;
    if onLeft {
      parent.left := node;
    } else {
      parent.right := node;
    }
    node.parent := parent;
    node.left := nill;
    node.right := nill;
    assert CellOf(parent) == if onLeft then m[parent].(left := node) else m[parent].(right := node);
    assert CellOf(node) == Cell(Red, parent, nill, nill);
    assert forall n :: n in s && n != parent ==> CellOf(n) == m[n];
    TracksTwo(m, s, parent, node);
    assert s + {parent, node} == s + {node};
  }

  lemma AttachedInv(m: Mem<Node>, whole: Tree<Node>, c: Ctx<Node>, node: Node, z: Ends<Node>)
    requires Inside(m, whole, c, Leaf, z) && node !in Nodes(whole) && node != z.root && node != z.nill
    ensures Owner(c, z) in m
    ensures InsertInv(SetChild(m, c, z, node)[node := Cell(Red, Owner(c, z), z.nill, z.nill)], c, Fork(Leaf, node, Red, Leaf), z, 0)
  {
    FocusAttach(m, c, node, z);
  }

  /** The rest of btree_insert: the new node becomes a red leaf at the place found. */
  method AttachLeaf(node: Node, parent: Node, onLeft: bool, z: Ends<Node>, ghost m: Mem<Node>, ghost s: set<Node>,
                    ghost whole: Tree<Node>, ghost c: Ctx<Node>)
    returns (ghost m': Mem<Node>)
    requires Tracks(m, s) && node !in s && s == Nodes(whole) + {z.root, z.nill}
    requires Inside(m, whole, c, Leaf, z) && parent == Owner(c, z) && (onLeft <==> !c.InRight?)
    modifies parent`left, parent`right, node`color, node`parent, node`left, node`right
    ensures Tracks(m', s + {node}) && InsertInv(m', c, Fork(Leaf, node, Red, Leaf), z, 0)
  {
    hide Inside, InsertInv, Nodes;
    AttachedInv(m, whole, c, node, z);
    LinkLeaf(node, parent, onLeft, z.nill, m, s);
    m' := SetChild(m, c, z, node)[node := Cell(Red, parent, z.nill, z.nill)];
  }

  /** The data of a node. */
  method Fill(node: Node, key: Key, value: Value)
    modifies node`key, node`value
    ensures node.key == key && node.value == value
  {
    node.key := key;
    node.value := value;
  }

  /** The assignment n->color = k. */
  method PaintNode(n: Node, k: Color, ghost m: Mem<Node>, ghost s: set<Node>) returns (ghost m': Mem<Node>)
    requires Tracks(m, s) && n in s
    modifies n`color
    ensures m' == SetColor(m, n, k) && Tracks(m', s)
  {
    n.color := k;
    m' := SetColor(m, n, k);
  }

  // ---------------------------------------------------------------------------------------
  // The rotations of ompi_rb_tree_insert

  /** Lines 134-138 and 150-154: parent and uncle black, grandparent red, continue at the grandparent. */
  method RecolorUncle(node: Node, y: Node, z: Ends<Node>, ghost m: Mem<Node>, ghost s: set<Node>,
                      ghost c: Ctx<Node>, ghost t: Tree<Node>, ghost h: nat)
    returns (next: Node, ghost m': Mem<Node>, ghost c': Ctx<Node>, ghost t': Tree<Node>)
    requires Tracks(m, s) && InsertInv(m, c, t, z, h) && UnderRed(c) && IsRed(Sibling(c.up))
    requires node == t.node && y == Sibling(c.up).node
    modifies s`color
    ensures Tracks(m', s) && InsertInv(m', c', t', z, h + 1) && Same(c, t, c', t') && next == t'.node
    ensures Depth(c') < Depth(c)
  {
    InsertPointers(m, c, t, z, h);
    RecolorStep(m, c, t, z, h);
    m' := PaintNode(node.parent, Black, m, s);
    m' := PaintNode(y, Black, m', s);
    m' := PaintNode(node.parent.parent, Red, m', s);
    next := node.parent.parent;
    c', t' := c.up.up, Recolored(c, t);
  }

  /** Lines 141-142: an inner right grandchild; its parent is rotated left and takes its place. */
  method RotateInnerLeft(node: Node, z: Ends<Node>, ghost m: Mem<Node>, ghost s: set<Node>,
                         ghost c: Ctx<Node>, ghost t: Tree<Node>, ghost h: nat)
    returns (next: Node, ghost m': Mem<Node>, ghost c': Ctx<Node>, ghost t': Tree<Node>)
    requires Tracks(m, s) && InsertInv(m, c, t, z, h) && UnderRed(c) && c.InRight? && node == t.node
    modifies s`parent, s`left, s`right
    ensures Tracks(m', s) && InsertInv(m', c', t', z, h) && Same(c, t, c', t') && next == t'.node
    ensures c'.InLeft? && c'.up == c.up && UnderRed(c') && Depth(c') == Depth(c)
  {
    InsertPointers(m, c, t, z, h);
    InnerLeftStep(m, c, t, z, h);
    next := node.parent;
    LeftRotate(next, z, m, s);
    m' := LeftRotated(m, c.node, z);
    c', t' := InLeft(c.up, t.node, Red, t.right), Fork(c.left, c.node, Red, t.left);
  }

  /** Lines 157-158, the mirror image. */
  method RotateInnerRight(node: Node, z: Ends<Node>, ghost m: Mem<Node>, ghost s: set<Node>,
                          ghost c: Ctx<Node>, ghost t: Tree<Node>, ghost h: nat)
    returns (next: Node, ghost m': Mem<Node>, ghost c': Ctx<Node>, ghost t': Tree<Node>)
    requires Tracks(m, s) && InsertInv(m, c, t, z, h) && UnderRed(c) && c.InLeft? && node == t.node
    modifies s`parent, s`left, s`right
    ensures Tracks(m', s) && InsertInv(m', c', t', z, h) && Same(c, t, c', t') && next == t'.node
    ensures c'.InRight? && c'.up == c.up && UnderRed(c') && Depth(c') == Depth(c)
  {
    InsertPointers(m, c, t, z, h);
    InnerRightStep(m, c, t, z, h);
    next := node.parent;
    RightRotate(next, z, m, s);
    m' := RightRotated(m, c.node, z);
    c', t' := InRight(c.up, t.left, t.node, Red), Fork(t.right, c.node, Red, c.right);
  }

  /** Lines 144-146: an outer left grandchild with a black uncle; the grandparent is rotated right. */
  method RotateOuterLeft(node: Node, z: Ends<Node>, ghost m: Mem<Node>, ghost s: set<Node>,
                         ghost c: Ctx<Node>, ghost t: Tree<Node>, ghost h: nat)
    returns (ghost m': Mem<Node>, ghost c': Ctx<Node>)
    requires Tracks(m, s) && InsertInv(m, c, t, z, h) && node == t.node
    requires UnderRed(c) && c.InLeft? && c.up.InLeft? && !IsRed(c.up.right)
    modifies s`color, s`parent, s`left, s`right
    ensures Tracks(m', s) && InsertInv(m', c', t, z, h) && Same(c, t, c', t) && !UnderRed(c') && Depth(c') < Depth(c)
  {
    InsertPointers(m, c, t, z, h);
    OuterLeftStep(m, c, t, z, h);
    ghost var m1 := PaintNode(node.parent, Black, m, s);
    m1 := PaintNode(node.parent.parent, Red, m1, s);
    RightRotate(node.parent.parent, z, m1, s);
    m', c' := RightRotated(m1, c.up.node, z), InLeft(c.up.up, c.node, Black, Fork(c.right, c.up.node, Red, c.up.right));
  }

  /** Lines 160-162, the mirror image. */
  method RotateOuterRight(node: Node, z: Ends<Node>, ghost m: Mem<Node>, ghost s: set<Node>,
                          ghost c: Ctx<Node>, ghost t: Tree<Node>, ghost h: nat)
    returns (ghost m': Mem<Node>, ghost c': Ctx<Node>)
    requires Tracks(m, s) && InsertInv(m, c, t, z, h) && node == t.node
    requires UnderRed(c) && c.InRight? && c.up.InRight? && !IsRed(c.up.left)
    modifies s`color, s`parent, s`left, s`right
    ensures Tracks(m', s) && InsertInv(m', c', t, z, h) && Same(c, t, c', t) && !UnderRed(c') && Depth(c') < Depth(c)
  {
    InsertPointers(m, c, t, z, h);
    OuterRightStep(m, c, t, z, h);
    ghost var m1 := PaintNode(node.parent, Black, m, s);
    m1 := PaintNode(node.parent.parent, Red, m1, s);
    LeftRotate(node.parent.parent, z, m1, s);
    m', c' := LeftRotated(m1, c.up.node, z), InRight(c.up.up, Fork(c.up.left, c.up.node, Red, c.left), c.node, Black);
  }

  /** One turn of the loop, lines 132-164. */
  method InsertStep(at: Node, z: Ends<Node>, ghost m0: Mem<Node>, ghost s: set<Node>,
                    ghost c0: Ctx<Node>, ghost t0: Tree<Node>, ghost h0: nat)
    returns (node: Node, ghost m: Mem<Node>, ghost c: Ctx<Node>, ghost t: Tree<Node>, ghost h: nat)
    requires Tracks(m0, s) && InsertInv(m0, c0, t0, z, h0) && UnderRed(c0) && t0.node == at
    modifies s`color, s`parent, s`left, s`right
    ensures Tracks(m, s) && InsertInv(m, c, t, z, h) && t.node == node
    ensures Same(c0, t0, c, t) && Depth(c) < Depth(c0)
  {
    node, m, c, t, h := at, m0, c0, t0, h0;
    InsertPointers(m, c, t, z, h);
    if node.parent == node.parent.parent.left {
      var y := node.parent.parent.right;
      if y.color == Red {
        node, m, c, t := RecolorUncle(node, y, z, m, s, c, t, h);
        h := h + 1;
      } else {
        if node == node.parent.right {
          node, m, c, t := RotateInnerLeft(node, z, m, s, c, t, h);
        }
        m, c := RotateOuterLeft(node, z, m, s, c, t, h);
      }
    } else {
      var y := node.parent.parent.left;
      if y.color == Red {
        node, m, c, t := RecolorUncle(node, y, z, m, s, c, t, h);
        h := h + 1;
      } else {
        if node == node.parent.left {
          node, m, c, t := RotateInnerRight(node, z, m, s, c, t, h);
        }
        m, c := RotateOuterRight(node, z, m, s, c, t, h);
      }
    }
  }

  /** From a red node below a possibly red parent to a red-black tree. */
  method InsertFixup(start: Node, z: Ends<Node>, ghost m0: Mem<Node>, ghost s: set<Node>,
                     ghost c0: Ctx<Node>, ghost t0: Tree<Node>)
    returns (ghost m: Mem<Node>, ghost whole: Tree<Node>)
    requires Tracks(m0, s) && InsertInv(m0, c0, t0, z, 0) && t0.node == start
    modifies s`color, s`parent, s`left, s`right
    ensures Tracks(m, s) && Focus(m, Top, whole, z) && RedBlack(whole) && Same(c0, t0, Top, whole)
  {
    var node := start;
    ghost var c, t, h := c0, t0, 0;
    m := m0;
    InsertTest(m, c, t, z, h);
    while node.parent.color == Red
      invariant Tracks(m, s) && InsertInv(m, c, t, z, h) && t.node == node
      invariant node in s && node.parent in s && (node.parent.color == Red <==> UnderRed(c))
      invariant Same(c0, t0, c, t)
      decreases Depth(c)
    {
      node, m, c, t, h := InsertStep(node, z, m, s, c, t, h);
      InsertTest(m, c, t, z, h);
    }
    InsertDone(m, c, t, z, h);
    m := PaintNode(z.root.left, Black, m, s);
    whole := Paint(Plug(c, t), Black);
  }

  // ---------------------------------------------------------------------------------------
  // btree_delete_fixup

  /** The rebalanced tree, with a cached root that is safe to paint black. */
  ghost predicate Finished(m: Mem<Node>, whole: Tree<Node>, z: Ends<Node>, root: Node) {
    Focus(m, Top, whole, z) && RedBlack(whole) && root in m && m[root].color == Black
  }

  /** The same as fields of the nodes. */
  lemma SiblingFields(m: Mem<Node>, s: set<Node>, c: Ctx<Node>, t: Tree<Node>, z: Ends<Node>, h: nat)
    requires Tracks(m, s) && DeleteInv(m, c, t, z, h) && !c.Top? && !IsRed(t)
    ensures var x, w := Ptr(t, z), Sibling(c);
            && w.Fork? && x in s && c.node in s && w.node in s && x.parent == c.node && w.node != x
            && c.node.left == (if c.InLeft? then x else w.node) && c.node.right == (if c.InLeft? then w.node else x)
            && w.node.color == w.color && w.node.left == Ptr(w.left, z) && w.node.right == Ptr(w.right, z)
            && Ptr(w.left, z) in s && (Ptr(w.left, z).color == Red <==> IsRed(w.left))
            && Ptr(w.right, z) in s && (Ptr(w.right, z).color == Red <==> IsRed(w.right))
  {
    DeleteSibling(m, c, t, z, h);
  }

  /** Lines 353-358: a red sibling is rotated above the owner of x. */
  method RotateRedSiblingLeft(x: Node, w: Node, z: Ends<Node>, ghost root: Node, ghost m: Mem<Node>, ghost s: set<Node>,
                           ghost c: Ctx<Node>, ghost t: Tree<Node>, ghost h: nat)
    returns (ghost m': Mem<Node>, ghost c': Ctx<Node>)
    requires Tracks(m, s) && DeleteInv(m, c, t, z, h) && c.InLeft? && !IsRed(t) && IsRed(Sibling(c))
    requires x == Ptr(t, z) && w == Sibling(c).node && root == Ptr(Plug(c, t), z)
    modifies s`color, s`parent, s`left, s`right
    ensures Tracks(m', s) && DeleteInv(m', c', t, z, h) && Same(c, t, c', t)
    ensures c'.InLeft? && !IsRed(Sibling(c')) && UnderRed(c') && Cached(c', t, z, root) && Depth(c'.up) == Depth(c)
  {
    DeleteSibling(m, c, t, z, h);
    RedSiblingLeftStep(m, c, t, z, h);
    ghost var p := c.node;
    ghost var m1 := PaintNode(w, Black, m, s);
    m1 := PaintNode(x.parent, Red, m1, s);
    LeftRotate(x.parent, z, m1, s);
    ghost var v := Sibling(c);
    m', c' := LeftRotated(m1, p, z), InLeft(InLeft(c.up, v.node, Black, v.right), c.node, Red, v.left);
    RedSiblingRoot(c, t, c', z, root);
  }

  /** Lines 363-368: the near nephew is rotated above the sibling. */
  method RotateInnerNephewLeft(w: Node, z: Ends<Node>, ghost root: Node, ghost m: Mem<Node>, ghost s: set<Node>,
                            ghost c: Ctx<Node>, ghost t: Tree<Node>, ghost h: nat)
    returns (ghost m': Mem<Node>, ghost c': Ctx<Node>)
    requires Tracks(m, s) && DeleteInv(m, c, t, z, h) && c.InLeft? && !IsRed(t)
    requires Sibling(c).Fork? && !IsRed(Sibling(c)) && IsRed(Sibling(c).left) && !IsRed(Sibling(c).right)
    requires w == Sibling(c).node && Cached(c, t, z, root)
    modifies s`color, s`parent, s`left, s`right
    ensures Tracks(m', s) && DeleteInv(m', c', t, z, h) && Same(c, t, c', t) && Cached(c', t, z, root)
    ensures c'.InLeft? && c'.up == c.up && Sibling(c').Fork? && !IsRed(Sibling(c')) && IsRed(Sibling(c').right)
  {
    DeleteSibling(m, c, t, z, h);
    InnerNephewLeftStep(m, c, t, z, h);
    ghost var m1 := PaintNode(w.left, Black, m, s);
    m1 := PaintNode(w, Red, m1, s);
    RightRotate(w, z, m1, s);
    ghost var v := Sibling(c);
    m', c' := RightRotated(m1, w, z), InLeft(c.up, c.node, c.color, Fork(v.left.left, v.left.node, Black, Fork(v.left.right, v.node, Red, v.right)));
    SameOwnerRoot(c, t, c', t);
  }

  /** Lines 369-373: the far nephew is red and the last rotation restores the balance. */
  method RotateOuterNephewLeft(x: Node, w: Node, z: Ends<Node>, ghost root: Node, ghost m: Mem<Node>, ghost s: set<Node>,
                            ghost c: Ctx<Node>, ghost t: Tree<Node>, ghost h: nat)
    returns (ghost m': Mem<Node>, ghost whole: Tree<Node>)
    requires Tracks(m, s) && DeleteInv(m, c, t, z, h) && c.InLeft? && !IsRed(t)
    requires Sibling(c).Fork? && !IsRed(Sibling(c)) && IsRed(Sibling(c).right)
    requires x == Ptr(t, z) && w == Sibling(c).node && Cached(c, t, z, root)
    modifies s`color, s`parent, s`left, s`right
    ensures Tracks(m', s) && Finished(m', whole, z, root) && Same(c, t, Top, whole)
  {
    DeleteSibling(m, c, t, z, h);
    OuterNephewLeftStep(m, c, t, z, h);
    ghost var m1 := PaintNode(w, x.parent.color, m, s);
    m1 := PaintNode(x.parent, Black, m1, s);
    m1 := PaintNode(w.right, Black, m1, s);
    LeftRotate(x.parent, z, m1, s);
    ghost var v := Sibling(c);
    m' := LeftRotated(m1, c.node, z);
    ghost var t' := Fork(Fork(t, c.node, Black, v.left), v.node, c.color, Paint(v.right, Black));
    FinishedRoot(m', c, t, t', z, root, h);
    whole := Plug(c.up, t');
  }

  /** Lines 378-383: a red sibling is rotated above the owner of x. */
  method RotateRedSiblingRight(x: Node, w: Node, z: Ends<Node>, ghost root: Node, ghost m: Mem<Node>, ghost s: set<Node>,
                           ghost c: Ctx<Node>, ghost t: Tree<Node>, ghost h: nat)
    returns (ghost m': Mem<Node>, ghost c': Ctx<Node>)
    requires Tracks(m, s) && DeleteInv(m, c, t, z, h) && c.InRight? && !IsRed(t) && IsRed(Sibling(c))
    requires x == Ptr(t, z) && w == Sibling(c).node && root == Ptr(Plug(c, t), z)
    modifies s`color, s`parent, s`left, s`right
    ensures Tracks(m', s) && DeleteInv(m', c', t, z, h) && Same(c, t, c', t)
    ensures c'.InRight? && !IsRed(Sibling(c')) && UnderRed(c') && Cached(c', t, z, root) && Depth(c'.up) == Depth(c)
  {
    DeleteSibling(m, c, t, z, h);
    RedSiblingRightStep(m, c, t, z, h);
    ghost var p := c.node;
    ghost var m1 := PaintNode(w, Black, m, s);
    m1 := PaintNode(x.parent, Red, m1, s);
    RightRotate(x.parent, z, m1, s);
    ghost var v := Sibling(c);
    m', c' := RightRotated(m1, p, z), InRight(InRight(c.up, v.left, v.node, Black), v.right, c.node, Red);
    RedSiblingRoot(c, t, c', z, root);
  }

  /** Lines 388-393: the near nephew is rotated above the sibling. */
  method RotateInnerNephewRight(w: Node, z: Ends<Node>, ghost root: Node, ghost m: Mem<Node>, ghost s: set<Node>,
                            ghost c: Ctx<Node>, ghost t: Tree<Node>, ghost h: nat)
    returns (ghost m': Mem<Node>, ghost c': Ctx<Node>)
    requires Tracks(m, s) && DeleteInv(m, c, t, z, h) && c.InRight? && !IsRed(t)
    requires Sibling(c).Fork? && !IsRed(Sibling(c)) && IsRed(Sibling(c).right) && !IsRed(Sibling(c).left)
    requires w == Sibling(c).node && Cached(c, t, z, root)
    modifies s`color, s`parent, s`left, s`right
    ensures Tracks(m', s) && DeleteInv(m', c', t, z, h) && Same(c, t, c', t) && Cached(c', t, z, root)
    ensures c'.InRight? && c'.up == c.up && Sibling(c').Fork? && !IsRed(Sibling(c')) && IsRed(Sibling(c').left)
  {
    DeleteSibling(m, c, t, z, h);
    InnerNephewRightStep(m, c, t, z, h);
    ghost var m1 := PaintNode(w.right, Black, m, s);
    m1 := PaintNode(w, Red, m1, s);
    LeftRotate(w, z, m1, s);
    ghost var v := Sibling(c);
    m', c' := LeftRotated(m1, w, z), InRight(c.up, Fork(Fork(v.left, v.node, Red, v.right.left), v.right.node, Black, v.right.right), c.node, c.color);
    SameOwnerRoot(c, t, c', t);
  }

  /** Lines 394-398: the far nephew is red and the last rotation restores the balance. */
  method RotateOuterNephewRight(x: Node, w: Node, z: Ends<Node>, ghost root: Node, ghost m: Mem<Node>, ghost s: set<Node>,
                            ghost c: Ctx<Node>, ghost t: Tree<Node>, ghost h: nat)
    returns (ghost m': Mem<Node>, ghost whole: Tree<Node>)
    requires Tracks(m, s) && DeleteInv(m, c, t, z, h) && c.InRight? && !IsRed(t)
    requires Sibling(c).Fork? && !IsRed(Sibling(c)) && IsRed(Sibling(c).left)
    requires x == Ptr(t, z) && w == Sibling(c).node && Cached(c, t, z, root)
    modifies s`color, s`parent, s`left, s`right
    ensures Tracks(m', s) && Finished(m', whole, z, root) && Same(c, t, Top, whole)
  {
    DeleteSibling(m, c, t, z, h);
    OuterNephewRightStep(m, c, t, z, h);
    ghost var m1 := PaintNode(w, x.parent.color, m, s);
    m1 := PaintNode(x.parent, Black, m1, s);
    m1 := PaintNode(w.left, Black, m1, s);
    RightRotate(x.parent, z, m1, s);
    ghost var v := Sibling(c);
    m' := RightRotated(m1, c.node, z);
    ghost var t' := Fork(Paint(v.left, Black), v.node, c.color, Fork(v.right, c.node, Black, t));
    FinishedRoot(m', c, t, t', z, root, h);
    whole := Plug(c.up, t');
  }

  /** Lines 360-361 and 385-386: the sibling turns red and the loop goes on at the owner. */
  method LowerSibling(x: Node, w: Node, z: Ends<Node>, ghost root: Node, ghost m: Mem<Node>, ghost s: set<Node>,
                      ghost c: Ctx<Node>, ghost t: Tree<Node>, ghost h: nat)
    returns (next: Node, ghost m': Mem<Node>, ghost c': Ctx<Node>, ghost t': Tree<Node>, ghost h': nat)
    requires Tracks(m, s) && DeleteInv(m, c, t, z, h) && !c.Top? && !IsRed(t)
    requires Sibling(c).Fork? && !IsRed(Sibling(c)) && !IsRed(Sibling(c).left) && !IsRed(Sibling(c).right)
    requires x == Ptr(t, z) && w == Sibling(c).node && Cached(c, t, z, root)
    modifies s`color
    ensures Tracks(m', s) && DeleteInv(m', c', t', z, h') && Same(c, t, c', t')
    ensures next == Ptr(t', z) && CachedAtTest(c', t', z, root)
    ensures Depth(c') < Depth(c) && (UnderRed(c) ==> IsRed(t'))
  {
    hide Tracks, DeleteInv, Same, Cached, CachedAtTest;
    SiblingFields(m, s, c, t, z, h);
    DeleteSibling(m, c, t, z, h);
    BlackNephewsStep(m, c, t, z, h);
    m' := PaintNode(w, Red, m, s);
    next := x.parent;
    t' := Join(SiblingCtx(c, t), Paint(Sibling(c), Red));
    MovedUpRoot(c, t, t', z, root);
    c', h' := c.up, h + Weight(c.color);
  }

  lemma SameSelf(c: Ctx<Node>, t: Tree<Node>)
    ensures Same(c, t, c, t)
  {
  }

  lemma PlugCached(c: Ctx<Node>, t: Tree<Node>, z: Ends<Node>, root: Node)
    requires root == Ptr(Plug(c, t), z)
    ensures Cached(c, t, z, root)
  {
  }

  /** One turn of the loop with x a left child, lines 352-374. */
  method DeleteStepLeft(x: Node, root: Node, z: Ends<Node>, ghost m: Mem<Node>, ghost s: set<Node>,
                     ghost c: Ctx<Node>, ghost t: Tree<Node>, ghost h: nat)
    returns (next: Node, ghost done: bool, ghost m': Mem<Node>, ghost c': Ctx<Node>, ghost t': Tree<Node>, ghost h': nat)
    requires Tracks(m, s) && DeleteInv(m, c, t, z, h) && c.InLeft? && !IsRed(t)
    requires x == Ptr(t, z) && root == Ptr(Plug(c, t), z)
    modifies s`color, s`parent, s`left, s`right
    ensures Tracks(m', s) && Same(c, t, c', t')
    ensures !done ==> DeleteInv(m', c', t', z, h') && next == Ptr(t', z) && CachedAtTest(c', t', z, root)
    ensures !done ==> IsRed(t') || Depth(c') < Depth(c)
    ensures done ==> next == root && c' == Top && Finished(m', t', z, root)
  {
    hide Tracks, DeleteInv, Finished, Same, Cached, CachedAtTest, Balanced, Plug;
    SameSelf(c, t);
    PlugCached(c, t, z, root);
    m', c', h' := m, c, h;
    SiblingFields(m', s, c', t, z, h');
    var w := x.parent.right;
    if w.color == Red {
      m', c' := RotateRedSiblingLeft(x, w, z, root, m', s, c', t, h');
      SiblingFields(m', s, c', t, z, h');
      w := x.parent.right;
    }
    assert !IsRed(Sibling(c')) && (c'.color == Red || Depth(c') == Depth(c)) && Cached(c', t, z, root);
    if w.left.color == Black && w.right.color == Black {
      ghost var c1 := c';
      next, m', c', t', h' := LowerSibling(x, w, z, root, m', s, c', t, h');
      SameTrans(c, t, c1, t, c', t');
      done := false;
    } else {
      if w.right.color == Black {
        ghost var c1 := c';
        m', c' := RotateInnerNephewLeft(w, z, root, m', s, c', t, h');
        SameTrans(c, t, c1, t, c', t);
        SiblingFields(m', s, c', t, z, h');
        w := x.parent.right;
      }
      m', t' := RotateOuterNephewLeft(x, w, z, root, m', s, c', t, h');
      SameTrans(c, t, c', t, Top, t');
      next := root;
      c', done := Top, true;
    }
  }

  /** One turn of the loop with x a right child, lines 377-399. */
  method DeleteStepRight(x: Node, root: Node, z: Ends<Node>, ghost m: Mem<Node>, ghost s: set<Node>,
                     ghost c: Ctx<Node>, ghost t: Tree<Node>, ghost h: nat)
    returns (next: Node, ghost done: bool, ghost m': Mem<Node>, ghost c': Ctx<Node>, ghost t': Tree<Node>, ghost h': nat)
    requires Tracks(m, s) && DeleteInv(m, c, t, z, h) && c.InRight? && !IsRed(t)
    requires x == Ptr(t, z) && root == Ptr(Plug(c, t), z)
    modifies s`color, s`parent, s`left, s`right
    ensures Tracks(m', s) && Same(c, t, c', t')
    ensures !done ==> DeleteInv(m', c', t', z, h') && next == Ptr(t', z) && CachedAtTest(c', t', z, root)
    ensures !done ==> IsRed(t') || Depth(c') < Depth(c)
    ensures done ==> next == root && c' == Top && Finished(m', t', z, root)
  {
    hide Tracks, DeleteInv, Finished, Same, Cached, CachedAtTest, Balanced, Plug;
    SameSelf(c, t);
    PlugCached(c, t, z, root);
    m', c', h' := m, c, h;
    SiblingFields(m', s, c', t, z, h');
    var w := x.parent.left;
    if w.color == Red {
      m', c' := RotateRedSiblingRight(x, w, z, root, m', s, c', t, h');
      SiblingFields(m', s, c', t, z, h');
      w := x.parent.left;
    }
    assert !IsRed(Sibling(c')) && (c'.color == Red || Depth(c') == Depth(c)) && Cached(c', t, z, root);
    if w.right.color == Black && w.left.color == Black {
      ghost var c1 := c';
      next, m', c', t', h' := LowerSibling(x, w, z, root, m', s, c', t, h');
      SameTrans(c, t, c1, t, c', t');
      done := false;
    } else {
      if w.left.color == Black {
        ghost var c1 := c';
        m', c' := RotateInnerNephewRight(w, z, root, m', s, c', t, h');
        SameTrans(c, t, c1, t, c', t);
        SiblingFields(m', s, c', t, z, h');
        w := x.parent.left;
      }
      m', t' := RotateOuterNephewRight(x, w, z, root, m', s, c', t, h');
      SameTrans(c, t, c', t, Top, t');
      next := root;
      c', done := Top, true;
    }
  }

  /** The loop test reads the colour of x, and of the nill sentinel when x is nill. */
  lemma DeleteTest(m: Mem<Node>, c: Ctx<Node>, t: Tree<Node>, z: Ends<Node>, h: nat, root: Node)
    requires DeleteInv(m, c, t, z, h)
    ensures Ptr(t, z) in m && (m[Ptr(t, z)].color == Red <==> IsRed(t))
    ensures c.Top? && CachedAtTest(c, t, z, root) ==> root == Ptr(t, z)
  {
    OwnerInMemory(m, c, t, z);
  }

  /** What holds at the loop test of btree_delete_fixup. */
  ghost predicate AtTest(x: Node, root: Node, z: Ends<Node>, done: bool, m: Mem<Node>, c: Ctx<Node>, t: Tree<Node>, h: nat) {
    if done then x == root && c == Top && Finished(m, t, z, root)
    else
      && DeleteInv(m, c, t, z, h) && x == Ptr(t, z) && CachedAtTest(c, t, z, root)
      && x in m && (m[x].color == Red <==> IsRed(t)) && (c.Top? ==> x == root)
  }

  lemma FinishedInMemory(m: Mem<Node>, whole: Tree<Node>, z: Ends<Node>, root: Node)
    requires Finished(m, whole, z, root)
    ensures root in m
  {
  }

  /** One turn of the loop, lines 351-400. */
  method DeleteStep(x: Node, root: Node, z: Ends<Node>, ghost m: Mem<Node>, ghost s: set<Node>,
                    ghost c: Ctx<Node>, ghost t: Tree<Node>, ghost h: nat)
    returns (next: Node, ghost done: bool, ghost m': Mem<Node>, ghost c': Ctx<Node>, ghost t': Tree<Node>, ghost h': nat)
    requires Tracks(m, s) && AtTest(x, root, z, false, m, c, t, h) && x != root && !IsRed(t)
    modifies s`color, s`parent, s`left, s`right
    ensures Tracks(m', s) && Same(c, t, c', t') && AtTest(next, root, z, done, m', c', t', h') && next in m'
    ensures done || IsRed(t') || Depth(c') < Depth(c)
  {
    hide DeleteInv, Finished, Same;
    DeleteSibling(m, c, t, z, h);
    if x == x.parent.left {
      next, done, m', c', t', h' := DeleteStepLeft(x, root, z, m, s, c, t, h);
    } else {
      next, done, m', c', t', h' := DeleteStepRight(x, root, z, m, s, c, t, h);
    }
    if done {
      FinishedInMemory(m', t', z, root);
    } else {
      DeleteTest(m', c', t', z, h', root);
    }
  }

  /** The assignment x->color = BLACK at the end, line 403. */
  lemma DeleteEnd(x: Node, root: Node, z: Ends<Node>, done: bool, m: Mem<Node>, c: Ctx<Node>, t: Tree<Node>, h: nat)
    returns (whole: Tree<Node>)
    requires AtTest(x, root, z, done, m, c, t, h) && (x == root || IsRed(t))
    ensures x in m && Focus(SetColor(m, x, Black), Top, whole, z) && RedBlack(whole) && Same(c, t, Top, whole)
  {
    if done {
      whole := t;
      assert SetColor(m, x, Black) == m;
    } else {
      DeleteDone(m, c, t, z, h, root);
      whole := Plug(c, if t.Fork? then Paint(t, Black) else t);
    }
  }

  /** From a tree with one black node missing above x to a red-black tree. */
  method DeleteFixup(start: Node, z: Ends<Node>, ghost m0: Mem<Node>, ghost s: set<Node>,
                     ghost c0: Ctx<Node>, ghost t0: Tree<Node>, ghost h0: nat)
    returns (ghost m: Mem<Node>, ghost whole: Tree<Node>)
    requires Tracks(m0, s) && DeleteInv(m0, c0, t0, z, h0) && start == Ptr(t0, z)
    modifies s`color, s`parent, s`left, s`right
    ensures Tracks(m, s) && Focus(m, Top, whole, z) && RedBlack(whole) && Same(c0, t0, Top, whole)
  {
    hide DeleteInv, Finished, Same, Focus, RedBlack, CachedAtTest;
    var x := start;
    DeleteEntry(m0, c0, t0, z, h0);
    var root := z.root.left;
    ghost var c, t, h, done := c0, t0, h0, false;
    m := m0;
    while x != root && x.color == Black
      invariant Tracks(m, s) && Same(c0, t0, c, t) && AtTest(x, root, z, done, m, c, t, h) && x in m
      decreases if done || IsRed(t) then 0 else 1 + Depth(c)
    {
      ghost var c1, t1 := c, t;
      x, done, m, c, t, h := DeleteStep(x, root, z, m, s, c, t, h);
      SameTrans(c0, t0, c1, t1, c, t);
    }
    ghost var c1, t1 := c, t;
    whole := DeleteEnd(x, root, z, done, m, c, t, h);
    SameTrans(c0, t0, c1, t1, Top, whole);
    m := PaintNode(x, Black, m, s);
  }

  /** The state in which the loop is first tested. */
  lemma DeleteEntry(m: Mem<Node>, c: Ctx<Node>, t: Tree<Node>, z: Ends<Node>, h: nat)
    requires DeleteInv(m, c, t, z, h)
    ensures z.root in m && Ptr(t, z) in m && Same(c, t, c, t) && AtTest(Ptr(t, z), m[z.root].left, z, false, m, c, t, h)
  {
    Zip(m, c, t, z);
    DeleteTest(m, c, t, z, h, m[z.root].left);
  }

  // ---------------------------------------------------------------------------------------
  // Unlinking a node

  /** Lines 238-248: y takes the place of its parent todelete. */
  method Splice(todelete: Node, y: Node, z: Ends<Node>, ghost m: Mem<Node>, ghost s: set<Node>,
                ghost c: Ctx<Node>, ghost b: Tree<Node>)
    requires Tracks(m, s) && todelete in s && y in s && y == Ptr(b, z) && Owner(c, z) in s && z.root in s
    requires todelete.parent == Owner(c, z) && Owner(c, z) != y
    requires (Owner(c, z) == z.root <==> c.Top?) && (todelete.parent.left == todelete <==> !c.InRight?)
    modifies y`parent, s`left, s`right
    ensures Tracks(Unlinked(m, c, b, z), s)
  {
    y.parent := todelete.parent;
    if y.parent == z.root {
      z.root.left := y;
    } else {
      if todelete == todelete.parent.left {
        todelete.parent.left := y;
      } else {
        todelete.parent.right := y;
      }
    }
    ghost var o := Owner(c, z);
    assert CellOf(y) == m[y].(parent := o);
    assert CellOf(o) == if c.InRight? then m[o].(right := y) else m[o].(left := y);
    assert forall n :: n in s && n != o && n != y ==> CellOf(n) == m[n];
    TracksTwo(m, s, y, o);
    assert s + {y, o} == s;
  }

  /** The only subtree of t, or a leaf. */
  ghost function OnlyChild(t: Tree<Node>): Tree<Node>
    requires t.Fork?
  {
    if t.left.Leaf? then t.right else t.left
  }

  /** Lines 232-248: a node with at most one child is taken out of the tree. */
  method SpliceOut(todelete: Node, z: Ends<Node>, ghost m: Mem<Node>, ghost s: set<Node>,
                   ghost w: Tree<Node>, ghost c: Ctx<Node>, ghost t: Tree<Node>)
    returns (y: Node, ghost m': Mem<Node>)
    requires Tracks(m, s) && Inside(m, w, c, t, z) && t.Fork? && t.node == todelete
    requires Ptr(OnlyChild(t), z) in m && Owner(c, z) in m
    modifies s`parent, s`left, s`right
    ensures m' == Unlinked(m, c, OnlyChild(t), z) - {todelete}
    ensures Tracks(m', s - {todelete}) && y == Ptr(OnlyChild(t), z)
  {
    hide Inside, Nodes, CtxNodes, Unlinked, Owner;
    UnlinkPointers(m, w, c, t, z);
    if todelete.left == z.nill {
      y := todelete.right;
    } else {
      y := todelete.left;
    }
    Splice(todelete, y, z, m, s, c, OnlyChild(t));
    m' := Unlinked(m, c, OnlyChild(t), z) - {todelete};
  }

  /** Lines 232-257: a node with at most one child is unlinked and the balance restored. */
  method UnlinkAndFix(todelete: Node, z: Ends<Node>, ghost m: Mem<Node>, ghost s: set<Node>,
                      ghost w: Tree<Node>, ghost c: Ctx<Node>, ghost t: Tree<Node>)
    returns (ghost m': Mem<Node>, ghost w': Tree<Node>)
    requires Tracks(m, s) && Inside(m, w, c, t, z) && t.Fork? && t.node == todelete
    requires t.left.Leaf? || t.right.Leaf?
    modifies s`color, s`parent, s`left, s`right
    ensures Tracks(m', s - {todelete}) && Focus(m', Top, w', z) && RedBlack(w')
    ensures InOrder(w') == InOrder(Plug(c, OnlyChild(t))) && Nodes(w') == CtxNodes(c) + Nodes(OnlyChild(t))
  {
    ghost var b := OnlyChild(t);
    UnlinkState(m, w, c, t, b, z);
    UnlinkPointers(m, w, c, t, z);
    var black := todelete.color == Black;
    assert black <==> t.color == Black;
    hide Inside, Focus, RedBlack, DeleteInv, Same, Plug, InOrder, Tracks, Nodes, CtxNodes, Unlinked, CtxBalanced, Balanced;
    var y;
    y, m' := SpliceOut(todelete, z, m, s, w, c, t);
    if black {
      m', w' := DeleteFixup(y, z, m', s - {todelete}, c, b, BlackHeight(t));
      SameWhole(c, b, w');
    } else {
      w' := Plug(c, b);
    }
  }

  lemma UnlinkPointers(m: Mem<Node>, w: Tree<Node>, c: Ctx<Node>, t: Tree<Node>, z: Ends<Node>)
    requires Inside(m, w, c, t, z) && t.Fork?
    ensures t.node in m && m[t.node] == Cell(t.color, Owner(c, z), Ptr(t.left, z), Ptr(t.right, z))
    ensures Ptr(t.left, z) in m && Ptr(t.right, z) in m && Owner(c, z) in m && z.root in m && z.nill in m
    ensures (m[t.node].left == z.nill <==> t.left.Leaf?) && (m[t.node].right == z.nill <==> t.right.Leaf?)
    ensures (Owner(c, z) == z.root <==> c.Top?)
    ensures (m[Owner(c, z)].left == t.node <==> !c.InRight?) && (m[Owner(c, z)].right == t.node <==> c.InRight?)
    ensures Owner(c, z) != Ptr(t.left, z) && Owner(c, z) != Ptr(t.right, z)
  {
    OwnerInMemory(m, c, t, z);
    RootInMemory(m, c, t.node, z);
    assert t.left.Fork? ==> t.left.node in Nodes(t.left);
    assert t.right.Fork? ==> t.right.node in Nodes(t.right);
    assert t.node in Nodes(t);
    match c {
      case Top =>
      case InLeft(up, n, k, r) =>
        assert m[n].right == Ptr(r, z);
        assert r.Fork? ==> r.node in Nodes(r) && r.node in CtxNodes(c);
        assert Ptr(r, z) != t.node;
      case InRight(up, l, n, k) =>
        assert m[n].left == Ptr(l, z);
        assert l.Fork? ==> l.node in Nodes(l) && l.node in CtxNodes(c);
        assert Ptr(l, z) != t.node;
    }
  }

  /** The state in which the fixup is entered, or the final state when a red node was unlinked. */
  lemma UnlinkState(m: Mem<Node>, w: Tree<Node>, c: Ctx<Node>, t: Tree<Node>, b: Tree<Node>, z: Ends<Node>)
    requires Inside(m, w, c, t, z) && t.Fork?
    requires (b == t.left && t.right.Leaf?) || (b == t.right && t.left.Leaf?)
    ensures Ptr(b, z) in m && Owner(c, z) in m && z.nill in m
    ensures var m' := Unlinked(m, c, b, z) - {t.node};
            && (t.color == Black ==> DeleteInv(m', c, b, z, BlackHeight(t)))
            && (t.color == Red ==> Focus(m', Top, Plug(c, b), z) && RedBlack(Plug(c, b)))
            && Nodes(Plug(c, b)) == CtxNodes(c) + Nodes(b)
  {
    FocusUnlink(m, c, t, b, z);
    UnlinkBalanced(c, t, b);
    var m' := Unlinked(m, c, b, z) - {t.node};
    PlugNodes(c, b);
    if t.color == Red {
      Zip(m', c, b, z);
      PlugBalanced(c, b, BlackHeight(t));
    }
  }

  /** The nodes before that of t. */
  ghost function Before(c: Ctx<Node>, t: Tree<Node>): seq<Node>
    requires t.Fork?
  {
    Pre(c) + InOrder(t.left)
  }

  /** btree_successor, lines 286-307: the next node in the order, or nill after the last one. */
  method Successor(node: Node, z: Ends<Node>, ghost m: Mem<Node>, ghost s: set<Node>,
                   ghost w: Tree<Node>, ghost c0: Ctx<Node>, ghost t0: Tree<Node>)
    returns (p: Node, ghost c: Ctx<Node>, ghost t: Tree<Node>)
    requires Tracks(m, s) && Inside(m, w, c0, t0, z) && t0.Fork? && t0.node == node
    ensures p == z.nill ==> InOrder(w) == Before(c0, t0) + [node] && t0.right.Leaf?
    ensures p != z.nill ==> Inside(m, w, c, t, z) && t.Fork? && t.node == p && Before(c, t) == Before(c0, t0) + [node]
    ensures t0.right.Fork? ==> p != z.nill && t.left.Leaf? && Pre(c) == Before(c, t)
  {
    hide Inside, Nodes, CtxNodes, Tracks;
    UnlinkPointers(m, w, c0, t0, z);
    AtCell(m, s, node);
    if node.right == z.nill {
      p, c, t := Climb(node, z, m, s, w, c0, t0);
    } else {
      p, c, t := Leftmost(node, z, m, s, w, c0, t0);
    }
  }

  lemma AtCell(m: Mem<Node>, s: set<Node>, n: Node)
    requires Tracks(m, s) && n in m
    ensures n in s && m[n] == CellOf(n)
  {
  }

  /** Lines 291-299: up to the first ancestor of which the node is on the left. */
  method Climb(start: Node, z: Ends<Node>, ghost m: Mem<Node>, ghost s: set<Node>,
               ghost w: Tree<Node>, ghost c0: Ctx<Node>, ghost t0: Tree<Node>)
    returns (p: Node, ghost c: Ctx<Node>, ghost t: Tree<Node>)
    requires Tracks(m, s) && Inside(m, w, c0, t0, z) && t0.Fork? && t0.node == start && t0.right.Leaf?
    ensures p == z.nill ==> InOrder(w) == Before(c0, t0) + [start]
    ensures p != z.nill ==> Inside(m, w, c, t, z) && t.Fork? && t.node == p && Before(c, t) == Before(c0, t0) + [start]
  {
    hide Inside, Nodes, CtxNodes, Tracks;
    UnlinkPointers(m, w, c0, t0, z);
    AtCell(m, s, start);
    var node := start;
    p := node.parent;
    c, t := c0, t0;
    assert Pre(c) + InOrder(t) == Before(c0, t0) + [start];
    AtCell(m, s, p);
    while node == p.right
      invariant Inside(m, w, c, t, z) && t.Fork? && t.node == node && p == Owner(c, z) && (p == z.root <==> c.Top?)
      invariant p in m && m[p] == CellOf(p) && (m[p].right == node <==> c.InRight?)
      invariant Pre(c) + InOrder(t) == Before(c0, t0) + [start]
      decreases c
    {
      InsideUp(m, w, c, t, z);
      PreUp(c, t);
      c, t := c.up, Join(c, t);
      UnlinkPointers(m, w, c, t, z);
      node := p;
      p := p.parent;
      AtCell(m, s, p);
    }
    InsideWhole(m, w, c, t, z);
    if p == z.root {
      p := z.nill;
    } else {
      InsideUp(m, w, c, t, z);
      UnlinkPointers(m, w, c.up, Join(c, t), z);
      PreUp(c, t);
      NotNill(m, w, c.up, Join(c, t), z);
      c, t := c.up, Join(c, t);
    }
  }

  /** What is before the hole, and in t, when the focus moves up. */
  lemma PreUp(c: Ctx<Node>, t: Tree<Node>)
    requires !c.Top?
    ensures c.InRight? ==> Pre(c.up) + InOrder(Join(c, t)) == Pre(c) + InOrder(t)
    ensures c.InLeft? ==> Before(c.up, Join(c, t)) == Pre(c) + InOrder(t)
  {
  }

  lemma NotNill(m: Mem<Node>, w: Tree<Node>, c: Ctx<Node>, t: Tree<Node>, z: Ends<Node>)
    requires Inside(m, w, c, t, z) && t.Fork?
    ensures t.node != z.nill && t.node in m
  {
    assert t.node in Nodes(t);
  }

  /** Lines 302-306: the leftmost node of the right subtree. */
  method Leftmost(node: Node, z: Ends<Node>, ghost m: Mem<Node>, ghost s: set<Node>,
                  ghost w: Tree<Node>, ghost c0: Ctx<Node>, ghost t0: Tree<Node>)
    returns (p: Node, ghost c: Ctx<Node>, ghost t: Tree<Node>)
    requires Tracks(m, s) && Inside(m, w, c0, t0, z) && t0.Fork? && t0.node == node && t0.right.Fork?
    ensures Inside(m, w, c, t, z) && t.Fork? && t.node == p && p != z.nill && t.left.Leaf?
    ensures Before(c, t) == Before(c0, t0) + [node]
  {
    hide Inside, Nodes, CtxNodes, Tracks;
    NotNill(m, w, c0, t0, z);
    AtCell(m, s, node);
    InsideRight(m, w, c0, t0, z);
    p := node.right;
    c, t := InRight(c0, t0.left, node, t0.color), t0.right;
    NotNill(m, w, c, t, z);
    InsideLeft(m, w, c, t, z);
    AtCell(m, s, p);
    UnlinkPointers(m, w, c, t, z);
    while p.left != z.nill
      invariant Inside(m, w, c, t, z) && t.Fork? && t.node == p && p in m && p != z.nill && m[p] == CellOf(p)
      invariant m[p].left == Ptr(t.left, z) && (m[p].left == z.nill <==> t.left.Leaf?)
      invariant Pre(c) == Before(c0, t0) + [node]
      decreases t
    {
      InsideLeft(m, w, c, t, z);
      p := p.left;
      c, t := InLeft(c, t.node, t.color, t.right), t.left;
      NotNill(m, w, c, t, z);
      AtCell(m, s, p);
      UnlinkPointers(m, w, c, t, z);
    }
  }

  // ---------------------------------------------------------------------------------------
  // Keys

  /** comp is a three-way comparison: antisymmetric in sign and transitive. */
  ghost predicate IsComparator(comp: (Key, Key) -> int) {
    && (forall a, b :: comp(a, b) < 0 <==> comp(b, a) > 0)
    && (forall a, b, c :: Transitive(comp, a, b, c))
  }

  predicate Transitive(comp: (Key, Key) -> int, a: Key, b: Key, c: Key) {
    comp(a, b) <= 0 && comp(b, c) <= 0 ==> comp(a, c) <= 0
  }

  ghost predicate TracksEntries(e: map<Node, Entry>, s: set<Node>)
    reads s`key, s`value
  {
    s <= e.Keys && forall n :: n in s ==> e[n] == Entry(n.key, n.value)
  }

  ghost predicate Covers(e: map<Node, Entry>, ns: seq<Node>) {
    forall i :: 0 <= i < |ns| ==> ns[i] in e
  }

  ghost function Listing(ns: seq<Node>, e: map<Node, Entry>): seq<Entry>
    requires Covers(e, ns)
  {
    seq(|ns|, i requires 0 <= i < |ns| => e[ns[i]])
  }

  ghost predicate Sorted(es: seq<Entry>, comp: (Key, Key) -> int) {
    forall i, j :: 0 <= i < j < |es| ==> comp(es[i].key, es[j].key) <= 0
  }

  lemma {:induction false} InOrderNodes(t: Tree<Node>)
    ensures forall n :: n in InOrder(t) ==> n in Nodes(t)
    ensures forall n :: n in Nodes(t) ==> n in InOrder(t)
  {
    if t.Fork? {
      InOrderNodes(t.left);
      InOrderNodes(t.right);
    }
  }

  /** In a sorted listing, what is left of a node is not larger and what is right of it not smaller. */
  lemma SortedAround(pre: seq<Node>, l: seq<Node>, x: Node, r: seq<Node>, post: seq<Node>,
                     e: map<Node, Entry>, comp: (Key, Key) -> int)
    requires Covers(e, pre + l + [x] + r + post) && Sorted(Listing(pre + l + [x] + r + post, e), comp)
    ensures x in e
    ensures forall n :: n in l ==> n in e && comp(e[n].key, e[x].key) <= 0
    ensures forall n :: n in r ==> n in e && comp(e[x].key, e[n].key) <= 0
  {
    var ns := pre + l + [x] + r + post;
    var at := |pre| + |l|;
    assert ns[at] == x && Listing(ns, e)[at] == e[x];
    forall n | n in l ensures n in e && comp(e[n].key, e[x].key) <= 0 {
      var i :| 0 <= i < |l| && l[i] == n;
      assert ns[|pre| + i] == n && Listing(ns, e)[|pre| + i] == e[n];
    }
    forall n | n in r ensures n in e && comp(e[x].key, e[n].key) <= 0 {
      var i :| 0 <= i < |r| && r[i] == n;
      assert ns[at + 1 + i] == n && Listing(ns, e)[at + 1 + i] == e[n];
    }
  }

  /** Everything before the hole has a smaller key, everything after it has none. */
  ghost predicate Placed(key: Key, c: Ctx<Node>, e: map<Node, Entry>, comp: (Key, Key) -> int) {
    && (forall n :: n in Pre(c) ==> n in e && comp(key, e[n].key) > 0)
    && (forall n :: n in Post(c) ==> n in e && comp(key, e[n].key) <= 0)
  }

  /** Keys not below one that is not below `key` are not below it either. */
  lemma Carry(comp: (Key, Key) -> int, key: Key, a: Key, b: Key)
    requires IsComparator(comp) && comp(a, b) <= 0
    ensures comp(key, a) <= 0 ==> comp(key, b) <= 0
  {
    assert Transitive(comp, key, a, b);
  }

  lemma PlacedBelow(key: Key, c: Ctx<Node>, t: Tree<Node>, e: map<Node, Entry>, comp: (Key, Key) -> int)
    requires IsComparator(comp) && t.Fork? && Placed(key, c, e, comp)
    requires Covers(e, InOrder(Plug(c, t))) && Sorted(Listing(InOrder(Plug(c, t)), e), comp)
    ensures t.node in e
    ensures comp(key, e[t.node].key) <= 0 ==> Placed(key, InLeft(c, t.node, t.color, t.right), e, comp)
    ensures comp(key, e[t.node].key) > 0 ==> Placed(key, InRight(c, t.left, t.node, t.color), e, comp)
  {
    hide Sorted, Listing, Plug, Covers, IsComparator;
    PlugInOrder(c, t);
    var l, r := InOrder(t.left), InOrder(t.right);
    Regroup(Pre(c), l, [t.node], r, Post(c));
    SortedAround(Pre(c), l, t.node, r, Post(c), e, comp);
    forall n | n in l ensures comp(key, e[n].key) <= 0 ==> comp(key, e[t.node].key) <= 0 {
      Carry(comp, key, e[n].key, e[t.node].key);
    }
    forall n | n in r ensures comp(key, e[t.node].key) <= 0 ==> comp(key, e[n].key) <= 0 {
      Carry(comp, key, e[t.node].key, e[n].key);
    }
    assert Post(InLeft(c, t.node, t.color, t.right)) == [t.node] + r + Post(c);
    assert Pre(InRight(c, t.left, t.node, t.color)) == Pre(c) + l + [t.node];
  }

  /** Memory m holds the red-black tree w, whose entries e are in key order. */
  ghost predicate Good(z: Ends<Node>, comp: (Key, Key) -> int, m: Mem<Node>, e: map<Node, Entry>, w: Tree<Node>) {
    && Focus(m, Top, w, z) && RedBlack(w)
    && Covers(e, InOrder(w)) && Sorted(Listing(InOrder(w), e), comp)
  }

  /** The listing with entry x put in at position `at`. */
  ghost function Inserted(es: seq<Entry>, at: nat, x: Entry): seq<Entry>
    requires at <= |es|
  {
    es[..at] + [x] + es[at..]
  }

  /** Position `at` is before the first entry whose key is not smaller than `key`. */
  ghost predicate IsPlace(es: seq<Entry>, at: nat, key: Key, comp: (Key, Key) -> int) {
    && at <= |es|
    && (forall i :: 0 <= i < at ==> comp(key, es[i].key) > 0)
    && (forall i :: at <= i < |es| ==> comp(key, es[i].key) <= 0)
  }

  lemma PlacedIsPlace(c: Ctx<Node>, key: Key, e: map<Node, Entry>, comp: (Key, Key) -> int)
    requires Covers(e, Pre(c) + Post(c)) && Placed(key, c, e, comp)
    ensures IsPlace(Listing(Pre(c) + Post(c), e), |Pre(c)|, key, comp)
  {
    var ns := Pre(c) + Post(c);
    forall i | 0 <= i < |ns| ensures if i < |Pre(c)| then comp(key, e[ns[i]].key) > 0 else comp(key, e[ns[i]].key) <= 0 {
      assert if i < |Pre(c)| then ns[i] in Pre(c) else ns[i] in Post(c);
    }
  }

  lemma InsertedListing(a: seq<Node>, b: seq<Node>, node: Node, x: Entry, e: map<Node, Entry>)
    requires Covers(e, a + b) && node !in a + b
    ensures Covers(e[node := x], a + [node] + b)
    ensures Listing(a + [node] + b, e[node := x]) == Inserted(Listing(a + b, e), |a|, x)
  {
    var e', ns := e[node := x], a + [node] + b;
    forall i | 0 <= i < |ns| ensures ns[i] in e' && e'[ns[i]] == Inserted(Listing(a + b, e), |a|, x)[i] {
      if i != |a| {
        var i' := if i < |a| then i else i - 1;
        assert ns[i] == (a + b)[i'];
      }
    }
  }

  lemma InsertedSorted(es: seq<Entry>, at: nat, x: Entry, comp: (Key, Key) -> int)
    requires IsComparator(comp) && Sorted(es, comp) && IsPlace(es, at, x.key, comp)
    ensures Sorted(Inserted(es, at, x), comp)
  {
    var fs := Inserted(es, at, x);
    forall i, j | 0 <= i < j < |fs| ensures comp(fs[i].key, fs[j].key) <= 0 {
      var i', j' := if i < at then i else i - 1, if j < at then j else j - 1;
      assert i != at ==> fs[i] == es[i'];
      assert j != at ==> fs[j] == es[j'];
    }
  }

  /** The sequence of nodes with a new one at the hole, and what it lists. */
  ghost predicate InsertContent(e: map<Node, Entry>, e': map<Node, Entry>, ns: seq<Node>, ns': seq<Node>, at: nat,
                                x: Entry, comp: (Key, Key) -> int)
    requires Covers(e, ns)
  {
    && Covers(e', ns') && Sorted(Listing(ns', e'), comp)
    && IsPlace(Listing(ns, e), at, x.key, comp)
    && Listing(ns', e') == Inserted(Listing(ns, e), at, x)
  }

  lemma PlacedContent(c: Ctx<Node>, node: Node, x: Entry, e: map<Node, Entry>, comp: (Key, Key) -> int)
    requires IsComparator(comp) && Covers(e, Pre(c) + Post(c)) && Sorted(Listing(Pre(c) + Post(c), e), comp)
    requires Placed(x.key, c, e, comp) && node !in Pre(c) + Post(c)
    ensures InsertContent(e, e[node := x], Pre(c) + Post(c), Pre(c) + [node] + Post(c), |Pre(c)|, x, comp)
  {
    PlacedIsPlace(c, x.key, e, comp);
    InsertedListing(Pre(c), Post(c), node, x, e);
    InsertedSorted(Listing(Pre(c) + Post(c), e), |Pre(c)|, x, comp);
  }

  /** The order of the nodes before and after a node is linked in at the hole. */
  lemma InsertOrder(w: Tree<Node>, c: Ctx<Node>, node: Node)
    requires Plug(c, Leaf) == w && node !in Nodes(w)
    ensures InOrder(w) == Pre(c) + Post(c) && node !in Pre(c) + Post(c)
    ensures InOrder(Plug(c, Fork(Leaf, node, Red, Leaf))) == Pre(c) + [node] + Post(c)
  {
    PlugInOrder(c, Leaf);
    PlugInOrder(c, Fork(Leaf, node, Red, Leaf));
    InOrderNodes(w);
    assert InOrder(w) == Pre(c) + Post(c);
  }

  /** The descent of btree_insert: the place before the first entry whose key is not smaller. */
  method FindPlace(key: Key, z: Ends<Node>, comp: (Key, Key) -> int, ghost m: Mem<Node>, ghost s: set<Node>,
                   ghost e: map<Node, Entry>, ghost w: Tree<Node>)
    returns (parent: Node, onLeft: bool, ghost c: Ctx<Node>)
    requires IsComparator(comp) && Good(z, comp, m, e, w)
    requires Tracks(m, s) && s == Nodes(w) + {z.root, z.nill} && TracksEntries(e, Nodes(w))
    ensures Inside(m, w, c, Leaf, z) && parent == Owner(c, z)
    ensures Placed(key, c, e, comp) && (onLeft <==> !c.InRight?)
  {
    parent := z.root;
    var n := parent.left;
    ghost var t := w;
    c := Top;
    while n != z.nill
      invariant Inside(m, w, c, t, z) && n == Ptr(t, z) && parent == Owner(c, z)
      invariant Placed(key, c, e, comp)
      decreases t
    {
      PlacedBelow(key, c, t, e, comp);
      InsideLeft(m, w, c, t, z);
      InsideRight(m, w, c, t, z);
      assert n in Nodes(w);
      parent := n;
      if comp(key, n.key) <= 0 {
        n := n.left;
        c, t := InLeft(c, t.node, t.color, t.right), t.left;
      } else {
        n := n.right;
        c, t := InRight(c, t.left, t.node, t.color), t.right;
      }
    }
    onLeft := parent == z.root || comp(key, parent.key) <= 0;
    assert c.InRight? ==> c.node in Pre(c);
    assert c.InLeft? ==> c.node in Post(c);
  }

  lemma HoleAlone(m: Mem<Node>, w: Tree<Node>, c: Ctx<Node>, z: Ends<Node>, node: Node)
    requires Inside(m, w, c, Leaf, z)
    ensures CtxNodes(c) == Nodes(w) && Owner(c, z) in Nodes(w) + {z.root, z.nill} && Nodes(Fork(Leaf, node, Red, Leaf)) == {node}
  {
  }

  /** Linking a node in at the hole and rebalancing. */
  method LinkAndFix(node: Node, parent: Node, onLeft: bool, z: Ends<Node>, ghost m: Mem<Node>, ghost s: set<Node>,
                    ghost w: Tree<Node>, ghost c: Ctx<Node>)
    returns (ghost m': Mem<Node>, ghost w': Tree<Node>)
    requires Tracks(m, s) && node !in s && s == Nodes(w) + {z.root, z.nill}
    requires Inside(m, w, c, Leaf, z) && parent == Owner(c, z) && (onLeft <==> !c.InRight?)
    modifies s`color, s`parent, s`left, s`right, node`color, node`parent, node`left, node`right
    ensures Tracks(m', s + {node}) && Focus(m', Top, w', z) && RedBlack(w')
    ensures InOrder(w') == InOrder(Plug(c, Fork(Leaf, node, Red, Leaf))) && Nodes(w') == Nodes(w) + {node}
  {
    hide Focus, RedBlack, Inside, InsertInv, Tracks, Same, Pre, Post, InOrder, Plug, Nodes, CtxNodes, Owner;
    HoleAlone(m, w, c, z, node);
    m' := AttachLeaf(node, parent, onLeft, z, m, s, w, c);
    m', w' := InsertFixup(node, z, m', s + {node}, c, Fork(Leaf, node, Red, Leaf));
    SameWhole(c, Fork(Leaf, node, Red, Leaf), w');
  }

  /** ompi_rb_tree_insert on the nodes: find the place, link the node in, rebalance. */
  method InsertNode(node: Node, z: Ends<Node>, comp: (Key, Key) -> int, ghost m: Mem<Node>, ghost s: set<Node>,
                    ghost e: map<Node, Entry>, ghost w: Tree<Node>)
    returns (ghost m': Mem<Node>, ghost w': Tree<Node>, ghost at: nat)
    requires IsComparator(comp) && Good(z, comp, m, e, w) && node !in s
    requires Tracks(m, s) && s == Nodes(w) + {z.root, z.nill} && TracksEntries(e, Nodes(w))
    modifies s`color, s`parent, s`left, s`right, node`color, node`parent, node`left, node`right
    ensures Tracks(m', s + {node}) && Focus(m', Top, w', z) && RedBlack(w')
    ensures Nodes(w') == Nodes(w) + {node} && |InOrder(w')| == |InOrder(w)| + 1
    ensures var x := Entry(node.key, node.value);
            InsertContent(e, e[node := x], InOrder(w), InOrder(w'), at, x, comp)
  {
    hide Good, Focus, RedBlack, Inside, Tracks, TracksEntries, Sorted, Covers, Placed, IsComparator, InsertContent, Plug, InOrder, Nodes, CtxNodes, Pre, Post;
    GoodOrder(z, comp, m, e, w);
    ghost var c;
    var parent, onLeft;
    parent, onLeft, c := FindPlace(node.key, z, comp, m, s, e, w);
    InsideWhole(m, w, c, Leaf, z);
    InsertOrder(w, c, node);
    PlacedContent(c, node, Entry(node.key, node.value), e, comp);
    at := |Pre(c)|;
    m', w' := LinkAndFix(node, parent, onLeft, z, m, s, w, c);
  }

  lemma GoodOrder(z: Ends<Node>, comp: (Key, Key) -> int, m: Mem<Node>, e: map<Node, Entry>, w: Tree<Node>)
    requires Good(z, comp, m, e, w)
    ensures Covers(e, InOrder(w)) && Sorted(Listing(InOrder(w), e), comp)
  {
  }

  // ---------------------------------------------------------------------------------------
  // Searching

  /** Along the listing, the comparison of `key` with the entries goes from positive over zero to negative. */
  ghost predicate Monotone(f: (Key, Key) -> int, key: Key, es: seq<Entry>) {
    forall i, j :: 0 <= i < j < |es| ==>
      (f(key, es[j].key) > 0 ==> f(key, es[i].key) > 0) && (f(key, es[i].key) < 0 ==> f(key, es[j].key) < 0)
  }

  lemma SortedMonotone(comp: (Key, Key) -> int, key: Key, es: seq<Entry>)
    requires IsComparator(comp) && Sorted(es, comp)
    ensures Monotone(comp, key, es)
  {
    forall i, j | 0 <= i < j < |es|
      ensures comp(key, es[j].key) > 0 ==> comp(key, es[i].key) > 0
      ensures comp(key, es[i].key) < 0 ==> comp(key, es[j].key) < 0
    {
      assert Transitive(comp, key, es[i].key, es[j].key);
      assert Transitive(comp, es[i].key, es[j].key, key);
    }
  }

  /** Everything before the hole compares smaller than `key`, everything after it larger. */
  ghost predicate Apart(key: Key, c: Ctx<Node>, e: map<Node, Entry>, f: (Key, Key) -> int) {
    && (forall n :: n in Pre(c) ==> n in e && f(key, e[n].key) > 0)
    && (forall n :: n in Post(c) ==> n in e && f(key, e[n].key) < 0)
  }

  lemma ApartTop(key: Key, e: map<Node, Entry>, f: (Key, Key) -> int)
    ensures Apart(key, Top, e, f)
  {
  }

  lemma MonotoneAround(pre: seq<Node>, l: seq<Node>, x: Node, r: seq<Node>, post: seq<Node>,
                       e: map<Node, Entry>, f: (Key, Key) -> int, key: Key)
    requires Covers(e, pre + l + [x] + r + post) && Monotone(f, key, Listing(pre + l + [x] + r + post, e))
    ensures x in e
    ensures forall n :: n in l ==> n in e && (f(key, e[x].key) > 0 ==> f(key, e[n].key) > 0)
    ensures forall n :: n in r ==> n in e && (f(key, e[x].key) < 0 ==> f(key, e[n].key) < 0)
  {
    var ns := pre + l + [x] + r + post;
    var at := |pre| + |l|;
    assert ns[at] == x && Listing(ns, e)[at] == e[x];
    forall n | n in l ensures n in e && (f(key, e[x].key) > 0 ==> f(key, e[n].key) > 0) {
      var i :| 0 <= i < |l| && l[i] == n;
      assert ns[|pre| + i] == n && Listing(ns, e)[|pre| + i] == e[n];
    }
    forall n | n in r ensures n in e && (f(key, e[x].key) < 0 ==> f(key, e[n].key) < 0) {
      var i :| 0 <= i < |r| && r[i] == n;
      assert ns[at + 1 + i] == n && Listing(ns, e)[at + 1 + i] == e[n];
    }
  }

  lemma ApartBelow(key: Key, c: Ctx<Node>, t: Tree<Node>, e: map<Node, Entry>, f: (Key, Key) -> int)
    requires t.Fork? && Apart(key, c, e, f)
    requires Covers(e, InOrder(Plug(c, t))) && Monotone(f, key, Listing(InOrder(Plug(c, t)), e))
    ensures t.node in e
    ensures f(key, e[t.node].key) < 0 ==> Apart(key, InLeft(c, t.node, t.color, t.right), e, f)
    ensures f(key, e[t.node].key) > 0 ==> Apart(key, InRight(c, t.left, t.node, t.color), e, f)
  {
    PlugInOrder(c, t);
    var l, r := InOrder(t.left), InOrder(t.right);
    Regroup(Pre(c), l, [t.node], r, Post(c));
    MonotoneAround(Pre(c), l, t.node, r, Post(c), e, f, key);
  }

  /** No entry compares equal. */
  ghost predicate Absent(f: (Key, Key) -> int, key: Key, es: seq<Entry>) {
    forall i :: 0 <= i < |es| ==> f(key, es[i].key) != 0
  }

  lemma ApartAbsent(key: Key, c: Ctx<Node>, e: map<Node, Entry>, f: (Key, Key) -> int)
    requires Apart(key, c, e, f) && Covers(e, InOrder(Plug(c, Leaf)))
    ensures Absent(f, key, Listing(InOrder(Plug(c, Leaf)), e))
  {
    PlugInOrder(c, Leaf);
    var ns := InOrder(Plug(c, Leaf));
    forall i | 0 <= i < |ns| ensures f(key, e[ns[i]].key) != 0 {
      assert ns[i] in Pre(c) || ns[i] in Post(c);
    }
  }

  lemma FoundNode(m: Mem<Node>, w: Tree<Node>, c: Ctx<Node>, t: Tree<Node>, z: Ends<Node>)
    requires Inside(m, w, c, t, z)
    ensures t.Fork? <==> Ptr(t, z) != z.nill
    ensures t.Fork? ==> t.node in Nodes(w) && t.node in m
  {
    assert t.Fork? ==> t.node in Nodes(t);
  }

  lemma SearchStart(m: Mem<Node>, w: Tree<Node>, z: Ends<Node>)
    requires Focus(m, Top, w, z) && RedBlack(w)
    ensures Inside(m, w, Top, w, z) && z.root in m && m[z.root].left == Ptr(w, z)
  {
  }

  lemma SearchBound(m: Mem<Node>, w: Tree<Node>, c: Ctx<Node>, t: Tree<Node>, z: Ends<Node>, looked: nat)
    requires Inside(m, w, c, t, z) && RedBlack(w) && looked == Depth(c) + if t.Fork? then 1 else 0
    ensures Pow2((looked + 1) / 2) <= |InOrder(w)| + 1
  {
    PathBound(c, t, looked);
  }

  /**
   The search of ompi_rb_tree_find_with and ompi_rb_tree_find_node: the node of some entry that
   compares equal, or nill when there is none; `looked` counts the nodes compared with.
   */
  method Find(key: Key, f: (Key, Key) -> int, z: Ends<Node>, ghost m: Mem<Node>, ghost s: set<Node>,
              ghost e: map<Node, Entry>, ghost w: Tree<Node>)
    returns (node: Node, ghost c: Ctx<Node>, ghost t: Tree<Node>, ghost looked: nat)
    requires Focus(m, Top, w, z) && RedBlack(w) && Covers(e, InOrder(w)) && Monotone(f, key, Listing(InOrder(w), e))
    requires Tracks(m, s) && s == Nodes(w) + {z.root, z.nill} && TracksEntries(e, Nodes(w))
    ensures Inside(m, w, c, t, z) && node == Ptr(t, z)
    ensures t.Leaf? ==> Absent(f, key, Listing(InOrder(w), e))
    ensures t.Fork? ==> node in e && f(key, e[node].key) == 0
    ensures Pow2((looked + 1) / 2) <= |InOrder(w)| + 1
  {
    hide Focus, RedBlack, Inside, Covers, Monotone, Absent, Apart, Nodes;
    SearchStart(m, w, z);
    ApartTop(key, e, f);
    node := z.root.left;
    c, t, looked := Top, w, 0;
    FoundNode(m, w, c, t, z);
    while node != z.nill
      invariant Inside(m, w, c, t, z) && node == Ptr(t, z) && Apart(key, c, e, f) && looked == Depth(c)
      invariant (t.Fork? <==> node != z.nill) && (t.Fork? ==> node in Nodes(w) && node in m)
      decreases t
    {
      InsideWhole(m, w, c, t, z);
      ApartBelow(key, c, t, e, f);
      InsideLeft(m, w, c, t, z);
      InsideRight(m, w, c, t, z);
      var compvalue := f(key, node.key);
      looked := looked + 1;
      if compvalue == 0 {
        SearchBound(m, w, c, t, z, looked);
        return;
      }
      if compvalue < 0 {
        node := node.left;
        c, t := InLeft(c, t.node, t.color, t.right), t.left;
      } else {
        node := node.right;
        c, t := InRight(c, t.left, t.node, t.color), t.right;
      }
      FoundNode(m, w, c, t, z);
    }
    InsideWhole(m, w, c, t, z);
    ApartAbsent(key, c, e, f);
    SearchBound(m, w, c, t, z, looked);
  }

  // ---------------------------------------------------------------------------------------
  // Deleting

  /** The sequence without its element at position i. */
  ghost function Removed<T>(es: seq<T>, i: nat): seq<T>
    requires i < |es|
  {
    es[..i] + es[i + 1..]
  }

  lemma {:induction false} InOrderDistinct(t: Tree<Node>)
    requires Distinct(t)
    ensures forall i, j :: 0 <= i < j < |InOrder(t)| ==> InOrder(t)[i] != InOrder(t)[j]
  {
    if t.Fork? {
      InOrderDistinct(t.left);
      InOrderDistinct(t.right);
      InOrderNodes(t.left);
      InOrderNodes(t.right);
      var l, r := InOrder(t.left), InOrder(t.right);
      forall i, j | 0 <= i < j < |InOrder(t)| ensures InOrder(t)[i] != InOrder(t)[j] {
        assert InOrder(t)[|l|] == t.node;
        assert i < |l| ==> InOrder(t)[i] == l[i] && l[i] in l && l[i] in Nodes(t.left);
        assert j < |l| ==> InOrder(t)[j] == l[j];
        assert i > |l| ==> InOrder(t)[i] == r[i - |l| - 1];
        assert j > |l| ==> InOrder(t)[j] == r[j - |l| - 1] && r[j - |l| - 1] in r && r[j - |l| - 1] in Nodes(t.right);
      }
    }
  }

  lemma RemovedMiddle(p: seq<Node>, l: seq<Node>, n: Node, r: seq<Node>, q: seq<Node>)
    requires l == [] || r == []
    ensures (p + (l + [n] + r) + q)[|p| + |l|] == n
    ensures Removed(p + (l + [n] + r) + q, |p| + |l|) == p + (if l == [] then r else l) + q
  {
  }

  /** Taking out a node with at most one child takes one position out of the order. */
  lemma UnlinkOrder(c: Ctx<Node>, t: Tree<Node>)
    requires t.Fork? && (t.left.Leaf? || t.right.Leaf?)
    ensures var k := |Pre(c)| + |InOrder(t.left)|;
            && k < |InOrder(Plug(c, t))| && InOrder(Plug(c, t))[k] == t.node
            && InOrder(Plug(c, OnlyChild(t))) == Removed(InOrder(Plug(c, t)), k)
  {
    hide Plug, Pre, Post, Removed, InOrder, OnlyChild;
    PlugInOrder(c, t);
    PlugInOrder(c, OnlyChild(t));
    OnlyChildOrder(t);
    RemovedMiddle(Pre(c), InOrder(t.left), t.node, InOrder(t.right), Post(c));
  }

  lemma OnlyChildOrder(t: Tree<Node>)
    requires t.Fork? && (t.left.Leaf? || t.right.Leaf?)
    ensures InOrder(t) == InOrder(t.left) + [t.node] + InOrder(t.right)
    ensures InOrder(OnlyChild(t)) == if InOrder(t.left) == [] then InOrder(t.right) else InOrder(t.left)
    ensures InOrder(t.left) == [] || InOrder(t.right) == []
  {
  }

  /** Taking out the node whose entry goes. */
  lemma RemovedListing(ns: seq<Node>, e: map<Node, Entry>, k: nat)
    requires Covers(e, ns) && k < |ns|
    ensures Covers(e, Removed(ns, k)) && Listing(Removed(ns, k), e) == Removed(Listing(ns, e), k)
  {
    var ns' := Removed(ns, k);
    forall i | 0 <= i < |ns'| ensures ns'[i] in e && e[ns'[i]] == Removed(Listing(ns, e), k)[i] {
      assert ns'[i] == ns[if i < k then i else i + 1];
    }
  }

  /** Taking out the next node after its entry has been moved to the node whose entry goes. */
  lemma MovedListing(ns: seq<Node>, e: map<Node, Entry>, k: nat)
    requires Covers(e, ns) && k + 1 < |ns| && forall i, j :: 0 <= i < j < |ns| ==> ns[i] != ns[j]
    ensures var e' := e[ns[k] := e[ns[k + 1]]];
            Covers(e', Removed(ns, k + 1)) && Listing(Removed(ns, k + 1), e') == Removed(Listing(ns, e), k)
  {
    var e', ns' := e[ns[k] := e[ns[k + 1]]], Removed(ns, k + 1);
    forall i | 0 <= i < |ns'| ensures ns'[i] in e' && e'[ns'[i]] == Removed(Listing(ns, e), k)[i] {
      assert ns'[i] == ns[if i < k + 1 then i else i + 1];
    }
  }

  lemma RemovedSorted(es: seq<Entry>, k: nat, comp: (Key, Key) -> int)
    requires Sorted(es, comp) && k < |es|
    ensures Sorted(Removed(es, k), comp)
  {
    var fs := Removed(es, k);
    forall i, j | 0 <= i < j < |fs| ensures comp(fs[i].key, fs[j].key) <= 0 {
      assert fs[i] == es[if i < k then i else i + 1] && fs[j] == es[if j < k then j else j + 1];
    }
  }

  /** What remains listed after an entry with an equal key at position `at` has gone. */
  ghost predicate DeleteContent(e: map<Node, Entry>, e': map<Node, Entry>, ns: seq<Node>, ns': seq<Node>, at: nat,
                                key: Key, comp: (Key, Key) -> int)
    requires Covers(e, ns)
  {
    && at < |ns| && comp(key, e[ns[at]].key) == 0
    && Covers(e', ns') && Sorted(Listing(ns', e'), comp)
    && Listing(ns', e') == Removed(Listing(ns, e), at) && |ns'| == |ns| - 1
  }

  /** The node of the entry is itself unlinked. */
  lemma DeleteOwnContent(w: Tree<Node>, c: Ctx<Node>, t: Tree<Node>, e: map<Node, Entry>, key: Key, comp: (Key, Key) -> int)
    requires Plug(c, t) == w && t.Fork? && (t.left.Leaf? || t.right.Leaf?)
    requires Covers(e, InOrder(w)) && Sorted(Listing(InOrder(w), e), comp) && t.node in e && comp(key, e[t.node].key) == 0
    ensures DeleteContent(e, e, InOrder(w), InOrder(Plug(c, OnlyChild(t))), |Pre(c)| + |InOrder(t.left)|, key, comp)
  {
    var k := |Pre(c)| + |InOrder(t.left)|;
    UnlinkOrder(c, t);
    RemovedListing(InOrder(w), e, k);
    RemovedSorted(Listing(InOrder(w), e), k, comp);
  }

  /** The successor is unlinked and its entry kept in the node p before it. */
  lemma DeleteNextContent(w: Tree<Node>, c: Ctx<Node>, t: Tree<Node>, p: Node, e: map<Node, Entry>, key: Key, comp: (Key, Key) -> int)
    requires Plug(c, t) == w && Distinct(w) && t.Fork? && t.left.Leaf? && |Pre(c)| > 0 && Pre(c)[|Pre(c)| - 1] == p
    requires Covers(e, InOrder(w)) && Sorted(Listing(InOrder(w), e), comp) && p in e && comp(key, e[p].key) == 0
    ensures t.node in e && t.node != p
    ensures DeleteContent(e, e[p := e[t.node]], InOrder(w), InOrder(Plug(c, OnlyChild(t))), |Pre(c)| - 1, key, comp)
  {
    var k := |Pre(c)| - 1;
    UnlinkOrder(c, t);
    PlugInOrder(c, t);
    InOrderDistinct(w);
    assert InOrder(w)[k] == p;
    MovedListing(InOrder(w), e, k);
    RemovedSorted(Listing(InOrder(w), e), k, comp);
  }

  lemma UnlinkNodes(m: Mem<Node>, w: Tree<Node>, c: Ctx<Node>, t: Tree<Node>, z: Ends<Node>)
    requires Inside(m, w, c, t, z) && t.Fork? && (t.left.Leaf? || t.right.Leaf?)
    ensures t.node in Nodes(w) && CtxNodes(c) + Nodes(OnlyChild(t)) == Nodes(w) - {t.node}
  {
    assert t.node in Nodes(t);
  }

  /** Lines 226-230 and 250-253: the node to unlink, and what its removal does to the listing. */
  method ChooseNode(p: Node, ghost key: Key, z: Ends<Node>, ghost comp: (Key, Key) -> int, ghost m: Mem<Node>,
                    ghost s: set<Node>, ghost e: map<Node, Entry>, ghost w: Tree<Node>, ghost c0: Ctx<Node>, ghost t0: Tree<Node>)
    returns (todelete: Node, ghost c: Ctx<Node>, ghost t: Tree<Node>, ghost e': map<Node, Entry>, ghost at: nat)
    requires Tracks(m, s) && Inside(m, w, c0, t0, z) && t0.Fork? && t0.node == p && p in e && comp(key, e[p].key) == 0
    requires Distinct(w) && Covers(e, InOrder(w)) && Sorted(Listing(InOrder(w), e), comp)
    ensures Inside(m, w, c, t, z) && t.Fork? && t.node == todelete && (t.left.Leaf? || t.right.Leaf?)
    ensures todelete in e && e' == if todelete == p then e else e[p := e[todelete]]
    ensures DeleteContent(e, e', InOrder(w), InOrder(Plug(c, OnlyChild(t))), at, key, comp)
  {
    hide Inside, Sorted, Covers, DeleteContent, InOrder, Plug, Distinct, Nodes, CtxNodes, Pre, Post;
    c, t := c0, t0;
    UnlinkPointers(m, w, c, t, z);
    if p.left == z.nill || p.right == z.nill {
      todelete := p;
      InsideWhole(m, w, c, t, z);
      DeleteOwnContent(w, c, t, e, key, comp);
      e', at := e, |Pre(c)| + |InOrder(t.left)|;
    } else {
      todelete, c, t := Successor(p, z, m, s, w, c0, t0);
      InsideWhole(m, w, c, t, z);
      DeleteNextContent(w, c, t, p, e, key, comp);
      e', at := e[p := e[todelete]], |Pre(c)| - 1;
    }
  }

  /** Lines 226-260 once the node p of an entry with an equal key has been found. */
  method DeleteFound(p: Node, ghost key: Key, z: Ends<Node>, ghost comp: (Key, Key) -> int, ghost m: Mem<Node>,
                     ghost s: set<Node>, ghost e: map<Node, Entry>, ghost w: Tree<Node>, ghost c0: Ctx<Node>, ghost t0: Tree<Node>)
    returns (todelete: Node, ghost m': Mem<Node>, ghost e': map<Node, Entry>, ghost w': Tree<Node>, ghost at: nat)
    requires Tracks(m, s) && s == Nodes(w) + {z.root, z.nill} && TracksEntries(e, Nodes(w))
    requires Inside(m, w, c0, t0, z) && t0.Fork? && t0.node == p && p in e && comp(key, e[p].key) == 0
    requires Distinct(w) && Covers(e, InOrder(w)) && Sorted(Listing(InOrder(w), e), comp)
    modifies s`color, s`parent, s`left, s`right, p`key, p`value
    ensures Tracks(m', s - {todelete}) && Focus(m', Top, w', z) && RedBlack(w')
    ensures todelete in Nodes(w) && Nodes(w') == Nodes(w) - {todelete} && TracksEntries(e', Nodes(w'))
    ensures DeleteContent(e, e', InOrder(w), InOrder(w'), at, key, comp)
    ensures Covers(e', InOrder(w')) && Sorted(Listing(InOrder(w'), e'), comp) && |InOrder(w')| == |InOrder(w)| - 1
  {
    ghost var c, t;
    hide Inside, Tracks, Sorted, Covers, InOrder, Plug, Focus, RedBlack, Distinct, Nodes, CtxNodes, Listing, Removed, OnlyChild;
    todelete, c, t, e', at := ChooseNode(p, key, z, comp, m, s, e, w, c0, t0);
    UnlinkNodes(m, w, c, t, z);
    if todelete != p {
      Fill(p, todelete.key, todelete.value);
    }
    assert TracksEntries(e', Nodes(w) - {todelete});
    m', w' := UnlinkAndFix(todelete, z, m, s, w, c, t);
  }

  // ---------------------------------------------------------------------------------------
  // The tree as a whole

  /** The shape, the link fields and the entries that a tree object stands for. */
  datatype Model = Model(shape: Tree<Node>, links: Mem<Node>, entries: map<Node, Entry>)

  /** The nodes s hold the red-black tree g over the two sentinels, in key order. */
  ghost predicate Held(z: Ends<Node>, comp: (Key, Key) -> int, s: set<Node>, g: Model)
    reads s
  {
    && IsComparator(comp) && s == Nodes(g.shape) + {z.root, z.nill}
    && Tracks(g.links, s) && TracksEntries(g.entries, Nodes(g.shape))
    && Good(z, comp, g.links, g.entries, g.shape)
  }

  /** The entries in key order. */
  ghost function Entries(g: Model): seq<Entry>
    requires Covers(g.entries, InOrder(g.shape))
  {
    Listing(InOrder(g.shape), g.entries)
  }

  method InsertHeld(node: Node, key: Key, value: Value, z: Ends<Node>, comp: (Key, Key) -> int,
                    ghost s: set<Node>, ghost g: Model)
    returns (ghost g': Model, ghost at: nat)
    requires Held(z, comp, s, g) && node !in s
    modifies s`color, s`parent, s`left, s`right, node
    ensures Held(z, comp, s + {node}, g') && Nodes(g'.shape) == Nodes(g.shape) + {node}
    ensures |InOrder(g'.shape)| == |InOrder(g.shape)| + 1
    ensures Covers(g.entries, InOrder(g.shape)) && Covers(g'.entries, InOrder(g'.shape))
    ensures IsPlace(Entries(g), at, key, comp)
    ensures Entries(g') == Inserted(Entries(g), at, Entry(key, value))
  {
    hide Focus, RedBlack, Tracks, Covers, Sorted, IsComparator, IsPlace, InOrder, Nodes;
    Fill(node, key, value);
    ghost var m, w;
    m, w, at := InsertNode(node, z, comp, g.links, s, g.entries, g.shape);
    ghost var e := g.entries[node := Entry(key, value)];
    assert TracksEntries(e, Nodes(w));
    hide TracksEntries;
    g' := Model(w, m, e);
  }

  /** ompi_rb_tree_delete on the nodes, once the node p of an entry with an equal key has been found. */
  method DeleteHeldAt(p: Node, ghost key: Key, z: Ends<Node>, ghost comp: (Key, Key) -> int, ghost s: set<Node>, ghost g: Model,
                      ghost c: Ctx<Node>, ghost t: Tree<Node>)
    returns (gone: Node, ghost g': Model, ghost at: nat)
    requires Held(z, comp, s, g) && Inside(g.links, g.shape, c, t, z) && t.Fork? && t.node == p
    requires p in g.entries && comp(key, g.entries[p].key) == 0
    modifies s
    ensures gone in Nodes(g.shape) && Held(z, comp, s - {gone}, g') && Nodes(g'.shape) == Nodes(g.shape) - {gone}
    ensures |InOrder(g'.shape)| == |InOrder(g.shape)| - 1
    ensures Covers(g.entries, InOrder(g.shape)) && Covers(g'.entries, InOrder(g'.shape))
    ensures at < |Entries(g)| && comp(key, Entries(g)[at].key) == 0 && Entries(g') == Removed(Entries(g), at)
  {
    hide Held, Focus, RedBlack, Tracks, TracksEntries, Covers, Sorted, IsComparator, Inside, InOrder, Nodes, Distinct, DeleteContent, Removed;
    ghost var m, e, w;
    HeldParts(z, comp, s, g, c, t);
    gone, m, e, w, at := DeleteFound(p, key, z, comp, g.links, s, g.entries, g.shape, c, t);
    g' := Model(w, m, e);
    HeldAfterDelete(z, comp, s, g, g', gone, at, key);
  }

  /** What a held tree gives to the unlinking of the node of t. */
  lemma HeldParts(z: Ends<Node>, comp: (Key, Key) -> int, s: set<Node>, g: Model, c: Ctx<Node>, t: Tree<Node>)
    requires Held(z, comp, s, g) && Inside(g.links, g.shape, c, t, z) && t.Fork?
    ensures Tracks(g.links, s) && s == Nodes(g.shape) + {z.root, z.nill} && TracksEntries(g.entries, Nodes(g.shape))
    ensures t.node in s && Distinct(g.shape) && Covers(g.entries, InOrder(g.shape))
    ensures Sorted(Listing(InOrder(g.shape), g.entries), comp) && IsComparator(comp)
    ensures z.root !in Nodes(g.shape) && z.nill !in Nodes(g.shape)
  {
    hide Sorted, IsComparator, TracksEntries;
    assert t.node in Nodes(t);
  }

  /** The pieces left by DeleteFound make up a held tree again. */
  lemma HeldAfterDelete(z: Ends<Node>, comp: (Key, Key) -> int, s: set<Node>, g: Model, g': Model, gone: Node, at: nat, key: Key)
    requires s == Nodes(g.shape) + {z.root, z.nill} && IsComparator(comp)
    requires z.root !in Nodes(g.shape) && z.nill !in Nodes(g.shape)
    requires gone in Nodes(g.shape) && Nodes(g'.shape) == Nodes(g.shape) - {gone}
    requires Tracks(g'.links, s - {gone}) && TracksEntries(g'.entries, Nodes(g'.shape))
    requires Focus(g'.links, Top, g'.shape, z) && RedBlack(g'.shape)
    requires Covers(g.entries, InOrder(g.shape)) && Covers(g'.entries, InOrder(g'.shape))
    requires Sorted(Listing(InOrder(g'.shape), g'.entries), comp)
    requires DeleteContent(g.entries, g'.entries, InOrder(g.shape), InOrder(g'.shape), at, key, comp)
    ensures Held(z, comp, s - {gone}, g')
    ensures at < |Entries(g)| && comp(key, Entries(g)[at].key) == 0 && Entries(g') == Removed(Entries(g), at)
  {
    hide Focus, RedBlack, Tracks, TracksEntries, Sorted, IsComparator, InOrder, Nodes;
  }

  /** ompi_rb_tree_delete on the nodes. */
  method DeleteHeld(key: Key, z: Ends<Node>, comp: (Key, Key) -> int, ghost s: set<Node>, ghost g: Model)
    returns (found: bool, ghost gone: Node?, ghost g': Model, ghost at: nat)
    requires Held(z, comp, s, g)
    modifies s
    ensures Covers(g.entries, InOrder(g.shape)) && Covers(g'.entries, InOrder(g'.shape))
    ensures !found ==> g' == g && Held(z, comp, s, g) && Absent(comp, key, Entries(g))
    ensures found ==> gone in Nodes(g.shape) && Held(z, comp, s - {gone}, g') && Nodes(g'.shape) == Nodes(g.shape) - {gone}
    ensures found ==> |InOrder(g'.shape)| == |InOrder(g.shape)| - 1
    ensures found ==> at < |Entries(g)| && comp(key, Entries(g)[at].key) == 0 && Entries(g') == Removed(Entries(g), at)
  {
    SortedMonotone(comp, key, Entries(g));
    hide Focus, RedBlack, Covers, Sorted, IsComparator, Inside, InOrder, Nodes, Monotone, Absent;
    gone, g', at := null, g, 0;
    ghost var c, t, looked;
    var p;
    p, c, t, looked := Find(key, comp, z, g.links, s, g.entries, g.shape);
    found := p != z.nill;
    FoundNode(g.links, g.shape, c, t, z);
    if found {
      gone, g', at := DeleteHeldAt(p, key, z, comp, s, g, c, t);
    }
  }

  lemma SentinelsApart(z: Ends<Node>, comp: (Key, Key) -> int, s: set<Node>, g: Model)
    requires Held(z, comp, s, g)
    ensures z.root !in Nodes(g.shape) && z.nill !in Nodes(g.shape)
  {
  }

  /** The two sentinels of an empty tree. */
  lemma EmptyHeld(root: Node, nil: Node, comp: (Key, Key) -> int, g: Model)
    requires root != nil && IsComparator(comp) && CellOf(root) == CellOf(nil) == Cell(Black, nil, nil, nil)
    requires g == Model(Leaf, map[root := CellOf(root), nil := CellOf(nil)], map[])
    ensures Held(Ends(root, nil), comp, {root, nil}, g) && Nodes(g.shape) == {} && InOrder(g.shape) == []
  {
    hide IsComparator;
  }

  class RbTree {
    const rootPtr: Node
    const nill: Node
    const comp: (Key, Key) -> int
    var treeSize: nat
    ghost var model: Model

    function Sentinels(): Ends<Node> {
      Ends(rootPtr, nill)
    }

    ghost function All(): set<Node>
      reads this
    {
      Nodes(model.shape) + {rootPtr, nill}
    }

    /** The pointers form a red-black tree over the two sentinels, in key order, of the recorded size. */
    ghost predicate Valid()
      reads this, All()
    {
      Held(Sentinels(), comp, All(), model) && treeSize == |InOrder(model.shape)|
    }

    /** ompi_rb_tree_init, with the two nodes that the free list handed out. */
    constructor (root: Node, nil: Node, comp: (Key, Key) -> int)
      requires root != nil && IsComparator(comp)
      modifies root, nil
      ensures Valid() && Entries(model) == [] && rootPtr == root && nill == nil && this.comp == comp
    {
      rootPtr, nill, this.comp, treeSize := root, nil, comp, 0;
      model := Model(Leaf, map[root := Cell(Black, nil, nil, nil), nil := Cell(Black, nil, nil, nil)], map[]);
      new;
      nil.color := Black;
      nil.left := nil;
      nil.right := nil;
      nil.parent := nil;
      root.left := nil;
      root.right := nil;
      root.parent := nil;
      root.color := Black;
      EmptyHeld(root, nil, comp, model);
    }

    /**
     ompi_rb_tree_insert, with the item that the free list handed out: adds one entry, before
     the first one whose key is not smaller, and keeps the tree red-black.
     */
    method Insert(key: Key, value: Value, item: Node?) returns (rc: Status, ghost at: nat)
      requires Valid() && (item != null ==> item !in All())
      modifies this, All(), item
      ensures Valid()
      ensures item == null ==> rc == OutOfResource && model == old(model)
      ensures item != null ==> rc == Success && Nodes(model.shape) == old(Nodes(model.shape)) + {item}
      ensures item != null ==> IsPlace(Entries(old(model)), at, key, comp)
      ensures item != null ==> Entries(model) == Inserted(Entries(old(model)), at, Entry(key, value))
    {
      hide Held, Covers, Entries, IsPlace, InOrder, Nodes;
      if item == null {
        return OutOfResource, 0;
      }
      ghost var g, s := model, All();
      g, at := InsertHeld(item, key, value, Sentinels(), comp, s, g);
      treeSize := treeSize + 1;
      model := g;
      assert All() == s + {item};
      rc := Success;
    }

    /**
     ompi_rb_tree_delete: removes one entry whose key compares equal, or reports that there is
     none; the node handed back to the free list is no longer part of the tree.
     */
    method Delete(key: Key) returns (rc: Status, ghost gone: Node?, ghost at: nat)
      requires Valid()
      modifies this, All()
      ensures Valid() && (rc == NotFound || rc == Success)
      ensures rc == NotFound ==> model == old(model) && Absent(comp, key, Entries(model))
      ensures rc == Success ==> gone in Nodes(old(model).shape) && Nodes(model.shape) == Nodes(old(model).shape) - {gone}
      ensures rc == Success ==> at < |Entries(old(model))| && comp(key, Entries(old(model))[at].key) == 0
      ensures rc == Success ==> Entries(model) == Removed(Entries(old(model)), at)
    {
      hide Held, Covers, Entries, InOrder, Nodes, Absent, Removed;
      SentinelsApart(Sentinels(), comp, All(), model);
      var found;
      ghost var g, s := model, All();
      found, gone, g, at := DeleteHeld(key, Sentinels(), comp, s, g);
      if !found {
        return NotFound, gone, at;
      }
      treeSize := treeSize - 1;
      model := g;
      assert All() == s - {gone};
      rc := Success;
    }

    /**
     ompi_rb_tree_find_with: the value of some entry that compares equal, found after looking
     at no more than 2 * log2(size + 1) nodes, or none when no entry does.
     */
    method FindWith(key: Key, compfn: (Key, Key) -> int) returns (r: Option<Value>, ghost looked: nat)
      requires Valid() && Monotone(compfn, key, Entries(model))
      ensures r.None? ==> Absent(compfn, key, Entries(model))
      ensures r.Some? ==> exists i :: 0 <= i < |Entries(model)| && compfn(key, Entries(model)[i].key) == 0 && Entries(model)[i].value == r.value
      ensures Pow2((looked + 1) / 2) <= treeSize + 1
    {
      var node;
      ghost var c, t;
      node, c, t, looked := Find(key, compfn, Sentinels(), model.links, All(), model.entries, model.shape);
      FoundNode(model.links, model.shape, c, t, Sentinels());
      if node == nill {
        return None, looked;
      }
      FoundEntry(model.links, model.shape, c, t, Sentinels(), model.entries);
      return Some(node.value), looked;
    }

    /** ompi_rb_tree_size: how many entries there are. */
    method Size() returns (n: nat)
      requires Valid()
      ensures n == |Entries(model)|
    {
      n := treeSize;
    }
  }

  lemma FoundEntry(m: Mem<Node>, w: Tree<Node>, c: Ctx<Node>, t: Tree<Node>, z: Ends<Node>, e: map<Node, Entry>)
    requires Inside(m, w, c, t, z) && t.Fork? && Covers(e, InOrder(w))
    ensures t.node in Nodes(w) && t.node in e
    ensures exists i :: 0 <= i < |Listing(InOrder(w), e)| && Listing(InOrder(w), e)[i] == e[t.node]
  {
    assert t.node in Nodes(w);
    InOrderNodes(w);
    var i :| 0 <= i < |InOrder(w)| && InOrder(w)[i] == t.node;
    assert Listing(InOrder(w), e)[i] == e[t.node];
  }
}
