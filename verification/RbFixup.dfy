/**
 The rebalancing steps of insertion and deletion in ompi_rb_tree.c, branch by branch, on the
 memory of link fields: which tree the assignments of a branch lead to, and that each
 branch keeps the loop invariant of its fixup.
 */
module RbFixup {
  import opened RbShape
  import opened RbMemory

  // ---------------------------------------------------------------------------------------
  // Insertion (ompi_rb_tree_insert, lines 131-167)

  /** Loop invariant of the insertion fixup: only the edge above the red node t may be red-red. */
  ghost predicate InsertInv<N>(m: Mem<N>, c: Ctx<N>, t: Tree<N>, z: Ends<N>, h: nat) {
    && Focus(m, c, t, z)
    && IsRed(t) && Balanced(t) && BlackHeight(t) == h
    && CtxBalanced(c, h)
  }

  function Sibling<N>(c: Ctx<N>): Tree<N>
    requires !c.Top?
  {
    if c.InLeft? then c.right else c.left
  }

  /** The context of the sibling, when the hole is filled with t. */
  function SiblingCtx<N>(c: Ctx<N>, t: Tree<N>): Ctx<N>
    requires !c.Top?
  {
    if c.InLeft? then InRight(c.up, t, c.node, c.color) else InLeft(c.up, c.node, c.color, t)
  }

  lemma FocusSibling<N>(m: Mem<N>, c: Ctx<N>, t: Tree<N>, z: Ends<N>)
    requires !c.Top?
    ensures Focus(m, c, t, z) <==> Focus(m, SiblingCtx(c, t), Sibling(c), z)
    ensures Same(c, t, SiblingCtx(c, t), Sibling(c))
  {
    FocusUp(m, c, t, z);
    FocusUp(m, SiblingCtx(c, t), Sibling(c), z);
    assert Join(c, t) == Join(SiblingCtx(c, t), Sibling(c));
  }

  /** Parent and uncle become black, the grandparent red. */
  function Recolored<N>(c: Ctx<N>, t: Tree<N>): Tree<N>
    requires !c.Top? && !c.up.Top? && Sibling(c.up).Fork?
  {
    var p := Paint(Join(c, t), Black);
    var u := Paint(Sibling(c.up), Black);
    if c.up.InLeft? then Fork(p, c.up.node, Red, u) else Fork(u, c.up.node, Red, p)
  }

  lemma RecolorFocus<N>(m: Mem<N>, c: Ctx<N>, t: Tree<N>, z: Ends<N>)
    requires Focus(m, c, t, z) && !c.Top? && !c.up.Top? && Sibling(c.up).Fork?
    ensures c.node in m && Sibling(c.up).node in m && c.up.node in m
    ensures Focus(SetColor(SetColor(SetColor(m, c.node, Black), Sibling(c.up).node, Black), c.up.node, Red),
                  c.up.up, Recolored(c, t), z)
    ensures Same(c, t, c.up.up, Recolored(c, t))
  {
    var p, u := Join(c, t), Sibling(c.up);
    FocusUp(m, c, t, z);
    FocusSetColor(m, c.up, p, z, Black);
    var m1, p1 := SetColor(m, c.node, Black), Paint(p, Black);
    FocusSibling(m1, c.up, p1, z);
    var uc := SiblingCtx(c.up, p1);
    FocusSetColor(m1, uc, u, z, Black);
    var m2, u1 := SetColor(m1, u.node, Black), Paint(u, Black);
    FocusUp(m2, uc, u1, z);
    FocusSetColor(m2, c.up.up, Join(uc, u1), z, Red);
  }

  lemma RecolorBalanced<N>(c: Ctx<N>, t: Tree<N>, h: nat)
    requires CtxBalanced(c, h) && Balanced(t) && BlackHeight(t) == h
    requires UnderRed(c) && IsRed(Sibling(c.up))
    ensures Balanced(Recolored(c, t)) && BlackHeight(Recolored(c, t)) == h + 1
    ensures CtxBalanced(c.up.up, h + 1)
  {
    assert CtxBalanced(c.up, h);
    var u := Sibling(c.up);
    assert Balanced(u) && BlackHeight(u) == h && Balanced(Sibling(c)) && BlackHeight(Sibling(c)) == h;
    var p1, u1 := Paint(Join(c, t), Black), Paint(u, Black);
    assert Balanced(p1) && BlackHeight(p1) == h + 1;
    assert Balanced(u1) && BlackHeight(u1) == h + 1;
  }

  lemma RecolorStep<N>(m: Mem<N>, c: Ctx<N>, t: Tree<N>, z: Ends<N>, h: nat)
    requires InsertInv(m, c, t, z, h) && UnderRed(c) && IsRed(Sibling(c.up))
    ensures c.node in m && Sibling(c.up).node in m && c.up.node in m
    ensures InsertInv(SetColor(SetColor(SetColor(m, c.node, Black), Sibling(c.up).node, Black), c.up.node, Red),
                      c.up.up, Recolored(c, t), z, h + 1)
    ensures Same(c, t, c.up.up, Recolored(c, t))
  {
    RecolorFocus(m, c, t, z);
    RecolorBalanced(c, t, h);
  }

  /** The node is an inner grandchild: rotating its parent makes the parent the outer grandchild. */
  lemma InnerLeftStep<N>(m: Mem<N>, c: Ctx<N>, t: Tree<N>, z: Ends<N>, h: nat)
    requires InsertInv(m, c, t, z, h) && UnderRed(c) && c.InRight?
    ensures LeftReady(m, c.node)
    ensures var c', t' := InLeft(c.up, t.node, Red, t.right), Fork(c.left, c.node, Red, t.left);
            InsertInv(LeftRotated(m, c.node, z), c', t', z, h) && Same(c, t, c', t')
  {
    var c', t' := InLeft(c.up, t.node, Red, t.right), Fork(c.left, c.node, Red, t.left);
    FocusUp(m, c, t, z);
    FocusLeftRotate(m, c.up, Join(c, t), z);
    assert RotateLeft(Join(c, t)) == Join(c', t');
    FocusUp(LeftRotated(m, c.node, z), c', t', z);
  }

  lemma InnerRightStep<N>(m: Mem<N>, c: Ctx<N>, t: Tree<N>, z: Ends<N>, h: nat)
    requires InsertInv(m, c, t, z, h) && UnderRed(c) && c.InLeft?
    ensures RightReady(m, c.node)
    ensures var c', t' := InRight(c.up, t.left, t.node, Red), Fork(t.right, c.node, Red, c.right);
            InsertInv(RightRotated(m, c.node, z), c', t', z, h) && Same(c, t, c', t')
  {
    var c', t' := InRight(c.up, t.left, t.node, Red), Fork(t.right, c.node, Red, c.right);
    FocusUp(m, c, t, z);
    FocusRightRotate(m, c.up, Join(c, t), z);
    assert RotateRight(Join(c, t)) == Join(c', t');
    FocusUp(RightRotated(m, c.node, z), c', t', z);
  }

  /** Parent black and grandparent red, without moving anything. */
  lemma OuterColors<N>(m: Mem<N>, c: Ctx<N>, t: Tree<N>, z: Ends<N>)
    requires Focus(m, c, t, z) && !c.Top? && !c.up.Top?
    ensures c.node in m && c.up.node in m
    ensures var g := Paint(Join(c.up, Paint(Join(c, t), Black)), Red);
            && Focus(SetColor(SetColor(m, c.node, Black), c.up.node, Red), c.up.up, g, z)
            && Same(c, t, c.up.up, g)
  {
    FocusUp(m, c, t, z);
    var p := Paint(Join(c, t), Black);
    FocusSetColor(m, c.up, Join(c, t), z, Black);
    var m1 := SetColor(m, c.node, Black);
    FocusUp(m1, c.up, p, z);
    FocusSetColor(m1, c.up.up, Join(c.up, p), z, Red);
  }

  /** The node is an outer left grandchild with a black uncle: recolour and rotate the grandparent right. */
  lemma OuterLeftStep<N>(m: Mem<N>, c: Ctx<N>, t: Tree<N>, z: Ends<N>, h: nat)
    requires InsertInv(m, c, t, z, h) && UnderRed(c) && c.InLeft? && c.up.InLeft? && !IsRed(c.up.right)
    ensures c.node in m && c.up.node in m
    ensures var m1, x := SetColor(SetColor(m, c.node, Black), c.up.node, Red), c.up.node;
            var c' := InLeft(c.up.up, c.node, Black, Fork(c.right, x, Red, c.up.right));
            && RightReady(m1, x)
            && InsertInv(RightRotated(m1, x, z), c', t, z, h) && Same(c, t, c', t)
  {
    hide Focus, Same;
    OuterColors(m, c, t, z);
    var m1, x := SetColor(SetColor(m, c.node, Black), c.up.node, Red), c.up.node;
    var c' := InLeft(c.up.up, c.node, Black, Fork(c.right, x, Red, c.up.right));
    var g := Paint(Join(c.up, Paint(Join(c, t), Black)), Red);
    FocusRightRotate(m1, c.up.up, g, z);
    assert RotateRight(g) == Join(c', t);
    FocusUp(RightRotated(m1, x, z), c', t, z);
    assert CtxBalanced(c.up, h);
    SameTrans(c, t, c.up.up, g, c.up.up, Join(c', t));
    SameFlip(c', t, c.up.up, Join(c', t));
    SameTrans(c, t, c.up.up, Join(c', t), c', t);
  }

  lemma OuterRightStep<N>(m: Mem<N>, c: Ctx<N>, t: Tree<N>, z: Ends<N>, h: nat)
    requires InsertInv(m, c, t, z, h) && UnderRed(c) && c.InRight? && c.up.InRight? && !IsRed(c.up.left)
    ensures c.node in m && c.up.node in m
    ensures var m1, x := SetColor(SetColor(m, c.node, Black), c.up.node, Red), c.up.node;
            var c' := InRight(c.up.up, Fork(c.up.left, x, Red, c.left), c.node, Black);
            && LeftReady(m1, x)
            && InsertInv(LeftRotated(m1, x, z), c', t, z, h) && Same(c, t, c', t)
  {
    hide Focus, Same;
    OuterColors(m, c, t, z);
    var m1, x := SetColor(SetColor(m, c.node, Black), c.up.node, Red), c.up.node;
    var c' := InRight(c.up.up, Fork(c.up.left, x, Red, c.left), c.node, Black);
    var g := Paint(Join(c.up, Paint(Join(c, t), Black)), Red);
    FocusLeftRotate(m1, c.up.up, g, z);
    assert RotateLeft(g) == Join(c', t);
    FocusUp(LeftRotated(m1, x, z), c', t, z);
    assert CtxBalanced(c.up, h);
    SameTrans(c, t, c.up.up, g, c.up.up, Join(c', t));
    SameFlip(c', t, c.up.up, Join(c', t));
    SameTrans(c, t, c.up.up, Join(c', t), c', t);
  }

  /** The loop test looks at the colour of the owner of t; the root sentinel is black. */
  lemma InsertTest<N>(m: Mem<N>, c: Ctx<N>, t: Tree<N>, z: Ends<N>, h: nat)
    requires InsertInv(m, c, t, z, h)
    ensures t.node in m && m[t.node].parent == Owner(c, z) && Owner(c, z) in m
    ensures m[Owner(c, z)].color == Red <==> UnderRed(c)
  {
    OwnerInMemory(m, c, t, z);
  }

  /** What the pointer comparisons of the loop body say about the context. */
  lemma InsertPointers<N>(m: Mem<N>, c: Ctx<N>, t: Tree<N>, z: Ends<N>, h: nat)
    requires InsertInv(m, c, t, z, h) && UnderRed(c)
    ensures !c.up.Top? && t.node in m && c.node in m && c.up.node in m && Ptr(Sibling(c.up), z) in m
    ensures m[t.node].parent == c.node && m[c.node].parent == c.up.node
    ensures m[c.up.node].left == c.node <==> c.up.InLeft?
    ensures m[c.up.node].left == if c.up.InLeft? then c.node else Ptr(Sibling(c.up), z)
    ensures m[c.up.node].right == if c.up.InLeft? then Ptr(Sibling(c.up), z) else c.node
    ensures m[Ptr(Sibling(c.up), z)].color == Red <==> IsRed(Sibling(c.up))
    ensures m[c.node].right == t.node <==> c.InRight?
    ensures m[c.node].left == t.node <==> c.InLeft?
  {
    assert CtxRepr(m, c.up, c.node, z);
    var u := Sibling(c.up);
    assert Repr(m, u, c.up.node, z);
    assert u.Fork? ==> u.node in Nodes(u);
    var w := Sibling(c);
    assert w.Fork? ==> w.node in Nodes(w);
  }

  /** When the loop ends, painting the real root black gives a red-black tree. */
  lemma InsertDone<N>(m: Mem<N>, c: Ctx<N>, t: Tree<N>, z: Ends<N>, h: nat)
    requires InsertInv(m, c, t, z, h) && !UnderRed(c)
    ensures Plug(c, t).Fork? && z.root in m && m[z.root].left == Plug(c, t).node && Plug(c, t).node in m
    ensures var w := Paint(Plug(c, t), Black);
            && Focus(SetColor(m, Plug(c, t).node, Black), Top, w, z) && Same(c, t, Top, w)
            && RedBlack(w)
  {
    Zip(m, c, t, z);
    PlugNodes(c, t);
    if !c.Top? {
      PlugRoot(c, t, h);
      PlugBalanced(c, t, h);
    }
    FocusSetColor(m, Top, Plug(c, t), z, Black);
  }

  // ---------------------------------------------------------------------------------------
  // Deletion (btree_delete_fixup, lines 346-405)

  /** One black node is missing on every path through t, unless t is red and can simply turn black. */
  predicate Deficient<N>(t: Tree<N>, h: nat) {
    if IsRed(t) then Balanced(Paint(t, Black)) && BlackHeight(Paint(t, Black)) == h
    else Balanced(t) && BlackHeight(t) + 1 == h
  }

  /** Loop invariant of the deletion fixup; for a missing subtree the parent of nill is its owner. */
  ghost predicate DeleteInv<N>(m: Mem<N>, c: Ctx<N>, t: Tree<N>, z: Ends<N>, h: nat) {
    && Focus(m, c, t, z)
    && Deficient(t, h) && CtxBalanced(c, h)
    && (t.Leaf? ==> m[z.nill].parent == Owner(c, z))
  }

  /** The loop body runs only below an owner, and then there is a real sibling. */
  lemma DeleteSibling<N>(m: Mem<N>, c: Ctx<N>, t: Tree<N>, z: Ends<N>, h: nat)
    requires DeleteInv(m, c, t, z, h) && !c.Top? && !IsRed(t)
    ensures Sibling(c).Fork? && Balanced(Sibling(c)) && BlackHeight(Sibling(c)) == h
    ensures c.node in m && Ptr(t, z) in m && m[Ptr(t, z)].parent == c.node
    ensures m[c.node].left == (if c.InLeft? then Ptr(t, z) else Sibling(c).node)
    ensures m[c.node].right == (if c.InLeft? then Sibling(c).node else Ptr(t, z))
    ensures Sibling(c).node != Ptr(t, z)
    ensures Sibling(c).node in m && m[Sibling(c).node].color == Sibling(c).color
    ensures m[Sibling(c).node].left == Ptr(Sibling(c).left, z) && m[Sibling(c).node].right == Ptr(Sibling(c).right, z)
    ensures Ptr(Sibling(c).left, z) in m && (m[Ptr(Sibling(c).left, z)].color == Red <==> IsRed(Sibling(c).left))
    ensures Ptr(Sibling(c).right, z) in m && (m[Ptr(Sibling(c).right, z)].color == Red <==> IsRed(Sibling(c).right))
  {
    var w := Sibling(c);
    assert w.Fork? && w.node in Nodes(w);
    assert Repr(m, w, c.node, z);
    assert Repr(m, w.left, w.node, z) && Repr(m, w.right, w.node, z);
  }

  lemma FocusUpTwice<N>(m: Mem<N>, c: Ctx<N>, t: Tree<N>, z: Ends<N>)
    requires !c.Top? && !c.up.Top?
    ensures var g := Join(c.up, Join(c, t));
            (Focus(m, c, t, z) <==> Focus(m, c.up.up, g, z)) && Same(c.up.up, g, c, t)
  {
    hide Focus;
    FocusUp(m, c, t, z);
    FocusUp(m, c.up, Join(c, t), z);
  }

  /** The recolouring before the rotation: the sibling black, the owner red. */
  lemma RedSiblingColors<N>(m: Mem<N>, c: Ctx<N>, t: Tree<N>, z: Ends<N>)
    requires Focus(m, c, t, z) && !c.Top? && Sibling(c).Fork?
    ensures c.node in m && Sibling(c).node in m && z.nill in m && z.nill != c.node && z.nill != Sibling(c).node
    ensures var p := Paint(Join(SiblingCtx(c, t), Paint(Sibling(c), Black)), Red);
            Focus(SetColor(SetColor(m, Sibling(c).node, Black), c.node, Red), c.up, p, z) && Same(c, t, c.up, p)
  {
    var w, sc := Sibling(c), SiblingCtx(c, t);
    FocusSibling(m, c, t, z);
    FocusSetColor(m, sc, w, z, Black);
    var m0, b := SetColor(m, w.node, Black), Paint(w, Black);
    FocusUp(m0, sc, b, z);
    FocusSetColor(m0, c.up, Join(sc, b), z, Red);
  }

  /** A red sibling: it turns black, the owner red, and the owner is rotated towards the hole. */
  lemma RedSiblingLeftStep<N>(m: Mem<N>, c: Ctx<N>, t: Tree<N>, z: Ends<N>, h: nat)
    requires DeleteInv(m, c, t, z, h) && c.InLeft? && !IsRed(t) && IsRed(Sibling(c))
    ensures c.node in m && Sibling(c).node in m
    ensures var w, m1 := Sibling(c), SetColor(SetColor(m, Sibling(c).node, Black), c.node, Red);
            var c' := InLeft(InLeft(c.up, w.node, Black, w.right), c.node, Red, w.left);
            && LeftReady(m1, c.node)
            && DeleteInv(LeftRotated(m1, c.node, z), c', t, z, h) && Same(c, t, c', t)
            && !IsRed(Sibling(c'))
  {
    hide Focus, Same;
    var w := Sibling(c);
    DeleteSibling(m, c, t, z, h);
    RedSiblingColors(m, c, t, z);
    var m1 := SetColor(SetColor(m, w.node, Black), c.node, Red);
    var p := Paint(Join(SiblingCtx(c, t), Paint(w, Black)), Red);
    FocusLeftRotate(m1, c.up, p, z);
    var c' := InLeft(InLeft(c.up, w.node, Black, w.right), c.node, Red, w.left);
    assert RotateLeft(p) == Join(c'.up, Join(c', t));
    FocusUpTwice(LeftRotated(m1, c.node, z), c', t, z);
    SameTrans(c, t, c.up, p, c.up, RotateLeft(p));
    SameTrans(c, t, c.up, RotateLeft(p), c', t);
    assert CtxBalanced(c', h);
    assert t.Leaf? ==> LeftRotated(m1, c.node, z)[z.nill].parent == c.node;
  }

  /** A red sibling: it turns black, the owner red, and the owner is rotated towards the hole. */
  lemma RedSiblingRightStep<N>(m: Mem<N>, c: Ctx<N>, t: Tree<N>, z: Ends<N>, h: nat)
    requires DeleteInv(m, c, t, z, h) && c.InRight? && !IsRed(t) && IsRed(Sibling(c))
    ensures c.node in m && Sibling(c).node in m
    ensures var w, m1 := Sibling(c), SetColor(SetColor(m, Sibling(c).node, Black), c.node, Red);
            var c' := InRight(InRight(c.up, w.left, w.node, Black), w.right, c.node, Red);
            && RightReady(m1, c.node)
            && DeleteInv(RightRotated(m1, c.node, z), c', t, z, h) && Same(c, t, c', t)
            && !IsRed(Sibling(c'))
  {
    hide Focus, Same;
    var w := Sibling(c);
    DeleteSibling(m, c, t, z, h);
    RedSiblingColors(m, c, t, z);
    var m1 := SetColor(SetColor(m, w.node, Black), c.node, Red);
    var p := Paint(Join(SiblingCtx(c, t), Paint(w, Black)), Red);
    FocusRightRotate(m1, c.up, p, z);
    var c' := InRight(InRight(c.up, w.left, w.node, Black), w.right, c.node, Red);
    assert RotateRight(p) == Join(c'.up, Join(c', t));
    FocusUpTwice(RightRotated(m1, c.node, z), c', t, z);
    SameTrans(c, t, c.up, p, c.up, RotateRight(p));
    SameTrans(c, t, c.up, RotateRight(p), c', t);
    assert CtxBalanced(c', h);
    assert t.Leaf? ==> RightRotated(m1, c.node, z)[z.nill].parent == c.node;
  }

  /** Both nephews black: the sibling turns red and the missing black moves up. */
  lemma BlackNephewsStep<N>(m: Mem<N>, c: Ctx<N>, t: Tree<N>, z: Ends<N>, h: nat)
    requires DeleteInv(m, c, t, z, h) && !c.Top? && !IsRed(t) && Sibling(c).Fork? && !IsRed(Sibling(c))
    requires !IsRed(Sibling(c).left) && !IsRed(Sibling(c).right)
    ensures Sibling(c).node in m
    ensures var t' := Join(SiblingCtx(c, t), Paint(Sibling(c), Red));
            && DeleteInv(SetColor(m, Sibling(c).node, Red), c.up, t', z, h + Weight(c.color))
            && Same(c, t, c.up, t')
  {
    var w := Sibling(c);
    DeleteSibling(m, c, t, z, h);
    FocusSibling(m, c, t, z);
    FocusSetColor(m, SiblingCtx(c, t), w, z, Red);
    FocusUp(SetColor(m, w.node, Red), SiblingCtx(c, t), Paint(w, Red), z);
    var b := Paint(w, Red);
    assert Balanced(b) && BlackHeight(b) + 1 == h;
  }

  /** The sibling after the near nephew has been rotated up. */
  lemma InnerNephewBalanced<N>(w: Tree<N>, h: nat)
    requires w.Fork? && Balanced(w) && w.color == Black && BlackHeight(w) == h
    ensures var l, r := w.left, w.right;
            IsRed(l) && !IsRed(r) ==>
              var w' := Fork(l.left, l.node, Black, Fork(l.right, w.node, Red, r));
              Balanced(w') && BlackHeight(w') == h
    ensures var l, r := w.left, w.right;
            IsRed(r) && !IsRed(l) ==>
              var w' := Fork(Fork(l, w.node, Red, r.left), r.node, Black, r.right);
              Balanced(w') && BlackHeight(w') == h
  {
    assert Balanced(w.left) && Balanced(w.right);
  }

  /** The subtree after the last rotation: owner and far nephew black below the sibling. */
  lemma OuterNephewBalanced<N>(t: Tree<N>, p: N, w: Tree<N>, k: Color, h: nat)
    requires w.Fork? && Balanced(w) && w.color == Black && BlackHeight(w) == h && Balanced(t) && BlackHeight(t) + 1 == h
    ensures IsRed(w.right) ==>
              var t' := Fork(Fork(t, p, Black, w.left), w.node, k, Paint(w.right, Black));
              Balanced(t') && BlackHeight(t') == h + Weight(k)
    ensures IsRed(w.left) ==>
              var t' := Fork(Paint(w.left, Black), w.node, k, Fork(w.right, p, Black, t));
              Balanced(t') && BlackHeight(t') == h + Weight(k)
  {
    assert Balanced(w.left) && Balanced(w.right);
    if IsRed(w.right) {
      assert Balanced(Paint(w.right, Black)) && Balanced(Fork(t, p, Black, w.left));
    }
    if IsRed(w.left) {
      assert Balanced(Paint(w.left, Black)) && Balanced(Fork(w.right, p, Black, t));
    }
  }

  /** Only the nephew near the hole is red: rotating the sibling away makes the far nephew red. */
  lemma InnerNephewLeftStep<N>(m: Mem<N>, c: Ctx<N>, t: Tree<N>, z: Ends<N>, h: nat)
    requires DeleteInv(m, c, t, z, h) && c.InLeft? && !IsRed(t) && Sibling(c).Fork? && !IsRed(Sibling(c))
    requires IsRed(Sibling(c).left) && !IsRed(Sibling(c).right)
    ensures Sibling(c).node in m && Sibling(c).left.node in m
    ensures var w := Sibling(c);
            var m1 := SetColor(SetColor(m, w.left.node, Black), w.node, Red);
            var c' := InLeft(c.up, c.node, c.color, Fork(w.left.left, w.left.node, Black, Fork(w.left.right, w.node, Red, w.right)));
            && RightReady(m1, w.node)
            && DeleteInv(RightRotated(m1, w.node, z), c', t, z, h) && Same(c, t, c', t)
            && Sibling(c').Fork? && !IsRed(Sibling(c')) && IsRed(Sibling(c').right)
  {
    var w := Sibling(c);
    DeleteSibling(m, c, t, z, h);
    InnerNephewBalanced(w, h);
    var sc := SiblingCtx(c, t);
    FocusSibling(m, c, t, z);
    var nc := InLeft(sc, w.node, w.color, w.right);
    FocusUp(m, nc, w.left, z);
    FocusSetColor(m, nc, w.left, z, Black);
    var m0, b := SetColor(m, w.left.node, Black), Paint(w.left, Black);
    FocusUp(m0, nc, b, z);
    FocusSetColor(m0, sc, Join(nc, b), z, Red);
    var m1 := SetColor(m0, w.node, Red);
    FocusRightRotate(m1, sc, Paint(Join(nc, b), Red), z);
    var c' := InLeft(c.up, c.node, c.color, Fork(w.left.left, w.left.node, Black, Fork(w.left.right, w.node, Red, w.right)));
    assert RotateRight(Paint(Join(nc, b), Red)) == Sibling(c');
    FocusSibling(RightRotated(m1, w.node, z), c', t, z);
  }

  /** Only the nephew near the hole is red: rotating the sibling away makes the far nephew red. */
  lemma InnerNephewRightStep<N>(m: Mem<N>, c: Ctx<N>, t: Tree<N>, z: Ends<N>, h: nat)
    requires DeleteInv(m, c, t, z, h) && c.InRight? && !IsRed(t) && Sibling(c).Fork? && !IsRed(Sibling(c))
    requires IsRed(Sibling(c).right) && !IsRed(Sibling(c).left)
    ensures Sibling(c).node in m && Sibling(c).right.node in m
    ensures var w := Sibling(c);
            var m1 := SetColor(SetColor(m, w.right.node, Black), w.node, Red);
            var c' := InRight(c.up, Fork(Fork(w.left, w.node, Red, w.right.left), w.right.node, Black, w.right.right), c.node, c.color);
            && LeftReady(m1, w.node)
            && DeleteInv(LeftRotated(m1, w.node, z), c', t, z, h) && Same(c, t, c', t)
            && Sibling(c').Fork? && !IsRed(Sibling(c')) && IsRed(Sibling(c').left)
  {
    var w := Sibling(c);
    DeleteSibling(m, c, t, z, h);
    InnerNephewBalanced(w, h);
    var sc := SiblingCtx(c, t);
    FocusSibling(m, c, t, z);
    var nc := InRight(sc, w.left, w.node, w.color);
    FocusUp(m, nc, w.right, z);
    FocusSetColor(m, nc, w.right, z, Black);
    var m0, b := SetColor(m, w.right.node, Black), Paint(w.right, Black);
    FocusUp(m0, nc, b, z);
    FocusSetColor(m0, sc, Join(nc, b), z, Red);
    var m1 := SetColor(m0, w.node, Red);
    FocusLeftRotate(m1, sc, Paint(Join(nc, b), Red), z);
    var c' := InRight(c.up, Fork(Fork(w.left, w.node, Red, w.right.left), w.right.node, Black, w.right.right), c.node, c.color);
    assert RotateLeft(Paint(Join(nc, b), Red)) == Sibling(c');
    FocusSibling(LeftRotated(m1, w.node, z), c', t, z);
  }

  /** The recolouring before the last rotation: sibling as the owner was, owner and far nephew black. */
  lemma OuterNephewLeftColors<N>(m: Mem<N>, c: Ctx<N>, t: Tree<N>, z: Ends<N>, h: nat)
    requires DeleteInv(m, c, t, z, h) && c.InLeft? && !IsRed(t) && Sibling(c).Fork? && IsRed(Sibling(c).right)
    ensures Sibling(c).node in m && c.node in m && Sibling(c).right.node in m
    ensures var w := Sibling(c);
            var m1 := SetColor(SetColor(SetColor(m, w.node, c.color), c.node, Black), w.right.node, Black);
            var p := Fork(t, c.node, Black, Fork(w.left, w.node, c.color, Paint(w.right, Black)));
            Focus(m1, c.up, p, z) && Same(c, t, c.up, p)
  {
    var w := Sibling(c);
    DeleteSibling(m, c, t, z, h);
    var sc := SiblingCtx(c, t);
    FocusSibling(m, c, t, z);
    FocusSetColor(m, sc, w, z, c.color);
    var m0, b := SetColor(m, w.node, c.color), Paint(w, c.color);
    FocusUp(m0, sc, b, z);
    FocusSetColor(m0, c.up, Join(sc, b), z, Black);
    var m1 := SetColor(m0, c.node, Black);
    var wc := InRight(c.up, t, c.node, Black);
    var nc := InRight(wc, w.left, w.node, c.color);
    assert Join(wc, Join(nc, w.right)) == Paint(Join(sc, b), Black);
    FocusUp(m1, wc, Join(nc, w.right), z);
    FocusUp(m1, nc, w.right, z);
    FocusSetColor(m1, nc, w.right, z, Black);
    var m2 := SetColor(m1, w.right.node, Black);
    FocusUp(m2, nc, Paint(w.right, Black), z);
    FocusUp(m2, wc, Join(nc, Paint(w.right, Black)), z);
  }

  /** The far nephew is red: one rotation of the owner restores the balance for good. */
  lemma OuterNephewLeftStep<N>(m: Mem<N>, c: Ctx<N>, t: Tree<N>, z: Ends<N>, h: nat)
    requires DeleteInv(m, c, t, z, h) && c.InLeft? && !IsRed(t)
    requires Sibling(c).Fork? && !IsRed(Sibling(c)) && IsRed(Sibling(c).right)
    ensures Sibling(c).node in m && c.node in m && Sibling(c).right.node in m
    ensures var w := Sibling(c);
            var m1 := SetColor(SetColor(SetColor(m, w.node, c.color), c.node, Black), w.right.node, Black);
            var t' := Fork(Fork(t, c.node, Black, w.left), w.node, c.color, Paint(w.right, Black));
            && LeftReady(m1, c.node) && Focus(LeftRotated(m1, c.node, z), c.up, t', z) && Same(c, t, c.up, t')
            && Balanced(t') && BlackHeight(t') == h + Weight(c.color) && t'.color == c.color
  {
    var w := Sibling(c);
    OuterNephewLeftColors(m, c, t, z, h);
    DeleteSibling(m, c, t, z, h);
    OuterNephewBalanced(t, c.node, w, c.color, h);
    var m1 := SetColor(SetColor(SetColor(m, w.node, c.color), c.node, Black), w.right.node, Black);
    var p := Fork(t, c.node, Black, Fork(w.left, w.node, c.color, Paint(w.right, Black)));
    FocusLeftRotate(m1, c.up, p, z);
  }

  /** The recolouring before the last rotation: sibling as the owner was, owner and far nephew black. */
  lemma OuterNephewRightColors<N>(m: Mem<N>, c: Ctx<N>, t: Tree<N>, z: Ends<N>, h: nat)
    requires DeleteInv(m, c, t, z, h) && c.InRight? && !IsRed(t) && Sibling(c).Fork? && IsRed(Sibling(c).left)
    ensures Sibling(c).node in m && c.node in m && Sibling(c).left.node in m
    ensures var w := Sibling(c);
            var m1 := SetColor(SetColor(SetColor(m, w.node, c.color), c.node, Black), w.left.node, Black);
            var p := Fork(Fork(Paint(w.left, Black), w.node, c.color, w.right), c.node, Black, t);
            Focus(m1, c.up, p, z) && Same(c, t, c.up, p)
  {
    var w := Sibling(c);
    DeleteSibling(m, c, t, z, h);
    var sc := SiblingCtx(c, t);
    FocusSibling(m, c, t, z);
    FocusSetColor(m, sc, w, z, c.color);
    var m0, b := SetColor(m, w.node, c.color), Paint(w, c.color);
    FocusUp(m0, sc, b, z);
    FocusSetColor(m0, c.up, Join(sc, b), z, Black);
    var m1 := SetColor(m0, c.node, Black);
    var wc := InLeft(c.up, c.node, Black, t);
    var nc := InLeft(wc, w.node, c.color, w.right);
    assert Join(wc, Join(nc, w.left)) == Paint(Join(sc, b), Black);
    FocusUp(m1, wc, Join(nc, w.left), z);
    FocusUp(m1, nc, w.left, z);
    FocusSetColor(m1, nc, w.left, z, Black);
    var m2 := SetColor(m1, w.left.node, Black);
    FocusUp(m2, nc, Paint(w.left, Black), z);
    FocusUp(m2, wc, Join(nc, Paint(w.left, Black)), z);
  }

  /** The far nephew is red: one rotation of the owner restores the balance for good. */
  lemma OuterNephewRightStep<N>(m: Mem<N>, c: Ctx<N>, t: Tree<N>, z: Ends<N>, h: nat)
    requires DeleteInv(m, c, t, z, h) && c.InRight? && !IsRed(t)
    requires Sibling(c).Fork? && !IsRed(Sibling(c)) && IsRed(Sibling(c).left)
    ensures Sibling(c).node in m && c.node in m && Sibling(c).left.node in m
    ensures var w := Sibling(c);
            var m1 := SetColor(SetColor(SetColor(m, w.node, c.color), c.node, Black), w.left.node, Black);
            var t' := Fork(Paint(w.left, Black), w.node, c.color, Fork(w.right, c.node, Black, t));
            && RightReady(m1, c.node) && Focus(RightRotated(m1, c.node, z), c.up, t', z) && Same(c, t, c.up, t')
            && Balanced(t') && BlackHeight(t') == h + Weight(c.color) && t'.color == c.color
  {
    var w := Sibling(c);
    OuterNephewRightColors(m, c, t, z, h);
    DeleteSibling(m, c, t, z, h);
    OuterNephewBalanced(t, c.node, w, c.color, h);
    var m1 := SetColor(SetColor(SetColor(m, w.node, c.color), c.node, Black), w.left.node, Black);
    var p := Fork(Fork(Paint(w.left, Black), w.node, c.color, w.right), c.node, Black, t);
    FocusRightRotate(m1, c.up, p, z);
  }

  // ---------------------------------------------------------------------------------------
  // The cached root of btree_delete_fixup (line 349)

  /**
   The root pointer read before the loop is still the real root, or it is the red owner of
   the hole: a rotation of the old root has put a black node above it.
   */
  ghost predicate Cached<N>(c: Ctx<N>, t: Tree<N>, z: Ends<N>, root: N) {
    root == Ptr(Plug(c, t), z) || (UnderRed(c) && root == c.node)
  }

  /** At the loop test the cached pointer may be stale only if t is that red node, so the loop ends. */
  ghost predicate CachedAtTest<N>(c: Ctx<N>, t: Tree<N>, z: Ends<N>, root: N) {
    root == Ptr(Plug(c, t), z) || (IsRed(t) && root == t.node)
  }

  lemma {:induction false} PlugSameRoot<N>(c: Ctx<N>, t: Tree<N>, t': Tree<N>)
    requires !c.Top?
    ensures Plug(c, t).Fork? && Plug(c, t').Fork? && Plug(c, t).node == Plug(c, t').node
    ensures c.up.Top? ==> Plug(c, t).node == c.node
    decreases c
  {
    if !c.up.Top? {
      match c {
        case InLeft(up, n, k, r) => PlugSameRoot(up, Fork(t, n, k, r), Fork(t', n, k, r));
        case InRight(up, l, n, k) => PlugSameRoot(up, Fork(l, n, k, t), Fork(l, n, k, t'));
      }
    }
  }

  /** Replacing what hangs below the same owner does not move the root. */
  lemma SameOwnerRoot<N>(c: Ctx<N>, t: Tree<N>, c': Ctx<N>, t': Tree<N>)
    requires !c.Top? && !c'.Top? && c'.up == c.up && c'.node == c.node
    ensures Plug(c, t).Fork? && Plug(c', t').Fork? && Plug(c, t).node == Plug(c', t').node
  {
    if !c.up.Top? {
      PlugSameRoot(c.up, Join(c, t), Join(c', t'));
    }
  }

  /** A red sibling has been rotated above the owner. */
  lemma RedSiblingRoot<N>(c: Ctx<N>, t: Tree<N>, c': Ctx<N>, z: Ends<N>, root: N)
    requires !c.Top? && !c'.Top? && !c'.up.Top? && c'.up.up == c.up && c'.node == c.node && c'.color == Red
    requires root == Ptr(Plug(c, t), z)
    ensures Cached(c', t, z, root)
  {
    if !c.up.Top? {
      PlugSameRoot(c.up, Join(c, t), Join(c'.up, Join(c', t)));
    }
  }

  /** The missing black has moved up to the owner. */
  lemma MovedUpRoot<N>(c: Ctx<N>, t: Tree<N>, t': Tree<N>, z: Ends<N>, root: N)
    requires !c.Top? && t'.Fork? && t'.node == c.node && t'.color == c.color && Cached(c, t, z, root)
    ensures CachedAtTest(c.up, t', z, root)
  {
    assert Plug(c, t) == Plug(c.up, Join(c, t));
    if !c.up.Top? {
      PlugSameRoot(c.up, Join(c, t), t');
    }
  }

  /** After the last rotation the whole tree is red-black and the cached root, stale or not, is black. */
  lemma FinishedRoot<N>(m: Mem<N>, c: Ctx<N>, t: Tree<N>, t': Tree<N>, z: Ends<N>, root: N, h: nat)
    requires !c.Top? && CtxBalanced(c, h) && Cached(c, t, z, root)
    requires Focus(m, c.up, t', z) && Balanced(t') && BlackHeight(t') == h + Weight(c.color) && t'.Fork? && t'.color == c.color
    requires c.node in m && m[c.node].color == Black
    ensures Focus(m, Top, Plug(c.up, t'), z) && RedBlack(Plug(c.up, t'))
    ensures Same(c.up, t', Top, Plug(c.up, t'))
    ensures root in m && m[root].color == Black
  {
    hide Focus, Same, Repr, CtxRepr;
    Zip(m, c.up, t', z);
    PlugSame(c.up, t');
    PlugBalanced(c.up, t', h + Weight(c.color));
    assert Plug(c, t) == Plug(c.up, Join(c, t));
    if !c.up.Top? {
      PlugSameRoot(c.up, Join(c, t), t');
    }
    RootBlack(m, Plug(c.up, t'), z);
  }

  lemma PlugSame<N>(c: Ctx<N>, t: Tree<N>)
    ensures Same(c, t, Top, Plug(c, t))
  {
    PlugNodes(c, t);
  }

  lemma RootBlack<N>(m: Mem<N>, w: Tree<N>, z: Ends<N>)
    requires Focus(m, Top, w, z) && RedBlack(w)
    ensures Ptr(w, z) in m && m[Ptr(w, z)].color == Black
  {
  }

  /** When the loop ends at t, painting t black gives a red-black tree. */
  lemma DeleteDone<N>(m: Mem<N>, c: Ctx<N>, t: Tree<N>, z: Ends<N>, h: nat, root: N)
    requires DeleteInv(m, c, t, z, h) && CachedAtTest(c, t, z, root) && (Ptr(t, z) == root || IsRed(t))
    ensures Ptr(t, z) in m
    ensures var b := if t.Fork? then Paint(t, Black) else t;
            var m' := SetColor(m, Ptr(t, z), Black);
            Focus(m', Top, Plug(c, b), z) && RedBlack(Plug(c, b)) && Same(c, t, Top, Plug(c, b))
  {
    OwnerInMemory(m, c, t, z);
    var b := if t.Fork? then Paint(t, Black) else t;
    var m' := SetColor(m, Ptr(t, z), Black);
    if t.Fork? {
      FocusSetColor(m, c, t, z, Black);
    } else {
      assert m' == m;
    }
    Zip(m', c, b, z);
    PlugNodes(c, b);
    if !c.Top? && !IsRed(t) {
      PlugRoot(c, t, h);
      assert false;
    }
    PlugBalanced(c, b, h);
  }

  // ---------------------------------------------------------------------------------------
  // Unlinking (ompi_rb_tree_delete, lines 232-257)

  /** A node with at most one subtree b gives way to b: what is then missing is one black node at most. */
  lemma UnlinkBalanced<N>(c: Ctx<N>, t: Tree<N>, b: Tree<N>)
    requires t.Fork? && Balanced(t) && CtxBalanced(c, BlackHeight(t)) && (UnderRed(c) || c.Top? ==> !IsRed(t))
    requires (b == t.left && t.right.Leaf?) || (b == t.right && t.left.Leaf?)
    ensures t.color == Black ==> Deficient(b, BlackHeight(t))
    ensures t.color == Red ==> Balanced(b) && !IsRed(b) && BlackHeight(b) == BlackHeight(t)
  {
  }
}
