/** RBCell.insertLeft, RBCell.insertRight and RBCell.fixAfterInsertion.  The fixup loop
    keeps one invariant (InsertInv): the cell `x` is RED and heads a red-black subtree
    that fits its ancestors, except that x's parent may be RED as well.  Each branch of
    the case table is a lemma saying that the branch restores the invariant. */
module Insertion {
  import opened Ordering
  import opened Trees
  import opened Cells
  import opened Contexts

  ghost predicate InsertInv<T>(x: Zipper<T>)
  {
    x.focus.Node? && x.focus.color == Red && IsRedBlack(x.focus) &&
    HoleFits(x.path, BlackHeight(x.focus), Black) && RootBlack(x.path)
  }

  /** A RED parent is never the root, so x has a grandparent. */
  lemma RedParentHasGrandparent<T>(x: Zipper<T>)
    requires InsertInv(x) && x.path != [] && x.path[0].color == Red
    ensures |x.path| > 1
    ensures x.path[1].color == Black
    ensures HoleFits(x.path[1..], BlackHeight(x.focus), Red)
    ensures IsRedBlack(x.path[1].sibling) && BlackHeight(x.path[1].sibling) == BlackHeight(x.focus)
    ensures HoleFits(x.path[2..], BlackHeight(x.focus) + 1, Black)
  {
    var h := BlackHeight(x.focus);
    assert HoleFits(x.path[1..], h, Red);
    assert x.path[1..] != [];
    assert x.path[1..][0] == x.path[1];
    assert x.path[1..][1..] == x.path[2..];
  }

  /** The whole tree seen from two levels up: the cell hung under its parent, hung
      under its grandparent, hung under the rest of the chain. */
  lemma PlugTwo<T>(x: Zipper<T>)
    requires |x.path| > 1
    ensures Whole(x) == Plug(Attach(x.path[1], Attach(x.path[0], x.focus)), x.path[2..])
  {
    assert Plug(x.focus, x.path) == Plug(Attach(x.path[0], x.focus), x.path[1..]);
    assert x.path[1..][0] == x.path[1] && x.path[1..][1..] == x.path[2..];
  }

  /** Parent and uncle RED.  Parent and uncle turn BLACK,
      the grandparent RED, and the fixup goes on from the grandparent. */
  lemma RedUncle<T>(x: Zipper<T>)
    requires InsertInv(x) && |x.path| > 1 && x.path[0].color == Red
    requires ColorOf(x.path[1].sibling) == Red
    ensures var r := Parent(Parent(SetGrandparentColor(SetUncleColor(SetParentColor(x, Black), Black), Red)));
            InsertInv(r) && Inorder(Whole(r)) == Inorder(Whole(x)) && |r.path| == |x.path| - 2
  {
    RedParentHasGrandparent(x);
    var f, p, g, rest := x.focus, x.path[0], x.path[1], x.path[2..];
    var h := BlackHeight(f);
    RecolouredShape(x);
    var r := Parent(Parent(SetGrandparentColor(SetUncleColor(SetParentColor(x, Black), Black), Red)));
    var lower := Attach(p.(color := Black), f);
    AttachRedBlack(p.(color := Black), f);
    BlackenRedBlack(g.sibling);
    AttachRedBlack(g.(color := Red, sibling := Paint(g.sibling, Black)), lower);
    PlugTwo(x);
    PlugSameInorder(r.focus, Attach(g, Attach(p, f)), rest);
  }

  /** The grandparent cell after the red-uncle recolouring. */
  lemma RecolouredShape<T>(x: Zipper<T>)
    requires |x.path| > 1
    ensures var r := Parent(Parent(SetGrandparentColor(SetUncleColor(SetParentColor(x, Black), Black), Red)));
            r.path == x.path[2..] &&
            r.focus == Attach(x.path[1].(color := Red, sibling := Paint(x.path[1].sibling, Black)),
                              Attach(x.path[0].(color := Black), x.focus))
  {
    var x1 := SetGrandparentColor(SetUncleColor(SetParentColor(x, Black), Black), Red);
    assert x1.path[1..][1..] == x.path[2..] && x1.path[1..][0] == x1.path[1];
  }

  /** x is the inner child (right child of a left parent).  Rotating left
      at the parent makes the old parent the outer child, which x now refers to. */
  lemma InnerLeft<T>(x: Zipper<T>)
    requires InsertInv(x) && |x.path| > 1 && x.path[0].color == Red
    requires x.path[1].dir == Left && ColorOf(x.path[1].sibling) == Black
    requires x.path[0].dir == Right
    ensures Parent(x).focus.right.Node?
    ensures var r := LeftChild(RotateLeftAt(Parent(x)));
            InsertInv(r) && Inorder(Whole(r)) == Inorder(Whole(x)) &&
            |r.path| == |x.path| && r.path[0].color == Red && r.path[0].dir == Left &&
            r.path[1] == x.path[1]
  {
    RedParentHasGrandparent(x);
    var f, p := x.focus, x.path[0];
    var r := LeftChild(RotateLeftAt(Parent(x)));
    assert r.focus == Node(Red, p.sibling, p.elem, f.left);
    assert r.path == [Frame(Left, Red, f.elem, f.right)] + x.path[1..];
    assert r.path[1..] == x.path[1..];
    assert IsRedBlack(r.focus);
  }

  /** The mirror image of InnerLeft. */
  lemma InnerRight<T>(x: Zipper<T>)
    requires InsertInv(x) && |x.path| > 1 && x.path[0].color == Red
    requires x.path[1].dir == Right && ColorOf(x.path[1].sibling) == Black
    requires x.path[0].dir == Left
    ensures Parent(x).focus.left.Node?
    ensures var r := RightChild(RotateRightAt(Parent(x)));
            InsertInv(r) && Inorder(Whole(r)) == Inorder(Whole(x)) &&
            |r.path| == |x.path| && r.path[0].color == Red && r.path[0].dir == Right &&
            r.path[1] == x.path[1]
  {
    RedParentHasGrandparent(x);
    var f, p := x.focus, x.path[0];
    var r := RightChild(RotateRightAt(Parent(x)));
    assert r.focus == Node(Red, f.right, p.elem, p.sibling);
    assert r.path == [Frame(Right, Red, f.elem, f.left)] + x.path[1..];
    assert r.path[1..] == x.path[1..];
    assert IsRedBlack(r.focus);
  }

  /** The grandparent cell after the outer-case recolouring. */
  lemma OuterShape<T>(x: Zipper<T>)
    requires |x.path| > 1
    ensures var r := Parent(Parent(SetGrandparentColor(SetParentColor(x, Black), Red)));
            r.path == x.path[2..] &&
            r.focus == Attach(x.path[1].(color := Red), Attach(x.path[0].(color := Black), x.focus))
  {
    var x1 := SetGrandparentColor(SetParentColor(x, Black), Red);
    assert x1.path[1..][1..] == x.path[2..] && x1.path[1..][0] == x1.path[1];
  }

  /** x is the outer child of a left parent and the uncle is BLACK.  The
      parent turns BLACK, the grandparent RED, and a right rotation at the grandparent
      lifts the parent into its place; x's new parent is BLACK, which ends the loop. */
  lemma OuterLeft<T>(x: Zipper<T>)
    requires InsertInv(x) && |x.path| > 1 && x.path[0].color == Red
    requires x.path[1].dir == Left && ColorOf(x.path[1].sibling) == Black
    requires x.path[0].dir == Left
    ensures Parent(Parent(SetGrandparentColor(SetParentColor(x, Black), Red))).focus.left.Node?
    ensures var r := LeftChild(RotateRightAt(Parent(Parent(SetGrandparentColor(SetParentColor(x, Black), Red)))));
            InsertInv(r) && Inorder(Whole(r)) == Inorder(Whole(x)) &&
            |r.path| == |x.path| - 1 && r.path[0].color == Black
  {
    RedParentHasGrandparent(x);
    var f, p, g, rest := x.focus, x.path[0], x.path[1], x.path[2..];
    OuterShape(x);
    var top := Parent(Parent(SetGrandparentColor(SetParentColor(x, Black), Red)));
    assert top.focus == Node(Red, Node(Black, f, p.elem, p.sibling), g.elem, g.sibling);
    assert top.path == rest;
    var r := LeftChild(RotateRightAt(top));
    assert r.focus == f;
    assert r.path == [Frame(Left, Black, p.elem, Node(Red, p.sibling, g.elem, g.sibling))] + rest;
    assert r.path[1..] == rest;
    PlugTwo(x);
    PlugSameInorder(top.focus, Attach(g, Attach(p, f)), rest);
  }

  /** The mirror image of OuterLeft. */
  lemma OuterRight<T>(x: Zipper<T>)
    requires InsertInv(x) && |x.path| > 1 && x.path[0].color == Red
    requires x.path[1].dir == Right && ColorOf(x.path[1].sibling) == Black
    requires x.path[0].dir == Right
    ensures Parent(Parent(SetGrandparentColor(SetParentColor(x, Black), Red))).focus.right.Node?
    ensures var r := RightChild(RotateLeftAt(Parent(Parent(SetGrandparentColor(SetParentColor(x, Black), Red)))));
            InsertInv(r) && Inorder(Whole(r)) == Inorder(Whole(x)) &&
            |r.path| == |x.path| - 1 && r.path[0].color == Black
  {
    RedParentHasGrandparent(x);
    var f, p, g, rest := x.focus, x.path[0], x.path[1], x.path[2..];
    OuterShape(x);
    var top := Parent(Parent(SetGrandparentColor(SetParentColor(x, Black), Red)));
    assert top.focus == Node(Red, g.sibling, g.elem, Node(Black, p.sibling, p.elem, f));
    assert top.path == rest;
    var r := RightChild(RotateLeftAt(top));
    assert r.focus == f;
    assert r.path == [Frame(Right, Black, p.elem, Node(Red, g.sibling, g.elem, p.sibling))] + rest;
    assert r.path[1..] == rest;
    PlugTwo(x);
    PlugSameInorder(top.focus, Attach(g, Attach(p, f)), rest);
  }

  /** One round of the fixAfterInsertion loop when x's parent is a left child:
      the invariant and the in-order sequence are kept and x moves up. */
  method FixLeftParent<T>(x0: Zipper<T>) returns (x: Zipper<T>)
    requires InsertInv(x0) && |x0.path| > 1 && x0.path[0].color == Red && x0.path[1].dir == Left
    ensures InsertInv(x) && Inorder(Whole(x)) == Inorder(Whole(x0)) && |x.path| < |x0.path|
  {
    x := x0;
    var y := x.path[1].sibling;
    if ColorOf(y) == Red {
      RedUncle(x);
      x := SetParentColor(x, Black);
      x := SetUncleColor(x, Black);
      x := SetGrandparentColor(x, Red);
      x := Parent(Parent(x));
    } else {
      if x.path[0].dir == Right {
        InnerLeft(x);
        x := Parent(x);
        x := RotateLeftAt(x);
        x := LeftChild(x);
      }
      OuterLeft(x);
      x := SetParentColor(x, Black);
      x := SetGrandparentColor(x, Red);
      if |x.path| > 1 {
        var g := Parent(Parent(x));
        g := RotateRightAt(g);
        x := LeftChild(g);
      }
    }
  }

  /** The mirror image of FixLeftParent. */
  method FixRightParent<T>(x0: Zipper<T>) returns (x: Zipper<T>)
    requires InsertInv(x0) && |x0.path| > 1 && x0.path[0].color == Red && x0.path[1].dir == Right
    ensures InsertInv(x) && Inorder(Whole(x)) == Inorder(Whole(x0)) && |x.path| < |x0.path|
  {
    x := x0;
    var y := x.path[1].sibling;
    if ColorOf(y) == Red {
      RedUncle(x);
      x := SetParentColor(x, Black);
      x := SetUncleColor(x, Black);
      x := SetGrandparentColor(x, Red);
      x := Parent(Parent(x));
    } else {
      if x.path[0].dir == Left {
        InnerRight(x);
        x := Parent(x);
        x := RotateRightAt(x);
        x := RightChild(x);
      }
      OuterRight(x);
      x := SetParentColor(x, Black);
      x := SetGrandparentColor(x, Red);
      if |x.path| > 1 {
        var g := Parent(Parent(x));
        g := RotateLeftAt(g);
        x := RightChild(g);
      }
    }
  }

  /** RBCell.fixAfterInsertion, called on a cell just linked into a red-black tree: the
      returned root heads a red-black tree with a BLACK root and the same in-order
      sequence. */
  method FixAfterInsertion<T>(z: Zipper<T>) returns (root: Tree<T>)
    requires z.focus.Node? && IsRedBlack(Paint(z.focus, Red))
    requires HoleFits(z.path, BlackHeight(Paint(z.focus, Red)), Black) && RootBlack(z.path)
    ensures IsRedBlack(root) && ColorOf(root) == Black
    ensures Inorder(root) == Inorder(Whole(z))
  {
    var x := SetColor(z, Red);
    PlugSameInorder(x.focus, z.focus, z.path);
    while x.path != [] && x.path[0].color == Red
      invariant InsertInv(x) && Inorder(Whole(x)) == Inorder(Whole(z))
      decreases |x.path|
    {
      RedParentHasGrandparent(x);
      if x.path[1].dir == Left {
        x := FixLeftParent(x);
      } else {
        x := FixRightParent(x);
      }
    }
    if x.path != [] {
      HoleFitsBlackParent(x.path, BlackHeight(x.focus));
    }
    PlugRedBlack(x.focus, x.path);
    root := Blacken(Whole(x));
    RedBlackPaintBlack(Whole(x));
  }

  /** The hole on the left of a cell with no left child sits right before the cell's
      subtree; the one on its right right after it. */
  lemma HoleLeft<T>(t: Zipper<T>, e: T)
    requires t.focus.Node? && t.focus.left.Nil?
    ensures Before(t.path) + [e] + Inorder(t.focus) + After(t.path)
         == Before(LeftChild(t).path) + [e] + After(LeftChild(t).path)
  {
    assert LeftChild(t).path[1..] == t.path;
    assert Before(LeftChild(t).path) == Before(t.path);
    assert After(LeftChild(t).path) == Inorder(t.focus) + After(t.path);
  }

  lemma HoleRight<T>(t: Zipper<T>, e: T)
    requires t.focus.Node? && t.focus.right.Nil?
    ensures Before(t.path) + Inorder(t.focus) + [e] + After(t.path)
         == Before(RightChild(t).path) + [e] + After(RightChild(t).path)
  {
    assert RightChild(t).path[1..] == t.path;
    assert Before(RightChild(t).path) == Before(t.path) + Inorder(t.focus);
    assert After(RightChild(t).path) == After(t.path);
  }

  /** RBCell.insertLeft: a new cell holding `e` becomes the left child of the cell at
      `z` (which has none) and the tree is rebalanced.  The new element lands just
      before the cell's subtree in the in-order sequence. */
  method InsertLeft<T>(z: Zipper<T>, e: T) returns (root: Tree<T>)
    requires z.focus.Node? && z.focus.left.Nil?
    requires IsRedBlack(Whole(z)) && ColorOf(Whole(z)) == Black
    ensures IsRedBlack(root) && ColorOf(root) == Black
    ensures Inorder(root) == Before(z.path) + [e] + Inorder(z.focus) + After(z.path)
  {
    CellFits(z);
    RedBlackNode(z.focus);
    var c := LeftChild(z);
    var cell := c.(focus := Node(Black, Nil, e, Nil));
    assert cell.path[1..] == z.path;
    assert RootBlack(cell.path) by {
      if z.path == [] {
        assert Whole(z) == z.focus;
      }
    }
    PlugInorder(cell.focus, cell.path);
    assert Inorder(cell.focus) == [e];
    HoleLeft(z, e);
    root := FixAfterInsertion(cell);
  }

  /** RBCell.insertRight: the mirror image; the new element lands just after the
      cell's subtree. */
  method InsertRight<T>(z: Zipper<T>, e: T) returns (root: Tree<T>)
    requires z.focus.Node? && z.focus.right.Nil?
    requires IsRedBlack(Whole(z)) && ColorOf(Whole(z)) == Black
    ensures IsRedBlack(root) && ColorOf(root) == Black
    ensures Inorder(root) == Before(z.path) + Inorder(z.focus) + [e] + After(z.path)
  {
    CellFits(z);
    RedBlackNode(z.focus);
    var c := RightChild(z);
    var cell := c.(focus := Node(Black, Nil, e, Nil));
    assert cell.path[1..] == z.path;
    assert RootBlack(cell.path) by {
      if z.path == [] {
        assert Whole(z) == z.focus;
      }
    }
    PlugInorder(cell.focus, cell.path);
    assert Inorder(cell.focus) == [e];
    HoleRight(z, e);
    root := FixAfterInsertion(cell);
  }
}
