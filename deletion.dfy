/** RBCell.delete and RBCell.fixAfterDeletion.  The fixup loop keeps one invariant
    (DeleteInv): the subtree at `x` is one BLACK cell short of what its ancestors need,
    and once painted BLACK it has no RED cell with a RED child.  Each branch of the
    case table is a lemma that says the branch keeps the invariant or ends the loop. */
module Deletion {
  import opened Ordering
  import opened Trees
  import opened Cells
  import opened Contexts

  ghost predicate DeleteInv<T>(x: Zipper<T>)
  {
    Balanced(x.focus) && NoRedRed(Blacken(x.focus)) &&
    HoleFits(x.path, BlackHeight(x.focus) + 1, Black) && RootBlack(x.path)
  }

  /** What the invariant says about the sibling of x: it is a red-black subtree one
      BLACK cell taller than x's, so it is never a null link. */
  lemma SiblingFacts<T>(x: Zipper<T>)
    requires DeleteInv(x) && x.path != []
    ensures var s := x.path[0].sibling;
            s.Node? && IsRedBlack(s) && BlackHeight(s) == BlackHeight(x.focus) + 1 &&
            (x.path[0].color == Red ==> ColorOf(s) == Black) &&
            IsRedBlack(s.left) && IsRedBlack(s.right) &&
            BlackHeight(s.left) == BlackHeight(s.right) &&
            BlackHeight(s) == BlackHeight(s.left) + (if s.color == Black then 1 else 0) &&
            (s.color == Red ==> ColorOf(s.left) == Black && ColorOf(s.right) == Black)
    ensures HoleFits(x.path[1..], BlackHeight(x.focus) + 1 + (if x.path[0].color == Black then 1 else 0),
                     x.path[0].color)
  {
    RedBlackNode(x.path[0].sibling);
  }

  /** Swapping x's sibling for a BLACK red-black subtree of the same black height keeps
      the invariant. */
  lemma SwapSibling<T>(x: Zipper<T>, s': Tree<T>)
    requires DeleteInv(x) && x.path != []
    requires IsRedBlack(s') && ColorOf(s') == Black && BlackHeight(s') == BlackHeight(x.path[0].sibling)
    ensures DeleteInv(x.(path := x.path[0 := x.path[0].(sibling := s')]))
  {
    var r := x.(path := x.path[0 := x.path[0].(sibling := s')]);
    assert r.path[1..] == x.path[1..];
  }

  /** Where x stands after the red-sibling recolouring and rotation (left side). */
  lemma RedSiblingShapeLeft<T>(x: Zipper<T>)
    requires x.path != [] && x.path[0].dir == Left && x.path[0].sibling.Node?
    ensures Parent(SetParentColor(SetSiblingColor(x, Black), Red)).focus.right.Node?
    ensures var fr, s := x.path[0], x.path[0].sibling;
            var r := LeftChild(LeftChild(RotateLeftAt(Parent(SetParentColor(SetSiblingColor(x, Black), Red)))));
            r == Zipper(x.focus, [Frame(Left, Red, fr.elem, s.left), Frame(Left, Black, s.elem, s.right)] + x.path[1..])
  {
    var fr, s := x.path[0], x.path[0].sibling;
    var x1 := SetParentColor(SetSiblingColor(x, Black), Red);
    assert x1.path[0] == Frame(Left, Red, fr.elem, Paint(s, Black));
    assert x1.path[1..] == x.path[1..];
  }

  lemma RedSiblingShapeRight<T>(x: Zipper<T>)
    requires x.path != [] && x.path[0].dir == Right && x.path[0].sibling.Node?
    ensures Parent(SetParentColor(SetSiblingColor(x, Black), Red)).focus.left.Node?
    ensures var fr, s := x.path[0], x.path[0].sibling;
            var r := RightChild(RightChild(RotateRightAt(Parent(SetParentColor(SetSiblingColor(x, Black), Red)))));
            r == Zipper(x.focus, [Frame(Right, Red, fr.elem, s.right), Frame(Right, Black, s.elem, s.left)] + x.path[1..])
  {
    var fr, s := x.path[0], x.path[0].sibling;
    var x1 := SetParentColor(SetSiblingColor(x, Black), Red);
    assert x1.path[0] == Frame(Right, Red, fr.elem, Paint(s, Black));
    assert x1.path[1..] == x.path[1..];
  }

  /** Where x stands after the inner-nephew recolouring and rotation at the sibling. */
  lemma InnerNephewShapeLeft<T>(x: Zipper<T>)
    requires x.path != [] && x.path[0].dir == Left
    requires x.path[0].sibling.Node? && x.path[0].sibling.left.Node?
    ensures RightChild(Parent(SetSiblingColor(SetNephewColor(x, Left, Black), Red))).focus.left.Node?
    ensures var fr, s := x.path[0], x.path[0].sibling;
            var n := s.left;
            var r := LeftChild(Parent(RotateRightAt(RightChild(Parent(SetSiblingColor(SetNephewColor(x, Left, Black), Red))))));
            r == x.(path := x.path[0 := fr.(sibling := Node(Black, n.left, n.elem, Node(Red, n.right, s.elem, s.right)))])
  {
    var fr, s := x.path[0], x.path[0].sibling;
    var n := s.left;
    var x1 := SetSiblingColor(SetNephewColor(x, Left, Black), Red);
    assert x1.path[0] == fr.(sibling := Node(Red, Paint(n, Black), s.elem, s.right));
    var c := RightChild(Parent(x1));
    assert c.focus == Node(Red, Paint(n, Black), s.elem, s.right);
  }

  lemma InnerNephewShapeRight<T>(x: Zipper<T>)
    requires x.path != [] && x.path[0].dir == Right
    requires x.path[0].sibling.Node? && x.path[0].sibling.right.Node?
    ensures LeftChild(Parent(SetSiblingColor(SetNephewColor(x, Right, Black), Red))).focus.right.Node?
    ensures var fr, s := x.path[0], x.path[0].sibling;
            var n := s.right;
            var r := RightChild(Parent(RotateLeftAt(LeftChild(Parent(SetSiblingColor(SetNephewColor(x, Right, Black), Red))))));
            r == x.(path := x.path[0 := fr.(sibling := Node(Black, Node(Red, s.left, s.elem, n.left), n.elem, n.right))])
  {
    var fr, s := x.path[0], x.path[0].sibling;
    var n := s.right;
    var x1 := SetSiblingColor(SetNephewColor(x, Right, Black), Red);
    assert x1.path[0] == fr.(sibling := Node(Red, s.left, s.elem, Paint(n, Black)));
    var c := LeftChild(Parent(x1));
    assert c.focus == Node(Red, s.left, s.elem, Paint(n, Black));
  }

  /** The sibling is RED.  Sibling BLACK, parent RED and a left rotation
      at the parent; x keeps its subtree and gets a RED parent and a BLACK sibling. */
  lemma RedSiblingLeft<T>(x: Zipper<T>)
    requires DeleteInv(x) && x.path != [] && ColorOf(x.focus) == Black
    requires x.path[0].dir == Left && ColorOf(x.path[0].sibling) == Red
    ensures Parent(SetParentColor(SetSiblingColor(x, Black), Red)).focus.right.Node?
    ensures var r := LeftChild(LeftChild(RotateLeftAt(Parent(SetParentColor(SetSiblingColor(x, Black), Red)))));
            DeleteInv(r) && Inorder(Whole(r)) == Inorder(Whole(x)) && |r.path| == |x.path| + 1 &&
            r.focus == x.focus && r.path[0].dir == Left && r.path[0].color == Red &&
            ColorOf(r.path[0].sibling) == Black
  {
    var f, fr, rest := x.focus, x.path[0], x.path[1..];
    var h := BlackHeight(f);
    var s := fr.sibling;
    SiblingFacts(x);
    RedSiblingShapeLeft(x);
    RedSiblingInvLeft(x);
  }

  /** The cell the red-sibling case (left side) ends at keeps the invariant. */
  lemma RedSiblingInvLeft<T>(x: Zipper<T>)
    requires DeleteInv(x) && x.path != [] && ColorOf(x.focus) == Black
    requires x.path[0].dir == Left && ColorOf(x.path[0].sibling) == Red
    ensures var fr, s := x.path[0], x.path[0].sibling;
            s.Node? &&
            DeleteInv(Zipper(x.focus, [Frame(Left, Red, fr.elem, s.left), Frame(Left, Black, s.elem, s.right)] + x.path[1..]))
  {
    var f, fr, rest := x.focus, x.path[0], x.path[1..];
    var h := BlackHeight(f);
    var s := fr.sibling;
    SiblingFacts(x);
    var r := Zipper(f, [Frame(Left, Red, fr.elem, s.left), Frame(Left, Black, s.elem, s.right)] + rest);
    assert r.path[1..] == [Frame(Left, Black, s.elem, s.right)] + rest;
    assert r.path[1..][1..] == rest;
    assert HoleFits(rest, h + 2, Black);
    assert HoleFits(r.path[1..], h + 1, Red);
  }

  /** The mirror image of RedSiblingLeft. */
  lemma RedSiblingRight<T>(x: Zipper<T>)
    requires DeleteInv(x) && x.path != [] && ColorOf(x.focus) == Black
    requires x.path[0].dir == Right && ColorOf(x.path[0].sibling) == Red
    ensures Parent(SetParentColor(SetSiblingColor(x, Black), Red)).focus.left.Node?
    ensures var r := RightChild(RightChild(RotateRightAt(Parent(SetParentColor(SetSiblingColor(x, Black), Red)))));
            DeleteInv(r) && Inorder(Whole(r)) == Inorder(Whole(x)) && |r.path| == |x.path| + 1 &&
            r.focus == x.focus && r.path[0].dir == Right && r.path[0].color == Red &&
            ColorOf(r.path[0].sibling) == Black
  {
    var f, fr, rest := x.focus, x.path[0], x.path[1..];
    var h := BlackHeight(f);
    var s := fr.sibling;
    SiblingFacts(x);
    RedSiblingShapeRight(x);
    RedSiblingInvRight(x);
  }

  /** The cell the red-sibling case (right side) ends at keeps the invariant. */
  lemma RedSiblingInvRight<T>(x: Zipper<T>)
    requires DeleteInv(x) && x.path != [] && ColorOf(x.focus) == Black
    requires x.path[0].dir == Right && ColorOf(x.path[0].sibling) == Red
    ensures var fr, s := x.path[0], x.path[0].sibling;
            s.Node? &&
            DeleteInv(Zipper(x.focus, [Frame(Right, Red, fr.elem, s.right), Frame(Right, Black, s.elem, s.left)] + x.path[1..]))
  {
    var f, fr, rest := x.focus, x.path[0], x.path[1..];
    var h := BlackHeight(f);
    var s := fr.sibling;
    SiblingFacts(x);
    var r := Zipper(f, [Frame(Right, Red, fr.elem, s.right), Frame(Right, Black, s.elem, s.left)] + rest);
    assert r.path[1..] == [Frame(Right, Black, s.elem, s.left)] + rest;
    assert r.path[1..][1..] == rest;
    assert HoleFits(rest, h + 2, Black);
    assert HoleFits(r.path[1..], h + 1, Red);
  }

  /** Both nephews BLACK.  The sibling turns RED, which
      makes the parent's subtree the one that is short, and x moves up to it. */
  lemma BlackNephews<T>(x: Zipper<T>)
    requires DeleteInv(x) && x.path != [] && ColorOf(x.focus) == Black
    requires ColorOf(x.path[0].sibling) == Black
    requires ColorOf(LeftOf(x.path[0].sibling)) == Black && ColorOf(RightOf(x.path[0].sibling)) == Black
    ensures var r := Parent(SetSiblingColor(x, Red));
            DeleteInv(r) && Inorder(Whole(r)) == Inorder(Whole(x)) && |r.path| == |x.path| - 1 &&
            ColorOf(r.focus) == x.path[0].color
  {
    var f, fr, rest := x.focus, x.path[0], x.path[1..];
    var h := BlackHeight(f);
    var s := fr.sibling;
    SiblingFacts(x);
    var r := Parent(SetSiblingColor(x, Red));
    assert r.path == rest;
    assert r.focus == Attach(fr.(sibling := Paint(s, Red)), f);
    assert BlackHeight(Paint(s, Red)) == h;
    assert Blacken(f) == f;
    if fr.dir == Left {
      assert r.focus == Node(fr.color, f, fr.elem, Paint(s, Red));
      assert BlackHeight(r.focus) == h + (if fr.color == Black then 1 else 0);
    } else {
      assert r.focus == Node(fr.color, Paint(s, Red), fr.elem, f);
      assert BlackHeight(r.focus) == BlackHeight(Paint(s, Red)) + (if fr.color == Black then 1 else 0);
    }
    assert Balanced(r.focus) && BlackHeight(r.focus) == h + (if fr.color == Black then 1 else 0);
    if fr.color == Red {
      HoleFitsRelax(rest, h + 1);
    }
  }

  /** Only the inner nephew is RED.  It turns BLACK, the sibling RED,
      and a right rotation at the sibling makes the outer nephew the RED one. */
  lemma InnerNephewLeft<T>(x: Zipper<T>)
    requires DeleteInv(x) && x.path != [] && ColorOf(x.focus) == Black
    requires x.path[0].dir == Left && ColorOf(x.path[0].sibling) == Black
    requires ColorOf(LeftOf(x.path[0].sibling)) == Red && ColorOf(RightOf(x.path[0].sibling)) == Black
    ensures RightChild(Parent(SetSiblingColor(SetNephewColor(x, Left, Black), Red))).focus.left.Node?
    ensures var r := LeftChild(Parent(RotateRightAt(RightChild(Parent(SetSiblingColor(SetNephewColor(x, Left, Black), Red))))));
            DeleteInv(r) && Inorder(Whole(r)) == Inorder(Whole(x)) && |r.path| == |x.path| &&
            r.focus == x.focus && r.path[0].dir == Left && r.path[0].color == x.path[0].color &&
            ColorOf(r.path[0].sibling) == Black && ColorOf(RightOf(r.path[0].sibling)) == Red
  {
    var f, fr, rest := x.focus, x.path[0], x.path[1..];
    var s := fr.sibling;
    var n := s.left;
    SiblingFacts(x);
    assert s.color == Black && n == LeftOf(s) && n.color == Red;
    RedBlackNode(n);
    assert BlackHeight(s) == BlackHeight(n) + 1 == BlackHeight(n.left) + 1;
    InnerNephewShapeLeft(x);
    var r := LeftChild(Parent(RotateRightAt(RightChild(Parent(SetSiblingColor(SetNephewColor(x, Left, Black), Red))))));
    var s' := Node(Black, n.left, n.elem, Node(Red, n.right, s.elem, s.right));
    assert s.right == RightOf(s) && ColorOf(s.right) == Black;
    assert IsRedBlack(s'.right) && BlackHeight(s'.right) == BlackHeight(n.left);
    assert IsRedBlack(s') && BlackHeight(s') == BlackHeight(s);
    SwapSibling(x, s');
  }

  /** The mirror image of InnerNephewLeft. */
  lemma InnerNephewRight<T>(x: Zipper<T>)
    requires DeleteInv(x) && x.path != [] && ColorOf(x.focus) == Black
    requires x.path[0].dir == Right && ColorOf(x.path[0].sibling) == Black
    requires ColorOf(RightOf(x.path[0].sibling)) == Red && ColorOf(LeftOf(x.path[0].sibling)) == Black
    ensures LeftChild(Parent(SetSiblingColor(SetNephewColor(x, Right, Black), Red))).focus.right.Node?
    ensures var r := RightChild(Parent(RotateLeftAt(LeftChild(Parent(SetSiblingColor(SetNephewColor(x, Right, Black), Red))))));
            DeleteInv(r) && Inorder(Whole(r)) == Inorder(Whole(x)) && |r.path| == |x.path| &&
            r.focus == x.focus && r.path[0].dir == Right && r.path[0].color == x.path[0].color &&
            ColorOf(r.path[0].sibling) == Black && ColorOf(LeftOf(r.path[0].sibling)) == Red
  {
    var f, fr, rest := x.focus, x.path[0], x.path[1..];
    var s := fr.sibling;
    var n := s.right;
    SiblingFacts(x);
    assert s.color == Black && n == RightOf(s) && n.color == Red;
    RedBlackNode(n);
    assert BlackHeight(s) == BlackHeight(n) + 1 == BlackHeight(n.left) + 1;
    InnerNephewShapeRight(x);
    var r := RightChild(Parent(RotateLeftAt(LeftChild(Parent(SetSiblingColor(SetNephewColor(x, Right, Black), Red))))));
    var s' := Node(Black, Node(Red, s.left, s.elem, n.left), n.elem, n.right);
    assert s.left == LeftOf(s) && ColorOf(s.left) == Black;
    assert IsRedBlack(s'.left) && BlackHeight(s'.left) == BlackHeight(n.left);
    assert IsRedBlack(s') && BlackHeight(s') == BlackHeight(s);
    SwapSibling(x, s');
  }

  /** The outer nephew is RED.  The sibling takes the parent's colour,
      parent and outer nephew turn BLACK, and a left rotation at the parent gives the
      short side its missing BLACK cell: the whole tree is red-black again. */
  lemma OuterNephewLeft<T>(x: Zipper<T>)
    requires DeleteInv(x) && x.path != [] && ColorOf(x.focus) == Black
    requires x.path[0].dir == Left && ColorOf(x.path[0].sibling) == Black
    requires ColorOf(RightOf(x.path[0].sibling)) == Red
    ensures Parent(SetNephewColor(SetParentColor(SetSiblingColor(x, x.path[0].color), Black), Right, Black)).focus.right.Node?
    ensures var p := RotateLeftAt(Parent(SetNephewColor(SetParentColor(SetSiblingColor(x, x.path[0].color), Black), Right, Black)));
            IsRedBlack(Whole(p)) && ColorOf(Whole(p)) == Black &&
            Inorder(Whole(p)) == Inorder(Whole(x)) && DeleteInv(Zipper(Whole(p), []))
  {
    var f, fr, rest := x.focus, x.path[0], x.path[1..];
    var h := BlackHeight(f);
    var s := fr.sibling;
    SiblingFacts(x);
    assert s.color == Black;
    var x1 := SetNephewColor(SetParentColor(SetSiblingColor(x, fr.color), Black), Right, Black);
    assert x1.path[0] == Frame(Left, Black, fr.elem, Node(fr.color, s.left, s.elem, Paint(s.right, Black)));
    assert x1.path[1..] == rest;
    var p := RotateLeftAt(Parent(x1));
    var top := Node(fr.color, Node(Black, f, fr.elem, s.left), s.elem, Paint(s.right, Black));
    assert p.focus == top && p.path == rest;
    assert Blacken(f) == f && s.right == RightOf(s);
    var lo, hi := Node(Black, f, fr.elem, s.left), Paint(s.right, Black);
    assert IsRedBlack(lo) && BlackHeight(lo) == h + 1;
    RedBlackPaintBlack(s.right);
    BlackenRedBlack(s.right);
    assert IsRedBlack(hi) && BlackHeight(hi) == h + 1;
    assert top == Node(fr.color, lo, s.elem, hi);
    assert IsRedBlack(top) && BlackHeight(top) == h + 1 + (if fr.color == Black then 1 else 0);
    PlugRedBlack(top, rest);
    if rest != [] {
      PlugTop(top, rest);
    }
    RedBlackPaintBlack(Whole(p));
  }

  /** The mirror image of OuterNephewLeft. */
  lemma OuterNephewRight<T>(x: Zipper<T>)
    requires DeleteInv(x) && x.path != [] && ColorOf(x.focus) == Black
    requires x.path[0].dir == Right && ColorOf(x.path[0].sibling) == Black
    requires ColorOf(LeftOf(x.path[0].sibling)) == Red
    ensures Parent(SetNephewColor(SetParentColor(SetSiblingColor(x, x.path[0].color), Black), Left, Black)).focus.left.Node?
    ensures var p := RotateRightAt(Parent(SetNephewColor(SetParentColor(SetSiblingColor(x, x.path[0].color), Black), Left, Black)));
            IsRedBlack(Whole(p)) && ColorOf(Whole(p)) == Black &&
            Inorder(Whole(p)) == Inorder(Whole(x)) && DeleteInv(Zipper(Whole(p), []))
  {
    var f, fr, rest := x.focus, x.path[0], x.path[1..];
    var h := BlackHeight(f);
    var s := fr.sibling;
    SiblingFacts(x);
    assert s.color == Black;
    var x1 := SetNephewColor(SetParentColor(SetSiblingColor(x, fr.color), Black), Left, Black);
    assert x1.path[0] == Frame(Right, Black, fr.elem, Node(fr.color, Paint(s.left, Black), s.elem, s.right));
    assert x1.path[1..] == rest;
    var p := RotateRightAt(Parent(x1));
    var top := Node(fr.color, Paint(s.left, Black), s.elem, Node(Black, s.right, fr.elem, f));
    assert p.focus == top && p.path == rest;
    assert Blacken(f) == f && s.left == LeftOf(s);
    var lo, hi := Paint(s.left, Black), Node(Black, s.right, fr.elem, f);
    RedBlackPaintBlack(s.left);
    BlackenRedBlack(s.left);
    assert IsRedBlack(lo) && BlackHeight(lo) == h + 1;
    assert IsRedBlack(hi) && BlackHeight(hi) == h + 1;
    assert top == Node(fr.color, lo, s.elem, hi);
    assert IsRedBlack(top) && BlackHeight(top) == h + 1 + (if fr.color == Black then 1 else 0);
    PlugRedBlack(top, rest);
    if rest != [] {
      PlugTop(top, rest);
    }
    RedBlackPaintBlack(Whole(p));
  }

  /** The loop's measure: the depth of x, plus one while x is BLACK. */
  function Measure<T>(x: Zipper<T>): nat
  {
    |x.path| + (if ColorOf(x.focus) == Black then 1 else 0)
  }

  /** One pass of the fixup loop when x is its parent's left child. */
  method StepLeft<T>(x0: Zipper<T>) returns (x: Zipper<T>)
    requires DeleteInv(x0) && x0.path != [] && ColorOf(x0.focus) == Black && x0.path[0].dir == Left
    ensures DeleteInv(x) && Inorder(Whole(x)) == Inorder(Whole(x0)) && Measure(x) < Measure(x0)
  {
    x := x0;
    if ColorOf(x.path[0].sibling) == Red {
      RedSiblingLeft(x);
      x := SetSiblingColor(x, Black);
      x := SetParentColor(x, Red);
      var p := RotateLeftAt(Parent(x));
      x := LeftChild(LeftChild(p));
    }
    var sib := x.path[0].sibling;
    if ColorOf(LeftOf(sib)) == Black && ColorOf(RightOf(sib)) == Black {
      BlackNephews(x);
      x := SetSiblingColor(x, Red);
      x := Parent(x);
    } else {
      x := FinishLeft(x);
    }
  }

  /** The last case of the loop when x is a left child: a nephew is RED, and
      after at most two rotations x is the root of a red-black tree. */
  method FinishLeft<T>(x0: Zipper<T>) returns (x: Zipper<T>)
    requires DeleteInv(x0) && x0.path != [] && ColorOf(x0.focus) == Black && x0.path[0].dir == Left
    requires ColorOf(x0.path[0].sibling) == Black
    requires ColorOf(LeftOf(x0.path[0].sibling)) == Red || ColorOf(RightOf(x0.path[0].sibling)) == Red
    ensures x.path == [] && DeleteInv(x) && Inorder(Whole(x)) == Inorder(Whole(x0))
  {
    x := x0;
    var sib := x.path[0].sibling;
    if ColorOf(RightOf(sib)) == Black {
      InnerNephewLeft(x);
      x := SetNephewColor(x, Left, Black);
      x := SetSiblingColor(x, Red);
      var s := RotateRightAt(RightChild(Parent(x)));
      x := LeftChild(Parent(s));
    }
    OuterNephewLeft(x);
    x := SetSiblingColor(x, x.path[0].color);
    x := SetParentColor(x, Black);
    x := SetNephewColor(x, Right, Black);
    var p := RotateLeftAt(Parent(x));
    x := Zipper(Whole(p), []);
  }

  /** The mirror image of StepLeft. */
  method StepRight<T>(x0: Zipper<T>) returns (x: Zipper<T>)
    requires DeleteInv(x0) && x0.path != [] && ColorOf(x0.focus) == Black && x0.path[0].dir == Right
    ensures DeleteInv(x) && Inorder(Whole(x)) == Inorder(Whole(x0)) && Measure(x) < Measure(x0)
  {
    x := x0;
    if ColorOf(x.path[0].sibling) == Red {
      RedSiblingRight(x);
      x := SetSiblingColor(x, Black);
      x := SetParentColor(x, Red);
      var p := RotateRightAt(Parent(x));
      x := RightChild(RightChild(p));
    }
    var sib := x.path[0].sibling;
    if ColorOf(RightOf(sib)) == Black && ColorOf(LeftOf(sib)) == Black {
      BlackNephews(x);
      x := SetSiblingColor(x, Red);
      x := Parent(x);
    } else {
      x := FinishRight(x);
    }
  }

  /** The last case of the loop when x is a right child: a nephew is RED, and
      after at most two rotations x is the root of a red-black tree. */
  method FinishRight<T>(x0: Zipper<T>) returns (x: Zipper<T>)
    requires DeleteInv(x0) && x0.path != [] && ColorOf(x0.focus) == Black && x0.path[0].dir == Right
    requires ColorOf(x0.path[0].sibling) == Black
    requires ColorOf(LeftOf(x0.path[0].sibling)) == Red || ColorOf(RightOf(x0.path[0].sibling)) == Red
    ensures x.path == [] && DeleteInv(x) && Inorder(Whole(x)) == Inorder(Whole(x0))
  {
    x := x0;
    var sib := x.path[0].sibling;
    if ColorOf(LeftOf(sib)) == Black {
      InnerNephewRight(x);
      x := SetNephewColor(x, Right, Black);
      x := SetSiblingColor(x, Red);
      var s := RotateLeftAt(LeftChild(Parent(x)));
      x := RightChild(Parent(s));
    }
    OuterNephewRight(x);
    x := SetSiblingColor(x, x.path[0].color);
    x := SetParentColor(x, Black);
    x := SetNephewColor(x, Left, Black);
    var p := RotateRightAt(Parent(x));
    x := Zipper(Whole(p), []);
  }

  /** RBCell.fixAfterDeletion, called on the cell that took the place of a deleted
      BLACK cell (or on a null phantom in its place): the returned root heads a
      red-black tree with a BLACK root and the same in-order sequence. */
  method FixAfterDeletion<T>(z: Zipper<T>) returns (root: Tree<T>)
    requires DeleteInv(z)
    ensures IsRedBlack(root) && ColorOf(root) == Black
    ensures Inorder(root) == Inorder(Whole(z))
  {
    var x := z;
    while x.path != [] && ColorOf(x.focus) == Black
      invariant DeleteInv(x) && Inorder(Whole(x)) == Inorder(Whole(z))
      decreases Measure(x)
    {
      if x.path[0].dir == Left {
        x := StepLeft(x);
      } else {
        x := StepRight(x);
      }
    }
    BlackenRedBlack(x.focus);
    if x.path != [] {
      FitsWhole(Blacken(x.focus), x.path);
    }
    x := SetColor(x, Black);
    root := Whole(x);
  }

  /** A red-black cell with exactly one child is BLACK and its child is a RED leaf. */
  lemma OneChild<T>(t: Tree<T>)
    requires IsRedBlack(t) && t.Node? && (t.left.Nil? || t.right.Nil?)
    requires t.left.Node? || t.right.Node?
    ensures t.color == Black && BlackHeight(t) == 1
    ensures var c := if t.left.Node? then t.left else t.right;
            c.color == Red && BlackHeight(c) == 0
  {
  }

  /** Frames that agree on side and sibling put the same number of elements before
      the hole. */
  lemma {:induction false} BeforeLength<T>(p: seq<Frame<T>>, q: seq<Frame<T>>)
    requires |p| == |q|
    requires forall i :: 0 <= i < |p| ==> p[i].dir == q[i].dir && p[i].sibling == q[i].sibling
    ensures |Before(p)| == |Before(q)|
    decreases |p|
  {
    if p != [] {
      assert forall i :: 0 <= i < |p[1..]| ==> p[1..][i] == p[i + 1] && q[1..][i] == q[i + 1];
      BeforeLength(p[1..], q[1..]);
    }
  }

  /** RBCell.copyContents on the cell `k` links above `s`: it takes s's element. */
  function CopyUp<T>(s: Zipper<T>, k: nat): (r: Zipper<T>)
    requires s.focus.Node? && k < |s.path|
    ensures r.focus == s.focus && |r.path| == |s.path|
    ensures r.path[k] == s.path[k].(elem := s.focus.elem)
    ensures forall i :: 0 <= i < |s.path| && i != k ==> r.path[i] == s.path[i]
  {
    s.(path := s.path[k := s.path[k].(elem := s.focus.elem)])
  }

  /** The successor of a cell with two children is the leftmost cell of its right
      subtree; copying its element into the cell gives the tree in which the cell
      holds that element, with the successor still right after it. */
  lemma CopySuccessor<T>(z: Zipper<T>, s: Zipper<T>)
    requires z.focus.Node? && z.focus.right.Node?
    requires s.focus.Node? && Below(s, RightChild(z))
    ensures |s.path| > |z.path|
    ensures var r := CopyUp(s, |s.path| - |z.path| - 1);
            Whole(r) == Whole(z.(focus := z.focus.(elem := s.focus.elem))) &&
            Index(r) == Index(s)
  {
    var c := RightChild(z);
    var k := |s.path| - |z.path| - 1;
    var r := CopyUp(s, k);
    var fr := Frame(Right, z.focus.color, s.focus.elem, z.focus.left);
    assert c.path[0] == s.path[k];
    assert r.path == r.path[..k] + ([fr] + z.path) by {
      assert r.path[..k] == s.path[..k];
      assert r.path[k + 1..] == s.path[k + 1..] == c.path[1..] == z.path;
    }
    assert r.path[..k] == s.path[..k];
    PlugAppend(s.focus, r.path[..k], [fr] + z.path);
    assert ([fr] + z.path)[1..] == z.path;
    assert Plug(s.focus, s.path[..k]) == z.focus.right;
    BeforeLength(r.path, s.path);
  }

  /** Overwriting position i with its successor and then removing the successor's
      position removes position i. */
  lemma RemoveSuccessor<T>(s: seq<T>, i: nat)
    requires i + 1 < |s|
    ensures RemoveAt(s[i := s[i + 1]], i + 1) == RemoveAt(s, i)
  {
    assert RemoveAt(s[i := s[i + 1]], i + 1) == s[..i] + [s[i + 1]] + s[i + 2..];
    assert s[i + 1..] == [s[i + 1]] + s[i + 2..];
  }

  /** Putting the cell's only child (or a null link) in its place removes exactly the
      cell's position from the in-order sequence. */
  lemma SpliceOut<T>(z: Zipper<T>)
    requires z.focus.Node? && (z.focus.left.Nil? || z.focus.right.Nil?)
    ensures Index(z) < |Inorder(Whole(z))|
    ensures var rep := if z.focus.left.Node? then z.focus.left else z.focus.right;
            Inorder(Whole(Zipper(rep, z.path))) == RemoveAt(Inorder(Whole(z)), Index(z))
  {
    var d := z.focus;
    var rep := if d.left.Node? then d.left else d.right;
    PlugInorder(d, z.path);
    PlugInorder(rep, z.path);
    assert Inorder(rep) == Inorder(d.left) + Inorder(d.right);
    RemoveMiddle(Before(z.path), Inorder(d.left), d.elem, Inorder(d.right), After(z.path));
  }

  /** RBCell.delete: the cell at `z` leaves the tree, which is rebalanced.  The result
      is a red-black tree with a BLACK root whose in-order sequence is the old one
      without the cell's position. */
  method Delete<T>(z: Zipper<T>) returns (root: Tree<T>)
    requires z.focus.Node?
    requires IsRedBlack(Whole(z)) && ColorOf(Whole(z)) == Black
    ensures IsRedBlack(root) && ColorOf(root) == Black
    ensures Index(z) < |Inorder(Whole(z))|
    ensures Inorder(root) == RemoveAt(Inorder(Whole(z)), Index(z))
    decreases if z.focus.left.Node? && z.focus.right.Node? then 1 else 0
  {
    CellElement(z);
    var d := z.focus;
    if d.left.Node? && d.right.Node? {
      var s := Leftmost(RightChild(z));
      ghost var S, i := Inorder(Whole(z)), Index(z);
      CellElement(s);
      assert Index(s) == i + 1 by {
        assert RightChild(z).path[1..] == z.path;
        PlugInorder(z.focus, z.path);
      }
      CopySuccessor(z, s);
      Relabel(z, s.focus.elem);
      var r := CopyUp(s, |s.path| - |z.path| - 1);
      root := Delete(r);
      RemoveSuccessor(S, i);
      return;
    }
    CellFits(z);
    var rep := if d.left.Node? then d.left else d.right;
    var x := Zipper(rep, z.path);
    SpliceOut(z);
    RedBlackNode(d);
    if rep.Node? {
      OneChild(d);
      if d.color == Black {
        root := FixAfterDeletion(x);
      } else {
        root := Whole(x);
      }
    } else if z.path == [] {
      root := Nil;
    } else {
      if d.color == Black {
        root := FixAfterDeletion(x);
      } else {
        HoleFitsRelax(z.path, 0);
        FitsWhole(Nil, z.path);
        root := Whole(x);
      }
    }
  }
}
