/** What the red-black rules ask of a cell's ancestors, and the in-place colour and
    rotation primitives of RBCell (setColor, rotateLeft, rotateRight) applied at a
    cell reference.  Every structural primitive of the source returns the current
    root; here the root is always Whole(x), and the primitives say how it changes. */
module Contexts {
  import opened Ordering
  import opened Trees
  import opened Cells

  /** Any red-black subtree of black height `h` whose root has colour `c` can hang at the
      hole of `path` and the whole is a red-black tree (the root's colour aside). */
  ghost predicate HoleFits<T>(path: seq<Frame<T>>, h: nat, c: Color)
    decreases |path|
  {
    path == [] ||
    (IsRedBlack(path[0].sibling) && BlackHeight(path[0].sibling) == h &&
     (path[0].color == Red ==> c == Black && ColorOf(path[0].sibling) == Black) &&
     HoleFits(path[1..], h + (if path[0].color == Black then 1 else 0), path[0].color))
  }

  /** Hanging a red-black subtree and a sibling of equal black height under one frame
      gives a red-black subtree one BLACK level taller when the frame is BLACK. */
  lemma AttachRedBlack<T>(fr: Frame<T>, t: Tree<T>)
    requires IsRedBlack(t) && IsRedBlack(fr.sibling) && BlackHeight(t) == BlackHeight(fr.sibling)
    requires fr.color == Red ==> ColorOf(t) == Black && ColorOf(fr.sibling) == Black
    ensures IsRedBlack(Attach(fr, t))
    ensures BlackHeight(Attach(fr, t)) == BlackHeight(t) + (if fr.color == Black then 1 else 0)
  {
  }

  /** The root, when it is an ancestor of the cell, is BLACK. */
  ghost predicate RootBlack<T>(path: seq<Frame<T>>)
  {
    |path| > 0 ==> path[|path| - 1].color == Black
  }

  /** Plugging a subtree under a non-empty chain leaves the top ancestor as the root. */
  lemma {:induction false} PlugTop<T>(t: Tree<T>, path: seq<Frame<T>>)
    requires path != []
    ensures Plug(t, path).Node?
    ensures Plug(t, path).color == path[|path| - 1].color
    ensures Plug(t, path).elem == path[|path| - 1].elem
    decreases |path|
  {
    if |path| > 1 {
      PlugTop(Attach(path[0], t), path[1..]);
    }
  }

  /** A tree is red-black exactly when the subtree at the hole is, and fits the hole. */
  lemma {:induction false} PlugRedBlack<T>(t: Tree<T>, path: seq<Frame<T>>)
    ensures IsRedBlack(Plug(t, path)) <==> IsRedBlack(t) && HoleFits(path, BlackHeight(t), ColorOf(t))
    decreases |path|
  {
    if path != [] {
      var a := Attach(path[0], t);
      PlugRedBlack(a, path[1..]);
      if IsRedBlack(a) {
        assert BlackHeight(a) == BlackHeight(t) + (if path[0].color == Black then 1 else 0);
      }
      if IsRedBlack(t) && HoleFits(path, BlackHeight(t), ColorOf(t)) {
        assert BlackHeight(a) == BlackHeight(t) + (if path[0].color == Black then 1 else 0);
      }
    }
  }

  /** A RED subtree may stand where a BLACK one fits, or wherever the parent is BLACK. */
  lemma HoleFitsRelax<T>(path: seq<Frame<T>>, h: nat)
    requires HoleFits(path, h, Red)
    ensures HoleFits(path, h, Black)
  {
  }

  lemma HoleFitsBlackParent<T>(path: seq<Frame<T>>, h: nat)
    requires HoleFits(path, h, Black) && path != [] && path[0].color == Black
    ensures HoleFits(path, h, Red)
  {
  }

  /** In a red-black tree, the subtree at any cell fits its chain of ancestors. */
  lemma CellFits<T>(z: Zipper<T>)
    requires IsRedBlack(Whole(z)) && ColorOf(Whole(z)) == Black
    ensures IsRedBlack(z.focus) && HoleFits(z.path, BlackHeight(z.focus), ColorOf(z.focus))
    ensures RootBlack(z.path)
  {
    PlugRedBlack(z.focus, z.path);
    if z.path != [] {
      PlugTop(z.focus, z.path);
    }
  }

  /** A chain whose root is BLACK, with a subtree that fits, gives a red-black tree
      with a BLACK root once the subtree is painted BLACK when it is the root. */
  lemma FitsWhole<T>(t: Tree<T>, path: seq<Frame<T>>)
    requires IsRedBlack(t) && HoleFits(path, BlackHeight(t), ColorOf(t)) && RootBlack(path)
    requires path == [] ==> ColorOf(t) == Black
    ensures IsRedBlack(Plug(t, path)) && ColorOf(Plug(t, path)) == Black
  {
    PlugRedBlack(t, path);
    if path != [] {
      PlugTop(t, path);
    }
  }

  /** Writing `e` into the cell at `z` changes that one position of the in-order
      sequence and nothing else, and keeps the colours and shape. */
  lemma Relabel<T>(z: Zipper<T>, e: T)
    requires z.focus.Node?
    ensures var z' := z.(focus := z.focus.(elem := e));
            Index(z) < |Inorder(Whole(z))| &&
            Inorder(Whole(z')) == Inorder(Whole(z))[Index(z) := e] &&
            (IsRedBlack(Whole(z')) <==> IsRedBlack(Whole(z))) &&
            ColorOf(Whole(z')) == ColorOf(Whole(z))
  {
    var z' := z.(focus := z.focus.(elem := e));
    PlugInorder(z.focus, z.path);
    PlugInorder(z'.focus, z.path);
    PlugRedBlack(z.focus, z.path);
    PlugRedBlack(z'.focus, z.path);
    if z.path != [] {
      PlugTop(z.focus, z.path);
      PlugTop(z'.focus, z.path);
    }
  }

  /** RBCell.setColor on the cell itself, its parent, its grandparent, its uncle, its
      sibling and the sibling's child on side `d`; each does nothing to a null link. */
  function SetColor<T>(x: Zipper<T>, c: Color): (r: Zipper<T>)
    ensures r.path == x.path && Inorder(Whole(r)) == Inorder(Whole(x))
    ensures x.focus.Node? ==>
              r.focus.Node? && r.focus.color == c && r.focus.left == x.focus.left &&
              r.focus.elem == x.focus.elem && r.focus.right == x.focus.right
    ensures x.focus.Nil? ==> r.focus.Nil?
  {
    var r := x.(focus := Paint(x.focus, c));
    PlugSameInorder(r.focus, x.focus, x.path);
    r
  }

  /** Replacing the parent frame by one with the same side, element and sibling
      elements leaves the in-order sequence of the whole tree as it was. */
  lemma ReplaceParentFrame<T>(x: Zipper<T>, fr: Frame<T>)
    requires |x.path| > 0 && fr.dir == x.path[0].dir && fr.elem == x.path[0].elem
    requires Inorder(fr.sibling) == Inorder(x.path[0].sibling)
    ensures Inorder(Whole(x.(path := x.path[0 := fr]))) == Inorder(Whole(x))
  {
    var r := x.(path := x.path[0 := fr]);
    assert r.path[1..] == x.path[1..];
    PlugSameInorder(Attach(fr, x.focus), Attach(x.path[0], x.focus), x.path[1..]);
  }

  function SetParentColor<T>(x: Zipper<T>, c: Color): (r: Zipper<T>)
    requires |x.path| > 0
    ensures r.focus == x.focus && |r.path| == |x.path| && r.path[1..] == x.path[1..]
    ensures r.path[0] == x.path[0].(color := c)
    ensures Inorder(Whole(r)) == Inorder(Whole(x))
  {
    ReplaceParentFrame(x, x.path[0].(color := c));
    x.(path := x.path[0 := x.path[0].(color := c)])
  }

  function SetGrandparentColor<T>(x: Zipper<T>, c: Color): (r: Zipper<T>)
    requires |x.path| > 1
    ensures r.focus == x.focus && |r.path| == |x.path| && r.path[2..] == x.path[2..]
    ensures r.path[0] == x.path[0] && r.path[1] == x.path[1].(color := c)
    ensures Inorder(Whole(r)) == Inorder(Whole(x))
  {
    var r := x.(path := x.path[1 := x.path[1].(color := c)]);
    ReplaceParentFrame(Parent(x), x.path[1].(color := c));
    assert Parent(x).(path := Parent(x).path[0 := x.path[1].(color := c)]) == Parent(r);
    r
  }

  function SetUncleColor<T>(x: Zipper<T>, c: Color): (r: Zipper<T>)
    requires |x.path| > 1
    ensures r.focus == x.focus && |r.path| == |x.path| && r.path[2..] == x.path[2..]
    ensures r.path[0] == x.path[0] && r.path[1] == x.path[1].(sibling := Paint(x.path[1].sibling, c))
    ensures Inorder(Whole(r)) == Inorder(Whole(x))
  {
    var fr := x.path[1].(sibling := Paint(x.path[1].sibling, c));
    var r := x.(path := x.path[1 := fr]);
    ReplaceParentFrame(Parent(x), fr);
    assert Parent(x).(path := Parent(x).path[0 := fr]) == Parent(r);
    r
  }

  function SetSibling<T>(x: Zipper<T>, t: Tree<T>): (r: Zipper<T>)
    requires |x.path| > 0
    ensures r.focus == x.focus && |r.path| == |x.path| && r.path[1..] == x.path[1..]
    ensures r.path[0] == x.path[0].(sibling := t)
  {
    x.(path := x.path[0 := x.path[0].(sibling := t)])
  }

  function SetSiblingColor<T>(x: Zipper<T>, c: Color): (r: Zipper<T>)
    requires |x.path| > 0
    ensures r.focus == x.focus && |r.path| == |x.path| && r.path[1..] == x.path[1..]
    ensures r.path[0] == x.path[0].(sibling := Paint(x.path[0].sibling, c))
    ensures Inorder(Whole(r)) == Inorder(Whole(x))
  {
    ReplaceParentFrame(x, x.path[0].(sibling := Paint(x.path[0].sibling, c)));
    SetSibling(x, Paint(x.path[0].sibling, c))
  }

  function SetNephewColor<T>(x: Zipper<T>, d: Dir, c: Color): (r: Zipper<T>)
    requires |x.path| > 0
    ensures x.path[0].sibling.Nil? ==> r == x
    ensures r.focus == x.focus && |r.path| == |x.path| && r.path[1..] == x.path[1..]
    ensures var s := x.path[0].sibling;
            s.Node? ==> r.path[0] == x.path[0].(sibling := if d == Left then s.(left := Paint(s.left, c))
                                                                   else s.(right := Paint(s.right, c)))
    ensures Inorder(Whole(r)) == Inorder(Whole(x))
  {
    var s := x.path[0].sibling;
    if s.Nil? then x
    else
      var s' := if d == Left then s.(left := Paint(s.left, c)) else s.(right := Paint(s.right, c));
      ReplaceParentFrame(x, x.path[0].(sibling := s'));
      SetSibling(x, s')
  }

  /** rotateLeft / rotateRight with the cell as pivot. */
  function RotateLeftAt<T>(x: Zipper<T>): (r: Zipper<T>)
    requires x.focus.Node? && x.focus.right.Node?
    ensures r.path == x.path
    ensures Inorder(Whole(r)) == Inorder(Whole(x))
    ensures r.focus.Node? && r.focus.left.Node?
    ensures r.focus.elem == x.focus.right.elem && r.focus.left.elem == x.focus.elem
    ensures r.focus.color == x.focus.right.color && r.focus.left.color == x.focus.color
    ensures r.focus.left.left == x.focus.left && r.focus.left.right == x.focus.right.left &&
            r.focus.right == x.focus.right.right
  {
    var r := x.(focus := RotateLeft(x.focus));
    PlugSameInorder(r.focus, x.focus, x.path);
    r
  }

  function RotateRightAt<T>(x: Zipper<T>): (r: Zipper<T>)
    requires x.focus.Node? && x.focus.left.Node?
    ensures r.path == x.path
    ensures Inorder(Whole(r)) == Inorder(Whole(x))
    ensures r.focus.Node? && r.focus.right.Node?
    ensures r.focus.elem == x.focus.left.elem && r.focus.right.elem == x.focus.elem
    ensures r.focus.color == x.focus.left.color && r.focus.right.color == x.focus.color
    ensures r.focus.left == x.focus.left.left && r.focus.right.left == x.focus.left.right &&
            r.focus.right.right == x.focus.right
  {
    var r := x.(focus := RotateRight(x.focus));
    PlugSameInorder(r.focus, x.focus, x.path);
    r
  }

  /** The root a rotation returns: the pivot's former child when the pivot was the root,
      otherwise the old root itself. */
  lemma RotateLeftRoot<T>(x: Zipper<T>)
    requires x.focus.Node? && x.focus.right.Node?
    ensures x.path == [] ==> Whole(RotateLeftAt(x)).elem == x.focus.right.elem
    ensures x.path != [] ==>
              Whole(RotateLeftAt(x)).Node? && Whole(x).Node? &&
              Whole(RotateLeftAt(x)).elem == Whole(x).elem && Whole(RotateLeftAt(x)).color == Whole(x).color
  {
    if x.path != [] {
      PlugTop(x.focus, x.path);
      PlugTop(RotateLeftAt(x).focus, x.path);
    }
  }

  lemma RotateRightRoot<T>(x: Zipper<T>)
    requires x.focus.Node? && x.focus.left.Node?
    ensures x.path == [] ==> Whole(RotateRightAt(x)).elem == x.focus.left.elem
    ensures x.path != [] ==>
              Whole(RotateRightAt(x)).Node? && Whole(x).Node? &&
              Whole(RotateRightAt(x)).elem == Whole(x).elem && Whole(RotateRightAt(x)).color == Whole(x).color
  {
    if x.path != [] {
      PlugTop(x.focus, x.path);
      PlugTop(RotateRightAt(x).focus, x.path);
    }
  }
}
