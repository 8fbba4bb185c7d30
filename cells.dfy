/** A reference to an RBCell inside the tree it belongs to.  A Zipper holds the
    subtree rooted at the cell (`focus`) and the chain of its parentValue links up to
    the root (`path`, parent first).  Each Frame of the chain records the ancestor's
    colour and element, on which side of it the lower cell hangs, and the ancestor's
    other subtree.  Walking leftValue / rightValue / parentValue is moving the focus
    down or up; the whole tree is always recovered by plugging the focus back in.
    This module holds the read-only cell operations: leftmost, rightmost, successor,
    predecessor, find and count. */
module Cells {
  import opened Ordering
  import opened Trees

  datatype Option<T> = None | Some(value: T)

  datatype Dir = Left | Right

  datatype Frame<T> = Frame(dir: Dir, color: Color, elem: T, sibling: Tree<T>)

  datatype Zipper<T> = Zipper(focus: Tree<T>, path: seq<Frame<T>>)

  /** The ancestor of a frame with `t` hung on its `dir` side. */
  function Attach<T>(fr: Frame<T>, t: Tree<T>): Tree<T>
  {
    if fr.dir == Left then Node(fr.color, t, fr.elem, fr.sibling)
    else Node(fr.color, fr.sibling, fr.elem, t)
  }

  /** The tree obtained by hanging `t` back under its chain of ancestors. */
  function Plug<T>(t: Tree<T>, path: seq<Frame<T>>): Tree<T>
    decreases |path|
  {
    if path == [] then t else Plug(Attach(path[0], t), path[1..])
  }

  /** The whole tree the cell is in. */
  function Whole<T>(z: Zipper<T>): Tree<T>
  {
    Plug(z.focus, z.path)
  }

  /** The elements that come before / after the subtree at the hole, in order. */
  function Before<T>(path: seq<Frame<T>>): seq<T>
    decreases |path|
  {
    if path == [] then []
    else Before(path[1..]) +
         (if path[0].dir == Right then Inorder(path[0].sibling) + [path[0].elem] else [])
  }

  function After<T>(path: seq<Frame<T>>): seq<T>
    decreases |path|
  {
    if path == [] then []
    else (if path[0].dir == Left then [path[0].elem] + Inorder(path[0].sibling) else []) +
         After(path[1..])
  }

  lemma {:induction false} PlugInorder<T>(t: Tree<T>, path: seq<Frame<T>>)
    ensures Inorder(Plug(t, path)) == Before(path) + Inorder(t) + After(path)
    decreases |path|
  {
    if path != [] {
      PlugInorder(Attach(path[0], t), path[1..]);
    }
  }

  /** Subtrees with the same elements in the same order plug into the same sequence. */
  lemma PlugSameInorder<T>(t: Tree<T>, u: Tree<T>, path: seq<Frame<T>>)
    requires Inorder(t) == Inorder(u)
    ensures Inorder(Plug(t, path)) == Inorder(Plug(u, path))
  {
    PlugInorder(t, path);
    PlugInorder(u, path);
  }

  lemma {:induction false} PlugAppend<T>(t: Tree<T>, p: seq<Frame<T>>, q: seq<Frame<T>>)
    ensures Plug(t, p + q) == Plug(Plug(t, p), q)
    decreases |p|
  {
    if p != [] {
      assert (p + q)[0] == p[0] && (p + q)[1..] == p[1..] + q;
      PlugAppend(Attach(p[0], t), p[1..], q);
    } else {
      assert p + q == q;
    }
  }

  /** The in-order position of the cell: how many elements of the whole tree precede it. */
  function Index<T>(z: Zipper<T>): nat
    requires z.focus.Node?
  {
    |Before(z.path)| + |Inorder(z.focus.left)|
  }

  /** The cell's element sits at its in-order position of the whole tree. */
  lemma CellElement<T>(z: Zipper<T>)
    requires z.focus.Node?
    ensures Index(z) < |Inorder(Whole(z))|
    ensures Inorder(Whole(z))[Index(z)] == z.focus.elem
  {
    PlugInorder(z.focus, z.path);
  }

  /** parentValue, leftValue and rightValue: moving the reference, not the tree. */
  function Parent<T>(z: Zipper<T>): (p: Zipper<T>)
    requires |z.path| > 0
    ensures Whole(p) == Whole(z) && p.focus.Node? && p.path == z.path[1..]
    ensures z.path[0].dir == Left ==> LeftChild(p) == z
    ensures z.path[0].dir == Right ==> RightChild(p) == z
  {
    Zipper(Attach(z.path[0], z.focus), z.path[1..])
  }

  function LeftChild<T>(z: Zipper<T>): (c: Zipper<T>)
    requires z.focus.Node?
    ensures Whole(c) == Whole(z) && c.focus == z.focus.left && |c.path| == |z.path| + 1
    ensures c.path[0] == Frame(Left, z.focus.color, z.focus.elem, z.focus.right) && c.path[1..] == z.path
  {
    var t := z.focus;
    var c := Zipper(t.left, [Frame(Left, t.color, t.elem, t.right)] + z.path);
    assert c.path[1..] == z.path;
    c
  }

  function RightChild<T>(z: Zipper<T>): (c: Zipper<T>)
    requires z.focus.Node?
    ensures Whole(c) == Whole(z) && c.focus == z.focus.right && |c.path| == |z.path| + 1
    ensures c.path[0] == Frame(Right, z.focus.color, z.focus.elem, z.focus.left) && c.path[1..] == z.path
  {
    var t := z.focus;
    var c := Zipper(t.right, [Frame(Right, t.color, t.elem, t.left)] + z.path);
    assert c.path[1..] == z.path;
    c
  }

  /** `m` lies inside the subtree at `z`: it is reached from `z` by going down. */
  ghost predicate Below<T>(m: Zipper<T>, z: Zipper<T>)
  {
    |m.path| >= |z.path| &&
    m.path[|m.path| - |z.path|..] == z.path &&
    Plug(m.focus, m.path[..|m.path| - |z.path|]) == z.focus
  }

  lemma BelowLeft<T>(m: Zipper<T>, z: Zipper<T>)
    requires Below(m, z) && m.focus.Node?
    ensures Below(LeftChild(m), z)
  {
    var c := LeftChild(m);
    var k := |m.path| - |z.path|;
    var d := m.path[..k];
    assert c.path == [c.path[0]] + m.path;
    assert c.path[..k + 1] == [c.path[0]] + d;
    assert c.path[k + 1..] == m.path[k..];
    assert ([c.path[0]] + d)[1..] == d;
  }

  lemma BelowRight<T>(m: Zipper<T>, z: Zipper<T>)
    requires Below(m, z) && m.focus.Node?
    ensures Below(RightChild(m), z)
  {
    var c := RightChild(m);
    var k := |m.path| - |z.path|;
    var d := m.path[..k];
    assert c.path == [c.path[0]] + m.path;
    assert c.path[..k + 1] == [c.path[0]] + d;
    assert c.path[k + 1..] == m.path[k..];
    assert ([c.path[0]] + d)[1..] == d;
  }

  /** A cell below `z` is in the same whole tree. */
  lemma BelowWhole<T>(m: Zipper<T>, z: Zipper<T>)
    requires Below(m, z)
    ensures Whole(m) == Whole(z)
  {
    var k := |m.path| - |z.path|;
    assert m.path == m.path[..k] + m.path[k..];
    PlugAppend(m.focus, m.path[..k], m.path[k..]);
  }

  /** RBCell.leftmost: the cell of the subtree at `z` holding its first element. */
  method Leftmost<T>(z: Zipper<T>) returns (m: Zipper<T>)
    requires z.focus.Node?
    ensures m.focus.Node? && m.focus.left.Nil?
    ensures Whole(m) == Whole(z) && Below(m, z)
    ensures Index(m) == |Before(z.path)|
  {
    m := z;
    assert m.path[..0] == [];
    while m.focus.left.Node?
      invariant m.focus.Node? && Whole(m) == Whole(z) && Below(m, z)
      invariant |Before(m.path)| == |Before(z.path)|
      decreases m.focus
    {
      BelowLeft(m, z);
      var c := LeftChild(m);
      assert c.path[1..] == m.path;
      m := c;
    }
  }

  /** RBCell.rightmost: the cell of the subtree at `z` holding its last element. */
  method Rightmost<T>(z: Zipper<T>) returns (m: Zipper<T>)
    requires z.focus.Node?
    ensures m.focus.Node? && m.focus.right.Nil?
    ensures Whole(m) == Whole(z) && Below(m, z)
    ensures Index(m) + 1 == |Before(z.path)| + |Inorder(z.focus)|
  {
    m := z;
    assert m.path[..0] == [];
    while m.focus.right.Node?
      invariant m.focus.Node? && Whole(m) == Whole(z) && Below(m, z)
      invariant |Before(m.path)| + |Inorder(m.focus)| == |Before(z.path)| + |Inorder(z.focus)|
      decreases m.focus
    {
      BelowRight(m, z);
      var c := RightChild(m);
      assert c.path[1..] == m.path;
      m := c;
    }
  }

  /** RBCell.successor: the cell holding the next element in in-order order, or none for
      the last one. */
  method Successor<T>(z: Zipper<T>) returns (r: Option<Zipper<T>>)
    requires z.focus.Node?
    ensures r.Some? ==> r.value.focus.Node? && Whole(r.value) == Whole(z) && Index(r.value) == Index(z) + 1
    ensures r.None? <==> Index(z) + 1 == |Inorder(Whole(z))|
  {
    if z.focus.right.Node? {
      var c := RightChild(z);
      assert c.path[1..] == z.path;
      var m := Leftmost(c);
      CellElement(m);
      return Some(m);
    }
    var ch := z;
    while ch.path != [] && ch.path[0].dir == Right
      invariant Whole(ch) == Whole(z)
      invariant |Before(ch.path)| + |Inorder(ch.focus)| == Index(z) + 1
      decreases |ch.path|
    {
      ch := Parent(ch);
    }
    if ch.path == [] {
      CellElement(z);
      return None;
    }
    var p := Parent(ch);
    CellElement(p);
    return Some(p);
  }

  /** RBCell.predecessor: the cell holding the previous element, or none for the first. */
  method Predecessor<T>(z: Zipper<T>) returns (r: Option<Zipper<T>>)
    requires z.focus.Node?
    ensures r.Some? ==> r.value.focus.Node? && Whole(r.value) == Whole(z) && Index(r.value) + 1 == Index(z)
    ensures r.None? <==> Index(z) == 0
  {
    if z.focus.left.Node? {
      var c := LeftChild(z);
      assert c.path[1..] == z.path;
      var m := Rightmost(c);
      return Some(m);
    }
    var ch := z;
    while ch.path != [] && ch.path[0].dir == Left
      invariant Whole(ch) == Whole(z)
      invariant |Before(ch.path)| == Index(z)
      decreases |ch.path|
    {
      ch := Parent(ch);
    }
    if ch.path == [] {
      return None;
    }
    var p := Parent(ch);
    return Some(p);
  }

  /** In a sorted subtree every element on the left is at most the cell's element and
      every element on the right at least it. */
  lemma SortedNode<T>(key: T -> int, t: Tree<T>)
    requires t.Node? && Sorted(key, Inorder(t))
    ensures Sorted(key, Inorder(t.left)) && Sorted(key, Inorder(t.right))
    ensures AllBelow(key, Inorder(t.left), t.elem, false)
    ensures AllAbove(key, Inorder(t.right), t.elem, false)
  {
    SortedSplit(key, Inorder(t.left), t.elem, Inorder(t.right));
  }

  lemma SortedSplit<T>(key: T -> int, a: seq<T>, e: T, b: seq<T>)
    requires Sorted(key, a + [e] + b)
    ensures Sorted(key, a) && Sorted(key, b)
    ensures AllBelow(key, a, e, false) && AllAbove(key, b, e, false)
  {
    var s := a + [e] + b;
    assert s[|a|] == e;
    forall i, j | 0 <= i < j < |a| ensures key(a[i]) <= key(a[j]) {
      assert a[i] == s[i] && a[j] == s[j];
    }
    forall i, j | 0 <= i < j < |b| ensures key(b[i]) <= key(b[j]) {
      assert b[i] == s[|a| + 1 + i] && b[j] == s[|a| + 1 + j];
    }
    forall i | 0 <= i < |a| ensures key(a[i]) <= key(e) {
      assert a[i] == s[i];
    }
    forall i | 0 <= i < |b| ensures key(e) <= key(b[i]) {
      assert b[i] == s[|a| + 1 + i];
    }
  }

  /** An equal element of a concatenation is in one of its parts. */
  lemma HasConcat<T>(key: T -> int, a: seq<T>, b: seq<T>, x: T)
    ensures Has(key, a + b, x) <==> Has(key, a, x) || Has(key, b, x)
  {
    var s := a + b;
    if Has(key, s, x) {
      var i :| 0 <= i < |s| && key(s[i]) == key(x);
      if i < |a| {
        assert s[i] == a[i];
      } else {
        assert s[i] == b[i - |a|];
      }
    }
    if Has(key, a, x) {
      var i :| 0 <= i < |a| && key(a[i]) == key(x);
      assert s[i] == a[i];
    }
    if Has(key, b, x) {
      var i :| 0 <= i < |b| && key(b[i]) == key(x);
      assert s[|a| + i] == b[i];
    }
  }

  /** An equal element of a subtree is on its left, at its root or on its right. */
  lemma HasNode<T>(key: T -> int, t: Tree<T>, x: T)
    requires t.Node?
    ensures Has(key, Inorder(t), x) <==>
      Has(key, Inorder(t.left), x) || key(t.elem) == key(x) || Has(key, Inorder(t.right), x)
  {
    HasConcat(key, Inorder(t.left) + [t.elem], Inorder(t.right), x);
    HasConcat(key, Inorder(t.left), [t.elem], x);
    assert Has(key, [t.elem], x) <==> key(t.elem) == key(x) by {
      if key(t.elem) == key(x) {
        assert [t.elem][0] == t.elem;
      }
    }
  }

  /** RBCell.find on the root: a cell whose element compares equal to `x` when the tree
      holds one, and none otherwise.  Relies on the (non-strict) search-tree order. */
  method Find<T>(key: T -> int, root: Tree<T>, x: T) returns (r: Option<Zipper<T>>)
    requires root.Node? && Sorted(key, Inorder(root))
    ensures r.Some? ==> r.value.focus.Node? && Whole(r.value) == root
    ensures r.Some? ==> key(r.value.focus.elem) == key(x)
    ensures r.None? <==> !Has(key, Inorder(root), x)
  {
    var t := Zipper(root, []);
    while true
      invariant t.focus.Node? && Whole(t) == root
      invariant Sorted(key, Inorder(t.focus))
      invariant Has(key, Inorder(root), x) ==> Has(key, Inorder(t.focus), x)
      decreases t.focus
    {
      var diff := Compare(key, x, t.focus.elem);
      SortedNode(key, t.focus);
      HasNode(key, t.focus, x);
      if diff == 0 {
        CellElement(t);
        return Some(t);
      } else if diff < 0 {
        assert !Has(key, Inorder(t.focus.right), x);
        t := LeftChild(t);
      } else {
        assert !Has(key, Inorder(t.focus.left), x);
        t := RightChild(t);
      }
      if t.focus.Nil? {
        return None;
      }
    }
  }

  /** Occurrences of a subtree split at its root. */
  lemma OccurrencesNode<T>(key: T -> int, t: Tree<T>, x: T)
    requires t.Node?
    ensures Occurrences(key, Inorder(t), x) ==
      Occurrences(key, Inorder(t.left), x) + (if key(t.elem) == key(x) then 1 else 0) +
      Occurrences(key, Inorder(t.right), x)
  {
    OccurrencesAppend(key, Inorder(t.left) + [t.elem], Inorder(t.right), x);
    OccurrencesAppend(key, Inorder(t.left), [t.elem], x);
    assert [t.elem][..0] == [];
  }

  /** RBCell.count: the number of elements of the subtree that compare equal to `x`.
      On a match the right subtree is counted by a recursive call and the descent
      continues to the left, since equal elements may lie on both sides. */
  method Count<T>(key: T -> int, t0: Tree<T>, x: T) returns (c: int)
    requires t0.Node? && Sorted(key, Inorder(t0))
    ensures c == Occurrences(key, Inorder(t0), x)
    decreases |Inorder(t0)|
  {
    c := 0;
    var t := t0;
    while t.Node?
      invariant Sorted(key, Inorder(t)) && |Inorder(t)| <= |Inorder(t0)|
      invariant c + Occurrences(key, Inorder(t), x) == Occurrences(key, Inorder(t0), x)
      decreases t
    {
      var diff := Compare(key, x, t.elem);
      SortedNode(key, t);
      OccurrencesNode(key, t, x);
      if diff == 0 {
        c := c + 1;
        if t.left.Nil? {
          t := t.right;
        } else if t.right.Nil? {
          t := t.left;
        } else {
          var rc := Count(key, t.right, x);
          c := c + rc;
          t := t.left;
        }
      } else if diff < 0 {
        NoneEqual(key, Inorder(t.right), x);
        t := t.left;
      } else {
        NoneEqual(key, Inorder(t.left), x);
        t := t.right;
      }
    }
  }

  lemma NoneEqual<T>(key: T -> int, s: seq<T>, x: T)
    requires forall i :: 0 <= i < |s| ==> key(s[i]) != key(x)
    ensures Occurrences(key, s, x) == 0
  {
    OccurrencesZero(key, s, x);
  }
}
