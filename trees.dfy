/** The shape of a red-black tree as a value: each node is an RBCell with its
    colorValue, leftValue, elementValue and rightValue; Nil is a null link.
    The red-black rules and the in-order sequence are defined here, together
    with the two rotations, which are local restructurings of a subtree. */
module Trees {

  /** RBCell's colorValue (RED is false, BLACK is true in the source). */
  datatype Color = Red | Black

  datatype Tree<T> = Nil | Node(color: Color, left: Tree<T>, elem: T, right: Tree<T>)

  /** RBCell.colorOf: a null link counts as BLACK. */
  function ColorOf<T>(t: Tree<T>): Color
  {
    if t.Nil? then Black else t.color
  }

  /** What colorOf answers: BLACK for a null link, the cell's own colour otherwise; so
      a RED answer always comes from an actual cell. */
  lemma ColorOfCases<T>(t: Tree<T>)
    ensures t.Nil? ==> ColorOf(t) == Black
    ensures t.Node? ==> ColorOf(t) == t.color
    ensures ColorOf(t) == Red ==> t.Node? && t.color == Red
  {
  }

  /** RBCell.setColor on the root of `t`: no effect on a null link. */
  function Paint<T>(t: Tree<T>, c: Color): (r: Tree<T>)
    ensures Inorder(r) == Inorder(t)
    ensures t.Node? ==> r.Node? && ColorOf(r) == c && r.left == t.left && r.right == t.right
    ensures t.Nil? ==> r.Nil?
  {
    if t.Nil? then Nil else t.(color := c)
  }

  /** RBCell.leftOf / rightOf as the null-safe lookups of a child subtree that the
      colour tests use: the child of a cell, or a null link for a null link.  Moving a
      cell reference to its child is Cells.LeftChild / Cells.RightChild. */
  function LeftOf<T>(t: Tree<T>): (r: Tree<T>)
    ensures t.Nil? ==> r.Nil?
    ensures t.Node? ==> r == t.left && |Inorder(r)| < |Inorder(t)|
  {
    if t.Nil? then Nil else t.left
  }

  function RightOf<T>(t: Tree<T>): (r: Tree<T>)
    ensures t.Nil? ==> r.Nil?
    ensures t.Node? ==> r == t.right && |Inorder(r)| < |Inorder(t)|
  {
    if t.Nil? then Nil else t.right
  }

  function Blacken<T>(t: Tree<T>): Tree<T>
  {
    Paint(t, Black)
  }

  /** The elements in in-order (left, node, right) order. */
  function Inorder<T>(t: Tree<T>): seq<T>
  {
    if t.Nil? then [] else Inorder(t.left) + [t.elem] + Inorder(t.right)
  }

  /** RBCell.size: the number of cells of a non-empty subtree. */
  function Size<T>(t: Tree<T>): (n: int)
    requires t.Node?
    ensures n == |Inorder(t)|
  {
    1 + (if t.left.Node? then Size(t.left) else 0) + (if t.right.Node? then Size(t.right) else 0)
  }

  /** Number of BLACK cells on the leftmost path from the root of `t`. */
  function BlackHeight<T>(t: Tree<T>): nat
  {
    if t.Nil? then 0 else BlackHeight(t.left) + (if t.color == Black then 1 else 0)
  }

  /** Every path from a cell down to a null link has the same number of BLACK cells. */
  ghost predicate Balanced<T>(t: Tree<T>)
  {
    t.Nil? ||
    (Balanced(t.left) && Balanced(t.right) && BlackHeight(t.left) == BlackHeight(t.right))
  }

  /** No RED cell has a RED child. */
  ghost predicate NoRedRed<T>(t: Tree<T>)
  {
    t.Nil? ||
    (NoRedRed(t.left) && NoRedRed(t.right) &&
     (t.color == Red ==> ColorOf(t.left) == Black && ColorOf(t.right) == Black))
  }

  ghost predicate IsRedBlack<T>(t: Tree<T>)
  {
    Balanced(t) && NoRedRed(t)
  }

  /** RBCell.rotateLeft: the right child `r` of the pivot takes its place, the pivot
      becomes r's left child and r's old left subtree becomes the pivot's right one. */
  function RotateLeft<T>(t: Tree<T>): (u: Tree<T>)
    requires t.Node? && t.right.Node?
    ensures Inorder(u) == Inorder(t)
    ensures u.Node? && u.left.Node?
    ensures u.elem == t.right.elem && u.left.elem == t.elem
    ensures u.color == t.right.color && u.left.color == t.color
    ensures u.left.left == t.left && u.left.right == t.right.left && u.right == t.right.right
  {
    var r := t.right;
    Node(r.color, Node(t.color, t.left, t.elem, r.left), r.elem, r.right)
  }

  /** RBCell.rotateRight: the mirror image of RotateLeft. */
  function RotateRight<T>(t: Tree<T>): (u: Tree<T>)
    requires t.Node? && t.left.Node?
    ensures Inorder(u) == Inorder(t)
    ensures u.Node? && u.right.Node?
    ensures u.elem == t.left.elem && u.right.elem == t.elem
    ensures u.color == t.left.color && u.right.color == t.color
    ensures u.left == t.left.left && u.right.left == t.left.right && u.right.right == t.right
  {
    var l := t.left;
    Node(l.color, l.left, l.elem, Node(t.color, l.right, t.elem, t.right))
  }

  /** What the red-black rules say about the two children of a cell. */
  lemma RedBlackNode<T>(t: Tree<T>)
    requires IsRedBlack(t) && t.Node?
    ensures IsRedBlack(t.left) && IsRedBlack(t.right)
    ensures BlackHeight(t.left) == BlackHeight(t.right)
    ensures BlackHeight(t) == BlackHeight(t.left) + (if t.color == Black then 1 else 0)
    ensures t.color == Red ==> ColorOf(t.left) == Black && ColorOf(t.right) == Black
  {
  }

  /** Painting the root black keeps the red-black rules (it adds one BLACK cell to
      every path when the root was RED). */
  lemma BlackenRedBlack<T>(t: Tree<T>)
    requires Balanced(t) && NoRedRed(Blacken(t))
    ensures IsRedBlack(Blacken(t))
    ensures BlackHeight(Blacken(t)) == BlackHeight(t) + (if ColorOf(t) == Red then 1 else 0)
  {
  }

  /** A red-black tree whose root is RED still satisfies the rules once it is painted BLACK. */
  lemma RedBlackPaintBlack<T>(t: Tree<T>)
    requires IsRedBlack(t)
    ensures IsRedBlack(Blacken(t))
  {
  }
}
