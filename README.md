# Red-black ordered multiset and CBOR long-integer predicates

This project models two pieces of the PeterO CBOR library in Dafny and proves
properties of them.

**`RedBlackTree<T>`** (RedBlackTree.cs) is an ordered multiset kept in a red-black tree
of linked `RBCell`s, ordered by an `IComparer<T>`.
- Equal elements may repeat.
- An insertion descends left on ties, so the order is non-decreasing.
- Every structural primitive returns the current root, which a rotation can change.

**`CBORInteger`** (CBORInteger.java) is the number interface of a CBOR integer held in
a Java `long`.

## Modelling choices

- **Cells as zippers.**
  - A reference to an `RBCell` is a value `Zipper(focus, path)` (module `Cells`).
  - `focus` is the subtree rooted at the cell.
  - `path` is the chain of its ancestors, parent first. Each ancestor is a `Frame`: the side the cell hangs on, the ancestor's colour and element, and the other child.
  - `Whole(z)` rebuilds the tree the cell sits in. It is what `RBCell.root()` returns; `isRoot()` is `z.path == []`.
  - Parent/child link consistency holds by construction.
  - A primitive that rewires links and returns the root returns a new zipper or tree. Its contract states the new in-order sequence, the colours and the root.
- **Loops stay loops.** `leftmost`, `rightmost`, `successor`, `predecessor`, `find`, `count`, both fix-ups, `addInternal`, `remove_`, `Iterator` and `CopyTo` are methods with `while` loops and invariants.
- **The comparator** is an integer ranking `key: T -> int`. `cmp.Compare(a, b)` is the sign of `key(a) - key(b)`, which makes it a total preorder.
- **The tree object** is the class `Collection.RedBlackTree`.
  - Its fields are `treeValue` (a `Tree`) and `countValue`.
  - `Valid()` is the red-black invariant:
    - the root is BLACK;
    - no RED cell has a RED child;
    - every path has the same number of BLACK cells;
    - the in-order sequence is non-decreasing;
    - `countValue` is the number of cells.
  - `Elements()` is the in-order sequence of the tree.
  - `default(T)`, returned by `Find` and `Pop` when there is nothing to return, is the constructor argument `defaultValue`.
- **`delete` of a BLACK leaf.**
  - The source runs `fixAfterDeletion` from the leaf as a phantom and then unlinks it from its parent.
  - The model unlinks first and runs the fix-up from the empty slot, with the same ancestors.
  - The phantom is never recoloured in a way that survives, and no rotation moves it off its slot, so both give the same tree.
- **A long** is an `int` in [-2^63, 2^63). Java's wrapping unary minus is written out (`JavaNeg`, `Wrap64`).
  - An `Object` result holding a `Long` or a `BigInteger` is the datatype `Number`.
  - The `ArithmeticException` of `AsInt32` is the `OutOfRange` case of `Narrowed`.
  - `CanFitInSingle` and `CanFitInDouble` are specified by `FitsSignificand(n, p)`: n = m·2^k for some m < 2^p.

## Model

| member | source | states |
|---|---|---|
| Ordering.Compare | RedBlackTree.cs:628-635 | the comparator's sign: zero exactly on equal keys, negative exactly when the first ranks lower |
| Ordering.OccurrencesZero | RedBlackTree.cs:548-553 | no element compares equal exactly when the number of equal elements is zero |
| Ordering.OccurrencesInsert | RedBlackTree.cs:616-618 | inserting an element raises the count of elements equal to x by one exactly when it equals x |
| Ordering.OccurrencesRemoveAt | RedBlackTree.cs:571-573 | removing one element lowers the count of elements equal to x by one exactly when it equals x |
| Ordering.WithoutEqualLacks | RedBlackTree.cs:564-566 | after every element equal to x is dropped, none equal to x is left |
| Ordering.SortedRemoveAt | RedBlackTree.cs:271-323 | removing any one element keeps a sequence non-decreasing |
| Ordering.SortedInsert | RedBlackTree.cs:635-650 | inserting x after the elements below it and before those at or above it keeps the order |
| Ordering.SortedReplace | RedBlackTree.cs:632-634 | overwriting an element by one that compares equal keeps the order |
| Ordering.NoneBetween | RedBlackTree.cs:629-631 | when everything before the slot is below x and everything after is above, nothing equals x |
| Trees.ColorOfCases | RedBlackTree.cs:75-77 | colorOf (the function Trees.ColorOf): a null link counts as BLACK, a cell gives its own colour, so a RED answer always comes from a cell |
| Trees.LeftOf | RedBlackTree.cs:96-98 | leftOf as a null-safe subtree lookup (used in the colour tests on a sibling's children): the left subtree, strictly smaller, or a null link for a null link |
| Trees.RightOf | RedBlackTree.cs:103-105 | rightOf as a null-safe subtree lookup: the right subtree, strictly smaller, or a null link for a null link |
| Trees.Paint | RedBlackTree.cs:89-91 | setColor: a cell takes the colour, keeps its children and the in-order sequence; a null link is untouched |
| Trees.Size | RedBlackTree.cs:178-187 | the number of cells in a subtree is the length of its in-order sequence |
| Trees.RotateLeft | RedBlackTree.cs:326-344 | the right child moves up with the pivot as its left child, and the in-order sequence is preserved |
| Trees.RotateRight | RedBlackTree.cs:346-363 | the mirror image of RotateLeft |
| Cells.Parent | RedBlackTree.cs:82-84 | parentOf: one link up in the same tree; going back down on the side the cell hangs on gives the cell again |
| Cells.LeftChild | RedBlackTree.cs:96-98 | leftOf as navigation from a non-null cell (the zipper counterpart of Trees.LeftOf): one link down in the same tree; the child's path is the cell's path with the cell as a Left frame in front |
| Cells.RightChild | RedBlackTree.cs:103-105 | rightOf as navigation from a non-null cell (the zipper counterpart of Trees.RightOf): one link down in the same tree; the child's path is the cell's path with the cell as a Right frame in front |
| Cells.Leftmost | RedBlackTree.cs:115-120 | leftmost: a cell with no left child below the start, holding the first element of the start's subtree |
| Cells.Rightmost | RedBlackTree.cs:124-129 | rightmost: a cell with no right child below the start, holding the last element of the start's subtree |
| Cells.Successor | RedBlackTree.cs:148-159 | successor: the cell at the next in-order index, or none exactly when the cell holds the last element |
| Cells.Predecessor | RedBlackTree.cs:163-174 | predecessor: the cell at the previous in-order index, or none exactly when the cell holds the first element |
| Cells.Find | RedBlackTree.cs:195-210 | find: an equal element's cell in the same tree when one exists, null exactly when none compares equal |
| Cells.Count | RedBlackTree.cs:218-240 | count: the number of elements of the subtree that compare equal |
| Contexts.Relabel | RedBlackTree.cs:109-111 | copyContents: writing an element into a cell changes just that in-order position and keeps colours and root colour |
| Contexts.SetColor | RedBlackTree.cs:89-91 | setColor on the cell: colour set, children, element and in-order sequence kept |
| Contexts.SetParentColor | RedBlackTree.cs:89-91 | setColor(parentOf(x)): the parent takes colour c, the cell and every other ancestor are unchanged, and the in-order sequence is kept |
| Contexts.SetGrandparentColor | RedBlackTree.cs:89-91 | setColor(parentOf(parentOf(x))): the grandparent takes colour c, nothing else changes, and the in-order sequence is kept |
| Contexts.SetUncleColor | RedBlackTree.cs:89-91 | setColor on the grandparent's other child: that subtree is painted c, nothing else changes, and the in-order sequence is kept |
| Contexts.SetSiblingColor | RedBlackTree.cs:89-91 | setColor on the sibling: the sibling subtree is painted c, nothing else changes, and the in-order sequence is kept |
| Contexts.SetNephewColor | RedBlackTree.cs:89-105 | setColor(leftOf/rightOf(sibling)): the chosen child of the sibling is painted c and nothing else changes; with no sibling the zipper is unchanged; the in-order sequence is kept |
| Contexts.RotateLeftAt | RedBlackTree.cs:326-344 | rotateLeft at a cell: the right child becomes the top and the cell its left child, every cell keeps its colour, the three moved subtrees are placed as in the source, and the ancestors and the whole tree's in-order sequence are kept |
| Contexts.RotateRightAt | RedBlackTree.cs:346-363 | rotateRight at a cell: the mirror of RotateLeftAt, with colours kept, subtrees placed as in the source, and ancestors and in-order sequence kept |
| Contexts.RotateLeftRoot | RedBlackTree.cs:326-344 | the root returned is the pivot's former right child when the pivot was the root, otherwise the old root |
| Contexts.RotateRightRoot | RedBlackTree.cs:346-363 | the root returned is the pivot's former left child when the pivot was the root, otherwise the old root |
| Insertion.RedParentHasGrandparent | RedBlackTree.cs:370-388 | a RED parent under the invariant is never the root: a BLACK grandparent exists |
| Insertion.RedUncle | RedBlackTree.cs:372-378 | the red-uncle recolouring keeps the invariant and the sequence and moves two levels up |
| Insertion.InnerLeft | RedBlackTree.cs:380-383 | the inner-child rotation at the parent turns the case into the outer one, invariant kept |
| Insertion.InnerRight | RedBlackTree.cs:399-402 | the mirror image of InnerLeft |
| Insertion.OuterLeft | RedBlackTree.cs:384-388 | the outer-child recolouring and rotation at the grandparent keeps the invariant and leaves a BLACK parent |
| Insertion.OuterRight | RedBlackTree.cs:403-407 | the mirror image of OuterLeft |
| Insertion.FixLeftParent | RedBlackTree.cs:371-389 | one loop round with a parent that is a left child: the insertion invariant and the in-order sequence are kept and x moves strictly closer to the root |
| Insertion.FixRightParent | RedBlackTree.cs:390-408 | the mirror round for a parent that is a right child, with the same three guarantees |
| Insertion.FixAfterInsertion | RedBlackTree.cs:366-413 | fixAfterInsertion: from a RED cell that fits, the result is red-black with a BLACK root and the same in-order sequence |
| Insertion.InsertLeft | RedBlackTree.cs:248-252 | insertLeft: the new element enters just before the cell's subtree, and the tree stays red-black with a BLACK root |
| Insertion.InsertRight | RedBlackTree.cs:260-264 | insertRight: the new element enters just after the cell's subtree, and the tree stays red-black with a BLACK root |
| Deletion.SiblingFacts | RedBlackTree.cs:418-419 | under the deletion invariant the sibling exists, is red-black and is one BLACK level taller |
| Deletion.RedSiblingLeft | RedBlackTree.cs:421-426 | the red-sibling case: recolour and rotate, the cell now has a RED parent and a BLACK sibling |
| Deletion.RedSiblingRight | RedBlackTree.cs:448-453 | the mirror image of RedSiblingLeft |
| Deletion.BlackNephews | RedBlackTree.cs:428-430 | both nephews BLACK: the sibling turns RED and the deficit moves to the parent |
| Deletion.InnerNephewLeft | RedBlackTree.cs:432-437 | inner nephew RED: recolour and rotate at the sibling, and the outer nephew is now RED |
| Deletion.InnerNephewRight | RedBlackTree.cs:459-464 | the mirror image of InnerNephewLeft |
| Deletion.OuterNephewLeft | RedBlackTree.cs:438-442 | outer nephew RED: the final recolour and rotation makes the whole tree red-black with a BLACK root |
| Deletion.OuterNephewRight | RedBlackTree.cs:465-469 | the mirror image of OuterNephewLeft |
| Deletion.StepLeft | RedBlackTree.cs:418-443 | one round of the loop when the cell is a left child: invariant and sequence kept, measure decreased |
| Deletion.FinishLeft | RedBlackTree.cs:431-443 | the terminal left-side cases end the loop at the root with the invariant |
| Deletion.StepRight | RedBlackTree.cs:444-471 | one round of the loop when the cell is a right child |
| Deletion.FinishRight | RedBlackTree.cs:458-470 | the terminal right-side cases end the loop at the root with the invariant |
| Deletion.FixAfterDeletion | RedBlackTree.cs:415-475 | fixAfterDeletion: from a cell one BLACK level short, the result is red-black with a BLACK root and the same in-order sequence |
| Deletion.OneChild | RedBlackTree.cs:280-302 | a red-black cell with exactly one child is BLACK and its child is a RED leaf |
| Deletion.CopyUp | RedBlackTree.cs:109-111 | copyContents into the ancestor: that frame takes the cell's element with side, colour and sibling kept, and every other frame and the focus are unchanged |
| Deletion.CopySuccessor | RedBlackTree.cs:273-276 | copying the successor's element up gives the tree with the cell relabelled, the successor at the same index |
| Deletion.SpliceOut | RedBlackTree.cs:280-296 | linking the only child (or nothing) in the cell's place removes exactly the cell's element |
| Deletion.Delete | RedBlackTree.cs:271-323 | delete: the tree stays red-black with a BLACK root and loses exactly the element at the cell's index |
| Collection.DescendLeft | RedBlackTree.cs:635-638 | going left on an element at or above x keeps everything before the slot below x and after it at or above x |
| Collection.DescendRight | RedBlackTree.cs:643-646 | going right on an element below x keeps the same two facts |
| Collection.RedBlackTree.constructor | RedBlackTree.cs:490-512 | an empty valid collection with the given comparator |
| Collection.RedBlackTree.Count | RedBlackTree.cs:698-702 | Count is the number of elements |
| Collection.RedBlackTree.Contains | RedBlackTree.cs:520-525 | true exactly when some element compares equal |
| Collection.RedBlackTree.Find | RedBlackTree.cs:531-543 | found exactly when an equal element exists; then outval is one of them, otherwise default(T) |
| Collection.RedBlackTree.OccurrencesOf | RedBlackTree.cs:548-553 | the number of elements that compare equal (0 on an empty tree) |
| Collection.RedBlackTree.Clear | RedBlackTree.cs:557-560 | the collection is empty and valid |
| Collection.RedBlackTree.RemoveOccurrences | RedBlackTree.cs:657-673 | remove_: true exactly when an equal element existed; removes all or exactly one of them; unchanged otherwise; stays valid |
| Collection.RedBlackTree.RemoveAll | RedBlackTree.cs:564-566 | every equal element is gone, the rest is kept in order, and OccurrencesOf is 0 |
| Collection.RedBlackTree.Remove | RedBlackTree.cs:571-573 | exactly one equal element removed and true, or false and unchanged |
| Collection.RedBlackTree.Pop | RedBlackTree.cs:578-587 | removes and returns the least element; on an empty collection returns default(T) and changes nothing |
| Collection.RedBlackTree.AddInternal | RedBlackTree.cs:621-655 | addInternal: per mode, no change, one equal element overwritten, or x inserted after the smaller elements; stays valid |
| Collection.RedBlackTree.LinkLeft | RedBlackTree.cs:639-641 | hanging x as the left child at the end of a descent inserts it at a position with smaller elements before and larger-or-equal (strictly larger in strict mode) after, and keeps the tree valid |
| Collection.RedBlackTree.LinkRight | RedBlackTree.cs:647-649 | the same for a right child |
| Collection.RedBlackTree.Overwrite | RedBlackTree.cs:632-634 | replacing an equal element changes exactly that in-order position and keeps the tree valid and sorted |
| Collection.RedBlackTree.AddAtHole | RedBlackTree.cs:636-650 | an element hung at a descent slot lands at a sorted position of the sequence |
| Collection.RedBlackTree.AddIfMissing | RedBlackTree.cs:603-605 | inserts and returns true exactly when no equal element exists, else leaves everything unchanged |
| Collection.RedBlackTree.AddOverwrite | RedBlackTree.cs:610-612 | with an equal element, one of them is replaced by x and the result is false; otherwise x is inserted and the result is true |
| Collection.RedBlackTree.Add | RedBlackTree.cs:616-618 | x is inserted after every smaller element and before every one at or above it; size grows by one |
| Collection.RedBlackTree.Iterator | RedBlackTree.cs:675-684 | leftmost then successor until null yields exactly the in-order sequence |
| Collection.RedBlackTree.CopyTo | RedBlackTree.cs:715-727 | the cells from arrayIndex on receive the elements in order up to the array's end; every other cell is unchanged |
| CborInteger.ConstantPredicates | src/main/java/com/upokecenter/cbor/CBORInteger.java:14-28 | an integer is never infinite or NaN, is integral and fits in 64 bits, as does its truncation |
| CborInteger.Sign | src/main/java/com/upokecenter/cbor/CBORInteger.java:104-107 | 0 exactly for zero, -1 exactly for negatives, 1 exactly for positives |
| CborInteger.IsZero | src/main/java/com/upokecenter/cbor/CBORInteger.java:100-102 | true exactly when the sign is 0 |
| CborInteger.CanFitInInt32 | src/main/java/com/upokecenter/cbor/CBORInteger.java:78-81 | true exactly when Java's cast to int gives the value back unchanged |
| CborInteger.Wrap32 | src/main/java/com/upokecenter/cbor/CBORInteger.java:116 | the `(int)` cast: a 32-bit value congruent to the long modulo 2^32, and the long itself when it is in range |
| CborInteger.CanTruncatedIntFitInInt32 | src/main/java/com/upokecenter/cbor/CBORInteger.java:95-98 | agrees with CanFitInInt32 on every long |
| CborInteger.AsInt32 | src/main/java/com/upokecenter/cbor/CBORInteger.java:113-119 | the cast value, equal to v, exactly when minValue <= v <= maxValue, otherwise the arithmetic error |
| CborInteger.AsInt32FullRange | src/main/java/com/upokecenter/cbor/CBORInteger.java:78-119 | narrowing to the whole 32-bit range succeeds exactly when CanFitInInt32 holds |
| CborInteger.JavaNeg | src/main/java/com/upokecenter/cbor/CBORInteger.java:88 | Java's long negation: -v, except that Long.MIN_VALUE wraps to itself |
| CborInteger.Negate | src/main/java/com/upokecenter/cbor/CBORInteger.java:87-89 | the result's value is -v, and it is a BigInteger exactly for Long.MIN_VALUE |
| CborInteger.NegateTwice | src/main/java/com/upokecenter/cbor/CBORInteger.java:87-89 | negating a negated long gives it back |
| CborInteger.NegateSign | src/main/java/com/upokecenter/cbor/CBORInteger.java:87-107 | negation flips the sign |
| CborInteger.Abs | src/main/java/com/upokecenter/cbor/CBORInteger.java:121-124 | as written: \|v\| as a long except at -2^31 (a BigInteger 2^63) and at Long.MIN_VALUE (Long.MIN_VALUE itself) |
| CborInteger.AbsAsWrittenIsWrong | src/main/java/com/upokecenter/cbor/CBORInteger.java:121-124 | at -2^31 the written Abs is not \|v\|, and at Long.MIN_VALUE it is negative |
| CborInteger.AbsCorrected | src/main/java/com/upokecenter/cbor/CBORInteger.java:121-124 | \|v\| for every long, a BigInteger exactly for Long.MIN_VALUE |
| CborInteger.AbsCorrectedNegate | src/main/java/com/upokecenter/cbor/CBORInteger.java:87-124 | the corrected Abs is Negate on negatives and the identity otherwise |
| CborInteger.SmallFits | src/main/java/com/upokecenter/cbor/CBORInteger.java:63 | a magnitude below 2^p fits a p-bit significand |
| CborInteger.HalveFits | src/main/java/com/upokecenter/cbor/CBORInteger.java:60-62 | halving an even magnitude at or above 2^p keeps whether it fits |
| CborInteger.OddDoesNotFit | src/main/java/com/upokecenter/cbor/CBORInteger.java:60-63 | an odd magnitude at or above 2^p does not fit |
| CborInteger.FitsWithPrecision | src/main/java/com/upokecenter/cbor/CBORInteger.java:54-76 | the shift loop ends, and answers true exactly when \|v\| = m·2^k with m < 2^p |
| CborInteger.CanFitInSingle | src/main/java/com/upokecenter/cbor/CBORInteger.java:54-64 | true exactly when \|v\| = m·2^k with m < 2^24 (so true for Long.MIN_VALUE) |
| CborInteger.CanFitInDouble | src/main/java/com/upokecenter/cbor/CBORInteger.java:66-76 | true exactly when \|v\| = m·2^k with m < 2^53 |
| CborInteger.FitsWider | src/main/java/com/upokecenter/cbor/CBORInteger.java:54-76 | what fits in a binary32 significand fits in a binary64 one |
| CborInteger.ExactUpTo | src/main/java/com/upokecenter/cbor/CBORInteger.java:54-76 | 2^p + 1 does not fit in p bits while 2^p and 2^p + 2 do |

## Left out

- A comparator that is not a total preorder expressible as an integer ranking (an `IComparer<T>` is not obliged to be one) is outside the model; every property here assumes such a ranking.
- The comparator: `Comparer<T>.Default` selection (RedBlackTree.cs:504-512) is left out, because the comparator is a constructor parameter (an integer ranking) and `null` never reaches it.
- `IsReadOnly` and both `GetEnumerator` overloads are left out, since they are `ICollection<T>` plumbing. `Iterator` returns the whole in-order sequence rather than yielding lazily, so behaviour under mutation during iteration is not modelled.
- `countValue` is an unbounded integer: the wrap-around of the C# `int` after 2^31 - 1 elements is not modelled.
- Every RBCell navigation and query operation is modelled, including `predecessor`, `rightmost` and `size`, which the tree object itself never calls; `find`, `count`, `leftmost` start at a cell whose subtree holds the elements searched. The in-place node constructor, the `element()`/`left()`/`right()`/`parent()` accessors and `root()`/`isRoot()` are the zipper's fields, `Whole` and `path == []`.
- Deletion.Delete: a deleted BLACK leaf is unlinked before `fixAfterDeletion` runs, instead of after it with the leaf standing in as a phantom; the final tree is the same.
- Collection.RedBlackTree.AddOverwrite: states that one position holding an equal element is overwritten, not which of several equal ones (the first met on the descent from the root), nor that the tree's shape is unchanged or that a later `Find` reaches that cell.
- Thread safety: the source has none.
- `AsDouble` and `AsSingle` are left out, since they are floating-point conversions.
- `AsExtendedDecimal`, `AsExtendedFloat`, `AsBigInteger` and `AsExtendedRational` are left out. They build objects of numeric classes that are not part of this model.
- `AsInt64` (CBORInteger.java:50-52) has no member: it only unboxes the `Long`, and with operands typed `Long` it would be the identity.
- Every CBORInteger method that reads the value (IsZero, Sign, CanFitInInt32, CanTruncatedIntFitInInt32, CanFitInSingle, CanFitInDouble, Negate, AsInt32, Abs) starts with a `(Long)obj` cast, which throws ClassCastException when the object is not a `Long`. The model types each operand as `Long`, so that exception path is not modelled. The constant predicates (IsPositiveInfinity, IsInfinity, IsNegativeInfinity, IsNaN, IsIntegral, CanFitInInt64, CanTruncatedIntFitInInt64) have no cast and give their constant for any object; the model states them for every long.
- CopyTo with a null array throws NullReferenceException on a non-empty tree (RedBlackTree.cs:715-727). The model's array parameter is non-null, so that exception path is not modelled.
- Updates to parent/left/right references in place (RedBlackTree.cs:250, 262, 284-296, 312-318, 328-361) are not modelled, and neither is aliasing between cells. The zipper rebuilds the links as values, so the links agree with each other by construction rather than by proof.
- CborInteger.Abs: modelled as written, with the Integer.MIN_VALUE comparison (see Findings).

## Findings

| source | as written | input that shows it | evidently intended | confidence | as-written member | corrected member |
|---|---|---|---|---|---|---|
| src/main/java/com/upokecenter/cbor/CBORInteger.java:121-124 | `Abs` special-cases `Integer.MIN_VALUE` (-2^31) and returns the BigInteger 2^63 there; `Long.MIN_VALUE` takes the `-val` branch, which wraps back to `Long.MIN_VALUE` | v = -2147483648 gives 2^63 instead of 2147483648; v = -9223372036854775808 gives -9223372036854775808 | special-case `Long.MIN_VALUE`, whose absolute value 2^63 needs a BigInteger | high, not executed | CborInteger.Abs, CborInteger.AbsAsWrittenIsWrong | CborInteger.AbsCorrected |
