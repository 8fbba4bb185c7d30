/** RedBlackTree<T>: a sorted multiset of T kept in a red-black tree of RBCells, with
    a cell count.  The comparator is the ranking `key` (see Ordering) and default(T)
    is `defaultValue`, both fixed when the collection is made. */
module Collection {
  import opened Ordering
  import opened Trees
  import opened Cells
  import opened Contexts
  import opened Insertion
  import opened Deletion

  /** How addInternal treats an element that compares equal to one already present. */
  datatype OccurrenceMode = AlwaysAdd | AddIfMissing | OverwriteIfExisting

  /** Going left from a cell whose element is at or above
      `x` keeps everything after the reference at or above `x`. */
  lemma DescendLeft<T>(key: T -> int, t: Zipper<T>, x: T, strict: bool)
    requires t.focus.Node? && Sorted(key, Inorder(t.focus))
    requires AllBelow(key, Before(t.path), x, true) && AllAbove(key, After(t.path), x, strict)
    requires key(x) <= key(t.focus.elem) && (strict ==> key(x) < key(t.focus.elem))
    ensures AllBelow(key, Before(LeftChild(t).path), x, true)
    ensures AllAbove(key, After(LeftChild(t).path), x, strict)
  {
    var c := LeftChild(t);
    assert c.path[1..] == t.path;
    SortedNode(key, t.focus);
    var r, a := Inorder(t.focus.right), After(t.path);
    var s := [t.focus.elem] + r + a;
    assert After(c.path) == s;
    forall i | 0 <= i < |s| ensures if strict then key(x) < key(s[i]) else key(x) <= key(s[i]) {
      if 0 < i <= |r| {
        assert s[i] == r[i - 1];
      } else if i > |r| {
        assert s[i] == a[i - 1 - |r|];
      }
    }
  }

  /** Going right from a cell whose element is below `x`. */
  lemma DescendRight<T>(key: T -> int, t: Zipper<T>, x: T, strict: bool)
    requires t.focus.Node? && Sorted(key, Inorder(t.focus))
    requires AllBelow(key, Before(t.path), x, true) && AllAbove(key, After(t.path), x, strict)
    requires key(t.focus.elem) < key(x)
    ensures AllBelow(key, Before(RightChild(t).path), x, true)
    ensures AllAbove(key, After(RightChild(t).path), x, strict)
  {
    var c := RightChild(t);
    assert c.path[1..] == t.path;
    SortedNode(key, t.focus);
    var b, l := Before(t.path), Inorder(t.focus.left);
    var s := b + (l + [t.focus.elem]);
    assert Before(c.path) == s;
    forall i | 0 <= i < |s| ensures key(s[i]) < key(x) {
      if i < |b| {
        assert s[i] == b[i];
      } else if i < |b| + |l| {
        assert s[i] == l[i - |b|];
      }
    }
  }

  class RedBlackTree<T> {
    /** The root cell; Nil when the collection is empty. */
    var treeValue: Tree<T>
    var countValue: int
    /** The comparator (cmpValue). */
    const key: T -> int
    /** The value default(T) that Find and Pop hand back when there is no element. */
    const defaultValue: T

    /** The tree is red-black with a BLACK root, in order under the comparator, and
        the count is its number of cells. */
    ghost predicate Valid()
      reads this
    {
      IsRedBlack(treeValue) && ColorOf(treeValue) == Black &&
      Sorted(key, Inorder(treeValue)) && countValue == |Inorder(treeValue)|
    }

    /** The elements in the order the collection enumerates them. */
    ghost function Elements(): seq<T>
      reads this
    {
      Inorder(treeValue)
    }

    /** An empty collection. */
    constructor (key: T -> int, defaultValue: T)
      ensures Valid() && Elements() == []
      ensures this.key == key && this.defaultValue == defaultValue
    {
      this.key := key;
      this.defaultValue := defaultValue;
      treeValue := Nil;
      countValue := 0;
    }

    /** The Count property: the number of elements. */
    function Count(): (n: int)
      reads this
      requires Valid()
      ensures n == |Elements()|
    {
      countValue
    }

    /** Contains: some element compares equal to `x`. */
    method Contains(x: T) returns (b: bool)
      requires Valid()
      ensures b <==> Has(key, Elements(), x)
    {
      if countValue == 0 {
        return false;
      }
      var cell := Cells.Find(key, treeValue, x);
      return cell.Some?;
    }

    /** Find: an element that compares equal to `x`, or default(T) when there is none. */
    method Find(x: T) returns (found: bool, outval: T)
      requires Valid()
      ensures found <==> Has(key, Elements(), x)
      ensures found ==> key(outval) == key(x) && outval in Elements()
      ensures !found ==> outval == defaultValue
    {
      if countValue == 0 {
        return false, defaultValue;
      }
      var cell := Cells.Find(key, treeValue, x);
      if cell.None? {
        return false, defaultValue;
      }
      CellElement(cell.value);
      return true, cell.value.focus.elem;
    }

    /** OccurrencesOf: the number of elements that compare equal to `x`. */
    method OccurrencesOf(x: T) returns (n: int)
      requires Valid()
      ensures n == Occurrences(key, Elements(), x)
    {
      if countValue == 0 {
        return 0;
      }
      n := Cells.Count(key, treeValue, x);
    }

    /** Clear: the collection becomes empty. */
    method Clear()
      modifies this
      ensures Valid() && Elements() == []
    {
      countValue := 0;
      treeValue := Nil;
    }

    /** remove_: deletes one element that compares equal to `x` (every one of them when
        `allOccurrences`) and tells whether there was any. */
    method RemoveOccurrences(x: T, allOccurrences: bool) returns (ret: bool)
      requires Valid()
      modifies this
      ensures Valid()
      ensures ret <==> Has(key, old(Elements()), x)
      ensures !ret ==> Elements() == old(Elements())
      ensures allOccurrences ==> Elements() == WithoutEqual(key, old(Elements()), x)
      ensures !allOccurrences && ret ==>
                exists i :: 0 <= i < |old(Elements())| && key(old(Elements())[i]) == key(x) &&
                            Elements() == RemoveAt(old(Elements()), i)
      ensures !allOccurrences && ret ==>
                Occurrences(key, Elements(), x) + 1 == Occurrences(key, old(Elements()), x)
    {
      ret := false;
      while countValue > 0
        invariant Valid()
        invariant WithoutEqual(key, Elements(), x) == WithoutEqual(key, old(Elements()), x)
        invariant ret ==> Has(key, old(Elements()), x)
        invariant !ret ==> Elements() == old(Elements())
        invariant !allOccurrences ==> !ret
        decreases countValue
      {
        var p := Cells.Find(key, treeValue, x);
        if p.Some? {
          ghost var S, i := Elements(), Index(p.value);
          CellElement(p.value);
          WithoutEqualRemoveAt(key, S, i, x);
          SortedRemoveAt(key, S, i);
          assert Has(key, S, x);
          treeValue := Delete(p.value);
          countValue := countValue - 1;
          ret := true;
          if !allOccurrences {
            assert key(S[i]) == key(x) && Elements() == RemoveAt(S, i);
            OccurrencesRemoveAt(key, S, i, x);
            return;
          }
        } else {
          break;
        }
      }
      WithoutEqualNone(key, Elements(), x);
    }

    /** RemoveAll: deletes every element that compares equal to `x`. */
    method RemoveAll(x: T)
      requires Valid()
      modifies this
      ensures Valid()
      ensures Elements() == WithoutEqual(key, old(Elements()), x)
      ensures Occurrences(key, Elements(), x) == 0
    {
      var _ := RemoveOccurrences(x, true);
      WithoutEqualLacks(key, old(Elements()), x);
      OccurrencesZero(key, Elements(), x);
    }

    /** Remove: deletes one element that compares equal to `x`, if there is one. */
    method Remove(x: T) returns (ret: bool)
      requires Valid()
      modifies this
      ensures Valid()
      ensures ret <==> Has(key, old(Elements()), x)
      ensures !ret ==> Elements() == old(Elements())
      ensures ret ==>
                exists i :: 0 <= i < |old(Elements())| && key(old(Elements())[i]) == key(x) &&
                            Elements() == RemoveAt(old(Elements()), i)
      ensures ret ==> Occurrences(key, Elements(), x) + 1 == Occurrences(key, old(Elements()), x)
    {
      ret := RemoveOccurrences(x, false);
    }

    /** Pop: takes out and returns the least element (the first one in order), or
        returns default(T) and changes nothing when the collection is empty. */
    method Pop() returns (v: T)
      requires Valid()
      modifies this
      ensures Valid()
      ensures old(Elements()) == [] ==> v == defaultValue && Elements() == []
      ensures old(Elements()) != [] ==> v == old(Elements())[0] && Elements() == old(Elements())[1..]
      ensures forall i :: 0 <= i < |old(Elements())| ==> key(v) <= key(old(Elements())[i])
    {
      if countValue != 0 {
        ghost var S := Elements();
        var p := Leftmost(Zipper(treeValue, []));
        CellElement(p);
        v := p.focus.elem;
        SortedRemoveAt(key, S, 0);
        treeValue := Delete(p);
        countValue := countValue - 1;
        assert RemoveAt(S, 0) == S[1..];
        return;
      }
      v := defaultValue;
    }

    /** addInternal: adds `x` after a descent from the root that goes left on an element
        at or above it and right on one below it.  With AddIfMissing an equal element
        stops the descent; with OverwriteIfExisting `x` replaces the equal element met.
        The result is whether a cell was added. */
    method AddInternal(x: T, mode: OccurrenceMode) returns (added: bool)
      requires Valid()
      modifies this
      ensures Valid()
      ensures mode == OccurrenceMode.AddIfMissing && Has(key, old(Elements()), x) ==>
                !added && Elements() == old(Elements())
      ensures mode == OverwriteIfExisting && Has(key, old(Elements()), x) ==>
                !added &&
                exists i :: 0 <= i < |old(Elements())| && key(old(Elements())[i]) == key(x) &&
                            Elements() == old(Elements())[i := x]
      ensures mode == AlwaysAdd || !Has(key, old(Elements()), x) ==>
                added &&
                exists i :: 0 <= i <= |old(Elements())| &&
                            Elements() == old(Elements())[..i] + [x] + old(Elements())[i..] &&
                            AllBelow(key, old(Elements())[..i], x, true) &&
                            AllAbove(key, old(Elements())[i..], x, mode != AlwaysAdd)
    {
      ghost var S := Elements();
      if treeValue.Nil? {
        treeValue := Node(Black, Nil, x, Nil);
        countValue := countValue + 1;
        assert Elements() == S[..0] + [x] + S[0..];
        return true;
      }
      ghost var strict := mode != AlwaysAdd;
      var t := Zipper(treeValue, []);
      while true
        invariant t.focus.Node? && Whole(t) == treeValue && Sorted(key, Inorder(t.focus))
        invariant AllBelow(key, Before(t.path), x, true) && AllAbove(key, After(t.path), x, strict)
        invariant S == Elements() && Valid()
        decreases t.focus
      {
        var diff := Compare(key, x, t.focus.elem);
        if diff == 0 && mode == OccurrenceMode.AddIfMissing {
          CellElement(t);
          return false;
        }
        if diff == 0 && mode == OverwriteIfExisting {
          Overwrite(t, x);
          return false;
        } else if diff <= 0 {
          if t.focus.left.Node? {
            DescendLeft(key, t, x, strict);
            SortedNode(key, t.focus);
            t := LeftChild(t);
          } else {
            DescendLeft(key, t, x, strict);
            LinkLeft(t, x, strict);
            return true;
          }
        } else {
          if t.focus.right.Node? {
            DescendRight(key, t, x, strict);
            SortedNode(key, t.focus);
            t := RightChild(t);
          } else {
            DescendRight(key, t, x, strict);
            LinkRight(t, x, strict);
            return true;
          }
        }
      }
    }

    /** t.insertLeft(new RBCell(x), treeValue) and incCount, at the end
        of a descent that kept the elements before the slot below `x` and those after it
        at or above `x` (strictly above when `strict`). */
    method LinkLeft(t: Zipper<T>, x: T, ghost strict: bool)
      requires Valid() && t.focus.Node? && t.focus.left.Nil? && Whole(t) == treeValue
      requires AllBelow(key, Before(LeftChild(t).path), x, true)
      requires AllAbove(key, After(LeftChild(t).path), x, strict)
      modifies this
      ensures Valid()
      ensures exists i :: 0 <= i <= |old(Elements())| &&
                          Elements() == old(Elements())[..i] + [x] + old(Elements())[i..] &&
                          AllBelow(key, old(Elements())[..i], x, true) &&
                          AllAbove(key, old(Elements())[i..], x, strict)
      ensures strict ==> !Has(key, old(Elements()), x)
    {
      ghost var S := Elements();
      HoleLeft(t, x);
      ghost var h := LeftChild(t);
      treeValue := InsertLeft(t, x);
      AddAtHole(h, x, strict, Elements());
      ghost var i := |Before(h.path)|;
      assert Elements() == S[..i] + [x] + S[i..];
      countValue := countValue + 1;
    }

    /** t.insertRight(new RBCell(x), treeValue) and incCount. */
    method LinkRight(t: Zipper<T>, x: T, ghost strict: bool)
      requires Valid() && t.focus.Node? && t.focus.right.Nil? && Whole(t) == treeValue
      requires AllBelow(key, Before(RightChild(t).path), x, true)
      requires AllAbove(key, After(RightChild(t).path), x, strict)
      modifies this
      ensures Valid()
      ensures exists i :: 0 <= i <= |old(Elements())| &&
                          Elements() == old(Elements())[..i] + [x] + old(Elements())[i..] &&
                          AllBelow(key, old(Elements())[..i], x, true) &&
                          AllAbove(key, old(Elements())[i..], x, strict)
      ensures strict ==> !Has(key, old(Elements()), x)
    {
      ghost var S := Elements();
      HoleRight(t, x);
      ghost var h := RightChild(t);
      treeValue := InsertRight(t, x);
      AddAtHole(h, x, strict, Elements());
      ghost var i := |Before(h.path)|;
      assert Elements() == S[..i] + [x] + S[i..];
      countValue := countValue + 1;
    }

    /** t.element(x): the cell's element is replaced by an equal one. */
    method Overwrite(t: Zipper<T>, x: T)
      requires Valid() && t.focus.Node? && Whole(t) == treeValue && key(t.focus.elem) == key(x)
      modifies this
      ensures Valid()
      ensures Index(t) < |old(Elements())| && Elements() == old(Elements())[Index(t) := x]
      ensures key(old(Elements())[Index(t)]) == key(x)
    {
      CellElement(t);
      Relabel(t, x);
      SortedReplace(key, Elements(), Index(t), x);
      treeValue := Whole(t.(focus := t.focus.(elem := x)));
    }

    /** What adding `x` at the hole `h` of a descent does to the element sequence. */
    lemma AddAtHole(h: Zipper<T>, x: T, strict: bool, r: seq<T>)
      requires h.focus.Nil? && Sorted(key, Inorder(Whole(h)))
      requires AllBelow(key, Before(h.path), x, true) && AllAbove(key, After(h.path), x, strict)
      requires r == Before(h.path) + [x] + After(h.path)
      ensures var S, i := Inorder(Whole(h)), |Before(h.path)|;
              i <= |S| && r == S[..i] + [x] + S[i..] && |r| == |S| + 1 &&
              AllBelow(key, S[..i], x, true) && AllAbove(key, S[i..], x, strict) &&
              Sorted(key, r) && (strict ==> !Has(key, S, x))
    {
      PlugInorder(h.focus, h.path);
      var S, i := Inorder(Whole(h)), |Before(h.path)|;
      assert S == Before(h.path) + After(h.path);
      assert S[..i] == Before(h.path) && S[i..] == After(h.path);
      SortedInsert(key, S, i, x, strict);
      if strict {
        NoneBetween(key, Before(h.path), After(h.path), x);
      }
    }

    /** AddIfMissing: adds `x` unless an equal element is present. */
    method AddIfMissing(x: T) returns (added: bool)
      requires Valid()
      modifies this
      ensures Valid()
      ensures added <==> !Has(key, old(Elements()), x)
      ensures !added ==> Elements() == old(Elements())
      ensures added ==>
                exists i :: 0 <= i <= |old(Elements())| &&
                            Elements() == old(Elements())[..i] + [x] + old(Elements())[i..] &&
                            AllBelow(key, old(Elements())[..i], x, true) &&
                            AllAbove(key, old(Elements())[i..], x, true)
    {
      added := AddInternal(x, OccurrenceMode.AddIfMissing);
    }

    /** AddOverwrite: replaces an equal element by `x`, or adds `x` when there is none. */
    method AddOverwrite(x: T) returns (added: bool)
      requires Valid()
      modifies this
      ensures Valid()
      ensures added <==> !Has(key, old(Elements()), x)
      ensures !added ==>
                exists i :: 0 <= i < |old(Elements())| && key(old(Elements())[i]) == key(x) &&
                            Elements() == old(Elements())[i := x]
      ensures added ==>
                exists i :: 0 <= i <= |old(Elements())| &&
                            Elements() == old(Elements())[..i] + [x] + old(Elements())[i..]
    {
      added := AddInternal(x, OverwriteIfExisting);
    }

    /** Add: adds `x` in front of any elements that compare equal to it. */
    method Add(x: T)
      requires Valid()
      modifies this
      ensures Valid()
      ensures exists i :: 0 <= i <= |old(Elements())| &&
                          Elements() == old(Elements())[..i] + [x] + old(Elements())[i..] &&
                          AllBelow(key, old(Elements())[..i], x, true) &&
                          AllAbove(key, old(Elements())[i..], x, false)
    {
      var _ := AddInternal(x, AlwaysAdd);
    }

    /** Iterator: the elements from the leftmost cell on, following successor links. */
    method Iterator() returns (r: seq<T>)
      requires Valid()
      ensures r == Elements()
    {
      r := [];
      if treeValue.Nil? {
        return;
      }
      var first := Leftmost(Zipper(treeValue, []));
      var cur := Some(first);
      while cur.Some?
        invariant cur.Some? ==> cur.value.focus.Node? && Whole(cur.value) == treeValue && Index(cur.value) == |r|
        invariant cur.None? ==> |r| == |Elements()|
        invariant |r| <= |Elements()| && r == Elements()[..|r|]
        decreases |Elements()| - |r|
      {
        CellElement(cur.value);
        r := r + [cur.value.focus.elem];
        cur := Successor(cur.value);
      }
    }

    /** CopyTo: writes the elements in order into `a` from position `arrayIndex` on,
        skipping the positions that fall outside the array. */
    method CopyTo(a: array<T>, arrayIndex: int)
      requires Valid()
      modifies a
      ensures forall k :: 0 <= k < a.Length ==>
                a[k] == if arrayIndex <= k < arrayIndex + |Elements()| then Elements()[k - arrayIndex] else old(a[k])
    {
      if treeValue.Nil? {
        return;
      }
      var first := Leftmost(Zipper(treeValue, []));
      var cur := Some(first);
      var ai := arrayIndex;
      while cur.Some? && ai < a.Length
        invariant arrayIndex <= ai <= arrayIndex + |Elements()|
        invariant cur.Some? ==> cur.value.focus.Node? && Whole(cur.value) == treeValue && Index(cur.value) == ai - arrayIndex
        invariant cur.None? ==> ai == arrayIndex + |Elements()|
        invariant forall k :: 0 <= k < a.Length ==>
                    a[k] == if arrayIndex <= k < ai then Elements()[k - arrayIndex] else old(a[k])
        decreases |Elements()| - (ai - arrayIndex)
      {
        CellElement(cur.value);
        if ai >= 0 && ai < a.Length {
          a[ai] := cur.value.focus.elem;
        }
        ai := ai + 1;
        cur := Successor(cur.value);
      }
    }
  }
}
