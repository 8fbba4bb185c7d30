/** The comparator of the tree and the sequence notions its contracts are stated in.
    The IComparer<T> the tree is built with is modelled by an integer ranking `key`:
    Compare(a, b) is negative, zero or positive as key(a) is below, equal to or above
    key(b).  Such a comparison is a total preorder, which is all the tree relies on. */
module Ordering {

  /** IComparer<T>.Compare: only the sign of the result is ever inspected. */
  function Compare<T>(key: T -> int, a: T, b: T): (r: int)
    ensures r == 0 <==> key(a) == key(b)
    ensures r < 0 <==> key(a) < key(b)
  {
    if key(a) < key(b) then -1 else if key(a) == key(b) then 0 else 1
  }

  /** Non-decreasing under the comparator (duplicates allowed). */
  ghost predicate Sorted<T>(key: T -> int, s: seq<T>)
  {
    forall i, j :: 0 <= i < j < |s| ==> key(s[i]) <= key(s[j])
  }

  /** Some element of `s` compares equal to `x`. */
  ghost predicate Has<T>(key: T -> int, s: seq<T>, x: T)
  {
    exists i :: 0 <= i < |s| && key(s[i]) == key(x)
  }

  /** Every element of `s` is at most / at least `x` (strictly when `strict`). */
  ghost predicate AllBelow<T>(key: T -> int, s: seq<T>, x: T, strict: bool)
  {
    forall i :: 0 <= i < |s| ==> if strict then key(s[i]) < key(x) else key(s[i]) <= key(x)
  }

  ghost predicate AllAbove<T>(key: T -> int, s: seq<T>, x: T, strict: bool)
  {
    forall i :: 0 <= i < |s| ==> if strict then key(x) < key(s[i]) else key(x) <= key(s[i])
  }

  /** Number of elements of `s` that compare equal to `x`. */
  function Occurrences<T>(key: T -> int, s: seq<T>, x: T): nat
  {
    if s == [] then 0
    else Occurrences(key, s[..|s| - 1], x) + (if key(s[|s| - 1]) == key(x) then 1 else 0)
  }

  /** `s` without the elements that compare equal to `x`, in order. */
  function WithoutEqual<T>(key: T -> int, s: seq<T>, x: T): seq<T>
  {
    if s == [] then []
    else WithoutEqual(key, s[..|s| - 1], x) + (if key(s[|s| - 1]) == key(x) then [] else [s[|s| - 1]])
  }

  /** `s` with its element at position `i` taken out. */
  function RemoveAt<T>(s: seq<T>, i: nat): seq<T>
    requires i < |s|
  {
    s[..i] + s[i + 1..]
  }

  /** Removing the position just after `b + l` takes out exactly `e`. */
  lemma RemoveMiddle<T>(b: seq<T>, l: seq<T>, e: T, r: seq<T>, a: seq<T>)
    ensures |b| + |l| < |b + (l + [e] + r) + a|
    ensures RemoveAt(b + (l + [e] + r) + a, |b| + |l|) == b + (l + r) + a
  {
    var s := b + (l + [e] + r) + a;
    assert s[..|b| + |l|] == b + l;
    assert s[|b| + |l| + 1..] == r + a;
  }

  lemma {:induction false} OccurrencesAppend<T>(key: T -> int, a: seq<T>, b: seq<T>, x: T)
    ensures Occurrences(key, a + b, x) == Occurrences(key, a, x) + Occurrences(key, b, x)
    decreases |b|
  {
    if b == [] {
      assert a + b == a;
    } else {
      assert (a + b)[..|a + b| - 1] == a + b[..|b| - 1];
      OccurrencesAppend(key, a, b[..|b| - 1], x);
    }
  }

  /** Occurrences counts exactly the equal elements: it is zero iff none compares equal. */
  lemma {:induction false} OccurrencesZero<T>(key: T -> int, s: seq<T>, x: T)
    ensures Occurrences(key, s, x) == 0 <==> !Has(key, s, x)
    decreases |s|
  {
    if s != [] {
      OccurrencesZero(key, s[..|s| - 1], x);
      if Has(key, s[..|s| - 1], x) {
        var i :| 0 <= i < |s| - 1 && key(s[..|s| - 1][i]) == key(x);
        assert key(s[i]) == key(x);
      }
      if Has(key, s, x) && key(s[|s| - 1]) != key(x) {
        var i :| 0 <= i < |s| && key(s[i]) == key(x);
        assert s[..|s| - 1][i] == s[i];
      }
    }
  }

  /** Inserting one element adds one occurrence exactly when it compares equal. */
  lemma OccurrencesInsert<T>(key: T -> int, s: seq<T>, i: nat, y: T, x: T)
    requires i <= |s|
    ensures Occurrences(key, s[..i] + [y] + s[i..], x)
         == Occurrences(key, s, x) + (if key(y) == key(x) then 1 else 0)
  {
    assert s == s[..i] + s[i..];
    OccurrencesAppend(key, s[..i], s[i..], x);
    OccurrencesAppend(key, s[..i] + [y], s[i..], x);
    OccurrencesAppend(key, s[..i], [y], x);
    assert [y][..0] == [];
  }

  /** Removing one element removes one occurrence exactly when it compares equal. */
  lemma OccurrencesRemoveAt<T>(key: T -> int, s: seq<T>, i: nat, x: T)
    requires i < |s|
    ensures Occurrences(key, RemoveAt(s, i), x)
         == Occurrences(key, s, x) - (if key(s[i]) == key(x) then 1 else 0)
  {
    assert s == s[..i] + [s[i]] + s[i + 1..];
    OccurrencesInsert(key, RemoveAt(s, i), i, s[i], x);
    assert RemoveAt(s, i)[..i] == s[..i];
    assert RemoveAt(s, i)[i..] == s[i + 1..];
  }

  lemma {:induction false} WithoutEqualAppend<T>(key: T -> int, a: seq<T>, b: seq<T>, x: T)
    ensures WithoutEqual(key, a + b, x) == WithoutEqual(key, a, x) + WithoutEqual(key, b, x)
    decreases |b|
  {
    if b == [] {
      assert a + b == a;
    } else {
      assert (a + b)[..|a + b| - 1] == a + b[..|b| - 1];
      WithoutEqualAppend(key, a, b[..|b| - 1], x);
    }
  }

  /** Taking out an equal element does not change what remains once all equal ones go. */
  lemma WithoutEqualRemoveAt<T>(key: T -> int, s: seq<T>, i: nat, x: T)
    requires i < |s| && key(s[i]) == key(x)
    ensures WithoutEqual(key, RemoveAt(s, i), x) == WithoutEqual(key, s, x)
  {
    var a, b := s[..i], s[i + 1..];
    assert s == a + ([s[i]] + b);
    assert WithoutEqual(key, [s[i]], x) == [] by {
      assert [s[i]][..0] == [];
    }
    calc {
      WithoutEqual(key, s, x);
    == { WithoutEqualAppend(key, a, [s[i]] + b, x); }
      WithoutEqual(key, a, x) + WithoutEqual(key, [s[i]] + b, x);
    == { WithoutEqualAppend(key, [s[i]], b, x); }
      WithoutEqual(key, a, x) + WithoutEqual(key, b, x);
    == { WithoutEqualAppend(key, a, b, x); }
      WithoutEqual(key, a + b, x);
    }
  }

  /** With no equal element left there is nothing to take out. */
  lemma {:induction false} WithoutEqualNone<T>(key: T -> int, s: seq<T>, x: T)
    requires !Has(key, s, x)
    ensures WithoutEqual(key, s, x) == s
    decreases |s|
  {
    if s != [] {
      var p := s[..|s| - 1];
      assert key(s[|s| - 1]) != key(x);
      forall i | 0 <= i < |p| ensures key(p[i]) != key(x) {
        assert p[i] == s[i];
      }
      WithoutEqualNone(key, p, x);
    }
  }

  /** No element of WithoutEqual(s, x) compares equal to x. */
  lemma {:induction false} WithoutEqualLacks<T>(key: T -> int, s: seq<T>, x: T)
    ensures !Has(key, WithoutEqual(key, s, x), x)
    decreases |s|
  {
    if s != [] {
      WithoutEqualLacks(key, s[..|s| - 1], x);
      var w := WithoutEqual(key, s[..|s| - 1], x);
      var v := WithoutEqual(key, s, x);
      forall i | 0 <= i < |v| ensures key(v[i]) != key(x) {
        if i < |w| {
          assert v[i] == w[i];
        }
      }
    }
  }

  /** Removing one element keeps a sequence sorted. */
  lemma SortedRemoveAt<T>(key: T -> int, s: seq<T>, i: nat)
    requires i < |s| && Sorted(key, s)
    ensures Sorted(key, RemoveAt(s, i))
  {
    var r := RemoveAt(s, i);
    forall a, b | 0 <= a < b < |r| ensures key(r[a]) <= key(r[b]) {
      var a' := if a < i then a else a + 1;
      var b' := if b < i then b else b + 1;
      assert r[a] == s[a'] && r[b] == s[b'];
    }
  }

  /** Putting `x` where everything before is below it and everything after is at or
      above it keeps a sorted sequence sorted. */
  lemma SortedInsert<T>(key: T -> int, s: seq<T>, i: nat, x: T, strict: bool)
    requires i <= |s| && Sorted(key, s)
    requires AllBelow(key, s[..i], x, true) && AllAbove(key, s[i..], x, strict)
    ensures Sorted(key, s[..i] + [x] + s[i..])
  {
    var r := s[..i] + [x] + s[i..];
    forall a, b | 0 <= a < b < |r| ensures key(r[a]) <= key(r[b]) {
      if a < i {
        assert r[a] == s[..i][a] == s[a];
      } else if a > i {
        assert r[a] == s[i..][a - i - 1] == s[a - 1];
      }
      if b < i {
        assert r[b] == s[..i][b] == s[b];
      } else if b > i {
        assert r[b] == s[i..][b - i - 1] == s[b - 1];
      }
    }
  }

  /** Replacing an element by one that compares equal keeps a sequence sorted. */
  lemma SortedReplace<T>(key: T -> int, s: seq<T>, i: nat, x: T)
    requires i < |s| && Sorted(key, s) && key(s[i]) == key(x)
    ensures Sorted(key, s[i := x])
  {
  }

  /** Nothing compares equal to `x` when everything is strictly below or above it. */
  lemma NoneBetween<T>(key: T -> int, b: seq<T>, a: seq<T>, x: T)
    requires AllBelow(key, b, x, true) && AllAbove(key, a, x, true)
    ensures !Has(key, b + a, x)
  {
    forall i | 0 <= i < |b + a| ensures key((b + a)[i]) != key(x) {
      if i < |b| {
        assert (b + a)[i] == b[i];
      } else {
        assert (b + a)[i] == a[i - |b|];
      }
    }
  }
}
