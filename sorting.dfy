/** The stable descending sort the gallery applies to both media lists,
    stated for any element type and integer key. */
module Sorting {

  /** Largest key first: the key never increases along the list. */
  predicate SortedDesc<T>(s: seq<T>, key: T -> int) {
    forall i, j :: 0 <= i < j < |s| ==> key(s[i]) >= key(s[j])
  }

  /** Places `x` behind `s`, then moves it forward past every element with a
      strictly smaller key; an element with an equal key stays in front of `x`. */
  function Insert<T>(s: seq<T>, x: T, key: T -> int): (r: seq<T>)
    ensures multiset(r) == multiset(s) + multiset{x}
  {
    if s == [] || key(s[|s| - 1]) >= key(x) then s + [x]
    else
      assert s == s[..|s| - 1] + [s[|s| - 1]];
      Insert(s[..|s| - 1], x, key) + [s[|s| - 1]]
  }

  /** Where insertion puts `x`: right behind the last element whose key is
      at least `x`'s, all later elements having strictly smaller keys. */
  lemma {:induction false} InsertAt<T>(s: seq<T>, j: nat, x: T, key: T -> int)
    requires j <= |s|
    requires forall k :: j <= k < |s| ==> key(s[k]) < key(x)
    requires j == 0 || key(s[j - 1]) >= key(x)
    ensures Insert(s, x, key) == s[..j] + [x] + s[j..]
  {
    if j == |s| {
      assert s[..j] == s && s[j..] == [];
    } else {
      var init := s[..|s| - 1];
      assert j > 0 ==> init[j - 1] == s[j - 1];
      InsertAt(init, j, x, key);
      DropLast(s, j);
    }
  }

  lemma DropLast<T>(s: seq<T>, j: nat)
    requires j < |s|
    ensures s[..|s| - 1][..j] == s[..j]
    ensures s[..|s| - 1][j..] + [s[|s| - 1]] == s[j..]
  {
  }

  /** Insertion sort, largest key first. */
  function Sort<T>(s: seq<T>, key: T -> int): (r: seq<T>)
    ensures multiset(r) == multiset(s)
  {
    if s == [] then []
    else
      assert s == s[..|s| - 1] + [s[|s| - 1]];
      Insert(Sort(s[..|s| - 1], key), s[|s| - 1], key)
  }

  /** The elements of `s` whose key is `k`, in their order in `s`. */
  function WithKey<T>(s: seq<T>, key: T -> int, k: int): seq<T> {
    if s == [] then []
    else WithKey(s[..|s| - 1], key, k) + (if key(s[|s| - 1]) == k then [s[|s| - 1]] else [])
  }

  lemma WithKeySnoc<T>(s: seq<T>, x: T, key: T -> int, k: int)
    ensures WithKey(s + [x], key, k) == WithKey(s, key, k) + (if key(x) == k then [x] else [])
  {
    assert (s + [x])[..|s|] == s;
  }

  lemma {:induction false} InsertSorted<T>(s: seq<T>, x: T, key: T -> int)
    requires SortedDesc(s, key)
    ensures SortedDesc(Insert(s, x, key), key)
  {
    if s != [] && key(s[|s| - 1]) < key(x) {
      var init, last := s[..|s| - 1], s[|s| - 1];
      InsertSorted(init, x, key);
      var r := Insert(init, x, key);
      InsertMembers(init, x, key);
      forall i | 0 <= i < |r| ensures key(r[i]) >= key(last) {
        assert r[i] in r;
      }
      SortedSnoc(r, last, key);
    }
  }

  /** Insertion adds `x` and nothing else. */
  lemma {:induction false} InsertMembers<T>(s: seq<T>, x: T, key: T -> int)
    ensures forall y :: y in Insert(s, x, key) ==> y == x || y in s
  {
    if s != [] && key(s[|s| - 1]) < key(x) {
      InsertMembers(s[..|s| - 1], x, key);
    }
  }

  lemma SortedSnoc<T>(r: seq<T>, last: T, key: T -> int)
    requires SortedDesc(r, key)
    requires forall i :: 0 <= i < |r| ==> key(r[i]) >= key(last)
    ensures SortedDesc(r + [last], key)
  {
    var r' := r + [last];
    forall i, j | 0 <= i < j < |r'| ensures key(r'[i]) >= key(r'[j]) {
      assert r'[i] == r[i];
    }
  }

  /** Insertion keeps the relative order of elements that share a key. */
  lemma {:induction false} InsertWithKey<T>(s: seq<T>, x: T, key: T -> int, k: int)
    ensures WithKey(Insert(s, x, key), key, k) == WithKey(s, key, k) + (if key(x) == k then [x] else [])
  {
    if s == [] || key(s[|s| - 1]) >= key(x) {
      WithKeySnoc(s, x, key, k);
    } else {
      var init, last := s[..|s| - 1], s[|s| - 1];
      assert s == init + [last];
      InsertWithKey(init, x, key, k);
      WithKeySnoc(Insert(init, x, key), last, key, k);
      WithKeySnoc(init, last, key, k);
    }
  }

  /** The sort puts the largest key first. */
  lemma {:induction false} SortIsSorted<T>(s: seq<T>, key: T -> int)
    ensures SortedDesc(Sort(s, key), key)
  {
    if s != [] {
      SortIsSorted(s[..|s| - 1], key);
      InsertSorted(Sort(s[..|s| - 1], key), s[|s| - 1], key);
    }
  }

  /** The sort is stable: the elements sharing any one key come out in the
      order they went in. */
  lemma {:induction false} SortIsStable<T>(s: seq<T>, key: T -> int, k: int)
    ensures WithKey(Sort(s, key), key, k) == WithKey(s, key, k)
  {
    if s != [] {
      var init, last := s[..|s| - 1], s[|s| - 1];
      SortIsStable(init, key, k);
      InsertWithKey(Sort(init, key), last, key, k);
    }
  }

  /** Sortedness and stability pin the result down: a list that is sorted
      and keeps every key's elements in input order is the sort's output. */
  lemma {:induction false} SortUnique<T>(s: seq<T>, t: seq<T>, key: T -> int)
    requires SortedDesc(t, key)
    requires forall k :: WithKey(t, key, k) == WithKey(s, key, k)
    ensures t == Sort(s, key)
  {
    var r := Sort(s, key);
    SortIsSorted(s, key);
    forall k ensures WithKey(t, key, k) == WithKey(r, key, k) {
      SortIsStable(s, key, k);
    }
    SortedEqual(t, r, key);
  }

  /** A list already in order is left as it is, so sorting twice is
      sorting once. */
  lemma SortSorted<T>(s: seq<T>, key: T -> int)
    requires SortedDesc(s, key)
    ensures Sort(s, key) == s
  {
    SortUnique(s, s, key);
  }

  lemma SortedThree<T>(a: T, b: T, c: T, key: T -> int)
    requires key(a) >= key(b) >= key(c)
    ensures SortedDesc([a, b, c], key)
  {
  }

  /** Stability on three items: the first and last share a key below the
      middle one's, so the middle one moves to the front and the other two
      keep their order. */
  lemma StableThree<T>(s: seq<T>, key: T -> int)
    requires |s| == 3 && key(s[0]) == key(s[2]) < key(s[1])
    ensures Sort(s, key) == [s[1], s[0], s[2]]
  {
    assert s[..3] == s;
    assert s[..2] == [s[0], s[1]];
    SortPrefix(s, 2, key);
    SortTwo(s[0], s[1], key);
    assert Insert([s[1], s[0]], s[2], key) == [s[1], s[0]] + [s[2]];
  }

  /** Two items out of order are swapped. */
  lemma SortTwo<T>(a: T, b: T, key: T -> int)
    requires key(a) < key(b)
    ensures Sort([a, b], key) == [b, a]
  {
    SortSnoc([], a, key);
    assert [] + [a] == [a];
    SortSnoc([a], b, key);
    assert [a] + [b] == [a, b];
    assert Insert([a], b, key) == Insert([], b, key) + [a];
  }

  /** Sorting a list with one more element at its end inserts that element
      into the sorted list. */
  lemma SortSnoc<T>(s: seq<T>, x: T, key: T -> int)
    ensures Sort(s + [x], key) == Insert(Sort(s, key), x, key)
  {
    assert (s + [x])[..|s|] == s;
  }

  lemma SortIdempotent<T>(s: seq<T>, key: T -> int)
    ensures Sort(Sort(s, key), key) == Sort(s, key)
  {
    SortIsSorted(s, key);
    SortSorted(Sort(s, key), key);
  }

  /** Two sorted lists with the same elements per key are equal. */
  lemma {:induction false} SortedEqual<T>(t: seq<T>, r: seq<T>, key: T -> int)
    requires SortedDesc(t, key) && SortedDesc(r, key)
    requires forall k :: WithKey(t, key, k) == WithKey(r, key, k)
    ensures t == r
  {
    if t == [] {
      if r != [] {
        WithKeyNonEmpty(r, key, r[|r| - 1]);
      }
    } else if r == [] {
      WithKeyNonEmpty(t, key, t[|t| - 1]);
    } else {
      var a, b := t[|t| - 1], r[|r| - 1];
      var ti, ri := t[..|t| - 1], r[..|r| - 1];
      assert t == ti + [a] && r == ri + [b];
      LastKeysMatch(t, r, key);
      WithKeySnoc(ti, a, key, key(a));
      WithKeySnoc(ri, b, key, key(b));
      assert a == b by {
        assert WithKey(t, key, key(a)) == WithKey(r, key, key(a));
        assert a == WithKey(t, key, key(a))[|WithKey(t, key, key(a))| - 1];
      }
      InitsMatch(ti, ri, a, key);
      SortedEqual(ti, ri, key);
    }
  }

  /** The last elements of two non-empty sorted lists with the same elements
      per key have the same key: each is the smallest key of its list. */
  lemma LastKeysMatch<T>(t: seq<T>, r: seq<T>, key: T -> int)
    requires SortedDesc(t, key) && SortedDesc(r, key) && t != [] && r != []
    requires forall k :: WithKey(t, key, k) == WithKey(r, key, k)
    ensures key(t[|t| - 1]) == key(r[|r| - 1])
  {
    var a, b := t[|t| - 1], r[|r| - 1];
    if key(a) < key(b) {
      WithKeyNonEmpty(t, key, a);
      WithKeyAbove(r, key, key(a));
      assert false;
    } else if key(b) < key(a) {
      WithKeyNonEmpty(r, key, b);
      WithKeyAbove(t, key, key(b));
      assert false;
    }
  }

  /** Dropping the same last element from two lists with the same elements
      per key keeps them the same per key. */
  lemma InitsMatch<T>(ti: seq<T>, ri: seq<T>, a: T, key: T -> int)
    requires forall k :: WithKey(ti + [a], key, k) == WithKey(ri + [a], key, k)
    ensures forall k :: WithKey(ti, key, k) == WithKey(ri, key, k)
  {
    forall k ensures WithKey(ti, key, k) == WithKey(ri, key, k) {
      WithKeySnoc(ti, a, key, k);
      WithKeySnoc(ri, a, key, k);
      CancelSuffix(WithKey(ti, key, k), WithKey(ri, key, k), if key(a) == k then [a] else []);
    }
  }

  lemma CancelSuffix<T>(A: seq<T>, B: seq<T>, e: seq<T>)
    requires A + e == B + e
    ensures A == B
  {
    assert A == (A + e)[..|A|] && B == (B + e)[..|B|];
  }

  /** A list ending in `z` has `z` among the elements with `z`'s key. */
  lemma WithKeyNonEmpty<T>(s: seq<T>, key: T -> int, z: T)
    requires s != [] && s[|s| - 1] == z
    ensures WithKey(s, key, key(z)) != []
  {
  }

  /** In a sorted list whose last key exceeds `k`, no element has key `k`. */
  lemma {:induction false} WithKeyAbove<T>(s: seq<T>, key: T -> int, k: int)
    requires SortedDesc(s, key) && s != [] && key(s[|s| - 1]) > k
    ensures WithKey(s, key, k) == []
  {
    if |s| > 1 {
      var init := s[..|s| - 1];
      assert key(init[|init| - 1]) >= key(s[|s| - 1]);
      WithKeyAbove(init, key, k);
    }
  }

  /** `a.sort((p, q) => key(q) - key(p))` as an insertion sort: each item in
      turn moves forward past the items of the sorted prefix that the
      comparator ranks after it, that is, those with a strictly smaller key. */
  method SortInPlace<T>(a: array<T>, key: T -> int)
    modifies a
    ensures a[..] == Sort(old(a[..]), key)
  {
    ghost var input := a[..];
    var i := 0;
    while i < a.Length
      invariant 0 <= i <= a.Length
      invariant a[..i] == Sort(input[..i], key)
      invariant forall k :: i <= k < a.Length ==> a[k] == input[k]
    {
      InsertLast(a, i, key);
      SortPrefix(input, i, key);
      i := i + 1;
    }
    assert a[..] == a[..a.Length];
    assert input == input[..a.Length];
  }

  /** Sorting one more element of a list inserts it into the sorted prefix. */
  lemma SortPrefix<T>(s: seq<T>, i: nat, key: T -> int)
    requires i < |s|
    ensures Sort(s[..i + 1], key) == Insert(Sort(s[..i], key), s[i], key)
  {
    assert s[..i + 1][..i] == s[..i];
  }

  /** One pass of the insertion sort: `a[i]` moves into the sorted prefix
      `a[..i]`, and what follows `i` is left alone. */
  method InsertLast<T>(a: array<T>, i: nat, key: T -> int)
    requires i < a.Length
    modifies a
    ensures a[..i + 1] == Insert(old(a[..i]), old(a[i]), key)
    ensures forall k :: i < k < a.Length ==> a[k] == old(a[k])
  {
    ghost var sorted, x := a[..i], a[i];
    var j := ShiftGap(a, i, key);
    InsertAt(sorted, j, x, key);
  }

  /** The inner loop of the insertion sort: every item in front of `a[i]`
      that the comparator ranks after it moves one place back, and `a[i]`
      drops into the gap. */
  method ShiftGap<T>(a: array<T>, i: nat, key: T -> int) returns (j: nat)
    requires i < a.Length
    modifies a
    ensures j <= i
    ensures a[..i + 1] == old(a[..i])[..j] + [old(a[i])] + old(a[..i])[j..]
    ensures forall k :: i < k < a.Length ==> a[k] == old(a[k])
    ensures forall k :: j <= k < i ==> key(old(a[k])) < key(old(a[i]))
    ensures j == 0 || key(old(a[j - 1])) >= key(old(a[i]))
  {
    var x := a[i];
    ghost var sorted := a[..i];
    j := i;
    while j > 0 && key(x) - key(a[j - 1]) > 0
      invariant 0 <= j <= i
      invariant forall k :: 0 <= k < j ==> a[k] == sorted[k]
      invariant forall k :: j < k <= i ==> a[k] == sorted[k - 1]
      invariant forall k :: i < k < a.Length ==> a[k] == old(a[k])
      invariant forall k :: j <= k < i ==> key(sorted[k]) < key(x)
    {
      a[j] := a[j - 1];
      j := j - 1;
    }
    a[j] := x;
    assert a[..i + 1] == sorted[..j] + [x] + sorted[j..];
  }
}
