/** Bucketing a list into an insertion-ordered dictionary keyed by a string
    label, as `list.reduce((acc, x) => { ...; acc[k].push(x); return acc }, {})`
    does with a plain object whose keys keep their creation order. */
module Grouping {

  /** The accumulator: the keys in the order they were created, and the list
      each key holds. */
  datatype Buckets<T> = Buckets(keys: seq<string>, byKey: map<string, seq<T>>)

  /** One step of the `reduce`: create the key's list if it is missing, then
      push the element onto it. */
  function Add<T>(b: Buckets<T>, k: string, x: T): Buckets<T> {
    if k in b.byKey then Buckets(b.keys, b.byKey[k := b.byKey[k] + [x]])
    else Buckets(b.keys + [k], b.byKey[k := [x]])
  }

  /** One step appends the key when it is new, ends its list with `x`, and
      leaves every other key's list as it was. */
  lemma AddStep<T>(b: Buckets<T>, k: string, x: T)
    ensures Add(b, k, x).keys == if k in b.byKey then b.keys else b.keys + [k]
    ensures Add(b, k, x).byKey.Keys == b.byKey.Keys + {k}
    ensures Add(b, k, x).byKey[k] == (if k in b.byKey then b.byKey[k] else []) + [x]
    ensures forall j :: j in b.byKey && j != k ==> Add(b, k, x).byKey[j] == b.byKey[j]
  {
  }

  /** The `reduce` over the whole list, from the empty accumulator `{}`. */
  function Grouped<T>(s: seq<T>, labelOf: T -> string): Buckets<T> {
    if s == [] then Buckets([], map[])
    else Add(Grouped(s[..|s| - 1], labelOf), labelOf(s[|s| - 1]), s[|s| - 1])
  }

  /** The labels of a list, position by position. */
  function Labels<T>(s: seq<T>, labelOf: T -> string): (r: seq<string>)
    ensures |r| == |s|
    ensures forall i :: 0 <= i < |s| ==> r[i] == labelOf(s[i])
  {
    if s == [] then [] else Labels(s[..|s| - 1], labelOf) + [labelOf(s[|s| - 1])]
  }

  /** The elements of `s` with label `k`, in their order in `s`. */
  function WithLabel<T>(s: seq<T>, labelOf: T -> string, k: string): seq<T> {
    if s == [] then []
    else WithLabel(s[..|s| - 1], labelOf, k) + (if labelOf(s[|s| - 1]) == k then [s[|s| - 1]] else [])
  }

  lemma {:induction false} WithLabelMembers<T>(s: seq<T>, labelOf: T -> string, k: string)
    ensures forall x :: x in WithLabel(s, labelOf, k) ==> x in s && labelOf(x) == k
  {
    if s != [] {
      WithLabelMembers(s[..|s| - 1], labelOf, k);
    }
  }

  predicate Distinct(keys: seq<string>) {
    forall i, j :: 0 <= i < j < |keys| ==> keys[i] != keys[j]
  }

  /** What the grouping builds: distinct keys, exactly one per label that
      occurs, each holding exactly the elements with that label in their
      order in the input. So every element lands in exactly one bucket. */
  lemma {:induction false} GroupedBuckets<T>(s: seq<T>, labelOf: T -> string)
    ensures Distinct(Grouped(s, labelOf).keys)
    ensures forall k :: k in Grouped(s, labelOf).keys <==> k in Grouped(s, labelOf).byKey
    ensures forall k :: k in Grouped(s, labelOf).byKey <==> k in Labels(s, labelOf)
    ensures forall k :: k in Grouped(s, labelOf).byKey ==> Grouped(s, labelOf).byKey[k] == WithLabel(s, labelOf, k)
  {
    if s != [] {
      var init, last := s[..|s| - 1], s[|s| - 1];
      var g, l := Grouped(init, labelOf), labelOf(last);
      GroupedBuckets(init, labelOf);
      assert Labels(s, labelOf) == Labels(init, labelOf) + [l];
      var b := Grouped(s, labelOf);
      forall k | k in b.byKey ensures b.byKey[k] == WithLabel(s, labelOf, k) {
        if k == l && l !in g.byKey {
          WithLabelAbsent(init, labelOf, k);
        }
      }
    }
  }

  /** Each bucket holds only elements with that bucket's label. */
  lemma GroupedLabels<T>(s: seq<T>, labelOf: T -> string)
    ensures forall k, j :: k in Grouped(s, labelOf).byKey && 0 <= j < |Grouped(s, labelOf).byKey[k]| ==>
      labelOf(Grouped(s, labelOf).byKey[k][j]) == k
  {
    GroupedBuckets(s, labelOf);
    forall k, j | k in Grouped(s, labelOf).byKey && 0 <= j < |Grouped(s, labelOf).byKey[k]|
      ensures labelOf(Grouped(s, labelOf).byKey[k][j]) == k
    {
      WithLabelMembers(s, labelOf, k);
      assert Grouped(s, labelOf).byKey[k][j] in WithLabel(s, labelOf, k);
    }
  }

  /** Two elements sharing a label followed by one with another label give
      two buckets, in that order. */
  lemma GroupedThree<T>(a: T, b: T, c: T, labelOf: T -> string)
    requires labelOf(a) == labelOf(b) && labelOf(c) != labelOf(a)
    ensures Grouped([a, b, c], labelOf) ==
      Buckets([labelOf(a), labelOf(c)], map[labelOf(a) := [a, b], labelOf(c) := [c]])
  {
    assert [a, b, c][..2] == [a, b] && [a, b][..1] == [a] && [a][..0] == [];
    var la := labelOf(a);
    assert Grouped([a], labelOf) == Buckets([la], map[la := [a]]);
    assert [a] + [b] == [a, b] && map[la := [a]][la := [a, b]] == map[la := [a, b]];
    assert Grouped([a, b], labelOf) == Buckets([la], map[la := [a, b]]);
  }

  /** Every key has a list, so the buckets can be read in key order. */
  lemma GroupedKeysPresent<T>(s: seq<T>, labelOf: T -> string)
    ensures forall i :: 0 <= i < |Grouped(s, labelOf).keys| ==> Grouped(s, labelOf).keys[i] in Grouped(s, labelOf).byKey
  {
    GroupedBuckets(s, labelOf);
  }

  lemma {:induction false} WithLabelAbsent<T>(s: seq<T>, labelOf: T -> string, k: string)
    requires k !in Labels(s, labelOf)
    ensures WithLabel(s, labelOf, k) == []
  {
    if s != [] {
      assert Labels(s, labelOf) == Labels(s[..|s| - 1], labelOf) + [labelOf(s[|s| - 1])];
      WithLabelAbsent(s[..|s| - 1], labelOf, k);
    }
  }

  /** The position where `k` first occurs in `s`. */
  function FirstIndex(s: seq<string>, k: string): (r: nat)
    requires k in s
    ensures r < |s| && s[r] == k
    ensures forall i :: 0 <= i < r ==> s[i] != k
  {
    if s[0] == k then 0 else 1 + FirstIndex(s[1..], k)
  }

  lemma FirstIndexSnoc(s: seq<string>, y: string, k: string)
    requires k in s + [y]
    ensures k in s ==> FirstIndex(s + [y], k) == FirstIndex(s, k)
    ensures k !in s ==> FirstIndex(s + [y], k) == |s|
  {
    if k in s {
      var j := FirstIndex(s, k);
      assert (s + [y])[j] == k;
    }
  }

  /** Every key occurs among the labels, and the keys stand in the order of
      their first occurrence there. */
  predicate FirstOccurrenceOrder(keys: seq<string>, labels: seq<string>) {
    && (forall i :: 0 <= i < |keys| ==> keys[i] in labels)
    && (forall i, j :: 0 <= i < j < |keys| ==> FirstIndex(labels, keys[i]) < FirstIndex(labels, keys[j]))
  }

  lemma FirstOccurrenceStep(keys: seq<string>, L: seq<string>, l: string)
    requires FirstOccurrenceOrder(keys, L)
    requires l in keys <==> l in L
    ensures FirstOccurrenceOrder(if l in keys then keys else keys + [l], L + [l])
  {
    forall i | 0 <= i < |keys| ensures FirstIndex(L + [l], keys[i]) == FirstIndex(L, keys[i]) {
      FirstIndexSnoc(L, l, keys[i]);
    }
    if l !in keys {
      FirstIndexSnoc(L, l, l);
      var keys' := keys + [l];
      assert forall i :: 0 <= i < |keys| ==> keys'[i] == keys[i];
    }
  }

  /** Keys come in the order in which their label first occurs in the list. */
  lemma {:induction false} GroupedKeyOrder<T>(s: seq<T>, labelOf: T -> string)
    ensures FirstOccurrenceOrder(Grouped(s, labelOf).keys, Labels(s, labelOf))
  {
    if s != [] {
      var init, last := s[..|s| - 1], s[|s| - 1];
      var g, L, l := Grouped(init, labelOf), Labels(init, labelOf), labelOf(last);
      GroupedBuckets(init, labelOf);
      GroupedKeyOrder(init, labelOf);
      assert Labels(s, labelOf) == L + [l];
      FirstOccurrenceStep(g.keys, L, l);
    }
  }

  /** The buckets' lists laid end to end, in key order. */
  function Concat<T>(keys: seq<string>, byKey: map<string, seq<T>>): seq<T>
    requires forall i :: 0 <= i < |keys| ==> keys[i] in byKey
  {
    if keys == [] then [] else Concat(keys[..|keys| - 1], byKey) + byKey[keys[|keys| - 1]]
  }

  lemma {:induction false} ConcatFrame<T>(keys: seq<string>, m1: map<string, seq<T>>, m2: map<string, seq<T>>)
    requires forall i :: 0 <= i < |keys| ==> keys[i] in m1 && keys[i] in m2 && m1[keys[i]] == m2[keys[i]]
    ensures Concat(keys, m1) == Concat(keys, m2)
  {
    if keys != [] {
      ConcatFrame(keys[..|keys| - 1], m1, m2);
    }
  }

  /** Equal labels stand next to each other. */
  predicate Contiguous(labels: seq<string>) {
    forall i, j, l :: 0 <= i < j < l < |labels| && labels[i] == labels[l] ==> labels[j] == labels[i]
  }

  lemma ContiguousSnoc(L: seq<string>, l: string)
    requires Contiguous(L + [l])
    ensures Contiguous(L)
    ensures l in L ==> L[|L| - 1] == l
  {
    var L' := L + [l];
    forall i, j, m | 0 <= i < j < m < |L| && L[i] == L[m] ensures L[j] == L[i] {
      assert L'[i] == L[i] && L'[j] == L[j] && L'[m] == L[m];
    }
    if l in L {
      var n := |L|;
      var i :| 0 <= i < n && L[i] == l;
      assert L'[n] == l && L'[i] == l;
      if i < n - 1 {
        assert L'[n - 1] == L'[i];
      }
    }
  }

  /** Pushing onto the last bucket extends the concatenation by one element. */
  lemma ConcatPush<T>(keys: seq<string>, m: map<string, seq<T>>, x: T)
    requires keys != [] && forall i :: 0 <= i < |keys| ==> keys[i] in m
    requires forall i :: 0 <= i < |keys| - 1 ==> keys[i] != keys[|keys| - 1]
    ensures Concat(keys, m[keys[|keys| - 1] := m[keys[|keys| - 1]] + [x]]) == Concat(keys, m) + [x]
  {
    var l := keys[|keys| - 1];
    var m' := m[l := m[l] + [x]];
    ConcatFrame(keys[..|keys| - 1], m, m');
  }

  /** Opening a new bucket appends it to the concatenation. */
  lemma ConcatNew<T>(keys: seq<string>, m: map<string, seq<T>>, l: string, x: T)
    requires forall i :: 0 <= i < |keys| ==> keys[i] in m
    requires l !in keys
    ensures Concat(keys + [l], m[l := [x]]) == Concat(keys, m) + [x]
  {
    ConcatFrame(keys, m, m[l := [x]]);
    assert (keys + [l])[..|keys|] == keys;
  }

  /** One step of the `reduce` on a list whose equal labels stand together:
      the concatenation grows by the pushed element, and the last key is its
      label. */
  lemma ConcatStep<T>(g: Buckets<T>, init: seq<T>, L: seq<string>, l: string, last: T)
    requires Distinct(g.keys)
    requires forall k :: k in g.keys <==> k in g.byKey
    requires forall k :: k in g.byKey <==> k in L
    requires forall i :: 0 <= i < |g.keys| ==> g.keys[i] in g.byKey
    requires Concat(g.keys, g.byKey) == init
    requires L != [] ==> g.keys != [] && g.keys[|g.keys| - 1] == L[|L| - 1]
    requires Contiguous(L + [l])
    ensures forall i :: 0 <= i < |Add(g, l, last).keys| ==> Add(g, l, last).keys[i] in Add(g, l, last).byKey
    ensures Concat(Add(g, l, last).keys, Add(g, l, last).byKey) == init + [last]
    ensures Add(g, l, last).keys != [] && Add(g, l, last).keys[|Add(g, l, last).keys| - 1] == l
  {
    ContiguousSnoc(L, l);
    var next := Add(g, l, last);
    if l in g.byKey {
      assert g.keys[|g.keys| - 1] == l;
      assert next == Buckets(g.keys, g.byKey[l := g.byKey[l] + [last]]);
      ConcatPush(g.keys, g.byKey, last);
    } else {
      assert next == Buckets(g.keys + [l], g.byKey[l := [last]]);
      ConcatNew(g.keys, g.byKey, l, last);
    }
  }

  /** When equal labels stand together, concatenating the buckets in key order
      gives back the input list: nothing is lost, duplicated or reordered. */
  lemma {:induction false} ContiguousConcat<T>(s: seq<T>, labelOf: T -> string)
    requires Contiguous(Labels(s, labelOf))
    ensures forall i :: 0 <= i < |Grouped(s, labelOf).keys| ==> Grouped(s, labelOf).keys[i] in Grouped(s, labelOf).byKey
    ensures Concat(Grouped(s, labelOf).keys, Grouped(s, labelOf).byKey) == s
    ensures s != [] ==>
      (Grouped(s, labelOf).keys != [] && Grouped(s, labelOf).keys[|Grouped(s, labelOf).keys| - 1] == labelOf(s[|s| - 1]))
  {
    if s != [] {
      var init, last := s[..|s| - 1], s[|s| - 1];
      assert s == init + [last];
      var L, l := Labels(init, labelOf), labelOf(last);
      assert Labels(s, labelOf) == L + [l];
      ContiguousSnoc(L, l);
      GroupedBuckets(init, labelOf);
      ContiguousConcat(init, labelOf);
      ConcatStep(Grouped(init, labelOf), init, L, l, last);
    }
  }

  /** The `reduce` loop: walks the list in order, creating a key's list the
      first time the key is seen and pushing each element onto the list of
      its key. */
  method GroupInto<T>(s: seq<T>, labelOf: T -> string) returns (keys: seq<string>, groups: map<string, seq<T>>)
    ensures Buckets(keys, groups) == Grouped(s, labelOf)
  {
    keys, groups := [], map[];
    var i := 0;
    while i < |s|
      invariant 0 <= i <= |s|
      invariant Buckets(keys, groups) == Grouped(s[..i], labelOf)
    {
      var x := s[i];
      var k := labelOf(x);
      assert s[..i + 1] == s[..i] + [x];
      assert Grouped(s[..i + 1], labelOf) == Add(Grouped(s[..i], labelOf), k, x);
      ghost var before := Buckets(keys, groups);
      if k !in groups {
        keys := keys + [k];
        groups := groups[k := []];
        assert groups[k] + [x] == [x];
        assert groups[k := [x]] == before.byKey[k := [x]];
      }
      groups := groups[k := groups[k] + [x]];
      assert Buckets(keys, groups) == Add(before, k, x);
      i := i + 1;
    }
    assert s[..i] == s;
  }
}
