/** The ranking order shared by the hot list and the stores' `getTopPosts`:
    score descending, then creation time descending. */
module Ranking {
  import opened Common

  /** The two fields a post is ranked by. */
  datatype Key = Key(score: int, creation: int)

  /** k1 may stand before k2: a higher score, or the same score and a creation time no older. */
  predicate Precedes(k1: Key, k2: Key)
  {
    k1.score > k2.score || (k1.score == k2.score && k1.creation >= k2.creation)
  }

  /** Every earlier element may stand before every later one. */
  predicate SortedBy<T>(s: seq<T>, key: T -> Key)
  {
    forall i, j :: 0 <= i < j < |s| ==> Precedes(key(s[i]), key(s[j]))
  }

  lemma SortedByCons<T>(h: T, t: seq<T>, key: T -> Key)
    ensures SortedBy([h] + t, key) <==> SortedBy(t, key) && forall y :: y in t ==> Precedes(key(h), key(y))
  {
    var s := [h] + t;
    if SortedBy(t, key) && forall y :: y in t ==> Precedes(key(h), key(y)) {
      forall i, j | 0 <= i < j < |s| ensures Precedes(key(s[i]), key(s[j])) {
        if i == 0 {
          assert s[j] == t[j - 1];
        } else {
          assert s[i] == t[i - 1] && s[j] == t[j - 1];
        }
      }
    }
    if SortedBy(s, key) {
      forall i, j | 0 <= i < j < |t| ensures Precedes(key(t[i]), key(t[j])) {
        assert t[i] == s[i + 1] && t[j] == s[j + 1];
      }
      forall y | y in t ensures Precedes(key(h), key(y)) {
        var k :| 0 <= k < |t| && t[k] == y;
        assert s[0] == h && s[k + 1] == y;
      }
    }
  }

  lemma SortedTruncate<T>(s: seq<T>, n: nat, key: T -> Key)
    requires SortedBy(s, key)
    ensures SortedBy(Truncate(s, n), key)
  {
  }

  /** Reference insertion: x goes before the first element it may stand before. */
  function InsertByKey<T>(s: seq<T>, x: T, key: T -> Key): seq<T>
  {
    if s == [] then [x]
    else if Precedes(key(x), key(s[0])) then [x] + s
    else [s[0]] + InsertByKey(s[1..], x, key)
  }

  /** Reference sort by rank (insertion sort): the independent oracle a client may compare with. */
  function RankSort<T>(s: seq<T>, key: T -> Key): seq<T>
  {
    if s == [] then [] else InsertByKey(RankSort(s[1..], key), s[0], key)
  }

  lemma {:induction false} InsertByKeyMembers<T>(s: seq<T>, x: T, key: T -> Key)
    ensures multiset(InsertByKey(s, x, key)) == multiset(s) + multiset{x}
    ensures forall y :: y in InsertByKey(s, x, key) ==> y in s || y == x
  {
    if s != [] {
      assert s == [s[0]] + s[1..];
      if !Precedes(key(x), key(s[0])) {
        InsertByKeyMembers(s[1..], x, key);
      }
    }
  }

  lemma {:induction false} InsertByKeyCorrect<T>(s: seq<T>, x: T, key: T -> Key)
    requires SortedBy(s, key)
    ensures multiset(InsertByKey(s, x, key)) == multiset(s) + multiset{x}
    ensures SortedBy(InsertByKey(s, x, key), key)
  {
    InsertByKeyMembers(s, x, key);
    if s == [] {
    } else if Precedes(key(x), key(s[0])) {
      SortedByCons(s[0], s[1..], key);
      assert s == [s[0]] + s[1..];
      SortedByCons(x, s, key);
    } else {
      SortedByCons(s[0], s[1..], key);
      assert s == [s[0]] + s[1..];
      InsertByKeyCorrect(s[1..], x, key);
      var r := InsertByKey(s[1..], x, key);
      InsertByKeyMembers(s[1..], x, key);
      SortedByCons(s[0], r, key);
    }
  }

  /** The reference sort returns a sorted permutation of its input. */
  lemma {:induction false} RankSortCorrect<T>(s: seq<T>, key: T -> Key)
    ensures multiset(RankSort(s, key)) == multiset(s)
    ensures SortedBy(RankSort(s, key), key)
  {
    if s != [] {
      RankSortCorrect(s[1..], key);
      InsertByKeyCorrect(RankSort(s[1..], key), s[0], key);
      assert s == [s[0]] + s[1..];
    }
  }

  /** A sequence of keys in ranking order. */
  ghost predicate SortedKeys(ks: seq<Key>)
  {
    forall i, j :: 0 <= i < j < |ks| ==> Precedes(ks[i], ks[j])
  }

  /** Removing equal first elements keeps two multisets equal. */
  lemma MultisetTail<T>(a: seq<T>, b: seq<T>)
    requires 0 < |a| && 0 < |b| && a[0] == b[0]
    requires multiset(a) == multiset(b)
    ensures multiset(a[1..]) == multiset(b[1..])
  {
    assert a == [a[0]] + a[1..] && b == [b[0]] + b[1..];
    assert multiset(a[1..]) == multiset(a) - multiset{a[0]};
    assert multiset(b[1..]) == multiset(b) - multiset{a[0]};
  }

  lemma SortedKeysHead(a: seq<Key>, b: seq<Key>)
    requires 0 < |a| && multiset(a) == multiset(b)
    requires SortedKeys(a) && SortedKeys(b)
    ensures 0 < |b| && a[0] == b[0]
  {
    assert a[0] in multiset(b) && a[0] in b;
    assert b[0] in multiset(a) && b[0] in a;
    var i :| 0 <= i < |a| && a[i] == b[0];
    var j :| 0 <= j < |b| && b[j] == a[0];
    assert Precedes(a[0], a[i]) && Precedes(b[0], b[j]);
  }

  /** Sorted key sequences holding the same keys are equal: the order is total on keys. */
  lemma {:induction false} SortedKeysUnique(a: seq<Key>, b: seq<Key>)
    requires multiset(a) == multiset(b)
    requires SortedKeys(a) && SortedKeys(b)
    ensures a == b
    decreases |a|
  {
    if a == [] {
      assert |multiset(b)| == 0;
    } else {
      SortedKeysHead(a, b);
      MultisetTail(a, b);
      assert SortedKeys(a[1..]) by {
        forall i, j | 0 <= i < j < |a[1..]| ensures Precedes(a[1..][i], a[1..][j]) {
          assert a[1..][i] == a[i + 1] && a[1..][j] == a[j + 1];
        }
      }
      assert SortedKeys(b[1..]) by {
        forall i, j | 0 <= i < j < |b[1..]| ensures Precedes(b[1..][i], b[1..][j]) {
          assert b[1..][i] == b[i + 1] && b[1..][j] == b[j + 1];
        }
      }
      SortedKeysUnique(a[1..], b[1..]);
      assert a == [a[0]] + a[1..] && b == [b[0]] + b[1..];
    }
  }

  /** Any two sorted permutations of the same posts agree on every position's rank key. */
  lemma SortedPermutationsAgree<T>(a: seq<T>, b: seq<T>, key: T -> Key)
    requires multiset(a) == multiset(b)
    requires SortedBy(a, key) && SortedBy(b, key)
    ensures MapSeq(a, key) == MapSeq(b, key)
  {
    MapSeqPermutation(a, b, key);
    assert SortedKeys(MapSeq(a, key)) && SortedKeys(MapSeq(b, key));
    SortedKeysUnique(MapSeq(a, key), MapSeq(b, key));
  }

  /** When no two elements share a rank key, the sorted permutation is unique. */
  lemma SortedPermutationUnique<T>(a: seq<T>, b: seq<T>, key: T -> Key)
    requires multiset(a) == multiset(b)
    requires SortedBy(a, key) && SortedBy(b, key)
    requires DistinctBy(a, key)
    ensures a == b
  {
    SortedPermutationsAgree(a, b, key);
    assert |a| == |multiset(a)| == |multiset(b)| == |b|;
    forall i | 0 <= i < |a| ensures a[i] == b[i] {
      assert MapSeq(a, key)[i] == MapSeq(b, key)[i];
      assert b[i] in multiset(a);
      var k :| 0 <= k < |a| && a[k] == b[i];
      assert key(a[k]) == key(a[i]);
    }
  }

  /** The first n posts of any sorted permutation agree, key by key, with the first n of the reference sort;
      and post by post when no two posts share a rank key. */
  lemma TopAgreesWithReference<T>(s: seq<T>, sorted: seq<T>, n: nat, key: T -> Key)
    requires multiset(sorted) == multiset(s)
    requires SortedBy(sorted, key)
    ensures MapSeq(Truncate(sorted, n), key) == MapSeq(Truncate(RankSort(s, key), n), key)
    ensures DistinctBy(s, key) ==> Truncate(sorted, n) == Truncate(RankSort(s, key), n)
  {
    var ref := RankSort(s, key);
    RankSortCorrect(s, key);
    SortedPermutationsAgree(sorted, ref, key);
    assert |sorted| == |multiset(sorted)| == |multiset(ref)| == |ref|;
    var m := if |sorted| <= n then |sorted| else n;
    assert Truncate(sorted, n) == sorted[..m] && Truncate(ref, n) == ref[..m];
    assert MapSeq(sorted[..m], key) == MapSeq(sorted, key)[..m];
    assert MapSeq(ref[..m], key) == MapSeq(ref, key)[..m];
    if DistinctBy(s, key) {
      DistinctByPermutation(s, sorted, key);
      SortedPermutationUnique(sorted, ref, key);
    }
  }
}
