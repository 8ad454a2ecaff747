/** Small definitions shared by the hot list and the two in-memory stores. */
module Common {

  datatype Option<T> = None | Some(value: T)

  /** A value, or the message of the error the callback would have received. */
  datatype Result<T> = Success(value: T) | Failure(error: string)

  /** The post object a client sends: a title and a body. */
  datatype Payload = Payload(title: string, body: string)

  /** Posts older than this many days are no longer "hot". */
  const HotPostsDays: int := 10

  /** The same period in milliseconds, the unit of `Date.now()`. */
  const HotPostsPeriod: int := HotPostsDays * (86400 * 1000)

  /** `topPostsLimit || 5`: a limit of 0 (a falsy one) falls back to 5, any other is kept. */
  function LimitOrDefault(topPostsLimit: nat): (k: nat)
    ensures k >= 1
    ensures topPostsLimit == 0 ==> k == 5
    ensures topPostsLimit != 0 ==> k == topPostsLimit
  {
    if topPostsLimit == 0 then 5 else topPostsLimit
  }

  /** `s.slice(0, Math.min(s.length, n))`: the first n elements, or all of them. */
  function Truncate<T>(s: seq<T>, n: nat): seq<T>
  {
    if |s| <= n then s else s[..n]
  }

  lemma TruncateFacts<T>(s: seq<T>, n: nat)
    ensures |Truncate(s, n)| == if |s| <= n then |s| else n
    ensures Truncate(s, n) == s[..|Truncate(s, n)|]
    ensures forall x :: x in Truncate(s, n) ==> x in s
  {
  }

  lemma TruncateCons<T>(h: T, t: seq<T>, n: nat)
    requires n >= 1
    ensures Truncate([h] + t, n) == [h] + Truncate(t, n - 1)
  {
    if |t| + 1 > n {
      assert ([h] + t)[..n] == [h] + t[..n - 1];
    }
  }

  /** Truncating to the length of a prefix gives that prefix back. */
  lemma TruncateAppend<T>(a: seq<T>, b: seq<T>, n: nat)
    requires |a| == n
    ensures Truncate(a + b, n) == a
  {
    if |a + b| > n {
      assert (a + b)[..n] == a;
    }
  }

  /** The sequence of the images of the elements of s under f. */
  function MapSeq<T, U>(s: seq<T>, f: T -> U): (r: seq<U>)
    ensures |r| == |s|
    ensures forall i :: 0 <= i < |s| ==> r[i] == f(s[i])
  {
    seq(|s|, i requires 0 <= i < |s| => f(s[i]))
  }

  /** Removing the element at index j removes one copy of it from the multiset. */
  lemma MultisetRemoveAt<T>(b: seq<T>, j: nat)
    requires j < |b|
    ensures multiset(b) == multiset(b[..j] + b[j + 1..]) + multiset{b[j]}
  {
    assert b == b[..j] + [b[j]] + b[j + 1..];
  }

  lemma MapSeqRemoveAt<T, U>(b: seq<T>, j: nat, f: T -> U)
    requires j < |b|
    ensures MapSeq(b[..j] + b[j + 1..], f) == MapSeq(b, f)[..j] + MapSeq(b, f)[j + 1..]
  {
  }

  /** Sequences that agree as multisets once index 0 of one and index j of the other
      (holding the same value) are removed agree as multisets. */
  lemma MultisetCancel<U>(ma: seq<U>, mb: seq<U>, j: nat)
    requires 0 < |ma| && j < |mb| && ma[0] == mb[j]
    requires multiset(ma[1..]) == multiset(mb[..j] + mb[j + 1..])
    ensures multiset(ma) == multiset(mb)
  {
    MultisetRemoveAt(mb, j);
    assert ma == [ma[0]] + ma[1..];
  }

  /** Taking the same value out of two sequences holding the same elements leaves them holding the same elements. */
  lemma MultisetRemoveBoth<T>(a: seq<T>, b: seq<T>, j: nat)
    requires 0 < |a| && j < |b| && b[j] == a[0]
    requires multiset(a) == multiset(b)
    ensures multiset(a[1..]) == multiset(b[..j] + b[j + 1..])
  {
    MultisetRemoveAt(b, j);
    assert a == [a[0]] + a[1..];
    var x := multiset{a[0]};
    assert multiset(a[1..]) == multiset(a) - x;
    assert multiset(b[..j] + b[j + 1..]) == multiset(b) - x;
  }

  /** Two sequences holding the same elements have images holding the same elements. */
  lemma {:induction false} MapSeqPermutation<T, U>(a: seq<T>, b: seq<T>, f: T -> U)
    requires multiset(a) == multiset(b)
    ensures multiset(MapSeq(a, f)) == multiset(MapSeq(b, f))
    decreases |a|
  {
    if a == [] {
      assert |multiset(b)| == 0;
    } else {
      assert a[0] in multiset(b);
      var j :| 0 <= j < |b| && b[j] == a[0];
      MultisetRemoveBoth(a, b, j);
      MapSeqPermutation(a[1..], b[..j] + b[j + 1..], f);
      MapSeqRemoveAt(b, j, f);
      assert MapSeq(a[1..], f) == MapSeq(a, f)[1..];
      MultisetCancel(MapSeq(a, f), MapSeq(b, f), j);
    }
  }

  /** No two elements of s have the same image under f (no two posts share an id). */
  ghost predicate DistinctBy<T, K>(s: seq<T>, f: T -> K)
  {
    forall i, j :: 0 <= i < j < |s| ==> f(s[i]) != f(s[j])
  }

  lemma DistinctByCons<T, K>(h: T, t: seq<T>, f: T -> K)
    ensures DistinctBy([h] + t, f) <==> DistinctBy(t, f) && forall y :: y in t ==> f(y) != f(h)
  {
    var s := [h] + t;
    if DistinctBy(t, f) && forall y :: y in t ==> f(y) != f(h) {
      forall i, j | 0 <= i < j < |s| ensures f(s[i]) != f(s[j]) {
        if i == 0 {
          assert s[j] == t[j - 1];
        } else {
          assert s[i] == t[i - 1] && s[j] == t[j - 1];
        }
      }
    }
    if DistinctBy(s, f) {
      forall i, j | 0 <= i < j < |t| ensures f(t[i]) != f(t[j]) {
        assert t[i] == s[i + 1] && t[j] == s[j + 1];
      }
      forall y | y in t ensures f(y) != f(h) {
        var k :| 0 <= k < |t| && t[k] == y;
        assert s[0] == h && s[k + 1] == y;
      }
    }
  }

  /** Appending an element whose image is new keeps the images distinct. */
  lemma DistinctByAppend<T, K>(s: seq<T>, x: T, f: T -> K)
    requires DistinctBy(s, f)
    requires forall y :: y in s ==> f(y) != f(x)
    ensures DistinctBy(s + [x], f)
  {
    var t := s + [x];
    forall i, j | 0 <= i < j < |t| ensures f(t[i]) != f(t[j]) {
      if j == |s| {
        assert t[i] in s;
      }
    }
  }

  /** A sequence without repeated elements holds each value at most once. */
  lemma {:induction false} DistinctMultiplicity<T>(s: seq<T>, x: T)
    requires forall i, j :: 0 <= i < j < |s| ==> s[i] != s[j]
    ensures multiset(s)[x] <= 1
  {
    if s != [] {
      assert s == [s[0]] + s[1..];
      assert forall i, j :: 0 <= i < j < |s[1..]| ==> s[1..][i] != s[1..][j] by {
        forall i, j | 0 <= i < j < |s[1..]| ensures s[1..][i] != s[1..][j] {
          assert s[1..][i] == s[i + 1] && s[1..][j] == s[j + 1];
        }
      }
      DistinctMultiplicity(s[1..], x);
    }
  }

  /** Reordering a sequence keeps its images pairwise distinct. */
  lemma DistinctByPermutation<T, K>(a: seq<T>, b: seq<T>, f: T -> K)
    requires multiset(a) == multiset(b)
    requires DistinctBy(a, f)
    ensures DistinctBy(b, f)
  {
    forall i, j | 0 <= i < j < |b| ensures f(b[i]) != f(b[j]) {
      DistinctPairStays(a, b, f, i, j);
    }
  }

  lemma DistinctPairStays<T, K>(a: seq<T>, b: seq<T>, f: T -> K, i: nat, j: nat)
    requires multiset(a) == multiset(b)
    requires DistinctBy(a, f)
    requires i < j < |b|
    ensures f(b[i]) != f(b[j])
  {
    if f(b[i]) == f(b[j]) {
      assert b[i] in multiset(a) && b[j] in multiset(a);
      var k :| 0 <= k < |a| && a[k] == b[i];
      var l :| 0 <= l < |a| && a[l] == b[j];
      if k == l {
        assert b == b[..i] + [b[i]] + b[i + 1..j] + [b[j]] + b[j + 1..];
        assert multiset(b)[b[i]] >= 2;
        assert forall p, q :: 0 <= p < q < |a| ==> a[p] != a[q];
        DistinctMultiplicity(a, b[i]);
      }
    }
  }
}
