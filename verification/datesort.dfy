/**
 * Ordering of index items: `sorted(items, key=lambda item: item["date"],
 * reverse=True)` is a stable sort by a string key, greatest key first, where
 * items with equal keys keep their original relative order. The sort here is
 * an insertion sort over sequences; its specification (permutation,
 * non-increasing keys, stability) is proved and shown to determine the
 * result uniquely.
 */
module DateSort {
  import opened Text

  /** No later element has a greater key. */
  predicate SortedDesc<T>(s: seq<T>, key: T -> string) {
    forall i, j :: 0 <= i < j < |s| ==> !Less(key(s[i]), key(s[j]))
  }

  /** The elements whose key is `k`, in their original order. */
  function WithKey<T, K(==)>(s: seq<T>, key: T -> K, k: K): seq<T> {
    if |s| == 0 then []
    else (if key(s[0]) == k then [s[0]] else []) + WithKey(s[1..], key, k)
  }

  /** Stability: for every key, the elements carrying it appear in the same
      order in `r` as in `s`. */
  ghost predicate SameRuns<T>(r: seq<T>, s: seq<T>, key: T -> string) {
    forall k :: WithKey(r, key, k) == WithKey(s, key, k)
  }

  /** Inserts `x` before the first element whose key is not greater than its
      own: `x` precedes everything with its key. */
  function Insert<T>(x: T, s: seq<T>, key: T -> string): (r: seq<T>)
    ensures |r| == |s| + 1
  {
    if |s| == 0 || !Less(key(x), key(s[0])) then [x] + s
    else [s[0]] + Insert(x, s[1..], key)
  }

  /** The sort: greatest key first, ties in their original order. */
  function SortDesc<T>(s: seq<T>, key: T -> string): (r: seq<T>)
    ensures |r| == |s|
  {
    if |s| == 0 then [] else Insert(s[0], SortDesc(s[1..], key), key)
  }

  /** `s[:n]` */
  function Take<T>(s: seq<T>, n: nat): seq<T> {
    if |s| <= n then s else s[..n]
  }

  // ---------------------------------------------------------------------------
  // Helpers about WithKey
  // ---------------------------------------------------------------------------

  lemma {:induction false} WithKeyAppend<T, K>(a: seq<T>, b: seq<T>, key: T -> K, k: K)
    ensures WithKey(a + b, key, k) == WithKey(a, key, k) + WithKey(b, key, k)
  {
    if |a| > 0 {
      assert (a + b)[0] == a[0] && (a + b)[1..] == a[1..] + b;
      WithKeyAppend(a[1..], b, key, k);
      var h := if key(a[0]) == k then [a[0]] else [];
      assert WithKey(a + b, key, k) == h + WithKey(a[1..] + b, key, k);
      assert WithKey(a, key, k) == h + WithKey(a[1..], key, k);
    } else {
      assert a + b == b;
    }
  }

  /** Every element selected for `k` carries `k`, and every element carrying
      `k` is selected. */
  lemma {:induction false} WithKeyMembers<T, K>(s: seq<T>, key: T -> K, k: K)
    ensures forall x :: x in WithKey(s, key, k) <==> x in s && key(x) == k
  {
    if |s| > 0 {
      WithKeyMembers(s[1..], key, k);
      assert s == [s[0]] + s[1..];
    }
  }

  /** The first element of a run: when `s` starts with key `k`, its head is
      the head of the run for `k`, and the rest of the run comes from the
      tail. */
  lemma WithKeyHead<T, K>(s: seq<T>, key: T -> K)
    requires |s| > 0
    ensures WithKey(s, key, key(s[0])) == [s[0]] + WithKey(s[1..], key, key(s[0]))
    ensures forall k :: k != key(s[0]) ==> WithKey(s, key, k) == WithKey(s[1..], key, k)
  {
  }

  // ---------------------------------------------------------------------------
  // Insert
  // ---------------------------------------------------------------------------

  lemma {:induction false} InsertPermutes<T>(x: T, s: seq<T>, key: T -> string)
    ensures multiset(Insert(x, s, key)) == multiset(s) + multiset{x}
  {
    if |s| > 0 && Less(key(x), key(s[0])) {
      InsertPermutes(x, s[1..], key);
      assert s == [s[0]] + s[1..];
    }
  }

  /** `!Less` is a total preorder: it chains. */
  lemma NotLessTransitive(a: string, b: string, c: string)
    requires !Less(a, b) && !Less(b, c)
    ensures !Less(a, c)
  {
    LessTotal(a, b);
    LessTotal(b, c);
    if Less(b, a) && Less(c, b) {
      LessTransitive(c, b, a);
      LessAsymmetric(a, c);
    }
  }

  /** The inserted element is preceded only by greater keys and followed
      only by keys it is not less than. */
  lemma {:induction false} InsertSorted<T>(x: T, s: seq<T>, key: T -> string)
    requires SortedDesc(s, key)
    ensures SortedDesc(Insert(x, s, key), key)
  {
    var r := Insert(x, s, key);
    if |s| == 0 {
    } else if !Less(key(x), key(s[0])) {
      forall i, j | 0 <= i < j < |r|
        ensures !Less(key(r[i]), key(r[j]))
      {
        if i == 0 {
          assert r[j] == s[j - 1];
          if j - 1 > 0 {
            NotLessTransitive(key(x), key(s[0]), key(s[j - 1]));
          }
        } else {
          assert r[i] == s[i - 1] && r[j] == s[j - 1];
        }
      }
    } else {
      var t := s[1..];
      assert SortedDesc(t, key) by {
        forall i, j | 0 <= i < j < |t|
          ensures !Less(key(t[i]), key(t[j]))
        {
          assert t[i] == s[i + 1] && t[j] == s[j + 1];
        }
      }
      InsertSorted(x, t, key);
      InsertPermutes(x, t, key);
      var rt := Insert(x, t, key);
      forall i, j | 0 <= i < j < |r|
        ensures !Less(key(r[i]), key(r[j]))
      {
        if i == 0 {
          assert r[j] == rt[j - 1];
          assert rt[j - 1] in multiset(rt);
          if rt[j - 1] == x {
            LessAsymmetric(key(x), key(s[0]));
          } else {
            assert rt[j - 1] in multiset(t);
            var m :| 0 <= m < |t| && t[m] == rt[j - 1];
            assert s[m + 1] == t[m];
          }
        } else {
          assert r[i] == rt[i - 1] && r[j] == rt[j - 1];
        }
      }
    }
  }

  /** Insertion keeps every run: `x` goes before the elements sharing its
      key, which is where it stood in `[x] + s`. */
  lemma {:induction false} InsertRuns<T>(x: T, s: seq<T>, key: T -> string, k: string)
    ensures WithKey(Insert(x, s, key), key, k) == WithKey([x] + s, key, k)
  {
    if |s| > 0 && Less(key(x), key(s[0])) {
      var t := s[1..];
      InsertRuns(x, t, key, k);
      LessIrreflexive(key(x));
      var r := Insert(x, s, key);
      assert r == [s[0]] + Insert(x, t, key);
      WithKeyAppend([s[0]], Insert(x, t, key), key, k);
      WithKeyAppend([x], t, key, k);
      WithKeyAppend([s[0]], [x] + t, key, k);
      WithKeyAppend([x], [s[0]] + t, key, k);
      WithKeyAppend([s[0]], t, key, k);
      assert [x] + s == [x] + ([s[0]] + t);
      assert WithKey([s[0]], key, k) == [] || WithKey([x], key, k) == [];
    }
  }

  // ---------------------------------------------------------------------------
  // The sort meets its specification
  // ---------------------------------------------------------------------------

  /** The result is a permutation of the input, non-increasing by key, and
      stable. */
  lemma {:induction false} SortDescCorrect<T>(s: seq<T>, key: T -> string)
    ensures multiset(SortDesc(s, key)) == multiset(s)
    ensures SortedDesc(SortDesc(s, key), key)
    ensures SameRuns(SortDesc(s, key), s, key)
  {
    if |s| > 0 {
      var t := s[1..];
      var st := SortDesc(t, key);
      SortDescCorrect(t, key);
      InsertPermutes(s[0], st, key);
      assert s == [s[0]] + t;
      InsertSorted(s[0], st, key);
      forall k
        ensures WithKey(SortDesc(s, key), key, k) == WithKey(s, key, k)
      {
        InsertRuns(s[0], st, key, k);
        WithKeyAppend([s[0]], st, key, k);
        WithKeyAppend([s[0]], t, key, k);
      }
    }
  }

  /** Sorting an already sorted sequence changes nothing. */
  lemma SortDescIdempotent<T>(s: seq<T>, key: T -> string)
    ensures SortDesc(SortDesc(s, key), key) == SortDesc(s, key)
  {
    var r := SortDesc(s, key);
    SortDescCorrect(s, key);
    SortDescCorrect(r, key);
    SortedUnique(SortDesc(r, key), r, r, key);
  }

  /** The specification determines the result: two sequences that are both
      non-increasing and keep the runs of the same input are equal. */
  lemma {:induction false} SortedUnique<T>(r1: seq<T>, r2: seq<T>, s: seq<T>, key: T -> string)
    requires SortedDesc(r1, key) && SortedDesc(r2, key)
    requires SameRuns(r1, s, key) && SameRuns(r2, s, key)
    ensures r1 == r2
  {
    SameRunsShared(r1, r2, s, key);
    RunsDetermine(r1, r2, key);
  }

  lemma SameRunsShared<T>(r1: seq<T>, r2: seq<T>, s: seq<T>, key: T -> string)
    requires SameRuns(r1, s, key) && SameRuns(r2, s, key)
    ensures SameRuns(r1, r2, key)
  {
    forall k
      ensures WithKey(r1, key, k) == WithKey(r2, key, k)
    {
      assert WithKey(r1, key, k) == WithKey(s, key, k);
    }
  }

  /** Two sorted sequences with the same runs are equal. */
  lemma {:induction false} RunsDetermine<T>(r1: seq<T>, r2: seq<T>, key: T -> string)
    requires SortedDesc(r1, key) && SortedDesc(r2, key)
    requires SameRuns(r1, r2, key)
    ensures r1 == r2
    decreases |r1|
  {
    if |r1| == 0 {
      if |r2| > 0 {
        WithKeyHead(r2, key);
      }
    } else if |r2| == 0 {
      WithKeyHead(r1, key);
    } else {
      var k1, k2 := key(r1[0]), key(r2[0]);
      HeadKeyIsMax(r1, r2, key);
      HeadKeyIsMax(r2, r1, key);
      LessTotal(k1, k2);
      assert k1 == k2;
      WithKeyHead(r1, key);
      WithKeyHead(r2, key);
      var t1, t2 := r1[1..], r2[1..];
      var w1, w2 := WithKey(r1, key, k1), WithKey(r2, key, k1);
      assert w1 == w2;
      assert w1 == [r1[0]] + WithKey(t1, key, k1) && w1[0] == r1[0];
      assert w2 == [r2[0]] + WithKey(t2, key, k1) && w2[0] == r2[0];
      assert r1[0] == r2[0];
      forall k
        ensures WithKey(t1, key, k) == WithKey(t2, key, k)
      {
        assert WithKey(r1, key, k) == WithKey(r2, key, k);
        if k == k1 {
          assert WithKey(t1, key, k) == w1[1..];
          assert WithKey(t2, key, k) == w2[1..];
        }
      }
      SortedTail(r1, key);
      SortedTail(r2, key);
      RunsDetermine(t1, t2, key);
      assert r1 == [r1[0]] + t1 && r2 == [r2[0]] + t2;
    }
  }

  lemma SortedTail<T>(s: seq<T>, key: T -> string)
    requires |s| > 0 && SortedDesc(s, key)
    ensures SortedDesc(s[1..], key)
  {
    var t := s[1..];
    forall i, j | 0 <= i < j < |t|
      ensures !Less(key(t[i]), key(t[j]))
    {
      assert t[i] == s[i + 1] && t[j] == s[j + 1];
    }
  }

  /** The head of a sorted sequence carries its greatest key; since `r2`
      has the same runs, `r2`'s head key occurs in `r1` and is not greater. */
  lemma HeadKeyIsMax<T>(r1: seq<T>, r2: seq<T>, key: T -> string)
    requires |r1| > 0 && |r2| > 0 && SortedDesc(r1, key)
    requires SameRuns(r1, r2, key)
    ensures !Less(key(r1[0]), key(r2[0]))
  {
    var k := key(r2[0]);
    WithKeyHead(r2, key);
    assert WithKey(r1, key, k) == WithKey(r2, key, k);
    WithKeyMembers(r1, key, k);
    assert r2[0] in WithKey(r1, key, k);
    var m :| 0 <= m < |r1| && r1[m] == r2[0];
    if m > 0 {
      assert !Less(key(r1[0]), key(r1[m]));
    } else {
      LessIrreflexive(k);
    }
  }

  // ---------------------------------------------------------------------------
  // The first n
  // ---------------------------------------------------------------------------

  /** The first `n` elements of a sorted sequence: `min(n, |s|)` of them,
      a prefix of `s`, and none of the elements left behind has a greater
      key than any taken. */
  lemma TakeSortedTop<T>(s: seq<T>, key: T -> string, n: nat)
    requires SortedDesc(s, key)
    ensures |Take(s, n)| == if |s| < n then |s| else n
    ensures Take(s, n) == s[..|Take(s, n)|]
    ensures forall i, j :: 0 <= i < |Take(s, n)| <= j < |s| ==> !Less(key(Take(s, n)[i]), key(s[j]))
  {
    var r := Take(s, n);
    forall i, j | 0 <= i < |r| <= j < |s|
      ensures !Less(key(r[i]), key(s[j]))
    {
      assert r[i] == s[i];
    }
  }
}
