/** Sequence helpers shared by the store queries and the dispatcher: filtering
    (a SQL `WHERE`, a skipped channel name) and ordering by a descending key
    (a SQL `ORDER BY ... DESC`). */
module Seqs {

  /** The elements of `s` that satisfy `p`, in their original order. */
  function Filter<T>(p: T -> bool, s: seq<T>): (r: seq<T>)
    ensures |r| <= |s|
    ensures forall i :: 0 <= i < |r| ==> r[i] in s && p(r[i])
    ensures forall i :: 0 <= i < |s| && p(s[i]) ==> s[i] in r
  {
    if |s| == 0 then []
    else if p(s[0]) then [s[0]] + Filter(p, s[1..])
    else Filter(p, s[1..])
  }

  lemma FilterCons<T>(p: T -> bool, s: seq<T>)
    requires |s| > 0
    ensures Filter(p, s) == (if p(s[0]) then [s[0]] else []) + Filter(p, s[1..])
  {
  }

  /** How many elements of `s` satisfy `p`. */
  function Count<T>(p: T -> bool, s: seq<T>): nat {
    |Filter(p, s)|
  }

  lemma {:induction false} FilterAppend<T>(p: T -> bool, a: seq<T>, b: seq<T>)
    ensures Filter(p, a + b) == Filter(p, a) + Filter(p, b)
  {
    if |a| == 0 {
      assert a + b == b;
    } else {
      assert (a + b)[1..] == a[1..] + b;
      FilterAppend(p, a[1..], b);
    }
  }

  /** Filtering keeps exactly the number of elements the predicate holds of. */
  lemma {:induction false} FilterAll<T>(p: T -> bool, s: seq<T>)
    requires forall i :: 0 <= i < |s| ==> p(s[i])
    ensures Filter(p, s) == s
  {
    if |s| > 0 {
      FilterAll(p, s[1..]);
    }
  }

  lemma {:induction false} FilterNone<T>(p: T -> bool, s: seq<T>)
    requires forall i :: 0 <= i < |s| ==> !p(s[i])
    ensures Filter(p, s) == []
  {
    if |s| > 0 {
      FilterNone(p, s[1..]);
    }
  }

  /** Filtering does not change the multiset of kept elements' sources: an
      element occurs in the filtered sequence as often as it occurs in `s`
      when it satisfies `p`, and never otherwise. */
  lemma {:induction false} FilterMultiset<T>(p: T -> bool, s: seq<T>, x: T)
    ensures multiset(Filter(p, s))[x] == if p(x) then multiset(s)[x] else 0
  {
    if |s| > 0 {
      FilterMultiset(p, s[1..], x);
      assert s == [s[0]] + s[1..];
    }
  }

  /** Two complementary predicates split `s` between them. */
  lemma {:induction false} FilterSplitsCount<T>(p: T -> bool, q: T -> bool, s: seq<T>)
    requires forall x :: q(x) == !p(x)
    ensures |Filter(p, s)| + |Filter(q, s)| == |s|
  {
    if |s| > 0 {
      FilterSplitsCount(p, q, s[1..]);
    }
  }

  ghost predicate SortedDesc<T>(s: seq<T>, key: T -> int) {
    forall i, j :: 0 <= i < j < |s| ==> key(s[i]) >= key(s[j])
  }

  /** Where `x` goes in a sequence ordered by descending `key`: after every
      element with a greater key, before the first one that is not greater. */
  function InsertPos<T>(s: seq<T>, x: T, key: T -> int): (k: nat)
    ensures k <= |s|
    ensures forall i :: 0 <= i < k ==> key(s[i]) > key(x)
    ensures k < |s| ==> key(s[k]) <= key(x)
  {
    if |s| == 0 || key(s[0]) <= key(x) then 0 else 1 + InsertPos(s[1..], x, key)
  }

  function InsertDesc<T>(s: seq<T>, x: T, key: T -> int): (r: seq<T>)
    ensures |r| == |s| + 1
    ensures multiset(r) == multiset(s) + multiset{x}
  {
    var k := InsertPos(s, x, key);
    assert s == s[..k] + s[k..];
    s[..k] + [x] + s[k..]
  }

  /** Where each element of the insertion result comes from. */
  lemma InsertDescShape<T>(s: seq<T>, x: T, key: T -> int)
    ensures var k := InsertPos(s, x, key);
            var r := InsertDesc(s, x, key);
            forall i :: 0 <= i < |r| ==> r[i] == if i < k then s[i] else if i == k then x else s[i - 1]
  {
  }

  lemma InsertDescSorted<T>(s: seq<T>, x: T, key: T -> int)
    requires SortedDesc(s, key)
    ensures SortedDesc(InsertDesc(s, x, key), key)
  {
    var k := InsertPos(s, x, key);
    var r := InsertDesc(s, x, key);
    assert forall i :: 0 <= i < |r| ==> r[i] == if i < k then s[i] else if i == k then x else s[i - 1];
    forall i, j | 0 <= i < j < |r| ensures key(r[i]) >= key(r[j]) {
      if i < k && j > k {
        assert key(s[i]) >= key(s[j - 1]);
      } else if i == k && j > k {
        assert key(s[k]) >= key(s[j - 1]);
      }
    }
  }

  /** Insertion sort by descending key: a permutation of `s` ordered largest
      first, as `ORDER BY key DESC` returns rows. */
  function SortDesc<T>(s: seq<T>, key: T -> int): (r: seq<T>)
    ensures |r| == |s|
    ensures multiset(r) == multiset(s)
    ensures SortedDesc(r, key)
  {
    if |s| == 0 then []
    else
      assert s == [s[0]] + s[1..];
      var sorted := SortDesc(s[1..], key);
      InsertDescSorted(sorted, s[0], key);
      InsertDesc(sorted, s[0], key)
  }

  /** The first `n` elements, or all of them when `n` is negative or larger
      than `|s|` (SQLite's `LIMIT n`). */
  function Limit<T>(s: seq<T>, n: int): (r: seq<T>)
    ensures n < 0 ==> r == s
    ensures 0 <= n ==> |r| == if n < |s| then n else |s|
    ensures r <= s
  {
    if n < 0 || n >= |s| then s else s[..n]
  }

  /** Element `i` is the last one in `s` with its key. */
  predicate LastWithKey<T, K(==)>(s: seq<T>, i: int, key: T -> K)
    requires 0 <= i < |s|
  {
    forall j :: i < j < |s| ==> key(s[j]) != key(s[i])
  }

  ghost predicate KeyUsed<T, K>(s: seq<T>, k: K, key: T -> K) {
    exists i :: 0 <= i < |s| && key(s[i]) == k
  }

  /** A map built by inserting the elements in order under their keys: it
      holds exactly the keys used, and each maps to the last element with
      that key. */
  function IndexBy<T, K(==)>(s: seq<T>, key: T -> K): (m: map<K, T>)
    ensures forall i :: 0 <= i < |s| ==> key(s[i]) in m
    ensures forall k :: k in m ==> KeyUsed(s, k, key)
    ensures forall i :: 0 <= i < |s| && LastWithKey(s, i, key) ==> m[key(s[i])] == s[i]
  {
    if |s| == 0 then map[]
    else
      var init := s[..|s| - 1];
      var m := IndexBy(init, key);
      IndexByStep(init, s[|s| - 1], key, m);
      assert init + [s[|s| - 1]] == s;
      m[key(s[|s| - 1]) := s[|s| - 1]]
  }

  /** Inserting one more element at the end keeps the map's promise. */
  lemma IndexByStep<T, K>(init: seq<T>, last: T, key: T -> K, m: map<K, T>)
    requires forall i :: 0 <= i < |init| ==> key(init[i]) in m
    requires forall k :: k in m ==> KeyUsed(init, k, key)
    requires forall i :: 0 <= i < |init| && LastWithKey(init, i, key) ==> m[key(init[i])] == init[i]
    ensures var s := init + [last];
            var m' := m[key(last) := last];
            && (forall i :: 0 <= i < |s| ==> key(s[i]) in m')
            && (forall k :: k in m' ==> KeyUsed(s, k, key))
            && (forall i :: 0 <= i < |s| && LastWithKey(s, i, key) ==> m'[key(s[i])] == s[i])
  {
    var s := init + [last];
    var m' := m[key(last) := last];
    forall k | k in m' ensures KeyUsed(s, k, key) {
      if k != key(last) {
        var i :| 0 <= i < |init| && key(init[i]) == k;
        assert key(s[i]) == k;
      } else {
        assert key(s[|init|]) == k;
      }
    }
    forall i | 0 <= i < |s| && LastWithKey(s, i, key) ensures m'[key(s[i])] == s[i] {
      if i < |init| {
        assert key(s[|init|]) != key(s[i]);
        assert LastWithKey(init, i, key) by {
          forall j | i < j < |init| ensures key(init[j]) != key(init[i]) {
            assert init[j] == s[j];
          }
        }
      }
    }
  }
}
