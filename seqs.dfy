/** Generic sequence facts used by the graph store: an order-keeping filter
    (the model of JavaScript's Array.prototype.filter), the subsequence
    relation it establishes, and pairwise distinctness of a key. */
module Seqs {

  /** r can be obtained from s by deleting elements, keeping the order of the rest. */
  predicate IsSubsequence<T(==, !new)>(r: seq<T>, s: seq<T>)
    decreases |s|
  {
    if r == [] then true
    else if s == [] then false
    else (r[0] == s[0] && IsSubsequence(r[1..], s[1..])) || IsSubsequence(r, s[1..])
  }

  /** The elements of s for which keep holds, in their original order. */
  function Filter<T(==, !new)>(s: seq<T>, keep: T -> bool): (r: seq<T>)
    ensures |r| <= |s|
    ensures forall x :: x in r <==> x in s && keep(x)
    ensures forall x :: multiset(r)[x] == if keep(x) then multiset(s)[x] else 0
    ensures IsSubsequence(r, s)
  {
    if s == [] then []
    else
      assert s == [s[0]] + s[1..];
      if keep(s[0]) then [s[0]] + Filter(s[1..], keep)
      else Filter(s[1..], keep)
  }

  /** No two positions of s carry the same key. */
  predicate DistinctBy<T, K(==)>(s: seq<T>, key: T -> K) {
    forall i, j :: 0 <= i < j < |s| ==> key(s[i]) != key(s[j])
  }

  /** Filtering never makes two keys collide. */
  lemma {:induction false} FilterKeepsDistinctBy<T(!new), K>(s: seq<T>, keep: T -> bool, key: T -> K)
    requires DistinctBy(s, key)
    ensures DistinctBy(Filter(s, keep), key)
  {
    if s != [] {
      var t := s[1..];
      assert DistinctBy(t, key) by {
        forall i, j | 0 <= i < j < |t| ensures key(t[i]) != key(t[j]) {
          assert t[i] == s[i + 1] && t[j] == s[j + 1];
        }
      }
      FilterKeepsDistinctBy(t, keep, key);
      if keep(s[0]) {
        var r, rt := Filter(s, keep), Filter(t, keep);
        assert r == [s[0]] + rt;
        forall i, j | 0 <= i < j < |r| ensures key(r[i]) != key(r[j]) {
          assert r[j] == rt[j - 1];
          if i == 0 {
            assert r[j] in t;
            var k :| 0 <= k < |t| && t[k] == r[j];
            assert s[k + 1] == t[k];
          } else {
            assert r[i] == rt[i - 1];
          }
        }
      }
    }
  }

  /** Appending an element whose key is new keeps the keys distinct. */
  lemma AppendKeepsDistinctBy<T, K>(s: seq<T>, x: T, key: T -> K)
    requires DistinctBy(s, key)
    requires forall i :: 0 <= i < |s| ==> key(s[i]) != key(x)
    ensures DistinctBy(s + [x], key)
  {
    var r := s + [x];
    forall i, j | 0 <= i < j < |r| ensures key(r[i]) != key(r[j]) {
      assert r[i] == s[i];
    }
  }

  /** No two positions of s both pass keep. */
  predicate NoTwoPass<T>(s: seq<T>, keep: T -> bool) {
    forall i, j :: 0 <= i < j < |s| && keep(s[i]) ==> !keep(s[j])
  }

  /** A filter keeps at most one element exactly when no two positions both pass it. */
  lemma {:induction false} FilterAtMostOne<T(!new)>(s: seq<T>, keep: T -> bool)
    ensures |Filter(s, keep)| <= 1 <==> NoTwoPass(s, keep)
  {
    if s != [] {
      if keep(s[0]) {
        AtMostOneWhenHeadKept(s, keep);
      } else {
        FilterAtMostOne(s[1..], keep);
        AtMostOneWhenHeadDropped(s, keep);
      }
    }
  }

  /** When the head passes, the filter keeps at most one element exactly when nothing after it passes. */
  lemma AtMostOneWhenHeadKept<T(!new)>(s: seq<T>, keep: T -> bool)
    requires s != [] && keep(s[0])
    ensures |Filter(s, keep)| <= 1 <==> NoTwoPass(s, keep)
  {
    var t := s[1..];
    assert Filter(s, keep) == [s[0]] + Filter(t, keep);
    if Filter(t, keep) == [] {
      forall i, j | 0 <= i < j < |s| && keep(s[i]) ensures !keep(s[j]) {
        assert s[j] == t[j - 1];
        assert s[j] in t;
      }
    } else {
      var y := Filter(t, keep)[0];
      assert y in Filter(t, keep);
      var k :| 0 <= k < |t| && t[k] == y;
      assert keep(s[0]) && keep(s[k + 1]);
    }
  }

  /** When the head fails, the filter and the pairwise condition are those of the tail. */
  lemma AtMostOneWhenHeadDropped<T(!new)>(s: seq<T>, keep: T -> bool)
    requires s != [] && !keep(s[0])
    ensures Filter(s, keep) == Filter(s[1..], keep)
    ensures NoTwoPass(s, keep) <==> NoTwoPass(s[1..], keep)
  {
    var t := s[1..];
    if NoTwoPass(t, keep) {
      forall i, j | 0 <= i < j < |s| && keep(s[i]) ensures !keep(s[j]) {
        assert t[i - 1] == s[i] && t[j - 1] == s[j];
      }
    } else {
      var i, j :| 0 <= i < j < |t| && keep(t[i]) && keep(t[j]);
      assert s[i + 1] == t[i] && s[j + 1] == t[j];
    }
  }
}
