/**
 * Operations on one variable's candidate list, as the search manipulates it:
 * removing a value (Python's list.remove), collecting the values a tentative
 * assignment rules out, and inserting a value into a list kept in
 * non-increasing order of a precomputed key.
 */
module Domains {

  /** list.remove: drops the first occurrence of v. */
  function RemoveFirst<D(==)>(s: seq<D>, v: D): (r: seq<D>)
    requires v in s
    ensures multiset(r) == multiset(s) - multiset{v}
    ensures |r| == |s| - 1
  {
    assert s == [s[0]] + s[1..];
    if s[0] == v then s[1..]
    else [s[0]] + RemoveFirst(s[1..], v)
  }

  /**
   * The values of s (in order, with repetitions) that the constraint rejects
   * when paired with the tentative assignment xi = vi: the list that forward
   * checking builds for neighbour xj with one append per rejected value.
   */
  function Incompatible<V, D>(constraint: ((V, D), (V, D)) -> bool, xi: V, vi: D, xj: V, s: seq<D>): (r: seq<D>)
    ensures |r| <= |s|
  {
    if s == [] then []
    else
      var last := s[|s| - 1];
      Incompatible(constraint, xi, vi, xj, s[..|s| - 1]) + (if constraint((xi, vi), (xj, last)) then [] else [last])
  }

  /** Each rejected value occurs in the reduction exactly as often as in s; an accepted one not at all. */
  lemma {:induction false} IncompatibleMultiplicity<V, D>(constraint: ((V, D), (V, D)) -> bool, xi: V, vi: D, xj: V, s: seq<D>, w: D)
    ensures multiset(Incompatible(constraint, xi, vi, xj, s))[w]
         == if constraint((xi, vi), (xj, w)) then 0 else multiset(s)[w]
  {
    if s != [] {
      var init, last := s[..|s| - 1], s[|s| - 1];
      assert s == init + [last];
      IncompatibleMultiplicity(constraint, xi, vi, xj, init, w);
    }
  }

  /** The reduction for one neighbour never asks to remove more than its list holds. */
  lemma IncompatibleWithin<V, D>(constraint: ((V, D), (V, D)) -> bool, xi: V, vi: D, xj: V, s: seq<D>)
    ensures multiset(Incompatible(constraint, xi, vi, xj, s)) <= multiset(s)
  {
    forall w ensures multiset(Incompatible(constraint, xi, vi, xj, s))[w] <= multiset(s)[w] {
      IncompatibleMultiplicity(constraint, xi, vi, xj, s, w);
    }
  }

  /** What survives the removal of the reduction is exactly the accepted values. */
  lemma SurvivorsAccepted<V, D>(constraint: ((V, D), (V, D)) -> bool, xi: V, vi: D, xj: V, s: seq<D>, t: seq<D>, w: D)
    requires multiset(t) == multiset(s) - multiset(Incompatible(constraint, xi, vi, xj, s))
    ensures w in t <==> w in s && constraint((xi, vi), (xj, w))
  {
    IncompatibleMultiplicity(constraint, xi, vi, xj, s, w);
    assert w in t <==> multiset(t)[w] > 0;
    assert w in s <==> multiset(s)[w] > 0;
  }

  /** The reduction is the whole list exactly when the constraint rejects every value of it. */
  lemma {:induction false} WipeoutIffAllRejected<V, D>(constraint: ((V, D), (V, D)) -> bool, xi: V, vi: D, xj: V, s: seq<D>)
    ensures |Incompatible(constraint, xi, vi, xj, s)| == |s|
        <==> forall k :: 0 <= k < |s| ==> !constraint((xi, vi), (xj, s[k]))
  {
    if s != [] {
      var init := s[..|s| - 1];
      WipeoutIffAllRejected(constraint, xi, vi, xj, init);
      assert forall k :: 0 <= k < |init| ==> init[k] == s[k];
    }
  }

  /** Every element of s has a key, and the keys never increase along s. */
  ghost predicate SortedByKey<D>(s: seq<D>, key: map<D, nat>) {
    && (forall k :: 0 <= k < |s| ==> s[k] in key)
    && (forall i, j :: 0 <= i < j < |s| ==> key[s[i]] >= key[s[j]])
  }

  /**
   * Inserts v after every element whose key is at least v's: one step of a
   * stable sort into non-increasing key order.
   */
  function InsertByKey<D(==)>(s: seq<D>, v: D, key: map<D, nat>): (r: seq<D>)
    requires v in key && forall k :: 0 <= k < |s| ==> s[k] in key
    ensures multiset(r) == multiset(s) + multiset{v}
    ensures forall k :: 0 <= k < |r| ==> r[k] in key
  {
    if s == [] then [v]
    else if key[s[0]] >= key[v] then
      assert s == [s[0]] + s[1..];
      [s[0]] + InsertByKey(s[1..], v, key)
    else [v] + s
  }

  /** Inserting a value whose key is at most b into a list whose keys are at most b keeps every key at most b. */
  lemma {:induction false} InsertBounded<D>(s: seq<D>, v: D, key: map<D, nat>, b: nat)
    requires v in key && key[v] <= b
    requires forall k :: 0 <= k < |s| ==> s[k] in key && key[s[k]] <= b
    ensures forall k :: 0 <= k < |InsertByKey(s, v, key)| ==> key[InsertByKey(s, v, key)[k]] <= b
  {
    if s != [] && key[s[0]] >= key[v] {
      InsertBounded(s[1..], v, key, b);
      assert InsertByKey(s, v, key) == [s[0]] + InsertByKey(s[1..], v, key);
    }
  }

  /** Putting in front of a sorted list a value whose key bounds all of its keys gives a sorted list. */
  lemma ConsSorted<D>(h: D, t: seq<D>, key: map<D, nat>)
    requires h in key && SortedByKey(t, key)
    requires forall k :: 0 <= k < |t| ==> key[t[k]] <= key[h]
    ensures SortedByKey([h] + t, key)
  {
    var r := [h] + t;
    forall i, j | 0 <= i < j < |r| ensures key[r[i]] >= key[r[j]] {
      assert r[j] == t[j - 1];
      if i > 0 {
        assert r[i] == t[i - 1];
      }
    }
  }

  /** Inserting into a sorted list keeps it sorted. */
  lemma {:induction false} InsertKeepsSorted<D>(s: seq<D>, v: D, key: map<D, nat>)
    requires v in key && SortedByKey(s, key)
    ensures SortedByKey(InsertByKey(s, v, key), key)
  {
    if s == [] {
      ConsSorted(v, s, key);
    } else if key[s[0]] >= key[v] {
      var tail := s[1..];
      InsertKeepsSorted(tail, v, key);
      InsertBounded(tail, v, key, key[s[0]]);
      ConsSorted(s[0], InsertByKey(tail, v, key), key);
    } else {
      ConsSorted(v, s, key);
    }
  }

  /** Two candidate maps hold, variable by variable, the same values with the same multiplicities. */
  ghost predicate SameContents<V, D>(d: map<V, seq<D>>, e: map<V, seq<D>>) {
    d.Keys == e.Keys && forall x :: x in d ==> multiset(d[x]) == multiset(e[x])
  }
}
