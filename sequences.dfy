/**
 * Order-preserving selection of the entries of a sequence whose key is a given
 * value. Every list the event selection builds by appending inside a loop
 * (isolated leptons, jets surviving overlap removal, B hadrons, and the three
 * jet classes) is such a selection.
 */
module Sequences {

  /** Number of entries of `keys` equal to `k`. */
  function Count<K(==)>(keys: seq<K>, k: K): (n: nat)
    ensures n <= |keys|
  {
    if keys == [] then 0
    else Count(keys[..|keys| - 1], k) + (if keys[|keys| - 1] == k then 1 else 0)
  }

  /**
   * The entries of `s` whose key (the entry of `keys` at the same position)
   * is `k`, in their order in `s`: what a loop appending `s[i]` whenever
   * `keys[i] == k` builds.
   */
  function Select<T, K(==)>(s: seq<T>, keys: seq<K>, k: K): (r: seq<T>)
    requires |keys| == |s|
    ensures |r| == Count(keys, k)
  {
    if s == [] then []
    else
      var n := |s| - 1;
      Select(s[..n], keys[..n], k) + (if keys[n] == k then [s[n]] else [])
  }

  /** The position at which entry `i` lands in the selection of its own key. */
  function Rank<K(==)>(keys: seq<K>, i: nat): nat
    requires i < |keys|
  {
    Count(keys[..i], keys[i])
  }

  /** No value occurs twice. */
  predicate NoRepeats<T(==)>(s: seq<T>)
  {
    forall a, b :: 0 <= a < b < |s| ==> s[a] != s[b]
  }

  /** Appending one entry adds it to the selection of its key and to no other. */
  lemma SelectSnoc<T, K>(s: seq<T>, keys: seq<K>, x: T, key: K, k: K)
    requires |keys| == |s|
    ensures Select(s + [x], keys + [key], k) == Select(s, keys, k) + (if key == k then [x] else [])
  {
  }

  /** Entry `i` of `s` is found in the selection of its key, at its rank. */
  lemma {:induction false} SelectAt<T, K>(s: seq<T>, keys: seq<K>, i: nat)
    requires |keys| == |s| && i < |s|
    ensures Rank(keys, i) < |Select(s, keys, keys[i])|
    ensures Select(s, keys, keys[i])[Rank(keys, i)] == s[i]
  {
    var n := |s| - 1;
    if i < n {
      SelectAt(s[..n], keys[..n], i);
      assert keys[..n][..i] == keys[..i];
    } else {
      assert keys[..n] == keys[..i];
    }
  }

  /** Entries with the same key keep their relative order: ranks grow with positions. */
  lemma {:induction false} RankGrows<K>(keys: seq<K>, i: nat, j: nat)
    requires i < j <= |keys|
    ensures Count(keys[..i], keys[i]) < Count(keys[..j], keys[i])
  {
    if j == i + 1 {
      assert keys[..j][..i] == keys[..i];
    } else {
      RankGrows(keys, i, j - 1);
      assert keys[..j][..j - 1] == keys[..j - 1];
    }
  }

  /** Every entry of a selection comes from a position of `s` whose key is `k`, and that position has the entry's rank. */
  lemma {:induction false} SelectFrom<T, K>(s: seq<T>, keys: seq<K>, k: K, m: nat)
    requires |keys| == |s| && m < |Select(s, keys, k)|
    ensures exists i :: 0 <= i < |s| && keys[i] == k && Rank(keys, i) == m && s[i] == Select(s, keys, k)[m]
  {
    var n := |s| - 1;
    var front := Select(s[..n], keys[..n], k);
    if m < |front| {
      SelectFrom(s[..n], keys[..n], k, m);
      var i :| 0 <= i < n && keys[..n][i] == k && Rank(keys[..n], i) == m && s[..n][i] == front[m];
      assert keys[..n][..i] == keys[..i];
      assert Rank(keys, i) == m;
    } else {
      assert keys[n] == k;
      assert Rank(keys, n) == m;
    }
  }

  /** A selection never repeats an entry more often than `s` holds it. */
  lemma {:induction false} SelectSubMultiset<T, K>(s: seq<T>, keys: seq<K>, k: K)
    requires |keys| == |s|
    ensures multiset(Select(s, keys, k)) <= multiset(s)
  {
    if s != [] {
      var n := |s| - 1;
      SelectSubMultiset(s[..n], keys[..n], k);
      assert s == s[..n] + [s[n]];
    }
  }

  /**
   * The selection of key `k` is exactly the order-preserving subsequence of
   * the entries whose key is `k`: each such entry sits at its rank, ranks
   * grow with positions, nothing else enters, and nothing is duplicated.
   */
  lemma SelectExact<T, K>(s: seq<T>, keys: seq<K>, k: K)
    requires |keys| == |s|
    ensures forall i :: 0 <= i < |s| && keys[i] == k ==>
              Rank(keys, i) < |Select(s, keys, k)| && Select(s, keys, k)[Rank(keys, i)] == s[i]
    ensures forall i, j :: 0 <= i < j < |s| && keys[i] == k && keys[j] == k ==> Rank(keys, i) < Rank(keys, j)
    ensures forall x :: x in Select(s, keys, k) <==> exists i :: 0 <= i < |s| && keys[i] == k && s[i] == x
    ensures multiset(Select(s, keys, k)) <= multiset(s)
  {
    var r := Select(s, keys, k);
    forall i | 0 <= i < |s| && keys[i] == k
      ensures Rank(keys, i) < |r| && r[Rank(keys, i)] == s[i]
    {
      SelectAt(s, keys, i);
    }
    forall i, j | 0 <= i < j < |s| && keys[i] == k && keys[j] == k
      ensures Rank(keys, i) < Rank(keys, j)
    {
      RankGrows(keys, i, j);
    }
    forall x
      ensures x in r <==> exists i :: 0 <= i < |s| && keys[i] == k && s[i] == x
    {
      if x in r {
        var m :| 0 <= m < |r| && r[m] == x;
        SelectFrom(s, keys, k, m);
      }
      if exists i :: 0 <= i < |s| && keys[i] == k && s[i] == x {
        var i :| 0 <= i < |s| && keys[i] == k && s[i] == x;
        SelectAt(s, keys, i);
      }
    }
    SelectSubMultiset(s, keys, k);
  }

  /** With boolean keys: the kept entries keep their relative order. */
  lemma KeptInOrder<T>(s: seq<T>, keep: seq<bool>, i: nat, j: nat)
    requires |keep| == |s| && i < j < |s| && keep[i] && keep[j]
    ensures exists a, b :: 0 <= a < b < |Select(s, keep, true)| &&
              Select(s, keep, true)[a] == s[i] && Select(s, keep, true)[b] == s[j]
  {
    SelectExact(s, keep, true);
    assert Rank(keep, i) < Rank(keep, j);
  }
}
