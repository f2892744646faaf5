/**
 * The order-preserving filter that every variant's `filter_duplicates`
 * performs: walk the records in order and keep each one whose identity key
 * is not in a set of flagged keys. The variants differ only in the key
 * (the name, or the coordinate pair) and in how the flagged set is built.
 *
 * `Keep` is the reference definition; the lemmas below say what it means:
 * the result is a subsequence of the input, it keeps every occurrence of an
 * unflagged record and no occurrence of a flagged one, applying it twice is
 * the same as applying it once, and with nothing flagged it is the identity.
 */
module KeyFilter {

  /** The entries of `s`, in input order, whose key is not in `drop`. */
  function Keep<T, K(==)>(s: seq<T>, key: T -> K, drop: set<K>): (r: seq<T>)
    ensures |r| <= |s|
    ensures forall k :: 0 <= k < |r| ==> key(r[k]) !in drop
  {
    if s == [] then []
    else
      var last := s[|s| - 1];
      Keep(s[..|s| - 1], key, drop) + (if key(last) in drop then [] else [last])
  }

  /** The positions of `s` that `Keep` retains, in increasing order. */
  function KeptIndices<T, K(==)>(s: seq<T>, key: T -> K, drop: set<K>): (idx: seq<nat>)
  {
    if s == [] then []
    else
      KeptIndices(s[..|s| - 1], key, drop)
      + (if key(s[|s| - 1]) in drop then [] else [|s| - 1])
  }

  /** `idx` picks out `a` from `b` at strictly increasing positions. */
  ghost predicate Embeds<T>(idx: seq<nat>, a: seq<T>, b: seq<T>)
  {
    && |idx| == |a|
    && (forall k :: 0 <= k < |idx| ==> idx[k] < |b| && a[k] == b[idx[k]])
    && (forall k, l :: 0 <= k < l < |idx| ==> idx[k] < idx[l])
  }

  /** `a` is obtained from `b` by deleting elements, without reordering the rest. */
  ghost predicate IsSubsequence<T>(a: seq<T>, b: seq<T>)
  {
    exists idx :: Embeds(idx, a, b)
  }

  /** The kept positions embed the result in the input: every kept entry is
      an unchanged input entry, and input order is preserved. */
  lemma {:induction false} KeepEmbeds<T, K>(s: seq<T>, key: T -> K, drop: set<K>)
    ensures Embeds(KeptIndices(s, key, drop), Keep(s, key, drop), s)
    ensures forall k :: 0 <= k < |KeptIndices(s, key, drop)| ==>
              key(s[KeptIndices(s, key, drop)[k]]) !in drop
    decreases |s|
  {
    if s != [] {
      var p := s[..|s| - 1];
      KeepEmbeds(p, key, drop);
      var ip := KeptIndices(p, key, drop);
      assert forall k :: 0 <= k < |ip| ==> ip[k] < |p| && s[ip[k]] == p[ip[k]];
    }
  }

  /** The result of `Keep` is a subsequence of its input. */
  lemma KeepIsSubsequence<T, K>(s: seq<T>, key: T -> K, drop: set<K>)
    ensures IsSubsequence(Keep(s, key, drop), s)
  {
    KeepEmbeds(s, key, drop);
  }

  /** Exactness: each unflagged value keeps all of its occurrences, and each
      flagged value loses all of them. */
  lemma {:induction false} KeepCount<T, K>(s: seq<T>, key: T -> K, drop: set<K>, x: T)
    ensures multiset(Keep(s, key, drop))[x] == if key(x) in drop then 0 else multiset(s)[x]
    decreases |s|
  {
    if s != [] {
      var p, last := s[..|s| - 1], s[|s| - 1];
      KeepCount(p, key, drop, x);
      assert s == p + [last];
      assert multiset(s) == multiset(p) + multiset([last]);
      var tail := if key(last) in drop then [] else [last];
      assert multiset(Keep(s, key, drop)) == multiset(Keep(p, key, drop)) + multiset(tail);
    }
  }

  /** A value is in the result iff it is in the input and its key is not flagged. */
  lemma KeepMembership<T, K>(s: seq<T>, key: T -> K, drop: set<K>, x: T)
    ensures x in Keep(s, key, drop) <==> x in s && key(x) !in drop
  {
    KeepCount(s, key, drop, x);
    assert x in Keep(s, key, drop) <==> multiset(Keep(s, key, drop))[x] > 0;
    assert x in s <==> multiset(s)[x] > 0;
  }

  /** When no entry of `s` has a flagged key, `Keep` returns `s` itself. */
  lemma {:induction false} KeepUnflagged<T, K>(s: seq<T>, key: T -> K, drop: set<K>)
    requires forall k :: 0 <= k < |s| ==> key(s[k]) !in drop
    ensures Keep(s, key, drop) == s
    decreases |s|
  {
    if s != [] {
      var p := s[..|s| - 1];
      KeepUnflagged(p, key, drop);
      assert s == p + [s[|s| - 1]];
    }
  }

  /** With an empty flagged set the filter is the identity. */
  lemma KeepNothingFlagged<T, K>(s: seq<T>, key: T -> K)
    ensures Keep(s, key, {}) == s
  {
    KeepUnflagged(s, key, {});
  }

  /** Filtering an already filtered sequence changes nothing. */
  lemma KeepIdempotent<T, K>(s: seq<T>, key: T -> K, drop: set<K>)
    ensures Keep(Keep(s, key, drop), key, drop) == Keep(s, key, drop)
  {
    KeepUnflagged(Keep(s, key, drop), key, drop);
  }
}
