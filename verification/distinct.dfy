/** First-occurrence deduplication of a sequence by a key, the rule behind
    pandas' `drop_duplicates(keep="first")` and `Series.unique()`: walking the
    sequence front to back, an element is kept exactly when no earlier element
    has the same key. */
module Distinct {

  /** The set of keys occurring in `s`. */
  function Keys<T, K(==)>(s: seq<T>, key: T -> K): set<K>
  {
    set i | 0 <= i < |s| :: key(s[i])
  }

  /** Position `i` holds the first element of `s` with its key. */
  predicate FirstOccurrence<T, K(==)>(s: seq<T>, key: T -> K, i: nat)
    requires i < |s|
  {
    forall j :: 0 <= j < i ==> key(s[j]) != key(s[i])
  }

  /** No two elements of `s` share a key. */
  predicate DistinctKeys<T, K(==)>(s: seq<T>, key: T -> K)
  {
    forall i, j :: 0 <= i < j < |s| ==> key(s[i]) != key(s[j])
  }

  function Id<T>(x: T): T { x }

  /** Keeps each element whose key has not been seen before it. */
  function DedupBy<T, K(==)>(s: seq<T>, key: T -> K): (r: seq<T>)
    ensures |r| <= |s|
  {
    if |s| == 0 then []
    else
      var kept := DedupBy(s[..|s| - 1], key);
      if key(s[|s| - 1]) in Keys(s[..|s| - 1], key) then kept else kept + [s[|s| - 1]]
  }

  /** The positions of `s` that hold first occurrences, in increasing order:
      the reference against which DedupBy is checked. */
  function FirstPositions<T, K(==)>(s: seq<T>, key: T -> K): (p: seq<nat>)
    ensures forall k :: 0 <= k < |p| ==> p[k] < |s|
    ensures forall k, l :: 0 <= k < l < |p| ==> p[k] < p[l]
    ensures forall i :: 0 <= i < |s| ==> (i in p <==> FirstOccurrence(s, key, i))
  {
    if |s| == 0 then []
    else
      var n := |s| - 1;
      var p := FirstPositions(s[..n], key);
      assert forall i :: 0 <= i < n ==> (FirstOccurrence(s[..n], key, i) <==> FirstOccurrence(s, key, i));
      if FirstOccurrence(s, key, n) then p + [n] else p
  }

  lemma KeysSnoc<T, K>(s: seq<T>, key: T -> K)
    requires |s| > 0
    ensures Keys(s, key) == Keys(s[..|s| - 1], key) + {key(s[|s| - 1])}
  {
  }

  /** The last key was seen before exactly when the last position is not a first occurrence. */
  lemma SeenIffNotFirst<T, K>(s: seq<T>, key: T -> K)
    requires |s| > 0
    ensures key(s[|s| - 1]) in Keys(s[..|s| - 1], key) <==> !FirstOccurrence(s, key, |s| - 1)
  {
  }

  /** DedupBy is the order-preserving selection of the first occurrences:
      its k-th element is the element at the k-th first-occurrence position. */
  lemma {:induction false} DedupBySelectsFirstOccurrences<T, K>(s: seq<T>, key: T -> K)
    ensures |DedupBy(s, key)| == |FirstPositions(s, key)|
    ensures forall k :: 0 <= k < |FirstPositions(s, key)| ==>
              DedupBy(s, key)[k] == s[FirstPositions(s, key)[k]]
  {
    if |s| > 0 {
      var n := |s| - 1;
      DedupBySelectsFirstOccurrences(s[..n], key);
      SeenIffNotFirst(s, key);
    }
  }

  /** Deduplication keeps every key and introduces none. */
  lemma {:induction false} DedupByKeys<T, K>(s: seq<T>, key: T -> K)
    ensures Keys(DedupBy(s, key), key) == Keys(s, key)
  {
    if |s| > 0 {
      var n := |s| - 1;
      var kept := DedupBy(s[..n], key);
      DedupByKeys(s[..n], key);
      KeysSnoc(s, key);
      if key(s[n]) !in Keys(s[..n], key) {
        var r := kept + [s[n]];
        assert r[..|r| - 1] == kept;
        KeysSnoc(r, key);
      }
    }
  }

  /** No two kept elements share a key. */
  lemma {:induction false} DedupByDistinct<T, K>(s: seq<T>, key: T -> K)
    ensures DistinctKeys(DedupBy(s, key), key)
  {
    if |s| > 0 {
      var n := |s| - 1;
      var kept := DedupBy(s[..n], key);
      DedupByDistinct(s[..n], key);
      DedupByKeys(s[..n], key);
      if key(s[n]) !in Keys(s[..n], key) {
        var r := kept + [s[n]];
        forall i, j | 0 <= i < j < |r|
          ensures key(r[i]) != key(r[j])
        {
          if j == |r| - 1 {
            assert key(kept[i]) in Keys(kept, key);
          }
        }
      }
    }
  }

  /** As many elements are kept as there are distinct keys. */
  lemma {:induction false} DedupByLength<T, K>(s: seq<T>, key: T -> K)
    ensures |DedupBy(s, key)| == |Keys(s, key)|
  {
    if |s| > 0 {
      var n := |s| - 1;
      DedupByLength(s[..n], key);
      KeysSnoc(s, key);
      if key(s[n]) !in Keys(s[..n], key) {
        assert |Keys(s[..n], key) + {key(s[n])}| == |Keys(s[..n], key)| + 1;
      }
    }
  }

  /** A sequence without repeated keys is left unchanged. */
  lemma {:induction false} DedupByOfDistinct<T, K>(s: seq<T>, key: T -> K)
    requires DistinctKeys(s, key)
    ensures DedupBy(s, key) == s
  {
    if |s| > 0 {
      var n := |s| - 1;
      DedupByOfDistinct(s[..n], key);
      SeenIffNotFirst(s, key);
      assert FirstOccurrence(s, key, n);
    }
  }

  /** Deduplicating twice is deduplicating once. */
  lemma DedupByIdempotent<T, K>(s: seq<T>, key: T -> K)
    ensures DedupBy(DedupBy(s, key), key) == DedupBy(s, key)
  {
    DedupByDistinct(s, key);
    DedupByOfDistinct(DedupBy(s, key), key);
  }
}
