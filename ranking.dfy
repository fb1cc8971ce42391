/**
  The three numpy reductions the tracker's assignment step relies on, over
  integer keys: the minimum of a row (`D.min(axis=1)`), the index of its first
  minimum (`D.argmin(axis=1)`) and an ordering of indices by key
  (`argsort`). numpy's default argsort is not stable; the order built here
  breaks ties by index, which is one of the orders numpy may return.
 */
module Ranking {

  /** The smallest element of a non-empty row. */
  function RowMin(s: seq<int>): (m: int)
    requires |s| > 0
    ensures exists i :: 0 <= i < |s| && s[i] == m
    ensures forall i :: 0 <= i < |s| ==> m <= s[i]
  {
    if |s| == 1 then s[0]
    else
      var rest := RowMin(s[1..]);
      assert forall i :: 1 <= i < |s| ==> s[i] == s[1..][i - 1];
      if s[0] <= rest then s[0] else rest
  }

  /** The index of the first smallest element of a non-empty row. */
  function ArgMin(s: seq<int>): (k: nat)
    requires |s| > 0
    ensures k < |s|
    ensures forall i :: 0 <= i < |s| ==> s[k] <= s[i]
    ensures forall i :: 0 <= i < k ==> s[k] < s[i]
  {
    if |s| == 1 then 0
    else
      var j := ArgMin(s[..|s| - 1]);
      if s[|s| - 1] < s[j] then |s| - 1 else j
  }

  lemma ArgMinIsRowMin(s: seq<int>)
    requires |s| > 0
    ensures s[ArgMin(s)] == RowMin(s)
  {
  }

  /** Index i comes before index j: smaller key, or equal key and smaller index. */
  predicate Before(keys: seq<int>, i: nat, j: nat)
    requires i < |keys| && j < |keys|
  {
    keys[i] < keys[j] || (keys[i] == keys[j] && i < j)
  }

  /** Every element of s is an index into keys, and s lists them in Before order. */
  predicate Ranked(keys: seq<int>, s: seq<nat>)
  {
    (forall k :: 0 <= k < |s| ==> s[k] < |keys|) &&
    (forall a, b :: 0 <= a < b < |s| ==> Before(keys, s[a], s[b]))
  }

  /** Inserts index i into a ranked sequence at its place. */
  function Insert(keys: seq<int>, i: nat, s: seq<nat>): (r: seq<nat>)
    requires i < |keys| && i !in s && Ranked(keys, s)
    ensures Ranked(keys, r)
    ensures |r| == |s| + 1
    ensures forall v: nat :: v in r <==> v == i || v in s
  {
    if s == [] then [i]
    else if Before(keys, i, s[0]) then
      assert forall k :: 0 <= k < |s| ==> Before(keys, i, s[k]);
      [i] + s
    else
      var t := Insert(keys, i, s[1..]);
      assert forall v :: v in s[1..] ==> v in s;
      assert forall k :: 0 <= k < |t| ==> Before(keys, s[0], t[k]) by {
        forall k | 0 <= k < |t| ensures Before(keys, s[0], t[k]) {
          assert t[k] in t;
          if t[k] != i {
            var m :| 0 <= m < |s[1..]| && s[1..][m] == t[k];
            assert s[m + 1] == t[k];
          }
        }
      }
      [s[0]] + t
  }

  /** The indices 0 .. n-1 inserted one by one in increasing order. */
  function SortIndices(keys: seq<int>, n: nat): (r: seq<nat>)
    requires n <= |keys|
    ensures Ranked(keys, r)
    ensures |r| == n
    ensures forall v: nat :: v in r <==> v < n
  {
    if n == 0 then [] else Insert(keys, n - 1, SortIndices(keys, n - 1))
  }

  /**
    `keys.argsort()`: every index exactly once, keys non-decreasing along the
    result, equal keys in index order.
   */
  function ArgSort(keys: seq<int>): (r: seq<nat>)
    ensures |r| == |keys|
    ensures forall v: nat :: v in r <==> v < |keys|
    ensures forall k :: 0 <= k < |r| ==> r[k] < |keys|
    ensures forall a, b :: 0 <= a < b < |r| ==> r[a] != r[b]
    ensures forall a, b :: 0 <= a < b < |r| ==> keys[r[a]] <= keys[r[b]]
    ensures forall a, b :: 0 <= a < b < |r| && keys[r[a]] == keys[r[b]] ==> r[a] < r[b]
  {
    SortIndices(keys, |keys|)
  }
}
