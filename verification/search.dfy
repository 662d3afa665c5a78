/** `search`: rank the rows by a similarity score and return the best `k`,
    each as a copy of its metadata row with the score attached. The scores
    come from TF-IDF or embeddings outside the model and arrive here as a
    sequence with one score per row. */
module Retrieve {
  import opened Wrappers

  /** `len(xs[:k])` for a list of length `n`: a negative `k` counts from the end. */
  function SliceLen(n: nat, k: int): (m: nat)
    ensures m <= n
    ensures 0 <= k ==> m == if k < n then k else n
    ensures k < 0 ==> m == if n + k > 0 then n + k else 0
  {
    if k >= 0 then (if k < n then k else n)
    else if n + k > 0 then n + k else 0
  }

  /** `xs[:k]`. */
  function Slice<T>(xs: seq<T>, k: int): (r: seq<T>)
    ensures |r| == SliceLen(|xs|, k) && r == xs[..|r|]
  {
    xs[..SliceLen(|xs|, k)]
  }

  predicate InRange(order: seq<nat>, n: nat) {
    forall i :: 0 <= i < |order| ==> order[i] < n
  }

  predicate Distinct(order: seq<nat>) {
    forall i, j :: 0 <= i < j < |order| ==> order[i] != order[j]
  }

  /** The indices are listed by non-increasing score. */
  predicate Descending(order: seq<nat>, sims: seq<real>)
    requires InRange(order, |sims|)
  {
    forall i, j :: 0 <= i < j < |order| ==> sims[order[i]] >= sims[order[j]]
  }

  /** The entry at `i` scores no higher than the one before it. */
  predicate StepDown(order: seq<nat>, sims: seq<real>, i: int)
    requires InRange(order, |sims|) && 0 < i < |order|
  {
    sims[order[i - 1]] >= sims[order[i]]
  }

  predicate Sorted(order: seq<nat>, sims: seq<real>)
    requires InRange(order, |sims|)
  {
    forall i :: 0 < i < |order| ==> StepDown(order, sims, i)
  }

  /** Neighbours in order means every pair in order. */
  lemma {:induction false} SortedDescending(order: seq<nat>, sims: seq<real>)
    requires InRange(order, |sims|) && Sorted(order, sims)
    ensures Descending(order, sims)
    decreases |order|
  {
    if |order| > 1 {
      var tail := order[1..];
      assert Sorted(tail, sims) by {
        forall i | 0 < i < |tail| ensures StepDown(tail, sims, i) {
          assert StepDown(order, sims, i + 1);
        }
      }
      SortedDescending(tail, sims);
      forall i, j | 0 <= i < j < |order| ensures sims[order[i]] >= sims[order[j]] {
        if i == 0 {
          assert StepDown(order, sims, 1);
          if j > 1 {
            assert order[1] == tail[0] && order[j] == tail[j - 1];
          }
        } else {
          assert order[i] == tail[i - 1] && order[j] == tail[j - 1];
        }
      }
    }
  }

  lemma SortedTail(order: seq<nat>, sims: seq<real>)
    requires order != [] && InRange(order, |sims|) && Sorted(order, sims)
    ensures Sorted(order[1..], sims)
  {
    forall i | 0 < i < |order| - 1 ensures StepDown(order[1..], sims, i) {
      assert StepDown(order, sims, i + 1);
    }
  }

  lemma SortedCons(a: nat, rest: seq<nat>, sims: seq<real>)
    requires a < |sims| && InRange(rest, |sims|) && Sorted(rest, sims)
    requires rest != [] ==> sims[a] >= sims[rest[0]]
    ensures Sorted([a] + rest, sims)
  {
    var r := [a] + rest;
    forall i | 0 < i < |r| ensures StepDown(r, sims, i) {
      if i > 1 { assert StepDown(rest, sims, i - 1); }
    }
  }

  /** Puts index `x` in front of the first entry that scores no higher. */
  function InsertDesc(x: nat, order: seq<nat>, sims: seq<real>): (r: seq<nat>)
    requires x < |sims| && InRange(order, |sims|)
    ensures |r| == |order| + 1 && InRange(r, |sims|)
    ensures multiset(r) == multiset(order) + multiset{x}
  {
    if order == [] || sims[x] >= sims[order[0]] then [x] + order
    else
      assert order == [order[0]] + order[1..];
      [order[0]] + InsertDesc(x, order[1..], sims)
  }

  /** Inserting into a list sorted by non-increasing score keeps it sorted. */
  lemma {:induction false} InsertDescSorted(x: nat, order: seq<nat>, sims: seq<real>)
    requires x < |sims| && InRange(order, |sims|) && Sorted(order, sims)
    ensures Sorted(InsertDesc(x, order, sims), sims)
    ensures var r := InsertDesc(x, order, sims);
            r[0] == x || (order != [] && r[0] == order[0])
  {
    if order == [] || sims[x] >= sims[order[0]] {
      SortedCons(x, order, sims);
    } else {
      SortedTail(order, sims);
      InsertDescSorted(x, order[1..], sims);
      var rest := InsertDesc(x, order[1..], sims);
      assert rest[0] != x ==> StepDown(order, sims, 1);
      SortedCons(order[0], rest, sims);
    }
  }

  /** Sorts indices by non-increasing score. */
  function SortDesc(idx: seq<nat>, sims: seq<real>): (r: seq<nat>)
    requires InRange(idx, |sims|)
    ensures |r| == |idx|
    ensures InRange(r, |sims|) && Sorted(r, sims)
    ensures multiset(r) == multiset(idx)
  {
    if idx == [] then []
    else
      var init := idx[..|idx| - 1];
      var last := idx[|idx| - 1];
      assert idx == init + [last];
      var sorted := SortDesc(init, sims);
      InsertDescSorted(last, sorted, sims);
      InsertDesc(last, sorted, sims)
  }

  /** `[0, 1, ..., n-1]`. */
  function Range(n: nat): (r: seq<nat>)
    ensures |r| == n
    ensures forall i :: 0 <= i < n ==> r[i] == i
  {
    seq(n, i requires 0 <= i < n => i)
  }

  /** Every index below `n` occurs in `[0, ..., n-1]` exactly once. */
  lemma {:induction false} RangeCounts(n: nat)
    ensures forall i :: 0 <= i < n ==> multiset(Range(n))[i] == 1
    ensures forall i :: i >= n ==> multiset(Range(n))[i] == 0
  {
    if n > 0 {
      RangeCounts(n - 1);
      assert Range(n) == Range(n - 1) + [n - 1];
    }
  }

  /** A list in which no value occurs twice has no repeated entry. */
  lemma DistinctOfCounts(s: seq<nat>)
    requires forall v :: multiset(s)[v] <= 1
    ensures Distinct(s)
  {
    forall i, j | 0 <= i < j < |s| ensures s[i] != s[j] {
      assert s == s[..j] + [s[j]] + s[j + 1..];
      assert multiset(s)[s[j]] == multiset(s[..j])[s[j]] + 1 + multiset(s[j + 1..])[s[j]];
      assert multiset(s[..j])[s[j]] == 0;
      assert s[..j][i] == s[i];
    }
  }

  /** `np.argsort(-sims)`: every index once, by non-increasing score. The
      order among equal scores is whatever the sort picks. */
  function Argsort(sims: seq<real>): (r: seq<nat>)
    ensures |r| == |sims|
    ensures InRange(r, |sims|) && Descending(r, sims) && Distinct(r)
    ensures forall i :: 0 <= i < |sims| ==> i in r
  {
    var idx := Range(|sims|);
    var r := SortDesc(idx, sims);
    SortedDescending(r, sims);
    RangeCounts(|sims|);
    DistinctOfCounts(r);
    forall i | 0 <= i < |sims| ensures i in r {
      assert i in multiset(r);
    }
    r
  }

  /** `np.argsort(-sims)[:k]`. */
  function TopIndices(sims: seq<real>, k: int): (r: seq<nat>)
    ensures |r| == SliceLen(|sims|, k)
    ensures InRange(r, |sims|) && Descending(r, sims) && Distinct(r)
  {
    Slice(Argsort(sims), k)
  }

  /** A true top-`m` selection: `m` distinct indices by non-increasing score,
      and no index left out scores above the last one taken. */
  predicate IsTopK(order: seq<nat>, sims: seq<real>, m: nat)
  {
    && |order| == m
    && InRange(order, |sims|) && Distinct(order) && Descending(order, sims)
    && forall i :: 0 <= i < |sims| && i !in order && m > 0 ==> sims[i] <= sims[order[m - 1]]
  }

  /** The indices `search` takes form a true top-`k`. */
  lemma TopIndicesAreTopK(sims: seq<real>, k: int)
    ensures IsTopK(TopIndices(sims, k), sims, SliceLen(|sims|, k))
  {
    var all := Argsort(sims);
    var top := TopIndices(sims, k);
    var m := |top|;
    forall i | 0 <= i < |sims| && i !in top && m > 0 ensures sims[i] <= sims[top[m - 1]] {
      assert i in all;
      var p :| 0 <= p < |all| && all[p] == i;
      assert forall q :: 0 <= q < m ==> top[q] == all[q];
      assert all[m - 1] == top[m - 1];
    }
  }

  /** One result: a copy of the row with its score attached. */
  datatype Hit<R> = Hit(row: R, score: real)

  /** `_META[idx]` raised: the score vector is longer than the metadata. */
  datatype SearchError = RowMissing(idx: nat)

  /** `search(query, k)` given the similarity of the query to every row. */
  function Search<R>(meta: seq<R>, sims: seq<real>, k: int): (r: Result<seq<Hit<R>>, SearchError>)
    ensures var top := TopIndices(sims, k);
            r.Ok? <==> forall j :: 0 <= j < |top| ==> top[j] < |meta|
    ensures r.Ok? ==>
              var top := TopIndices(sims, k);
              && |r.value| == |top|
              && forall j :: 0 <= j < |top| ==> r.value[j] == Hit(meta[top[j]], sims[top[j]])
  {
    var top := TopIndices(sims, k);
    Hits(meta, sims, top)
  }

  function Hits<R>(meta: seq<R>, sims: seq<real>, top: seq<nat>): (r: Result<seq<Hit<R>>, SearchError>)
    requires InRange(top, |sims|)
    ensures r.Ok? <==> forall j :: 0 <= j < |top| ==> top[j] < |meta|
    ensures r.Ok? ==> |r.value| == |top| && forall j :: 0 <= j < |top| ==> r.value[j] == Hit(meta[top[j]], sims[top[j]])
  {
    if top == [] then Ok([])
    else if top[0] >= |meta| then Err(RowMissing(top[0]))
    else
      match Hits(meta, sims, top[1..])
      case Err(e) => Err(e)
      case Ok(rest) => Ok([Hit(meta[top[0]], sims[top[0]])] + rest)
  }

  /** With one score per row, `search` always succeeds and returns `min(k, n)`
      hits for `k >= 0`, with non-increasing scores, no row twice, and no row
      left out scoring above the last hit. */
  lemma SearchSpec<R>(meta: seq<R>, sims: seq<real>, k: int)
    requires |sims| == |meta|
    ensures Search(meta, sims, k).Ok?
    ensures var hits := Search(meta, sims, k).value;
            && |hits| == SliceLen(|meta|, k)
            && (0 <= k ==> |hits| == if k < |meta| then k else |meta|)
            && (forall i, j :: 0 <= i < j < |hits| ==> hits[i].score >= hits[j].score)
            && (exists top: seq<nat> :: IsTopK(top, sims, |hits|)
                  && forall j :: 0 <= j < |hits| ==> hits[j] == Hit(meta[top[j]], sims[top[j]]))
  {
    var top := TopIndices(sims, k);
    TopIndicesAreTopK(sims, k);
    var hits := Search(meta, sims, k).value;
    assert IsTopK(top, sims, |hits|);
  }

  /** A smaller `k` gives a prefix of the hits for a larger one. */
  lemma SearchPrefix<R>(meta: seq<R>, sims: seq<real>, k1: int, k2: int)
    requires 0 <= k1 <= k2
    requires Search(meta, sims, k2).Ok?
    ensures Search(meta, sims, k1).Ok?
    ensures Search(meta, sims, k1).value == Search(meta, sims, k2).value[..|Search(meta, sims, k1).value|]
  {
    var t1 := TopIndices(sims, k1);
    var t2 := TopIndices(sims, k2);
    assert forall j :: 0 <= j < |t1| ==> t1[j] == t2[j];
  }
}
