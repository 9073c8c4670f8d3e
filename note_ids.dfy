/**
 * The two note-id policies of the store: the lowest positive id not in use
 * (a scan over the ids in ascending order, used by the Express server and by
 * the SQL store) and one more than the largest id (the Netlify in-memory
 * function).
 */
module NoteIds {

  predicate Sorted(s: seq<int>) {
    forall i, j :: 0 <= i < j < |s| ==> s[i] <= s[j]
  }

  predicate Distinct(s: seq<int>) {
    forall i, j :: 0 <= i < j < |s| ==> s[i] != s[j]
  }

  predicate AllPositive(s: seq<int>) {
    forall i :: 0 <= i < |s| ==> s[i] >= 1
  }

  /** `n` is the smallest positive integer that does not occur in `ids`. */
  predicate IsLowestFree(ids: seq<int>, n: int) {
    && n >= 1
    && n !in ids
    && forall k :: 1 <= k < n ==> k in ids
  }

  /** Inserts `x` into an ascending sequence, keeping it ascending. */
  function Insert(x: int, s: seq<int>): (r: seq<int>)
    requires Sorted(s)
    ensures Sorted(r)
    ensures multiset(r) == multiset(s) + multiset{x}
    ensures forall k :: 0 <= k < |r| ==> r[k] == x || r[k] in s
  {
    if |s| == 0 || x <= s[0] then
      ConsSorted(x, s);
      [x] + s
    else
      var t := Insert(x, s[1..]);
      assert s == [s[0]] + s[1..];
      ConsSorted(s[0], t);
      [s[0]] + t
  }

  /** Putting a lower bound of an ascending sequence in front keeps it ascending. */
  lemma ConsSorted(a: int, t: seq<int>)
    requires Sorted(t)
    requires forall k :: 0 <= k < |t| ==> a <= t[k]
    ensures Sorted([a] + t)
  {
  }

  /** `ids.sort((a, b) => a - b)`: an ascending permutation of the input. */
  function SortAscending(s: seq<int>): (r: seq<int>)
    ensures Sorted(r)
    ensures multiset(r) == multiset(s)
  {
    if |s| == 0 then []
    else
      assert s == [s[0]] + s[1..];
      Insert(s[0], SortAscending(s[1..]))
  }

  lemma {:induction false} DistinctCountsOnce(s: seq<int>, v: int)
    requires Distinct(s)
    ensures multiset(s)[v] <= 1
    decreases |s|
  {
    if |s| > 0 {
      assert s == [s[0]] + s[1..];
      DistinctCountsOnce(s[1..], v);
      if s[0] == v {
        assert v !in s[1..];
      }
    }
  }

  /** A permutation of a duplicate-free sequence is duplicate-free. */
  lemma {:induction false} PermutationKeepsDistinct(a: seq<int>, b: seq<int>)
    requires multiset(a) == multiset(b)
    requires Distinct(a)
    ensures Distinct(b)
  {
    forall i, j | 0 <= i < j < |b| ensures b[i] != b[j] {
      if b[i] == b[j] {
        var v := b[i];
        assert b == b[..j] + b[j..];
        assert v in b[..j] && v in b[j..];
        assert multiset(b)[v] == multiset(b[..j])[v] + multiset(b[j..])[v];
        DistinctCountsOnce(a, v);
        assert false;
      }
    }
  }

  /**
   * The gap-filling scan: walk the ascending ids, bumping the candidate while
   * it is taken, and stop at the first id that is not the candidate.
   */
  method LowestFreeId(sortedIds: seq<int>) returns (newId: int)
    ensures newId >= 1
    ensures forall k :: 1 <= k < newId ==> k in sortedIds
    ensures Sorted(sortedIds) && Distinct(sortedIds) && AllPositive(sortedIds) ==>
              IsLowestFree(sortedIds, newId)
  {
    newId := 1;
    for i := 0 to |sortedIds|
      invariant newId == i + 1
      invariant forall j :: 0 <= j < i ==> sortedIds[j] == j + 1
    {
      if sortedIds[i] == newId {
        newId := newId + 1;
      } else {
        break;
      }
    }
    forall k | 1 <= k < newId ensures k in sortedIds {
      assert sortedIds[k - 1] == k;
    }
    if Sorted(sortedIds) && Distinct(sortedIds) && AllPositive(sortedIds) {
      forall m | 0 <= m < |sortedIds| ensures sortedIds[m] != newId {
        if m >= newId - 1 {
          // the scan stopped at index newId - 1, whose id is past the candidate
          var s := newId - 1;
          assert s < |sortedIds| && sortedIds[s] != newId;
          assert s > 0 ==> sortedIds[s] > sortedIds[s - 1];
          assert sortedIds[s] > newId;
          assert sortedIds[m] >= sortedIds[s];
        }
      }
    }
  }

  /**
   * The ids handed to the scan: sorting keeps them duplicate-free and
   * positive, and leaves the lowest free id unchanged.
   */
  lemma {:induction false} SortedForScan(ids: seq<int>)
    requires Distinct(ids) && AllPositive(ids)
    ensures var s := SortAscending(ids);
      && Sorted(s) && Distinct(s) && AllPositive(s)
      && forall n :: IsLowestFree(s, n) <==> IsLowestFree(ids, n)
  {
    var s := SortAscending(ids);
    PermutationKeepsDistinct(ids, s);
    forall k | 0 <= k < |s| ensures s[k] >= 1 {
      assert s[k] in multiset(ids);
    }
    forall x ensures x in s <==> x in ids {
      assert x in s <==> x in multiset(s);
      assert x in ids <==> x in multiset(ids);
    }
  }

  /** `Math.max(...ids)`. */
  function MaxOf(ids: seq<int>): (m: int)
    requires |ids| > 0
    ensures m in ids
    ensures forall i :: 0 <= i < |ids| ==> ids[i] <= m
  {
    if |ids| == 1 then ids[0]
    else
      var m := MaxOf(ids[1..]);
      assert forall i :: 1 <= i < |ids| ==> ids[i] == ids[1..][i - 1];
      if ids[0] >= m then ids[0] else m
  }

  /** `ids.length > 0 ? Math.max(...ids) + 1 : 1`. */
  function NextAfterMax(ids: seq<int>): (r: int)
    ensures forall i :: 0 <= i < |ids| ==> ids[i] < r
    ensures |ids| == 0 ==> r == 1
    ensures |ids| > 0 ==> r - 1 in ids
    ensures AllPositive(ids) ==> r >= 1
  {
    if |ids| == 0 then 1 else MaxOf(ids) + 1
  }

  /** No positive integer below the largest id is missing. */
  predicate GapFree(ids: seq<int>) {
    forall k :: 1 <= k < NextAfterMax(ids) ==> k in ids
  }

  /**
   * The two policies compared: over positive ids the lowest free id never
   * exceeds max + 1, and the two agree exactly when no id below the maximum
   * is missing.
   */
  lemma {:induction false} LowestFreeAgainstMaxPlusOne(ids: seq<int>, low: int)
    requires AllPositive(ids)
    requires IsLowestFree(ids, low)
    ensures low <= NextAfterMax(ids)
    ensures low == NextAfterMax(ids) <==> GapFree(ids)
  {
    var next := NextAfterMax(ids);
    assert next !in ids && next >= 1;
    assert 1 <= next < low ==> next in ids;
    assert GapFree(ids) ==> (low < next ==> low in ids);
  }

  /**
   * Deleting any id from a gap-free set of ids frees exactly that id for the
   * next note: the scan hands it out again.
   */
  lemma {:induction false} DeletedIdIsReused(ids: seq<int>, i: int)
    requires Distinct(ids) && AllPositive(ids) && GapFree(ids)
    requires 0 <= i < |ids|
    ensures IsLowestFree(ids[..i] + ids[i + 1..], ids[i])
  {
    var rest := ids[..i] + ids[i + 1..];
    forall k | 0 <= k < |rest| ensures rest[k] != ids[i] {
      if k < i { assert rest[k] == ids[k]; } else { assert rest[k] == ids[k + 1]; }
    }
    forall k | 1 <= k < ids[i] ensures k in rest {
      assert ids[i] < NextAfterMax(ids) && k in ids;
      var j :| 0 <= j < |ids| && ids[j] == k;
      if j < i { assert rest[j] == k; } else { assert j != i && rest[j - 1] == k; }
    }
  }
}
