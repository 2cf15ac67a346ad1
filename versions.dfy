/**
 * The committed version history of one variable at one site and the
 * lock-free snapshot read that read-only transactions use.
 *
 * A history lists versions newest first; the constructor seeds it with a
 * sentinel version committed at time -1, and every commit prepends.
 */
module Versions {

  import opened Records

  /** One committed version (CommittedValues). */
  datatype Version = Version(value: int, commitTime: int)

  /** Index k holds the first (newest) version committed no later than ts. */
  predicate Visible(h: seq<Version>, ts: int, k: int) {
    && 0 <= k < |h|
    && h[k].commitTime <= ts
    && forall j :: 0 <= j < k ==> h[j].commitTime > ts
  }

  /** Some recorded failure time lies in the window (lo, hi]. */
  predicate FailedWithin(failures: seq<int>, lo: int, hi: int) {
    exists i :: 0 <= i < |failures| && lo < failures[i] <= hi
  }

  /** Commit times strictly decrease from the head of the history to its tail. */
  predicate Ordered(h: seq<Version>) {
    forall i, j :: 0 <= i < j < |h| ==> h[i].commitTime > h[j].commitTime
  }

  /**
   * The snapshot read of a history at time ts. The scan stops at the newest
   * version committed no later than ts. A replicated variable then fails if
   * the site failed after that commit and no later than ts (the copy may
   * have missed a later commit); it does not go on to older versions. A
   * non-replicated variable returns the version. Without such a version the
   * read fails.
   */
  function Snapshot(h: seq<Version>, failures: seq<int>, replicated: bool, ts: int): (r: Response)
    ensures r.success <==>
              exists k :: Visible(h, ts, k) && !(replicated && FailedWithin(failures, h[k].commitTime, ts))
    ensures r.success ==> exists k :: Visible(h, ts, k) && r.readResult == h[k].value
    ensures !r.success ==> r == Failed
    decreases |h|
  {
    if h == [] then Failed
    else if h[0].commitTime <= ts then
      assert Visible(h, ts, 0);
      if replicated && FailedWithin(failures, h[0].commitTime, ts) then Failed
      else Response(true, h[0].value)
    else
      var r := Snapshot(h[1..], failures, replicated, ts);
      ShiftVisible(h, ts);
      r
  }

  /** Visibility in a history whose head is too new is visibility in its tail, one index later. */
  lemma ShiftVisible(h: seq<Version>, ts: int)
    requires |h| > 0 && h[0].commitTime > ts
    ensures forall k :: Visible(h, ts, k) <==> k >= 1 && Visible(h[1..], ts, k - 1)
  {
    forall k
      ensures Visible(h, ts, k) <==> k >= 1 && Visible(h[1..], ts, k - 1)
    {
      if k >= 1 && Visible(h[1..], ts, k - 1) {
        forall j | 0 <= j < k
          ensures h[j].commitTime > ts
        {
          if j > 0 {
            assert h[j] == h[1..][j - 1];
          }
        }
      }
      if Visible(h, ts, k) {
        forall j | 0 <= j < k - 1
          ensures h[1..][j].commitTime > ts
        {
          assert h[1..][j] == h[j + 1];
        }
      }
    }
  }

  /** At most one index is visible. */
  lemma VisibleUnique(h: seq<Version>, ts: int, k1: int, k2: int)
    requires Visible(h, ts, k1) && Visible(h, ts, k2)
    ensures k1 == k2
  {
  }

  /**
   * In an ordered history the visible version is the one with the latest
   * commit time not after ts.
   */
  lemma VisibleIsLatest(h: seq<Version>, ts: int, k: int)
    requires Ordered(h)
    ensures Visible(h, ts, k) <==>
              && 0 <= k < |h| && h[k].commitTime <= ts
              && forall j :: 0 <= j < |h| && h[j].commitTime <= ts ==> h[j].commitTime <= h[k].commitTime
  {
    if 0 <= k < |h| && h[k].commitTime <= ts
       && forall j :: 0 <= j < |h| && h[j].commitTime <= ts ==> h[j].commitTime <= h[k].commitTime
    {
      forall j | 0 <= j < k
        ensures h[j].commitTime > ts
      {
        assert h[j].commitTime > h[k].commitTime;
      }
    }
  }

  /**
   * A history that ends in the sentinel version committed at -1 has a
   * visible version for every ts >= -1.
   */
  lemma {:induction false} SentinelVisible(h: seq<Version>, ts: int)
    requires |h| > 0 && h[|h| - 1].commitTime == -1 && ts >= -1
    ensures exists k :: Visible(h, ts, k)
    decreases |h|
  {
    if h[0].commitTime <= ts {
      assert Visible(h, ts, 0);
    } else {
      SentinelVisible(h[1..], ts);
      ShiftVisible(h, ts);
      var k :| Visible(h[1..], ts, k);
      assert Visible(h, ts, k + 1);
    }
  }

  /**
   * A non-replicated variable whose history ends in the sentinel never
   * fails a snapshot read at a time ts >= -1.
   */
  lemma UnreplicatedSnapshotSucceeds(h: seq<Version>, failures: seq<int>, ts: int)
    requires |h| > 0 && h[|h| - 1].commitTime == -1 && ts >= -1
    ensures Snapshot(h, failures, false, ts).success
  {
    SentinelVisible(h, ts);
  }
}
