/**
 * The coordinator's loops over its row of site objects: creating them,
 * failing and recovering one, the commit and abort fan-out, the read,
 * snapshot-read and write passes over a variable's hosting sites, and the
 * merge of the sites' wait-for graphs. Site s is the object dms[s - 1];
 * each method is proved against the row functions of Rows applied to the
 * states of the objects.
 */
module Fanout {

  import opened Sets
  import opened Records
  import opened Placement
  import opened Locks
  import opened SiteSpec
  import opened WaitGraph
  import opened Passes
  import opened Rows
  import opened Sites

  // ---------------------------------------------------------------------------
  // The row of site objects
  // ---------------------------------------------------------------------------

  /** A site object is numbered `id`, valid, and holds writes of resident variables only. */
  ghost predicate SiteOk(dm: DataManager, id: int)
    reads dm
  {
    dm.siteID == id && dm.Valid() && Confined(dm.State())
  }

  /** The site objects of dms are distinct, and dms[i] is a good site numbered i + 1. */
  ghost predicate SitesOk(dms: seq<DataManager>)
    reads set i | 0 <= i < |dms| :: dms[i]
  {
    && (forall i, j :: 0 <= i < j < |dms| ==> dms[i] != dms[j])
    && (forall i :: 0 <= i < |dms| ==> SiteOk(dms[i], i + 1))
  }

  /** The states of the site objects dms, in order. */
  ghost function States(dms: seq<DataManager>): (r: seq<SiteState>)
    reads dms
    ensures |r| == |dms|
  {
    seq(|dms|, i reads dms requires 0 <= i < |dms| => dms[i].State())
  }

  /** The states of a valid row satisfy the site invariant. */
  lemma StatesValid(dms: seq<DataManager>)
    requires SitesOk(dms)
    ensures forall i :: 0 <= i < |dms| ==> Inv(i + 1, States(dms)[i]) && Confined(States(dms)[i])
  {
  }

  /** A row whose only change is at site s is the old row with that one element replaced. */
  lemma StatesUpdate(dms: seq<DataManager>, olds: seq<SiteState>, s: int, x: SiteState)
    requires |olds| == |dms| && 1 <= s <= |dms|
    requires dms[s - 1].State() == x
    requires forall i :: 0 <= i < |dms| && i != s - 1 ==> dms[i].State() == olds[i]
    ensures States(dms) == olds[s - 1 := x]
  {
  }

  /** Every site of a valid row may commit or abort any transaction. */
  lemma RowReady(dms: seq<DataManager>, txn: int)
    requires SitesOk(dms)
    ensures forall i :: 0 <= i < |dms| ==> CommitReady(States(dms)[i], txn) && AbortReady(States(dms)[i], txn)
  {
    forall i | 0 <= i < |dms|
      ensures CommitReady(States(dms)[i], txn) && AbortReady(States(dms)[i], txn)
    {
      ConfinedReady(i + 1, dms[i].State(), txn);
    }
  }

  /** A good row extended by a further good site object is a good row. */
  lemma SitesSnoc(dms: seq<DataManager>, dm: DataManager)
    requires SitesOk(dms) && SiteOk(dm, |dms| + 1) && dm !in dms
    ensures SitesOk(dms + [dm])
    ensures States(dms + [dm]) == States(dms) + [dm.State()]
  {
    var row := dms + [dm];
    assert forall i :: 0 <= i < |dms| ==> row[i] == dms[i];
    assert row[|dms|] == dm;
  }

  /** Sites 1..n, new and up, each holding the initial versions of its variables. */
  method NewSites(n: nat) returns (dms: seq<DataManager>)
    ensures |dms| == n && SitesOk(dms)
    ensures forall i :: 0 <= i < n ==> fresh(dms[i])
    ensures forall i :: 0 <= i < n ==> States(dms)[i] == Initial(i + 1)
  {
    dms := [];
    while |dms| < n
      invariant |dms| <= n && SitesOk(dms)
      invariant forall i :: 0 <= i < |dms| ==> fresh(dms[i]) && States(dms)[i] == Initial(i + 1)
    {
      dms := AppendSite(dms);
    }
  }

  /** The row dms with a new site numbered |dms| + 1 at its end. */
  method AppendSite(dms: seq<DataManager>) returns (dms': seq<DataManager>)
    requires SitesOk(dms)
    ensures SitesOk(dms') && |dms'| == |dms| + 1
    ensures dms' == dms + [dms'[|dms|]] && fresh(dms'[|dms|])
    ensures States(dms') == old(States(dms)) + [Initial(|dms| + 1)]
  {
    var dm := new DataManager(|dms| + 1);
    assert Confined(dm.State());
    SitesSnoc(dms, dm);
    dms' := dms + [dm];
  }

  // ---------------------------------------------------------------------------
  // One site at a time
  // ---------------------------------------------------------------------------

  /** Site s fails at time ts; no other site changes. */
  method FailOne(dms: seq<DataManager>, s: int, ts: int)
    requires SitesOk(dms) && 1 <= s <= |dms|
    modifies dms[s - 1]
    ensures SitesOk(dms)
    ensures States(dms) == old(States(dms))[s - 1 := FailState(old(States(dms))[s - 1], ts)]
  {
    ghost var olds := States(dms);
    FailConfined(dms[s - 1].State(), ts);
    dms[s - 1].Fail(ts);
    StatesUpdate(dms, olds, s, FailState(olds[s - 1], ts));
  }

  /** Site s recovers at time ts; no other site changes. */
  method RecoverOne(dms: seq<DataManager>, s: int, ts: int)
    requires SitesOk(dms) && 1 <= s <= |dms|
    modifies dms[s - 1]
    ensures SitesOk(dms)
    ensures States(dms) == old(States(dms))[s - 1 := RecoverState(old(States(dms))[s - 1], ts)]
  {
    ghost var olds := States(dms);
    RecoverConfined(s, dms[s - 1].State(), ts);
    dms[s - 1].Recover(ts);
    StatesUpdate(dms, olds, s, RecoverState(olds[s - 1], ts));
  }

  /** txn aborts at site s of dms; no other site changes. */
  method AbortOne(dms: seq<DataManager>, s: int, txn: int)
    requires SitesOk(dms) && 1 <= s <= |dms|
    modifies dms[s - 1]
    ensures SitesOk(dms)
    ensures AbortReady(old(dms[s - 1].State()), txn)
    ensures dms[s - 1].State() == AbortState(old(dms[s - 1].State()), txn)
    ensures forall i :: 0 <= i < |dms| && i != s - 1 ==> dms[i].State() == old(dms[i].State())
  {
    AbortConfined(s, dms[s - 1].State(), txn);
    dms[s - 1].Abort(txn);
  }

  /** txn commits at time ts at site s of dms; no other site changes. */
  method CommitOne(dms: seq<DataManager>, s: int, txn: int, ts: int)
    requires SitesOk(dms) && 1 <= s <= |dms|
    modifies dms[s - 1]
    ensures SitesOk(dms)
    ensures CommitReady(old(dms[s - 1].State()), txn)
    ensures dms[s - 1].State() == CommitState(old(dms[s - 1].State()), txn, ts)
    ensures forall i :: 0 <= i < |dms| && i != s - 1 ==> dms[i].State() == old(dms[i].State())
  {
    CommitConfined(s, dms[s - 1].State(), txn, ts);
    dms[s - 1].Commit(txn, ts);
  }

  /** Site s answers txn's request for a read lock on v; no other site changes. */
  method ReadLockOne(dms: seq<DataManager>, s: int, txn: int, v: int) returns (ok: bool)
    requires SitesOk(dms) && 1 <= s <= |dms| && v in dms[s - 1].upToDate
    modifies dms[s - 1]
    ensures SitesOk(dms)
    ensures forall i :: 0 <= i < |dms| ==> dms[i].status == old(dms[i].status)
    ensures ok == ReadLockGranted(old(States(dms))[s - 1], txn, v)
    ensures dms[s - 1].State() == ReadAsked(old(States(dms))[s - 1], txn, v)
    ensures States(dms) == old(States(dms))[s - 1 := ReadAsked(old(States(dms))[s - 1], txn, v)]
  {
    ghost var olds := States(dms);
    LockConfined(dms[s - 1].State(), txn, v);
    ok := dms[s - 1].AcquireReadLock(txn, v);
    StatesUpdate(dms, olds, s, ReadAsked(olds[s - 1], txn, v));
  }

  /** Site s answers txn's request for a WRITE lock on v; no other site changes. */
  method WriteLockOne(dms: seq<DataManager>, s: int, txn: int, v: int) returns (ok: bool)
    requires SitesOk(dms) && 1 <= s <= |dms|
    modifies dms[s - 1]
    ensures SitesOk(dms)
    ensures forall i :: 0 <= i < |dms| ==> dms[i].status == old(dms[i].status)
    ensures ok == WriteLockCheck(old(States(dms))[s - 1].lockTable, txn, v)
    ensures States(dms) == old(States(dms))[s - 1 := WriteLockState(old(States(dms))[s - 1], txn, v)]
  {
    ghost var olds := States(dms);
    LockConfined(dms[s - 1].State(), txn, v);
    ok := dms[s - 1].AcquireWriteLock(txn, v);
    StatesUpdate(dms, olds, s, WriteLockState(olds[s - 1], txn, v));
  }

  /** The write op reaches site s, which stores its variable; no other site changes. */
  method WriteOne(dms: seq<DataManager>, s: int, op: Operation)
    requires SitesOk(dms) && 1 <= s <= |dms| && Resident(s, op.variable)
    modifies dms[s - 1]
    ensures SitesOk(dms)
    ensures forall i :: 0 <= i < |dms| ==> dms[i].status == old(dms[i].status)
    ensures States(dms) == old(States(dms))[s - 1 := WriteState(old(States(dms))[s - 1], op)]
  {
    ghost var olds := States(dms);
    WriteConfined(dms[s - 1].State(), op);
    var _ := dms[s - 1].Write(op);
    StatesUpdate(dms, olds, s, WriteState(olds[s - 1], op));
  }

  // ---------------------------------------------------------------------------
  // Commit and abort fan-out
  // ---------------------------------------------------------------------------

  /**
   * Part of the way from the row olds to the row targets: the sites of
   * `visited` outside `todo` are at their targets, all others as they were.
   */
  ghost predicate Partly(dms: seq<DataManager>, olds: seq<SiteState>, targets: seq<SiteState>,
                         visited: set<int>, todo: set<int>)
    reads set i | 0 <= i < |dms| :: dms[i]
  {
    && |olds| == |dms| && |targets| == |dms|
    && forall i :: 0 <= i < |dms| ==>
         dms[i].State() == if i + 1 in visited && i + 1 !in todo then targets[i] else olds[i]
  }

  /** With nothing left to do, the row is at its targets. */
  lemma PartlyDone(dms: seq<DataManager>, olds: seq<SiteState>, targets: seq<SiteState>, visited: set<int>)
    requires Partly(dms, olds, targets, visited, {})
    requires forall i :: 0 <= i < |dms| && i + 1 !in visited ==> targets[i] == olds[i]
    ensures States(dms) == targets
  {
  }

  /** Site s of todo has reached its target: the row is part of the way with s done. */
  lemma PartlyNext(dms: seq<DataManager>, olds: seq<SiteState>, targets: seq<SiteState>,
                   visited: set<int>, todo: set<int>, s: int, before: seq<SiteState>)
    requires s in todo && todo <= visited && 1 <= s <= |dms| && |before| == |dms|
    requires |olds| == |dms| && |targets| == |dms|
    requires forall i :: 0 <= i < |dms| ==>
               before[i] == if i + 1 in visited && i + 1 !in todo then targets[i] else olds[i]
    requires dms[s - 1].State() == targets[s - 1]
    requires forall i :: 0 <= i < |dms| && i != s - 1 ==> dms[i].State() == before[i]
    ensures Partly(dms, olds, targets, visited, todo - {s})
  {
    forall i | 0 <= i < |dms|
      ensures dms[i].State() == if i + 1 in visited && i + 1 !in todo - {s} then targets[i] else olds[i]
    {
      if i == s - 1 {
        assert i + 1 in visited && i + 1 !in todo - {s};
      } else {
        assert (i + 1 !in todo - {s}) == (i + 1 !in todo);
      }
    }
  }

  /** One site s of todo aborts txn, on the way from olds to AbortAll(olds, visited, txn). */
  method AbortNext(dms: seq<DataManager>, ghost olds: seq<SiteState>, visited: set<int>, todo: set<int>, s: int, txn: int)
    requires SitesOk(dms) && s in todo && todo <= visited && 1 <= s <= |dms| && |olds| == |dms|
    requires forall i :: 0 <= i < |olds| ==> AbortReady(olds[i], txn)
    requires Partly(dms, olds, AbortAll(olds, visited, txn), visited, todo)
    modifies dms[s - 1]
    ensures SitesOk(dms)
    ensures Partly(dms, olds, AbortAll(olds, visited, txn), visited, todo - {s})
  {
    ghost var before := States(dms);
    AbortAllAt(olds, visited, txn, s - 1);
    AbortOne(dms, s, txn);
    PartlyNext(dms, olds, AbortAll(olds, visited, txn), visited, todo, s, before);
  }

  /** One site s of todo commits txn, on the way from olds to CommitAll(olds, visited, txn, ts). */
  method CommitNext(dms: seq<DataManager>, ghost olds: seq<SiteState>, visited: set<int>, todo: set<int>, s: int,
                    txn: int, ts: int)
    requires SitesOk(dms) && s in todo && todo <= visited && 1 <= s <= |dms| && |olds| == |dms|
    requires forall i :: 0 <= i < |olds| ==> CommitReady(olds[i], txn)
    requires Partly(dms, olds, CommitAll(olds, visited, txn, ts), visited, todo)
    modifies dms[s - 1]
    ensures SitesOk(dms)
    ensures Partly(dms, olds, CommitAll(olds, visited, txn, ts), visited, todo - {s})
  {
    ghost var before := States(dms);
    CommitAllAt(olds, visited, txn, ts, s - 1);
    CommitOne(dms, s, txn, ts);
    PartlyNext(dms, olds, CommitAll(olds, visited, txn, ts), visited, todo, s, before);
  }

  /** Aborts txn at each site of `visited`, in any order; the sites are independent. */
  method AbortAt(dms: seq<DataManager>, visited: set<int>, txn: int)
    requires SitesOk(dms)
    requires forall s :: s in visited ==> 1 <= s <= |dms|
    modifies set i | 0 <= i < |dms| :: dms[i]
    ensures SitesOk(dms)
    ensures forall i :: 0 <= i < |dms| ==> AbortReady(old(States(dms))[i], txn)
    ensures States(dms) == AbortAll(old(States(dms)), visited, txn)
  {
    ghost var olds := States(dms);
    RowReady(dms, txn);
    var todo := visited;
    while todo != {}
      invariant todo <= visited
      invariant SitesOk(dms)
      invariant Partly(dms, olds, AbortAll(olds, visited, txn), visited, todo)
      decreases todo
    {
      Inhabited(todo);
      var s :| s in todo;
      AbortNext(dms, olds, visited, todo, s, txn);
      todo := todo - {s};
    }
    forall i | 0 <= i < |dms| && i + 1 !in visited
      ensures AbortAll(olds, visited, txn)[i] == olds[i]
    {
      AbortAllAt(olds, visited, txn, i);
    }
    PartlyDone(dms, olds, AbortAll(olds, visited, txn), visited);
  }

  /** Commits txn with time ts at each site of `visited`, in any order. */
  method CommitAt(dms: seq<DataManager>, visited: set<int>, txn: int, ts: int)
    requires SitesOk(dms)
    requires forall s :: s in visited ==> 1 <= s <= |dms|
    modifies set i | 0 <= i < |dms| :: dms[i]
    ensures SitesOk(dms)
    ensures forall i :: 0 <= i < |dms| ==> CommitReady(old(States(dms))[i], txn)
    ensures States(dms) == CommitAll(old(States(dms)), visited, txn, ts)
  {
    ghost var olds := States(dms);
    RowReady(dms, txn);
    var todo := visited;
    while todo != {}
      invariant todo <= visited
      invariant SitesOk(dms)
      invariant Partly(dms, olds, CommitAll(olds, visited, txn, ts), visited, todo)
      decreases todo
    {
      Inhabited(todo);
      var s :| s in todo;
      CommitNext(dms, olds, visited, todo, s, txn, ts);
      todo := todo - {s};
    }
    forall i | 0 <= i < |dms| && i + 1 !in visited
      ensures CommitAll(olds, visited, txn, ts)[i] == olds[i]
    {
      CommitAllAt(olds, visited, txn, ts, i);
    }
    PartlyDone(dms, olds, CommitAll(olds, visited, txn, ts), visited);
  }

  // ---------------------------------------------------------------------------
  // The passes over the hosting sites of a variable
  // ---------------------------------------------------------------------------

  /** `up` says which site objects of dms are up. */
  ghost predicate UpRow(dms: seq<DataManager>, up: seq<bool>)
    reads set i | 0 <= i < |dms| :: dms[i]
  {
    |up| == |dms| && forall i :: 0 <= i < |dms| ==> up[i] == (dms[i].status == Up)
  }

  /**
   * The up site s is asked for op's read lock and, when it grants it, read
   * from; served says whether it answered and value is the answer. No other
   * site changes.
   */
  method ReadOne(dms: seq<DataManager>, s: int, op: Operation) returns (served: bool, value: int)
    requires SitesOk(dms) && 1 <= s <= |dms| && dms[s - 1].status == Up && Resident(s, op.variable)
    modifies dms[s - 1]
    ensures SitesOk(dms)
    ensures forall i :: 0 <= i < |dms| ==> dms[i].status == old(dms[i].status)
    ensures served == Serves(old(States(dms))[s - 1], op)
    ensures States(dms) == old(States(dms))[s - 1 := ReadAsked(old(States(dms))[s - 1], op.txn, op.variable)]
    ensures served ==>
              ReadAnswered(States(dms)[s - 1], op) && value == ReadAt(States(dms)[s - 1], op).readResult
  {
    ghost var olds := States(dms);
    assert Inv(s, olds[s - 1]);
    ServesIffGranted(s, olds[s - 1], op);
    served, value := false, 0;
    var granted := ReadLockOne(dms, s, op.txn, op.variable);
    if granted {
      var r := dms[s - 1].Read(op);
      served, value := r.success, r.readResult;
    }
  }

  /**
   * One site of a read pass: the first site of rest, if up, is asked for the
   * read lock and, when it grants it, read from; served says whether the
   * site answered and value is the answer.
   */
  method ReadStep(dms: seq<DataManager>, up: seq<bool>, rest: seq<int>, op: Operation)
    returns (served: bool, value: int)
    requires SitesOk(dms) && UpRow(dms, up) && InRow(|dms|, rest) && rest != [] && 1 <= rest[0] <= |dms|
    requires Resident(rest[0], op.variable)
    modifies dms[rest[0] - 1]
    ensures SitesOk(dms) && UpRow(dms, up) && InRow(|dms|, rest[1..])
    ensures served == (up[rest[0] - 1] && Serves(old(States(dms))[rest[0] - 1], op))
    ensures ReadPass(old(States(dms)), rest, up, op) ==
              if served then (States(dms), rest[0]) else ReadPass(States(dms), rest[1..], up, op)
    ensures served ==>
              ReadAnswered(States(dms)[rest[0] - 1], op) && value == ReadAt(States(dms)[rest[0] - 1], op).readResult
  {
    var h := rest[0];
    ghost var olds := States(dms);
    served, value := false, 0;
    if up[h - 1] {
      served, value := ReadOne(dms, h, op);
    }
    ReadPassStep(olds, States(dms), rest, up, op);
  }

  /**
   * Read: asks the up hosting sites in ascending order for a read lock and
   * reads at the first that grants it and answers; returns that site and
   * the value read, or site 0.
   */
  method ReadSites(dms: seq<DataManager>, up: seq<bool>, hosts: seq<int>, op: Operation)
    returns (site: int, value: int)
    requires SitesOk(dms) && UpRow(dms, up)
    requires InRow(|dms|, hosts) && Ascending(hosts)
    requires forall h :: h in hosts ==> Resident(h, op.variable)
    modifies set i | 0 <= i < |dms| :: dms[i]
    ensures SitesOk(dms) && UpRow(dms, up)
    ensures (States(dms), site) == ReadPass(old(States(dms)), hosts, up, op)
    ensures site != 0 ==>
              ReadAnswered(States(dms)[site - 1], op) && value == ReadAt(States(dms)[site - 1], op).readResult
  {
    ghost var olds := States(dms);
    StatesValid(dms);
    site, value := 0, 0;
    var rest := hosts;
    while rest != []
      invariant InRow(|dms|, rest) && forall h :: h in rest ==> h in hosts
      invariant SitesOk(dms) && UpRow(dms, up)
      invariant site == 0
      invariant ReadPass(olds, hosts, up, op) == ReadPass(States(dms), rest, up, op)
      decreases |rest|
    {
      HeadTail(rest);
      var served, v := ReadStep(dms, up, rest, op);
      if served {
        site, value := rest[0], v;
        return;
      }
      rest := rest[1..];
    }
  }

  /**
   * ReadOnly: asks the up hosting sites in ascending order for a snapshot
   * read and answers from the first that can; returns that site and the
   * value, or site 0. No site changes.
   */
  method SnapshotSites(dms: seq<DataManager>, up: seq<bool>, hosts: seq<int>, op: Operation)
    returns (site: int, value: int)
    requires |up| == |dms| && InRow(|dms|, hosts)
    ensures site == ReadOnlyPass(States(dms), hosts, up, op)
    ensures site != 0 ==> value == ReadOnlyAt(States(dms)[site - 1], op).readResult
  {
    ghost var ss := States(dms);
    site, value := 0, 0;
    var rest := hosts;
    while rest != []
      invariant InRow(|dms|, rest)
      invariant site == 0
      invariant ReadOnlyPass(ss, hosts, up, op) == ReadOnlyPass(ss, rest, up, op)
      decreases |rest|
    {
      var h := rest[0];
      ReadOnlyPassStep(ss, rest, up, op);
      if up[h - 1] {
        var r := dms[h - 1].ReadOnly(op);
        if r.success {
          site, value := h, r.readResult;
          return;
        }
      }
      rest := rest[1..];
    }
  }

  /**
   * One site of the first write pass: the first site of rest, if up, is
   * asked for txn's WRITE lock on v; granted is its answer (true for a
   * site that is down).
   */
  method LockStep(dms: seq<DataManager>, up: seq<bool>, rest: seq<int>, txn: int, v: int)
    returns (granted: bool)
    requires SitesOk(dms) && UpRow(dms, up) && InRow(|dms|, rest) && rest != [] && 1 <= rest[0] <= |dms|
    modifies dms[rest[0] - 1]
    ensures SitesOk(dms) && UpRow(dms, up) && InRow(|dms|, rest[1..])
    ensures var tail := WriteLocks(States(dms), rest[1..], up, txn, v);
            WriteLocks(old(States(dms)), rest, up, txn, v) == (tail.0, granted && tail.1)
  {
    var h := rest[0];
    ghost var olds := States(dms);
    granted := true;
    if up[h - 1] {
      granted := WriteLockOne(dms, h, txn, v);
    }
    WriteLocksStep(olds, States(dms), rest, up, txn, v);
  }

  /**
   * Write, first pass: asks every up hosting site for txn's WRITE lock on
   * v, whatever the earlier answers; ok says whether all of them granted.
   */
  method LockSites(dms: seq<DataManager>, up: seq<bool>, hosts: seq<int>, txn: int, v: int)
    returns (ok: bool)
    requires SitesOk(dms) && UpRow(dms, up) && InRow(|dms|, hosts)
    modifies set i | 0 <= i < |dms| :: dms[i]
    ensures SitesOk(dms) && UpRow(dms, up)
    ensures (States(dms), ok) == WriteLocks(old(States(dms)), hosts, up, txn, v)
  {
    ghost var olds := States(dms);
    ok := true;
    var rest := hosts;
    while rest != []
      invariant InRow(|dms|, rest)
      invariant SitesOk(dms) && UpRow(dms, up)
      invariant var tail := WriteLocks(States(dms), rest, up, txn, v);
                WriteLocks(olds, hosts, up, txn, v) == (tail.0, ok && tail.1)
      decreases |rest|
    {
      HeadTail(rest);
      var granted := LockStep(dms, up, rest, txn, v);
      ok := ok && granted;
      rest := rest[1..];
    }
  }

  /**
   * One site of the second write pass: the write reaches the first site of
   * rest if it is up, and that site joins the sites written so far.
   */
  method WriteStep(dms: seq<DataManager>, up: seq<bool>, rest: seq<int>, op: Operation, written: set<int>)
    returns (written': set<int>)
    requires SitesOk(dms) && UpRow(dms, up) && InRow(|dms|, rest) && rest != [] && 1 <= rest[0] <= |dms|
    requires Resident(rest[0], op.variable)
    modifies dms[rest[0] - 1]
    ensures SitesOk(dms) && UpRow(dms, up) && InRow(|dms|, rest[1..])
    ensures written' + UpIn(rest[1..], up) == written + UpIn(rest, up)
    ensures WriteAll(old(States(dms)), rest, up, op) == WriteAll(States(dms), rest[1..], up, op)
  {
    var h := rest[0];
    ghost var olds := States(dms);
    UpInTail(rest, up);
    written' := written;
    if up[h - 1] {
      WriteOne(dms, h, op);
      written' := written + {h};
    }
    WriteAllStep(olds, States(dms), rest, up, op);
  }

  /** Write, second pass: the write reaches every up hosting site; returns those sites. */
  method WriteSites(dms: seq<DataManager>, up: seq<bool>, hosts: seq<int>, op: Operation)
    returns (written: set<int>)
    requires SitesOk(dms) && UpRow(dms, up) && InRow(|dms|, hosts)
    requires forall h :: h in hosts ==> Resident(h, op.variable)
    modifies set i | 0 <= i < |dms| :: dms[i]
    ensures SitesOk(dms) && UpRow(dms, up)
    ensures written == UpIn(hosts, up)
    ensures States(dms) == WriteAll(old(States(dms)), hosts, up, op)
  {
    ghost var olds := States(dms);
    written := {};
    var rest := hosts;
    while rest != []
      invariant InRow(|dms|, rest) && forall h :: h in rest ==> h in hosts
      invariant SitesOk(dms) && UpRow(dms, up)
      invariant written + UpIn(rest, up) == UpIn(hosts, up)
      invariant WriteAll(olds, hosts, up, op) == WriteAll(States(dms), rest, up, op)
      decreases |rest|
    {
      HeadTail(rest);
      written := WriteStep(dms, up, rest, op, written);
      rest := rest[1..];
    }
    assert UpIn([], up) == {};
  }

  /** The wait-for graphs of all the sites merged into one: every edge of every site. */
  method MergeSites(dms: seq<DataManager>) returns (g: Graph)
    ensures NoEmptyRows(g)
    ensures EdgeSet(g) == AllWaitEdges(States(dms))
  {
    ghost var ss := States(dms);
    g := map[];
    var i := 0;
    while i < |dms|
      invariant 0 <= i <= |dms|
      invariant NoEmptyRows(g) && EdgeSet(g) == AllWaitEdges(ss[..i])
    {
      var gi := dms[i].GenWaitGraph();
      g := MergeInto(g, gi);
      AllWaitEdgesSnoc(ss, i);
      i := i + 1;
    }
    assert ss[..i] == ss;
  }

  /** Adds every edge of g to g0, row by row and child by child. */
  method MergeInto(g0: Graph, g: Graph) returns (m: Graph)
    requires NoEmptyRows(g0)
    ensures NoEmptyRows(m)
    ensures EdgeSet(m) == EdgeSet(g0) + EdgeSet(g)
  {
    m := g0;
    var keys := g.Keys;
    while keys != {}
      invariant keys <= g.Keys
      invariant NoEmptyRows(m)
      invariant EdgeSet(m) == EdgeSet(g0) + set a, b | a in g && a !in keys && b in g[a] :: (a, b)
      decreases keys
    {
      Inhabited(keys);
      var a :| a in keys;
      var children := g[a];
      while children != {}
        invariant children <= g[a]
        invariant NoEmptyRows(m)
        invariant EdgeSet(m) == EdgeSet(g0) + (set x, b | x in g && x !in keys && b in g[x] :: (x, b))
                                            + (set b | b in g[a] && b !in children :: (a, b))
        decreases children
      {
        Inhabited(children);
        var b :| b in children;
        m := AddEdge(m, a, b);
        children := children - {b};
      }
      keys := keys - {a};
    }
  }
}
