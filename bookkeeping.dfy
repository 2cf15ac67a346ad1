/** The coordinator's bookkeeping invariants, stated on values. */
module Bookkeeping {

  import opened Records
  import opened Locks
  import opened Versions
  import opened SiteSpec
  import opened Placement
  import opened Rows
  import opened Sites
  import opened Fanout
  import opened Attempts

  /** `up` says which sites of the row ss are up. */
  ghost predicate UpMatches(ss: seq<SiteState>, up: seq<bool>) {
    |up| == |ss| && forall i :: 0 <= i < |ss| ==> up[i] == (ss[i].status == Up)
  }

  /** Ten good sites, and a status flag for each that says whether it is up. */
  ghost predicate Wired(dms: seq<DataManager>, up: seq<bool>)
    reads set i | 0 <= i < |dms| :: dms[i]
  {
    |dms| == SiteCount && SitesOk(dms) && UpMatches(States(dms), up)
  }

  /**
   * The registry: non-negative ids, start times between 0 and now, visited
   * sites real; buffered operations name real variables; the placement
   * table is the static one.
   */
  ghost predicate Registered(ts: map<int, Transaction>, time: int, pending: seq<Operation>, table: map<int, seq<int>>) {
    && table == ItemSitesSpec()
    && time >= 0
    && (forall t :: t in ts ==>
          && t >= 0
          && 0 <= ts[t].startTime <= time
          && forall s :: s in ts[t].visitedSites ==> IsSite(s))
    && (forall op :: op in pending ==> IsVariable(op.variable))
  }

  /** The status flags of a row of site objects are those of their states. */
  lemma UpRowStates(dms: seq<DataManager>, up: seq<bool>)
    ensures UpRow(dms, up) <==> UpMatches(States(dms), up)
  {
  }

  /** Replacing one site and its flag together keeps the flags in step. */
  lemma UpMatchesSet(ss: seq<SiteState>, up: seq<bool>, i: int, x: SiteState, b: bool)
    requires UpMatches(ss, up) && 0 <= i < |ss| && b == (x.status == Up)
    ensures UpMatches(ss[i := x], up[i := b])
  {
  }

  /** Aborting at some sites changes no status. */
  lemma AbortKeepsUp(ss: seq<SiteState>, visited: set<int>, txn: int, up: seq<bool>)
    requires UpMatches(ss, up) && forall i :: 0 <= i < |ss| ==> AbortReady(ss[i], txn)
    ensures UpMatches(AbortAll(ss, visited, txn), up)
  {
    forall i | 0 <= i < |ss|
      ensures AbortAll(ss, visited, txn)[i].status == ss[i].status
    {
      AbortAllAt(ss, visited, txn, i);
    }
  }

  /** Committing at some sites changes no status. */
  lemma CommitKeepsUp(ss: seq<SiteState>, visited: set<int>, txn: int, ts: int, up: seq<bool>)
    requires UpMatches(ss, up) && forall i :: 0 <= i < |ss| ==> CommitReady(ss[i], txn)
    ensures UpMatches(CommitAll(ss, visited, txn, ts), up)
  {
    forall i | 0 <= i < |ss|
      ensures CommitAll(ss, visited, txn, ts)[i].status == ss[i].status
    {
      CommitAllAt(ss, visited, txn, ts, i);
    }
  }

  /** Site s fails at time ts and its flag, flags[s], is cleared. */
  method FailFlagged(dms: seq<DataManager>, flags: array<bool>, s: int, ts: int)
    requires flags.Length == SiteCount + 1 && Wired(dms, flags[1..]) && IsSite(s)
    modifies dms[s - 1], flags
    ensures Wired(dms, flags[1..])
    ensures States(dms) == old(States(dms))[s - 1 := FailState(old(States(dms))[s - 1], ts)]
    ensures flags[1..] == old(flags[1..])[s - 1 := false]
    ensures flags[0] == old(flags[0])
  {
    ghost var up0 := flags[1..];
    ghost var r0 := States(dms);
    flags[s] := false;
    assert flags[1..] == up0[s - 1 := false];
    assert States(dms) == r0 by {
      assert forall i :: 0 <= i < |dms| ==> dms[i].State() == r0[i];
    }
    FailOne(dms, s, ts);
    ghost var r1 := States(dms);
    UpMatchesSet(r0, up0, s - 1, r1[s - 1], false);
    assert r0[s - 1 := r1[s - 1]] == r1;
  }

  /** Site s recovers at time ts and its flag, flags[s], is set. */
  method RecoverFlagged(dms: seq<DataManager>, flags: array<bool>, s: int, ts: int)
    requires flags.Length == SiteCount + 1 && Wired(dms, flags[1..]) && IsSite(s)
    modifies dms[s - 1], flags
    ensures Wired(dms, flags[1..])
    ensures States(dms) == old(States(dms))[s - 1 := RecoverState(old(States(dms))[s - 1], ts)]
    ensures flags[1..] == old(flags[1..])[s - 1 := true]
    ensures flags[0] == old(flags[0])
  {
    ghost var up0 := flags[1..];
    ghost var r0 := States(dms);
    flags[s] := true;
    assert flags[1..] == up0[s - 1 := true];
    assert States(dms) == r0 by {
      assert forall i :: 0 <= i < |dms| ==> dms[i].State() == r0[i];
    }
    RecoverOne(dms, s, ts);
    ghost var r1 := States(dms);
    UpMatchesSet(r0, up0, s - 1, r1[s - 1], true);
    assert r0[s - 1 := r1[s - 1]] == r1;
  }

  /** Every history of new sites holds the initial versions alone, committed before time 0. */
  lemma InitialHistoric(ss: seq<SiteState>)
    requires forall i :: 0 <= i < |ss| ==> ss[i] == Initial(i + 1)
    ensures Historic(ss, -1)
  {
    forall i | 0 <= i < |ss|
      ensures Chronological(ss[i], -1)
    {
      InitialInv(i + 1);
    }
  }

  /** Sites 1..SiteCount, new, up and holding their initial data, with every flag set. */
  method Boot() returns (dms: seq<DataManager>, flags: array<bool>)
    ensures flags.Length == SiteCount + 1 && Wired(dms, flags[1..])
    ensures fresh(flags) && forall i :: 0 <= i < |dms| ==> fresh(dms[i])
    ensures forall i :: 0 <= i < |dms| ==> States(dms)[i] == Initial(i + 1)
    ensures forall s :: IsSite(s) ==> flags[s]
    ensures !flags[0]
    ensures Historic(States(dms), -1)
  {
    flags := new bool[SiteCount + 1](s => 1 <= s);
    assert forall i :: 0 <= i < SiteCount ==> flags[1..][i];
    dms := NewSites(SiteCount);
    InitialHistoric(States(dms));
  }
}
