/**
 * What the coordinator does to the row of sites, as functions on the site
 * states: the commit and abort fan-out, the read pass over the hosting
 * sites, the snapshot-read pass, and the two passes of a write. Site h of
 * a row is its element h - 1, and `up` is the coordinator's view of which
 * sites are up.
 */
module Rows {

  import opened Records
  import opened Locks
  import opened SiteSpec
  import opened Passes

  // ---------------------------------------------------------------------------
  // Commit and abort fan-out
  // ---------------------------------------------------------------------------

  /** The row after txn commits at time ts at the sites of `visited`. */
  function CommitAll(ss: seq<SiteState>, visited: set<int>, txn: int, ts: int): (r: seq<SiteState>)
    requires forall i :: 0 <= i < |ss| ==> CommitReady(ss[i], txn)
    ensures |r| == |ss|
  {
    seq(|ss|, i requires 0 <= i < |ss| => if i + 1 in visited then CommitState(ss[i], txn, ts) else ss[i])
  }

  /** The row after txn aborts at the sites of `visited`. */
  function AbortAll(ss: seq<SiteState>, visited: set<int>, txn: int): (r: seq<SiteState>)
    requires forall i :: 0 <= i < |ss| ==> AbortReady(ss[i], txn)
    ensures |r| == |ss|
  {
    seq(|ss|, i requires 0 <= i < |ss| => if i + 1 in visited then AbortState(ss[i], txn) else ss[i])
  }

  /** Site i + 1 of the row commits exactly when it is in `visited`. */
  lemma CommitAllAt(ss: seq<SiteState>, visited: set<int>, txn: int, ts: int, i: int)
    requires forall i :: 0 <= i < |ss| ==> CommitReady(ss[i], txn)
    requires 0 <= i < |ss|
    ensures CommitAll(ss, visited, txn, ts)[i] == if i + 1 in visited then CommitState(ss[i], txn, ts) else ss[i]
  {
  }

  /** Site i + 1 of the row aborts exactly when it is in `visited`. */
  lemma AbortAllAt(ss: seq<SiteState>, visited: set<int>, txn: int, i: int)
    requires forall i :: 0 <= i < |ss| ==> AbortReady(ss[i], txn)
    requires 0 <= i < |ss|
    ensures AbortAll(ss, visited, txn)[i] == if i + 1 in visited then AbortState(ss[i], txn) else ss[i]
  {
  }

  /** Committing changes no site's status. */
  lemma CommitAllKeeps(ss: seq<SiteState>, visited: set<int>, txn: int, ts: int)
    requires forall i :: 0 <= i < |ss| ==> CommitReady(ss[i], txn)
    ensures forall i :: 0 <= i < |ss| ==> CommitAll(ss, visited, txn, ts)[i].status == ss[i].status
  {
  }

  /** Aborting changes no site's status and no committed history. */
  lemma AbortAllKeeps(ss: seq<SiteState>, visited: set<int>, txn: int)
    requires forall i :: 0 <= i < |ss| ==> AbortReady(ss[i], txn)
    ensures forall i :: 0 <= i < |ss| ==>
              AbortAll(ss, visited, txn)[i].status == ss[i].status &&
              AbortAll(ss, visited, txn)[i].committed == ss[i].committed
  {
  }

  // ---------------------------------------------------------------------------
  // The read pass
  // ---------------------------------------------------------------------------

  /** Site s after txn asks it for a read lock on v (a site without a flag for v is not asked). */
  function ReadAsked(s: SiteState, txn: int, v: int): SiteState {
    if v in s.upToDate then ReadLockState(s, txn, v) else s
  }

  /** ReadAsked, as the request of a read pass. */
  function ReadAsk(txn: int, v: int): SiteState -> SiteState {
    (s: SiteState) => ReadAsked(s, txn, v)
  }

  /** The locked read of op succeeds at s. */
  predicate ReadAnswered(s: SiteState, op: Operation) {
    op.variable in s.upToDate && s.upToDate.Keys <= s.uncommitted.Keys && ReadAt(s, op).success
  }

  /** Site s serves the read op: it grants the read lock, and the read under that lock succeeds. */
  predicate Serves(s: SiteState, op: Operation) {
    && op.variable in s.upToDate
    && ReadLockGranted(s, op.txn, op.variable)
    && ReadAnswered(ReadLockState(s, op.txn, op.variable), op)
  }

  /** Serves, as the test of a read pass. */
  function ReadServes(op: Operation): SiteState -> bool {
    (s: SiteState) => Serves(s, op)
  }

  /**
   * Read: the up hosting sites in ascending order are asked for a read lock
   * until one grants it and answers the read. The result is the new row and
   * the serving site, or 0.
   */
  function ReadPass(ss: seq<SiteState>, hosts: seq<int>, up: seq<bool>, op: Operation): (r: (seq<SiteState>, int))
    requires |up| == |ss| && InRow(|ss|, hosts)
    ensures |r.0| == |ss|
    ensures r.1 != 0 ==> r.1 in hosts && 1 <= r.1 <= |ss| && up[r.1 - 1]
  {
    Scan(ss, hosts, up, ReadAsk(op.txn, op.variable), ReadServes(op))
  }

  /**
   * One step of a read pass: when ss' is ss after the first site of hosts
   * (if it is up) was asked for the read lock, the pass over hosts from ss
   * stops there if that site serves the read, and otherwise goes on as the
   * pass over the rest from ss'.
   */
  lemma ReadPassStep(ss: seq<SiteState>, ss': seq<SiteState>, hosts: seq<int>, up: seq<bool>, op: Operation)
    requires |up| == |ss| && InRow(|ss|, hosts) && hosts != [] && 1 <= hosts[0] <= |ss|
    requires ss' == if up[hosts[0] - 1] then ss[hosts[0] - 1 := ReadAsked(ss[hosts[0] - 1], op.txn, op.variable)] else ss
    ensures InRow(|ss|, hosts[1..])
    ensures var h := hosts[0];
            ReadPass(ss, hosts, up, op) ==
              if up[h - 1] && Serves(ss[h - 1], op) then (ss', h) else ReadPass(ss', hosts[1..], up, op)
  {
    ScanStep(ss, hosts, up, ReadAsk(op.txn, op.variable), ReadServes(op));
  }

  /**
   * On a valid site holding a flag for v, serving a read is the same as
   * granting its lock: a granted read lock is never followed by a failed
   * read.
   */
  lemma ServesIffGranted(site: int, s: SiteState, op: Operation)
    requires Inv(site, s) && op.variable in s.upToDate
    ensures Serves(s, op) <==> ReadLockGranted(s, op.txn, op.variable)
    ensures Serves(s, op) ==> ReadAt(ReadAsked(s, op.txn, op.variable), op) == Response(true, s.uncommitted[op.variable])
  {
    ReadLockSpec(site, s, op.txn, op.variable);
    if ReadLockGranted(s, op.txn, op.variable) {
      GrantedReadSucceeds(site, s, op);
    }
  }

  /** A site that serves a read answers it, after granting the lock, with its scratch value. */
  lemma ServedValue(site: int, s: SiteState, op: Operation)
    requires Inv(site, s) && Serves(s, op)
    ensures var s' := ReadAsked(s, op.txn, op.variable);
            && ReadAnswered(s', op)
            && op.variable in s.uncommitted
            && ReadAt(s', op) == Response(true, s.uncommitted[op.variable])
  {
    ServesIffGranted(site, s, op);
  }

  /**
   * A read pass stops at the first up hosting site that serves the read:
   * that site served it and was asked, and no up site before it did.
   */
  lemma ReadPassStops(ss: seq<SiteState>, hosts: seq<int>, up: seq<bool>, op: Operation)
    requires |up| == |ss| && InRow(|ss|, hosts) && Ascending(hosts)
    ensures var r := ReadPass(ss, hosts, up, op);
            && (r.1 != 0 ==>
                  Serves(ss[r.1 - 1], op) && r.0[r.1 - 1] == ReadAsked(ss[r.1 - 1], op.txn, op.variable))
            && (forall h :: h in hosts && up[h - 1] && (r.1 == 0 || h < r.1) ==> !Serves(ss[h - 1], op))
  {
    ScanStops(ss, hosts, up, ReadAsk(op.txn, op.variable), ReadServes(op));
    ScanGranted(ss, hosts, up, ReadAsk(op.txn, op.variable), ReadServes(op));
  }

  /**
   * Where a read pass succeeds, the serving site answers with its scratch
   * value for the variable, so a transaction reads its own writes.
   */
  lemma ReadPassValue(ss: seq<SiteState>, hosts: seq<int>, up: seq<bool>, op: Operation)
    requires |up| == |ss| && InRow(|ss|, hosts) && Ascending(hosts)
    requires forall i :: 0 <= i < |ss| ==> Inv(i + 1, ss[i])
    ensures var r := ReadPass(ss, hosts, up, op);
            r.1 != 0 ==>
              && ReadAnswered(r.0[r.1 - 1], op)
              && op.variable in ss[r.1 - 1].uncommitted
              && ReadAt(r.0[r.1 - 1], op) == Response(true, ss[r.1 - 1].uncommitted[op.variable])
  {
    var r := ReadPass(ss, hosts, up, op);
    ReadPassStops(ss, hosts, up, op);
    if r.1 != 0 {
      var i := r.1 - 1;
      assert Inv(i + 1, ss[i]);
      ServedValue(i + 1, ss[i], op);
    }
  }

  /** Site state s holds value as the current (scratch) value of variable v. */
  predicate ScratchIs(s: SiteState, v: int, value: int) {
    v in s.uncommitted && s.uncommitted[v] == value
  }

  /** The value a successful read pass answers is the serving site's scratch value before the pass. */
  lemma ReadPassAnswer(ss: seq<SiteState>, hosts: seq<int>, up: seq<bool>, op: Operation,
                       ss': seq<SiteState>, site: int, value: int)
    requires |up| == |ss| && InRow(|ss|, hosts) && Ascending(hosts)
    requires forall i :: 0 <= i < |ss| ==> Inv(i + 1, ss[i])
    requires ReadPass(ss, hosts, up, op) == (ss', site) && site != 0
    requires ReadAnswered(ss'[site - 1], op) && value == ReadAt(ss'[site - 1], op).readResult
    ensures ScratchIs(ss[site - 1], op.variable, value)
  {
    ReadPassValue(ss, hosts, up, op);
  }

  /**
   * A read pass asks the up hosting sites in ascending order and passes
   * over exactly those that refuse the read lock: every up hosting site
   * before the serving one (every one, when the pass fails) refused.
   */
  lemma ReadPassRefusals(ss: seq<SiteState>, hosts: seq<int>, up: seq<bool>, op: Operation)
    requires |up| == |ss| && InRow(|ss|, hosts) && Ascending(hosts)
    requires forall i :: 0 <= i < |ss| ==> Inv(i + 1, ss[i])
    requires forall h :: h in hosts && up[h - 1] ==> op.variable in ss[h - 1].upToDate
    ensures var site := ReadPass(ss, hosts, up, op).1;
            forall h :: h in hosts && up[h - 1] && (site == 0 || h < site) ==>
              !ReadLockGranted(ss[h - 1], op.txn, op.variable)
  {
    var site := ReadPass(ss, hosts, up, op).1;
    ReadPassStops(ss, hosts, up, op);
    forall h | h in hosts && up[h - 1] && (site == 0 || h < site)
      ensures !ReadLockGranted(ss[h - 1], op.txn, op.variable)
    {
      ServesIffGranted(h, ss[h - 1], op);
    }
  }

  // ---------------------------------------------------------------------------
  // The snapshot-read pass
  // ---------------------------------------------------------------------------

  /** A site left as it is: a snapshot read takes no lock. */
  function Unasked(): SiteState -> SiteState {
    (s: SiteState) => s
  }

  /** Whether a site's snapshot read of op succeeds. */
  function SnapshotFound(op: Operation): SiteState -> bool {
    (s: SiteState) => ReadOnlyAt(s, op).success
  }

  /** ReadOnly: the first up hosting site, in ascending order, whose snapshot read succeeds, or 0. */
  function ReadOnlyPass(ss: seq<SiteState>, hosts: seq<int>, up: seq<bool>, op: Operation): (site: int)
    requires |up| == |ss| && InRow(|ss|, hosts)
    ensures site != 0 ==> site in hosts && 1 <= site <= |ss| && up[site - 1]
  {
    Scan(ss, hosts, up, Unasked(), SnapshotFound(op)).1
  }

  /** One step of a snapshot pass: its first hosting site, then the pass over the rest. */
  lemma ReadOnlyPassStep(ss: seq<SiteState>, hosts: seq<int>, up: seq<bool>, op: Operation)
    requires |up| == |ss| && InRow(|ss|, hosts) && hosts != []
    ensures 1 <= hosts[0] <= |ss| && InRow(|ss|, hosts[1..])
    ensures var h := hosts[0];
            ReadOnlyPass(ss, hosts, up, op) ==
              if up[h - 1] && ReadOnlyAt(ss[h - 1], op).success then h
              else ReadOnlyPass(ss, hosts[1..], up, op)
  {
    ScanStep(ss, hosts, up, Unasked(), SnapshotFound(op));
    assert ss[hosts[0] - 1 := ss[hosts[0] - 1]] == ss;
  }

  /**
   * The snapshot pass answers from the first up hosting site that can: that
   * site's snapshot read succeeds and no earlier up site's does (no up
   * site's at all when the pass fails).
   */
  lemma ReadOnlyPassSpec(ss: seq<SiteState>, hosts: seq<int>, up: seq<bool>, op: Operation)
    requires |up| == |ss| && InRow(|ss|, hosts) && Ascending(hosts)
    ensures var site := ReadOnlyPass(ss, hosts, up, op);
            && (site != 0 ==> ReadOnlyAt(ss[site - 1], op).success)
            && (forall h :: h in hosts && up[h - 1] && (site == 0 || h < site) ==>
                              !ReadOnlyAt(ss[h - 1], op).success)
  {
    ScanStops(ss, hosts, up, Unasked(), SnapshotFound(op));
  }

  // ---------------------------------------------------------------------------
  // The two passes of a write
  // ---------------------------------------------------------------------------

  /** Whether a site grants txn's WRITE lock on v. */
  function WriteGrant(txn: int, v: int): SiteState -> bool {
    (s: SiteState) => WriteLockCheck(s.lockTable, txn, v)
  }

  /** A site after txn asks it for a WRITE lock on v. */
  function WriteAsk(txn: int, v: int): SiteState -> SiteState {
    (s: SiteState) => WriteLockState(s, txn, v)
  }

  /** A site after the write op reaches it. */
  function WriteAt(op: Operation): SiteState -> SiteState {
    (s: SiteState) => WriteState(s, op)
  }

  /** The second pass does not look at answers. */
  function Unjudged(): SiteState -> bool {
    (s: SiteState) => true
  }

  /**
   * Write, first pass: every up hosting site is asked for the WRITE lock,
   * whatever the earlier answers; the flag says whether all of them granted.
   */
  function WriteLocks(ss: seq<SiteState>, hosts: seq<int>, up: seq<bool>, txn: int, v: int): (r: (seq<SiteState>, bool))
    requires |up| == |ss| && InRow(|ss|, hosts)
    ensures |r.0| == |ss|
  {
    Sweep(ss, hosts, up, WriteAsk(txn, v), WriteGrant(txn, v))
  }

  /** Write, second pass: the write reaches every up hosting site. */
  function WriteAll(ss: seq<SiteState>, hosts: seq<int>, up: seq<bool>, op: Operation): (r: seq<SiteState>)
    requires |up| == |ss| && InRow(|ss|, hosts)
    ensures |r| == |ss|
  {
    Sweep(ss, hosts, up, WriteAt(op), Unjudged()).0
  }

  /**
   * One step of the first write pass: when ss' is ss after the first site
   * of hosts (if it is up) was asked for the WRITE lock, the pass over hosts
   * from ss is that site's answer joined to the pass over the rest from ss'.
   */
  lemma WriteLocksStep(ss: seq<SiteState>, ss': seq<SiteState>, hosts: seq<int>, up: seq<bool>, txn: int, v: int)
    requires |up| == |ss| && InRow(|ss|, hosts) && hosts != [] && 1 <= hosts[0] <= |ss|
    requires ss' == if up[hosts[0] - 1] then ss[hosts[0] - 1 := WriteLockState(ss[hosts[0] - 1], txn, v)] else ss
    ensures InRow(|ss|, hosts[1..])
    ensures var h := hosts[0];
            var rest := WriteLocks(ss', hosts[1..], up, txn, v);
            WriteLocks(ss, hosts, up, txn, v) ==
              (rest.0, (!up[h - 1] || WriteLockCheck(ss[h - 1].lockTable, txn, v)) && rest.1)
  {
    SweepStep(ss, hosts, up, WriteAsk(txn, v), WriteGrant(txn, v));
  }

  /**
   * One step of the second write pass: when ss' is ss after the write
   * reached the first site of hosts (if it is up), the pass over hosts from
   * ss ends where the pass over the rest from ss' does.
   */
  lemma WriteAllStep(ss: seq<SiteState>, ss': seq<SiteState>, hosts: seq<int>, up: seq<bool>, op: Operation)
    requires |up| == |ss| && InRow(|ss|, hosts) && hosts != [] && 1 <= hosts[0] <= |ss|
    requires ss' == if up[hosts[0] - 1] then ss[hosts[0] - 1 := WriteState(ss[hosts[0] - 1], op)] else ss
    ensures InRow(|ss|, hosts[1..])
    ensures WriteAll(ss, hosts, up, op) == WriteAll(ss', hosts[1..], up, op)
  {
    SweepStep(ss, hosts, up, WriteAt(op), Unjudged());
  }

  /**
   * The first pass succeeds exactly when every up hosting site grants the
   * WRITE lock, and it queues a request at or grants each of them.
   */
  lemma WriteLocksSpec(ss: seq<SiteState>, hosts: seq<int>, up: seq<bool>, txn: int, v: int)
    requires |up| == |ss| && InRow(|ss|, hosts) && Ascending(hosts)
    ensures var (ss', ok) := WriteLocks(ss, hosts, up, txn, v);
            && (ok <==> forall h :: h in UpIn(hosts, up) ==> WriteLockCheck(ss[h - 1].lockTable, txn, v))
            && (forall i :: 0 <= i < |ss| ==>
                  ss'[i] == if i + 1 in UpIn(hosts, up) then WriteLockState(ss[i], txn, v) else ss[i])
  {
    SweepGrants(ss, hosts, up, WriteAsk(txn, v), WriteGrant(txn, v));
    SweepAsks(ss, hosts, up, WriteAsk(txn, v), WriteGrant(txn, v));
  }

  /**
   * When every up hosting site grants the WRITE lock, the second pass
   * leaves the written value as the scratch value at each of them; no
   * other site changes.
   */
  lemma WriteLands(ss: seq<SiteState>, hosts: seq<int>, up: seq<bool>, op: Operation)
    requires |up| == |ss| && InRow(|ss|, hosts) && Ascending(hosts)
    requires forall i :: 0 <= i < |ss| ==> Inv(i + 1, ss[i])
    requires WriteLocks(ss, hosts, up, op.txn, op.variable).1
    ensures var ss' := WriteAll(WriteLocks(ss, hosts, up, op.txn, op.variable).0, hosts, up, op);
            && (forall h :: h in UpIn(hosts, up) ==>
                  op.variable in ss'[h - 1].uncommitted && ss'[h - 1].uncommitted[op.variable] == op.value)
            && (forall i :: 0 <= i < |ss| && i + 1 !in UpIn(hosts, up) ==> ss'[i] == ss[i])
  {
    var locked := WriteLocks(ss, hosts, up, op.txn, op.variable).0;
    WriteLocksSpec(ss, hosts, up, op.txn, op.variable);
    SweepAsks(locked, hosts, up, WriteAt(op), Unjudged());
    var ss' := WriteAll(locked, hosts, up, op);
    forall h | h in UpIn(hosts, up)
      ensures op.variable in ss'[h - 1].uncommitted && ss'[h - 1].uncommitted[op.variable] == op.value
    {
      assert WriteLockCheck(ss[h - 1].lockTable, op.txn, op.variable);
      assert ss'[h - 1] == WriteState(WriteLockState(ss[h - 1], op.txn, op.variable), op);
      GrantedWriteLands(h, ss[h - 1], op);
    }
  }

  /** With no hosting site up, a write is granted and changes nothing. */
  lemma WriteVacuous(ss: seq<SiteState>, hosts: seq<int>, up: seq<bool>, op: Operation)
    requires |up| == |ss| && InRow(|ss|, hosts) && Ascending(hosts)
    requires UpIn(hosts, up) == {}
    ensures WriteLocks(ss, hosts, up, op.txn, op.variable) == (ss, true)
    ensures WriteAll(ss, hosts, up, op) == ss
  {
    WriteLocksSpec(ss, hosts, up, op.txn, op.variable);
    SweepAsks(ss, hosts, up, WriteAt(op), Unjudged());
    assert WriteLocks(ss, hosts, up, op.txn, op.variable).0 == ss;
    assert WriteAll(ss, hosts, up, op) == ss;
  }

  // ---------------------------------------------------------------------------
  // Wait-for edges
  // ---------------------------------------------------------------------------

  /**
   * The wait-for edges of all the sites of the row together, site by site:
   * an edge is in it exactly when some site's lock table has it.
   */
  function AllWaitEdges(ss: seq<SiteState>): set<(int, int)> {
    if ss == [] then {} else AllWaitEdges(ss[..|ss| - 1]) + WaitEdges(ss[|ss| - 1].lockTable)
  }

  /** Every wait-for edge of the row is an edge of some site's lock table. */
  lemma {:induction false} AllWaitEdgesSound(ss: seq<SiteState>, p: (int, int))
    requires p in AllWaitEdges(ss)
    ensures exists i :: 0 <= i < |ss| && p in WaitEdges(ss[i].lockTable)
  {
    var last := |ss| - 1;
    if p !in WaitEdges(ss[last].lockTable) {
      var pre := ss[..last];
      AllWaitEdgesSound(pre, p);
      var i :| 0 <= i < |pre| && p in WaitEdges(pre[i].lockTable);
      assert pre[i] == ss[i];
    }
  }

  /** Every edge of every site's lock table is a wait-for edge of the row. */
  lemma {:induction false} AllWaitEdgesComplete(ss: seq<SiteState>, i: int, p: (int, int))
    requires 0 <= i < |ss| && p in WaitEdges(ss[i].lockTable)
    ensures p in AllWaitEdges(ss)
  {
    var last := |ss| - 1;
    var pre := ss[..last];
    if i < last {
      assert pre[i] == ss[i];
      AllWaitEdgesComplete(pre, i, p);
      assert p in AllWaitEdges(ss[..|ss| - 1]);
    } else {
      assert p in WaitEdges(ss[|ss| - 1].lockTable);
    }
  }

  /** The edges of the first i + 1 sites: those of the first i and those of site i + 1. */
  lemma AllWaitEdgesSnoc(ss: seq<SiteState>, i: int)
    requires 0 <= i < |ss|
    ensures AllWaitEdges(ss[..i + 1]) == AllWaitEdges(ss[..i]) + WaitEdges(ss[i].lockTable)
  {
    assert ss[..i + 1][..i] == ss[..i];
  }
}
