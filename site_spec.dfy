/**
 * The state of one site as a value, and the effect of every site operation
 * as a function on that value. The imperative DataManager class is proved
 * to move between these states; the lemmas here state what the operations
 * promise.
 */
module SiteSpec {

  import opened Records
  import opened Placement
  import opened Locks
  import opened Versions

  datatype SiteStatus = Up | Down

  /**
   * Everything a site stores: its status, the times it failed and recovered,
   * the scratch value of each variable (uncommitted), the committed
   * histories (newest first), the freshness flags (upToDate), the lock
   * table, and the variables each transaction has written here (dirty).
   */
  datatype SiteState = SiteState(
    status: SiteStatus,
    failureHistory: seq<int>,
    recoveryHistory: seq<int>,
    uncommitted: map<int, int>,
    committed: map<int, seq<Version>>,
    upToDate: map<int, bool>,
    lockTable: LockTable,
    dirty: map<int, set<int>>)

  /** The variables txn has written at this site. */
  function DirtyOf(dirty: map<int, set<int>>, txn: int): set<int> {
    if txn in dirty then dirty[txn] else {}
  }

  /** The sentinel version every history starts from. */
  function InitialVersion(v: int): Version {
    Version(10 * v, -1)
  }

  /** The state the constructor builds for site `site`. */
  function Initial(site: int): SiteState {
    var vs := ResidentSet(site);
    SiteState(Up, [], [],
              map v | v in vs :: 10 * v,
              map v | v in vs :: [InitialVersion(v)],
              map v | v in vs :: true,
              map[], map[])
  }

  /**
   * The site invariant: the resident variables are fixed, every history is
   * non-empty and still ends in its sentinel version, the lock table is well
   * formed, flags and written variables have scratch values, and an up site
   * has a freshness flag for every resident variable.
   */
  ghost predicate Inv(site: int, s: SiteState) {
    && s.committed.Keys == ResidentSet(site)
    && (forall v :: v in s.committed ==>
          |s.committed[v]| > 0 && s.committed[v][|s.committed[v]| - 1] == InitialVersion(v))
    && AllWellFormed(s.lockTable)
    && s.upToDate.Keys <= s.committed.Keys
    && s.upToDate.Keys <= s.uncommitted.Keys
    && (forall t :: t in s.dirty ==> s.dirty[t] <= s.uncommitted.Keys)
    && (s.status == Up ==> s.committed.Keys <= s.upToDate.Keys)
  }

  /** Every history is ordered and no commit is later than t. */
  ghost predicate Chronological(s: SiteState, t: int) {
    forall v :: v in s.committed ==>
      Ordered(s.committed[v]) && (|s.committed[v]| > 0 ==> s.committed[v][0].commitTime <= t)
  }

  // ---------------------------------------------------------------------------
  // Fail and Recover
  // ---------------------------------------------------------------------------

  /** Fail: DOWN, scratch, flags, locks and written sets cleared, failure time logged. */
  function FailState(s: SiteState, ts: int): (r: SiteState)
    ensures r.committed == s.committed && r.status == Down
    ensures r.failureHistory == s.failureHistory + [ts] && r.recoveryHistory == s.recoveryHistory
    ensures forall t, v :: !Holds(r.lockTable, t, v) && v !in r.upToDate && DirtyOf(r.dirty, t) == {}
  {
    s.(status := Down, uncommitted := map[], upToDate := map[], lockTable := map[], dirty := map[],
       failureHistory := s.failureHistory + [ts])
  }

  /**
   * Recover: UP, recovery time logged, every resident variable's scratch
   * value reset to its newest committed value, replicated (even) variables
   * marked stale and the others fresh.
   */
  function RecoverState(s: SiteState, ts: int): (r: SiteState)
    requires forall v :: v in s.committed ==> |s.committed[v]| > 0
    ensures r.committed == s.committed && r.status == Up && r.failureHistory == s.failureHistory
    ensures r.lockTable == s.lockTable && r.dirty == s.dirty
    ensures forall v :: v in s.committed ==>
              && v in r.uncommitted && r.uncommitted[v] == s.committed[v][0].value
              && v in r.upToDate && (r.upToDate[v] <==> v % 2 == 1)
  {
    s.(status := Up, recoveryHistory := s.recoveryHistory + [ts],
       uncommitted := s.uncommitted + map v | v in s.committed :: s.committed[v][0].value,
       upToDate := s.upToDate + map v | v in s.committed :: v % 2 != 0)
  }

  // ---------------------------------------------------------------------------
  // Locks, locked read and write
  // ---------------------------------------------------------------------------

  /** Whether AcquireReadLock grants: the copy is fresh and the grant rule holds. */
  function ReadLockGranted(s: SiteState, txn: int, v: int): bool
    requires v in s.upToDate
  {
    s.upToDate[v] && ReadLockCheck(s.lockTable, txn, v)
  }

  /** The state after AcquireReadLock: a stale copy leaves the lock table alone. */
  function ReadLockState(s: SiteState, txn: int, v: int): (r: SiteState)
    requires v in s.upToDate
    ensures r.(lockTable := s.lockTable) == s
    ensures ReadLockGranted(s, txn, v) ==> Holds(r.lockTable, txn, v)
    ensures !ReadLockGranted(s, txn, v) ==> forall t :: Holds(r.lockTable, t, v) <==> Holds(s.lockTable, t, v)
  {
    if s.upToDate[v] then s.(lockTable := AfterReadRequest(s.lockTable, txn, v)) else s
  }

  /** The state after AcquireWriteLock. */
  function WriteLockState(s: SiteState, txn: int, v: int): (r: SiteState)
    ensures r.(lockTable := s.lockTable) == s
    ensures WriteLockCheck(s.lockTable, txn, v) ==> CanWrite(r.lockTable, txn, v)
    ensures !WriteLockCheck(s.lockTable, txn, v) ==>
              && v in r.lockTable && Request(txn, Write) in r.lockTable[v].waitlist
              && forall t :: Holds(r.lockTable, t, v) <==> Holds(s.lockTable, t, v)
  {
    s.(lockTable := AfterWriteRequest(s.lockTable, txn, v))
  }

  predicate Holds(lt: LockTable, txn: int, v: int) {
    v in lt && txn in lt[v].holders
  }

  /** Read: the scratch value, if the copy is fresh and txn holds a lock on v. */
  function ReadAt(s: SiteState, op: Operation): Response
    requires op.variable in s.upToDate && s.upToDate.Keys <= s.uncommitted.Keys
  {
    if !s.upToDate[op.variable] then Failed
    else if !Holds(s.lockTable, op.txn, op.variable) then Failed
    else Response(true, s.uncommitted[op.variable])
  }

  /** txn holds v in WRITE mode. */
  predicate CanWrite(lt: LockTable, txn: int, v: int) {
    v in lt && lt[v].mode == Write && txn in lt[v].holders
  }

  /** Write: with the WRITE lock, set the scratch value and record v as written by txn. */
  function WriteState(s: SiteState, op: Operation): SiteState {
    if CanWrite(s.lockTable, op.txn, op.variable) then
      s.(uncommitted := s.uncommitted[op.variable := op.value],
         dirty := s.dirty[op.txn := DirtyOf(s.dirty, op.txn) + {op.variable}])
    else s
  }

  function WriteResponse(s: SiteState, op: Operation): Response {
    if CanWrite(s.lockTable, op.txn, op.variable) then Response(true, 0) else Failed
  }

  /** ReadOnly: the snapshot read of a resident variable's history; locks play no part. */
  function ReadOnlyAt(s: SiteState, op: Operation): (r: Response)
    ensures r.success ==>
              && op.variable in s.committed
              && exists k :: Visible(s.committed[op.variable], op.timestamp, k)
                             && r.readResult == s.committed[op.variable][k].value
    ensures op.variable in s.committed && op.variable % 2 == 1 ==>
              (r.success <==> exists k :: Visible(s.committed[op.variable], op.timestamp, k))
  {
    if op.variable !in s.committed then Failed
    else Snapshot(s.committed[op.variable], s.failureHistory, op.variable % 2 == 0, op.timestamp)
  }

  // ---------------------------------------------------------------------------
  // Commit and Abort
  // ---------------------------------------------------------------------------

  /** The lock table after a transaction finishes here: released, then re-granted. */
  function Unlocked(lt: LockTable, txn: int): LockTable {
    Reassigned(Released(lt, txn))
  }

  /** What Commit needs: every variable txn wrote is resident and has a scratch value. */
  predicate CommitReady(s: SiteState, txn: int) {
    forall v :: v in DirtyOf(s.dirty, txn) ==> v in s.committed && v in s.uncommitted
  }

  /**
   * Commit: each variable txn wrote gets one new version (its scratch value
   * at time ts) in front of its history and is marked fresh; the written set
   * is dropped and the locks are released and re-granted.
   */
  function CommitState(s: SiteState, txn: int, ts: int): (r: SiteState)
    requires CommitReady(s, txn)
    ensures r.committed.Keys == s.committed.Keys && r.status == s.status && r.failureHistory == s.failureHistory
    ensures forall v :: v in s.committed && v !in DirtyOf(s.dirty, txn) ==> r.committed[v] == s.committed[v]
    ensures forall v :: v in DirtyOf(s.dirty, txn) ==>
              && v in r.committed && |r.committed[v]| > 0
              && r.committed[v][0] == Version(s.uncommitted[v], ts) && r.committed[v][1..] == s.committed[v]
              && v in r.upToDate && r.upToDate[v]
    ensures DirtyOf(r.dirty, txn) == {} && forall u :: u in r.lockTable ==> !HeadGrantable(r.lockTable[u])
  {
    var d := DirtyOf(s.dirty, txn);
    s.(committed := map v | v in s.committed ::
                      if v in d then [Version(s.uncommitted[v], ts)] + s.committed[v] else s.committed[v],
       upToDate := s.upToDate + map v | v in d :: true,
       dirty := s.dirty - {txn},
       lockTable := Unlocked(s.lockTable, txn))
  }

  /** What Abort needs: every variable txn wrote has a committed version. */
  predicate AbortReady(s: SiteState, txn: int) {
    forall v :: v in DirtyOf(s.dirty, txn) ==> v in s.committed && |s.committed[v]| > 0
  }

  /**
   * Abort: each variable txn wrote gets back its newest committed value as
   * scratch value; the written set is dropped and the locks are released
   * and re-granted.
   */
  function AbortState(s: SiteState, txn: int): (r: SiteState)
    requires AbortReady(s, txn)
    ensures r.committed == s.committed && r.status == s.status && r.failureHistory == s.failureHistory
    ensures r.uncommitted.Keys == s.uncommitted.Keys + DirtyOf(s.dirty, txn)
    ensures forall v :: v in DirtyOf(s.dirty, txn) ==> r.uncommitted[v] == s.committed[v][0].value
    ensures forall v :: v in s.uncommitted && v !in DirtyOf(s.dirty, txn) ==> r.uncommitted[v] == s.uncommitted[v]
    ensures DirtyOf(r.dirty, txn) == {} && forall u :: u in r.lockTable ==> !HeadGrantable(r.lockTable[u])
  {
    var d := DirtyOf(s.dirty, txn);
    s.(uncommitted := s.uncommitted + map v | v in d :: s.committed[v][0].value,
       dirty := s.dirty - {txn},
       lockTable := Unlocked(s.lockTable, txn))
  }

  // ---------------------------------------------------------------------------
  // What the operations promise
  // ---------------------------------------------------------------------------

  /** A new site satisfies the invariant, and its histories are the sentinel versions alone. */
  lemma InitialInv(site: int)
    ensures Inv(site, Initial(site))
    ensures Chronological(Initial(site), -1)
    ensures forall v :: Resident(site, v) ==> Initial(site).committed[v] == [Version(10 * v, -1)]
  {
  }

  /**
   * Fail keeps the invariant and every history; it leaves nothing locked,
   * nothing fresh and nothing written.
   */
  lemma FailInv(site: int, s: SiteState, ts: int)
    requires Inv(site, s)
    ensures Inv(site, FailState(s, ts))
    ensures FailState(s, ts).committed == s.committed
    ensures FailState(s, ts).status == Down
    ensures FailState(s, ts).failureHistory == s.failureHistory + [ts]
    ensures FailState(s, ts).recoveryHistory == s.recoveryHistory
    ensures && FailState(s, ts).uncommitted == map[] && FailState(s, ts).upToDate == map[]
            && FailState(s, ts).lockTable == map[] && FailState(s, ts).dirty == map[]
  {
  }

  /** Recover keeps the invariant. */
  lemma RecoverInv(site: int, s: SiteState, ts: int)
    requires Inv(site, s)
    ensures Inv(site, RecoverState(s, ts))
  {
    RecoverMaps(s, ts);
  }

  /**
   * Recover keeps every history; afterwards every resident variable has its
   * newest committed value as scratch value, and exactly the non-replicated
   * ones are fresh.
   */
  lemma RecoverSpec(site: int, s: SiteState, ts: int)
    requires Inv(site, s)
    ensures RecoverState(s, ts).committed == s.committed
    ensures RecoverState(s, ts).status == Up
    ensures RecoverState(s, ts).recoveryHistory == s.recoveryHistory + [ts]
    ensures RecoverState(s, ts).failureHistory == s.failureHistory
    ensures RecoverState(s, ts).lockTable == s.lockTable && RecoverState(s, ts).dirty == s.dirty
    ensures forall v :: Resident(site, v) ==>
              && RecoverState(s, ts).uncommitted[v] == s.committed[v][0].value
              && RecoverState(s, ts).upToDate[v] == (v % 2 == 1)
  {
    RecoverMaps(s, ts);
  }

  /** Recover gives every variable with a history its newest value and its replication flag. */
  lemma RecoverMaps(s: SiteState, ts: int)
    requires forall v :: v in s.committed ==> |s.committed[v]| > 0
    ensures var s' := RecoverState(s, ts);
            && s'.uncommitted.Keys == s.uncommitted.Keys + s.committed.Keys
            && s'.upToDate.Keys == s.upToDate.Keys + s.committed.Keys
            && (forall v :: v in s.committed ==>
                  s'.uncommitted[v] == s.committed[v][0].value && s'.upToDate[v] == (v % 2 != 0))
  {
  }

  /**
   * AcquireReadLock: a stale copy is refused with no change; a grant makes
   * txn a holder and turns IDLE into READ; a refusal queues (txn, READ) once.
   */
  lemma ReadLockSpec(site: int, s: SiteState, txn: int, v: int)
    requires Inv(site, s) && v in s.upToDate
    ensures Inv(site, ReadLockState(s, txn, v))
    ensures !s.upToDate[v] ==> !ReadLockGranted(s, txn, v) && ReadLockState(s, txn, v) == s
    ensures ReadLockGranted(s, txn, v) ==>
              var e := ReadLockState(s, txn, v).lockTable[v];
              && Holds(ReadLockState(s, txn, v).lockTable, txn, v)
              && e.mode == (if v !in s.lockTable || s.lockTable[v].mode == Idle then Read else s.lockTable[v].mode)
              && e.holders == EntryOr(s.lockTable, v, Read).holders + {txn}
              && e.waitlist == EntryOr(s.lockTable, v, Read).waitlist
    ensures s.upToDate[v] && !ReadLockGranted(s, txn, v) ==>
              ReadLockState(s, txn, v).lockTable[v] == Enqueue(s.lockTable[v], Request(txn, Read))
    ensures forall u :: u in s.lockTable && u != v ==> ReadLockState(s, txn, v).lockTable[u] == s.lockTable[u]
  {
    ReadRequestWellFormed(s.lockTable, txn, v);
  }

  /**
   * AcquireWriteLock: a grant leaves txn the only holder, in WRITE mode; a
   * refusal queues (txn, WRITE) once; other entries do not change.
   */
  lemma WriteLockSpec(site: int, s: SiteState, txn: int, v: int)
    requires Inv(site, s)
    ensures Inv(site, WriteLockState(s, txn, v))
    ensures WriteLockCheck(s.lockTable, txn, v) ==>
              WriteLockState(s, txn, v).lockTable[v].mode == Write &&
              WriteLockState(s, txn, v).lockTable[v].holders == {txn} &&
              WriteLockState(s, txn, v).lockTable[v].waitlist == EntryOr(s.lockTable, v, Write).waitlist
    ensures !WriteLockCheck(s.lockTable, txn, v) ==>
              WriteLockState(s, txn, v).lockTable[v] == Enqueue(s.lockTable[v], Request(txn, Write))
    ensures forall u :: u in s.lockTable && u != v ==> WriteLockState(s, txn, v).lockTable[u] == s.lockTable[u]
  {
    WriteRequestWellFormed(s.lockTable, txn, v);
  }

  /**
   * Write succeeds exactly under the WRITE lock of txn, and then changes
   * only the scratch value of v and the written set of txn.
   */
  lemma WriteSpec(site: int, s: SiteState, op: Operation)
    requires Inv(site, s)
    ensures Inv(site, WriteState(s, op))
    ensures WriteResponse(s, op).success <==> CanWrite(s.lockTable, op.txn, op.variable)
    ensures !WriteResponse(s, op).success ==> WriteState(s, op) == s
    ensures WriteResponse(s, op).success ==>
              var s' := WriteState(s, op);
              && s'.uncommitted == s.uncommitted[op.variable := op.value]
              && s'.dirty.Keys == s.dirty.Keys + {op.txn}
              && DirtyOf(s'.dirty, op.txn) == DirtyOf(s.dirty, op.txn) + {op.variable}
              && (forall t :: t in s.dirty && t != op.txn ==> s'.dirty[t] == s.dirty[t])
              && s'.(uncommitted := s.uncommitted, dirty := s.dirty) == s
  {
  }

  /**
   * Read-your-writes: after txn writes v under its WRITE lock, its read of
   * a fresh copy of v returns the value it wrote.
   */
  lemma ReadYourWrites(site: int, s: SiteState, op: Operation)
    requires Inv(site, s) && op.kind == WriteOp
    requires CanWrite(s.lockTable, op.txn, op.variable)
    requires op.variable in s.upToDate && s.upToDate[op.variable]
    ensures ReadAt(WriteState(s, op), Operation(op.txn, op.variable, ReadOp, -1, op.timestamp))
            == Response(true, op.value)
  {
  }

  /** Read fails, changing nothing, unless the copy is fresh and txn holds a lock on v. */
  lemma ReadSpec(site: int, s: SiteState, op: Operation)
    requires Inv(site, s) && op.variable in s.upToDate
    ensures ReadAt(s, op).success <==> s.upToDate[op.variable] && Holds(s.lockTable, op.txn, op.variable)
    ensures ReadAt(s, op).success ==> ReadAt(s, op).readResult == s.uncommitted[op.variable]
  {
  }

  /**
   * ReadOnly fails on a non-resident variable; otherwise it returns the
   * newest version committed by the operation's start time, except that a
   * replicated variable fails if the site failed since that version was
   * committed. A non-replicated resident variable always succeeds.
   */
  lemma ReadOnlySpec(site: int, s: SiteState, op: Operation)
    requires Inv(site, s) && (forall u :: u in s.committed ==> Ordered(s.committed[u])) && op.timestamp >= -1
    ensures op.variable !in s.committed ==> ReadOnlyAt(s, op) == Failed
    ensures op.variable in s.committed ==>
              var h := s.committed[op.variable];
              && (ReadOnlyAt(s, op).success <==>
                    exists k :: Visible(h, op.timestamp, k)
                                && !(op.variable % 2 == 0 && FailedWithin(s.failureHistory, h[k].commitTime, op.timestamp)))
              && (ReadOnlyAt(s, op).success ==>
                    exists k :: && 0 <= k < |h| && h[k].commitTime <= op.timestamp
                                && ReadOnlyAt(s, op).readResult == h[k].value
                                && forall j :: 0 <= j < |h| && h[j].commitTime <= op.timestamp ==>
                                                 h[j].commitTime <= h[k].commitTime)
    ensures Resident(site, op.variable) && op.variable % 2 == 1 ==> ReadOnlyAt(s, op).success
  {
    if op.variable in s.committed {
      var h := s.committed[op.variable];
      if ReadOnlyAt(s, op).success {
        var k :| Visible(h, op.timestamp, k) && ReadOnlyAt(s, op).readResult == h[k].value;
        VisibleIsLatest(h, op.timestamp, k);
      }
      if op.variable % 2 == 1 {
        UnreplicatedSnapshotSucceeds(h, s.failureHistory, op.timestamp);
      }
    }
  }

  /** Release followed by re-grant keeps the lock invariant and leaves no grantable head. */
  lemma UnlockedSpec(lt: LockTable, txn: int)
    requires AllWellFormed(lt)
    ensures AllWellFormed(Unlocked(lt, txn))
    ensures Unlocked(lt, txn).Keys == lt.Keys
    ensures forall v :: v in lt ==> !HeadGrantable(Unlocked(lt, txn)[v])
  {
  }

  /**
   * After Commit or Abort, txn still holds v only if it did not hold v before
   * and had a request queued on it: the requests of entries txn did not hold
   * are not purged, and ReassignLocks may grant them.
   */
  lemma {:induction false} UnlockedStaleGrant(lt: LockTable, txn: int, v: int)
    requires v in lt && txn in Unlocked(lt, txn)[v].holders
    ensures txn !in lt[v].holders
    ensures exists r :: r in lt[v].waitlist && r.txn == txn
  {
    var e := Release(lt[v], txn);
    assert Released(lt, txn)[v] == e;
    SettleSpec(e);
    var k := Granted(e);
    assert txn in Txns(e.waitlist[..k]);
    var r :| r in e.waitlist[..k] && r.txn == txn;
    assert r in e.waitlist;
  }

  /** Commit keeps the invariant. */
  lemma CommitInv(site: int, s: SiteState, txn: int, ts: int)
    requires Inv(site, s) && CommitReady(s, txn)
    ensures Inv(site, CommitState(s, txn, ts))
  {
    CommitKeys(s, txn, ts);
    CommitSentinels(site, s, txn, ts);
    UnlockedSpec(s.lockTable, txn);
  }

  /** Commit keeps the variables with a history, and flags exactly the written ones besides the flagged ones. */
  lemma CommitKeys(s: SiteState, txn: int, ts: int)
    requires CommitReady(s, txn)
    ensures var s' := CommitState(s, txn, ts);
            && s'.committed.Keys == s.committed.Keys
            && s'.upToDate.Keys == s.upToDate.Keys + DirtyOf(s.dirty, txn)
            && s'.uncommitted == s.uncommitted
            && s'.dirty == s.dirty - {txn}
  {
  }

  /** After a commit every history still ends in its sentinel version. */
  lemma CommitSentinels(site: int, s: SiteState, txn: int, ts: int)
    requires Inv(site, s) && CommitReady(s, txn)
    ensures var s' := CommitState(s, txn, ts);
            forall v :: v in s'.committed ==>
              |s'.committed[v]| > 0 && s'.committed[v][|s'.committed[v]| - 1] == InitialVersion(v)
  {
    var s' := CommitState(s, txn, ts);
    forall v | v in s'.committed
      ensures |s'.committed[v]| > 0 && s'.committed[v][|s'.committed[v]| - 1] == InitialVersion(v)
    {
      var h := s.committed[v];
      if v in DirtyOf(s.dirty, txn) {
        assert s'.committed[v] == [Version(s.uncommitted[v], ts)] + h;
        assert s'.committed[v][|s'.committed[v]| - 1] == h[|h| - 1];
      }
    }
  }

  /**
   * Commit gives each written variable exactly one new version (its scratch
   * value at time ts) in front, and makes it fresh; other histories do not
   * change; histories stay ordered when ts is later than every earlier
   * commit; the written set of txn is gone.
   */
  lemma CommitSpec(s: SiteState, txn: int, ts: int, t: int)
    requires CommitReady(s, txn)
    requires Chronological(s, t) && t < ts
    ensures Chronological(CommitState(s, txn, ts), ts)
    ensures var s' := CommitState(s, txn, ts);
            && s'.committed.Keys == s.committed.Keys
            && (forall v :: v in DirtyOf(s.dirty, txn) ==>
                  s'.committed[v] == [Version(s.uncommitted[v], ts)] + s.committed[v] && s'.upToDate[v])
            && (forall v :: v in s.committed && v !in DirtyOf(s.dirty, txn) ==> s'.committed[v] == s.committed[v])
            && txn !in s'.dirty
            && s'.uncommitted == s.uncommitted
  {
    var s' := CommitState(s, txn, ts);
    forall v | v in s'.committed
      ensures Ordered(s'.committed[v]) && (|s'.committed[v]| > 0 ==> s'.committed[v][0].commitTime <= ts)
    {
      var h := s.committed[v];
      if v in DirtyOf(s.dirty, txn) {
        assert s'.committed[v] == [Version(s.uncommitted[v], ts)] + h;
      }
    }
  }

  /** Abort keeps the invariant. */
  lemma AbortInv(site: int, s: SiteState, txn: int)
    requires Inv(site, s) && AbortReady(s, txn)
    ensures Inv(site, AbortState(s, txn))
  {
    UnlockedSpec(s.lockTable, txn);
  }

  /**
   * Abort keeps the invariant and every history; each written variable gets
   * its newest committed value back as scratch value, and the written set of
   * txn is gone.
   */
  lemma AbortSpec(site: int, s: SiteState, txn: int)
    requires Inv(site, s) && AbortReady(s, txn)
    ensures Inv(site, AbortState(s, txn))
    ensures var s' := AbortState(s, txn);
            && s'.committed == s.committed
            && s'.upToDate == s.upToDate
            && (forall v :: v in DirtyOf(s.dirty, txn) ==> s'.uncommitted[v] == s.committed[v][0].value)
            && (forall v :: v in s.uncommitted && v !in DirtyOf(s.dirty, txn) ==> s'.uncommitted[v] == s.uncommitted[v])
            && txn !in s'.dirty
  {
    UnlockedSpec(s.lockTable, txn);
  }

  /** Aborting at a failed site, which holds no locks and no writes, changes nothing. */
  lemma AbortAfterFail(s: SiteState, ts: int, txn: int)
    ensures AbortReady(FailState(s, ts), txn)
    ensures AbortState(FailState(s, ts), txn) == FailState(s, ts)
  {
    var f := FailState(s, ts);
    assert Released(f.lockTable, txn) == map[];
    assert Reassigned(map[]) == map[];
  }

  // ---------------------------------------------------------------------------
  // Facts the coordinator relies on
  // ---------------------------------------------------------------------------

  /**
   * Every variable a transaction has written here is resident. The
   * coordinator keeps this by writing only at hosting sites; Commit and
   * Abort look the written variables up in the committed histories.
   */
  ghost predicate Confined(s: SiteState) {
    forall t :: t in s.dirty ==> s.dirty[t] <= s.committed.Keys
  }

  /** On a confined site every transaction may commit or abort. */
  lemma ConfinedReady(site: int, s: SiteState, txn: int)
    requires Inv(site, s) && Confined(s)
    ensures CommitReady(s, txn) && AbortReady(s, txn)
  {
  }

  /** Confinement survives a failure, which clears every written set. */
  lemma FailConfined(s: SiteState, ts: int)
    ensures Confined(FailState(s, ts))
  {
  }

  /** Recovery keeps the written sets and the resident variables. */
  lemma RecoverConfined(site: int, s: SiteState, ts: int)
    requires Inv(site, s) && Confined(s)
    ensures Confined(RecoverState(s, ts))
  {
  }

  /** Lock requests change only the lock table. */
  lemma LockConfined(s: SiteState, txn: int, v: int)
    requires Confined(s)
    ensures v in s.upToDate ==> Confined(ReadLockState(s, txn, v))
    ensures Confined(WriteLockState(s, txn, v))
  {
  }

  /** A write of a resident variable keeps confinement. */
  lemma WriteConfined(s: SiteState, op: Operation)
    requires Confined(s) && op.variable in s.committed
    ensures Confined(WriteState(s, op))
  {
  }

  /** Commit keeps the resident variables and drops a written set. */
  lemma CommitConfined(site: int, s: SiteState, txn: int, ts: int)
    requires Inv(site, s) && Confined(s)
    ensures CommitReady(s, txn) && Confined(CommitState(s, txn, ts))
  {
  }

  /** Abort keeps the histories and drops a written set. */
  lemma AbortConfined(site: int, s: SiteState, txn: int)
    requires Inv(site, s) && Confined(s)
    ensures AbortReady(s, txn) && Confined(AbortState(s, txn))
  {
  }

  /** A bound on commit times stays a bound when it grows. */
  lemma ChronologicalLater(s: SiteState, t: int, t': int)
    requires Chronological(s, t) && t <= t'
    ensures Chronological(s, t')
  {
  }

  /**
   * A granted read lock is always followed by a successful read of the
   * scratch value: the failure branch after a grant cannot be taken.
   */
  lemma GrantedReadSucceeds(site: int, s: SiteState, op: Operation)
    requires Inv(site, s) && op.variable in s.upToDate
    requires ReadLockGranted(s, op.txn, op.variable)
    ensures ReadAt(ReadLockState(s, op.txn, op.variable), op) == Response(true, s.uncommitted[op.variable])
  {
    ReadLockSpec(site, s, op.txn, op.variable);
  }

  /**
   * A granted write lock is always followed by a successful write, which
   * leaves the written value as the scratch value.
   */
  lemma GrantedWriteLands(site: int, s: SiteState, op: Operation)
    requires Inv(site, s) && WriteLockCheck(s.lockTable, op.txn, op.variable)
    ensures WriteResponse(WriteLockState(s, op.txn, op.variable), op).success
    ensures WriteState(WriteLockState(s, op.txn, op.variable), op).uncommitted[op.variable] == op.value
  {
    WriteLockSpec(site, s, op.txn, op.variable);
  }
}
