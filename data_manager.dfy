/**
 * One site: the lock manager and multiversion store (DataManager). Its
 * fields are updated in place by the methods below; State() reads them as a
 * SiteState value, and every method is proved to move from old(State()) to
 * the state the corresponding SiteSpec function describes.
 */
module Sites {

  import opened Sets
  import opened Records
  import opened Placement
  import opened Locks
  import opened Versions
  import opened SiteSpec
  import opened WaitGraph

  /**
   * The ListIterator loop of Commit and Abort: drops the requests of txn
   * from a waitlist, keeping the others in order.
   */
  method PurgeWaitlist(w: seq<Request>, txn: int) returns (p: seq<Request>)
    ensures p == Purge(w, txn)
  {
    p := [];
    var i := 0;
    while i < |w|
      invariant 0 <= i <= |w|
      invariant p == Purge(w[..i], txn)
    {
      assert w[..i + 1][..i] == w[..i];
      if w[i].txn != txn {
        p := p + [w[i]];
      }
      i := i + 1;
    }
    assert w[..|w|] == w;
  }

  /** The holder edges contributed by the first n waiters of an entry. */
  ghost function HolderEdgesBelow(e: LockEntry, n: int): set<(int, int)> {
    set k, h | 0 <= k < n && k < |e.waitlist| && h in e.holders && VTConflict(e, e.waitlist[k]) && h != e.waitlist[k].txn
      :: (e.waitlist[k].txn, h)
  }

  /** The queue edges whose later waiter is among the first n, waiter by waiter. */
  ghost function QueueEdgesBelow(e: LockEntry, n: int): set<(int, int)>
    requires 0 <= n <= |e.waitlist|
  {
    if n == 0 then {} else QueueEdgesBelow(e, n - 1) + EarlierEdges(e.waitlist, n - 1)
  }

  /** The edges from waiter i of w to the earlier waiters it conflicts with. */
  ghost function EarlierEdges(w: seq<Request>, i: int): set<(int, int)>
    requires 0 <= i < |w|
  {
    set j | 0 <= j < i && TTConflict(w[i], w[j]) :: (w[i].txn, w[j].txn)
  }

  /** Waiter by waiter, the first n waiters give exactly the queue edges among them. */
  lemma {:induction false} QueueEdgesPrefix(e: LockEntry, n: int)
    requires 0 <= n <= |e.waitlist|
    ensures QueueEdgesBelow(e, n) ==
              set i, j | 0 <= j < i < n && TTConflict(e.waitlist[i], e.waitlist[j])
                :: (e.waitlist[i].txn, e.waitlist[j].txn)
  {
    if n > 0 {
      QueueEdgesPrefix(e, n - 1);
    }
  }

  /**
   * GenWaitGraph's first inner loop: for every waiter in conflict with the
   * holders, an edge to each holder other than itself.
   */
  method AddHolderEdges(g0: Graph, e: LockEntry) returns (g: Graph)
    requires NoEmptyRows(g0)
    ensures NoEmptyRows(g)
    ensures EdgeSet(g) == EdgeSet(g0) + HolderEdges(e)
  {
    g := g0;
    var k := 0;
    while k < |e.waitlist|
      invariant 0 <= k <= |e.waitlist|
      invariant NoEmptyRows(g)
      invariant EdgeSet(g) == EdgeSet(g0) + HolderEdgesBelow(e, k)
    {
      var r := e.waitlist[k];
      ghost var start := g;
      if VTConflict(e, r) {
        var todo := e.holders;
        while todo != {}
          invariant todo <= e.holders
          invariant NoEmptyRows(g)
          invariant EdgeSet(g) == EdgeSet(start) + set h | h in e.holders - todo && h != r.txn :: (r.txn, h)
          decreases todo
        {
          Inhabited(todo);
          var h :| h in todo;
          if r.txn != h {
            g := AddEdge(g, r.txn, h);
          }
          todo := todo - {h};
        }
        assert HolderEdgesBelow(e, k + 1) ==
               HolderEdgesBelow(e, k) + set h | h in e.holders - {} && h != r.txn :: (r.txn, h);
      } else {
        assert HolderEdgesBelow(e, k + 1) == HolderEdgesBelow(e, k);
      }
      k := k + 1;
    }
    assert HolderEdgesBelow(e, |e.waitlist|) == HolderEdges(e);
  }

  /**
   * GenWaitGraph's second inner loop: an edge from each waiter to every
   * earlier waiter it conflicts with.
   */
  method AddQueueEdges(g0: Graph, e: LockEntry) returns (g: Graph)
    requires NoEmptyRows(g0)
    ensures NoEmptyRows(g)
    ensures EdgeSet(g) == EdgeSet(g0) + QueueEdges(e)
  {
    g := g0;
    var w := e.waitlist;
    var i := 0;
    while i < |w|
      invariant 0 <= i <= |w|
      invariant NoEmptyRows(g)
      invariant EdgeSet(g) == EdgeSet(g0) + QueueEdgesBelow(e, i)
    {
      g := AddEarlierEdges(g, w, i);
      i := i + 1;
    }
    QueueEdgesPrefix(e, |w|);
  }

  /** The inner loop of AddQueueEdges: adds the edges from waiter i to the earlier waiters. */
  method AddEarlierEdges(g0: Graph, w: seq<Request>, i: int) returns (g: Graph)
    requires NoEmptyRows(g0) && 0 <= i < |w|
    ensures NoEmptyRows(g)
    ensures EdgeSet(g) == EdgeSet(g0) + EarlierEdges(w, i)
  {
    g := g0;
    var j := 0;
    while j < i
      invariant 0 <= j <= i
      invariant NoEmptyRows(g)
      invariant EdgeSet(g) == EdgeSet(g0) + set j' | 0 <= j' < j && TTConflict(w[i], w[j']) :: (w[i].txn, w[j'].txn)
    {
      if TTConflict(w[i], w[j]) {
        g := AddEdge(g, w[i].txn, w[j].txn);
      }
      j := j + 1;
    }
  }

  /** The edges of one lock-table entry, added to a graph. */
  method AddEntryEdges(g0: Graph, e: LockEntry) returns (g: Graph)
    requires NoEmptyRows(g0)
    ensures NoEmptyRows(g)
    ensures EdgeSet(g) == EdgeSet(g0) + EntryEdges(e)
  {
    g := g0;
    if e.mode != Idle && |e.waitlist| > 0 {
      g := AddHolderEdges(g, e);
      g := AddQueueEdges(g, e);
    }
  }

  /** A map that agrees with m on m's keys and with before elsewhere is before + m. */
  lemma Overridden<T>(before: map<int, T>, m: map<int, T>, after: map<int, T>)
    requires after.Keys == before.Keys + m.Keys
    requires forall v :: v in after ==> after[v] == if v in m then m[v] else before[v]
    ensures after == before + m
  {
    var r := before + m;
    assert r.Keys == after.Keys;
    forall v | v in after
      ensures after[v] == r[v]
    {
    }
  }

  /**
   * Recover's loop over the committed histories: every resident variable
   * gets its newest committed value as scratch value, and a freshness flag
   * that is false exactly for replicated (even) variables.
   */
  method Refreshed(committed: map<int, seq<Version>>, uc0: map<int, int>, flags0: map<int, bool>)
    returns (uc: map<int, int>, flags: map<int, bool>)
    requires forall v :: v in committed ==> |committed[v]| > 0
    ensures uc == uc0 + map v | v in committed :: committed[v][0].value
    ensures flags == flags0 + map v | v in committed :: v % 2 != 0
  {
    uc, flags := uc0, flags0;
    var todo := committed.Keys;
    while todo != {}
      invariant todo <= committed.Keys
      invariant RefreshedOn(committed, uc0, flags0, committed.Keys - todo, uc, flags)
      decreases todo
    {
      Inhabited(todo);
      var v :| v in todo;
      RefreshStep(committed, uc0, flags0, committed.Keys - todo, uc, flags, v);
      uc := uc[v := committed[v][0].value];
      if v % 2 == 0 {
        flags := flags[v := false];
      } else {
        flags := flags[v := true];
      }
      assert committed.Keys - (todo - {v}) == (committed.Keys - todo) + {v};
      todo := todo - {v};
    }
    assert committed.Keys - todo == committed.Keys;
    RefreshDone(committed, uc0, flags0, uc, flags);
  }

  /** uc and flags are uc0 and flags0 refreshed from the histories of the variables in done. */
  ghost predicate RefreshedOn(committed: map<int, seq<Version>>, uc0: map<int, int>, flags0: map<int, bool>,
                              done: set<int>, uc: map<int, int>, flags: map<int, bool>)
    requires forall v :: v in committed ==> |committed[v]| > 0
  {
    && done <= committed.Keys
    && uc.Keys == uc0.Keys + done
    && flags.Keys == flags0.Keys + done
    && (forall v :: v in uc ==> uc[v] == if v in done then committed[v][0].value else uc0[v])
    && (forall v :: v in flags ==> flags[v] == if v in done then v % 2 != 0 else flags0[v])
  }

  /** Refreshing one more variable v. */
  lemma RefreshStep(committed: map<int, seq<Version>>, uc0: map<int, int>, flags0: map<int, bool>,
                    done: set<int>, uc: map<int, int>, flags: map<int, bool>, v: int)
    requires forall v :: v in committed ==> |committed[v]| > 0
    requires RefreshedOn(committed, uc0, flags0, done, uc, flags) && v in committed
    ensures RefreshedOn(committed, uc0, flags0, done + {v},
                        uc[v := committed[v][0].value], flags[v := v % 2 != 0])
  {
  }

  lemma RefreshDone(committed: map<int, seq<Version>>, uc0: map<int, int>, flags0: map<int, bool>,
                    uc: map<int, int>, flags: map<int, bool>)
    requires forall v :: v in committed ==> |committed[v]| > 0
    requires RefreshedOn(committed, uc0, flags0, committed.Keys, uc, flags)
    ensures uc == uc0 + map v | v in committed :: committed[v][0].value
    ensures flags == flags0 + map v | v in committed :: v % 2 != 0
  {
    Overridden(uc0, map v | v in committed :: committed[v][0].value, uc);
    Overridden(flags0, map v | v in committed :: v % 2 != 0, flags);
  }

  /**
   * The release loop of Commit and Abort: at every entry txn holds, drop it
   * from the holders, purge its queued requests and go IDLE when nobody
   * holds the lock any more.
   */
  method ReleaseLocks(lt0: LockTable, txn: int) returns (lt: LockTable)
    ensures lt == Released(lt0, txn)
  {
    lt := lt0;
    var todo := lt.Keys;
    while todo != {}
      invariant todo <= lt.Keys && lt.Keys == lt0.Keys
      invariant forall v :: v in lt ==> lt[v] == if v in todo then lt0[v] else Release(lt0[v], txn)
      decreases todo
    {
      Inhabited(todo);
      var v :| v in todo;
      var e := lt[v];
      if txn in e.holders {
        var holders := e.holders - {txn};
        var w := PurgeWaitlist(e.waitlist, txn);
        var mode := if |holders| == 0 then Idle else e.mode;
        assert LockEntry(mode, holders, w) == Release(e, txn);
        lt := lt[v := LockEntry(mode, holders, w)];
      }
      todo := todo - {v};
    }
    assert forall v :: v in lt ==> lt[v] == Released(lt0, txn)[v];
  }

  /**
   * ReassignLocks: scans the lock table, granting each waitlist head the
   * grant rule allows, and scans again until a whole scan grants nothing.
   * Every granting scan removes at least one waiting request and none is
   * added, so the loop ends; it ends with every entry settled.
   */
  method ReassignLocks(lt0: LockTable) returns (lt: LockTable)
    ensures lt == Reassigned(lt0)
  {
    lt := lt0;
    var granted := true;
    while granted
      invariant lt.Keys == lt0.Keys
      invariant forall v :: v in lt ==> Settle(lt[v]) == Settle(lt0[v])
      invariant !granted ==> forall v :: v in lt ==> !HeadGrantable(lt[v])
      decreases WaitSlots(lt), granted
    {
      granted := false;
      ghost var before := lt;
      ghost var which := 0;
      var todo := lt.Keys;
      while todo != {}
        invariant todo <= lt.Keys && lt.Keys == before.Keys
        invariant forall v :: v in lt ==> lt[v] == if v in todo then before[v] else Advance(before[v])
        invariant !granted ==> forall v :: v in lt && v !in todo ==> !HeadGrantable(before[v])
        invariant granted ==> which in before && HeadGrantable(before[which])
        decreases todo
      {
        Inhabited(todo);
        var v :| v in todo;
        var e := lt[v];
        if HeadGrantable(e) {
          granted := true;
          which := v;
          lt := lt[v := GrantHead(e)];
        }
        todo := todo - {v};
      }
      forall v | v in lt
        ensures Settle(lt[v]) == Settle(lt0[v])
      {
        AdvanceSettle(before[v]);
      }
      if granted {
        AdvanceShrinks(before, lt, which);
      } else {
        assert forall v :: v in lt ==> lt[v] == before[v];
        assert lt == before;
      }
    }
    forall v | v in lt
      ensures lt[v] == Settle(lt0[v])
    {
      assert Settle(lt[v]) == lt[v];
    }
  }

  /**
   * Commit's loop over the variables d that the transaction wrote: each
   * gets its scratch value as a new version at time ts in front of its
   * history, and becomes fresh.
   */
  method NewVersions(committed0: map<int, seq<Version>>, upToDate0: map<int, bool>,
                     uncommitted: map<int, int>, d: set<int>, ts: int)
    returns (committed: map<int, seq<Version>>, upToDate: map<int, bool>)
    requires forall v :: v in d ==> v in committed0 && v in uncommitted
    ensures committed == map v | v in committed0 ::
                           if v in d then [Version(uncommitted[v], ts)] + committed0[v] else committed0[v]
    ensures upToDate == upToDate0 + map v | v in d :: true
  {
    committed, upToDate := committed0, upToDate0;
    var todo := d;
    while todo != {}
      invariant todo <= d
      invariant VersionedOn(committed0, upToDate0, uncommitted, ts, d - todo, committed, upToDate)
      decreases todo
    {
      Inhabited(todo);
      var v :| v in todo;
      VersionStep(committed0, upToDate0, uncommitted, ts, d - todo, committed, upToDate, v);
      committed := committed[v := [Version(uncommitted[v], ts)] + committed[v]];
      upToDate := upToDate[v := true];
      assert d - (todo - {v}) == (d - todo) + {v};
      todo := todo - {v};
    }
    assert d - todo == d;
    VersionsDone(committed0, upToDate0, uncommitted, d, ts, committed, upToDate);
  }

  /** committed and upToDate are committed0 and upToDate0 with a new version at ts of each variable in done. */
  ghost predicate VersionedOn(committed0: map<int, seq<Version>>, upToDate0: map<int, bool>,
                              uncommitted: map<int, int>, ts: int, done: set<int>,
                              committed: map<int, seq<Version>>, upToDate: map<int, bool>)
  {
    && done <= committed0.Keys && done <= uncommitted.Keys
    && committed.Keys == committed0.Keys
    && (forall v :: v in committed ==>
          committed[v] == if v in done then [Version(uncommitted[v], ts)] + committed0[v] else committed0[v])
    && upToDate.Keys == upToDate0.Keys + done
    && (forall v :: v in upToDate ==> upToDate[v] == if v in done then true else upToDate0[v])
  }

  /** A new version of one more variable v. */
  lemma VersionStep(committed0: map<int, seq<Version>>, upToDate0: map<int, bool>,
                    uncommitted: map<int, int>, ts: int, done: set<int>,
                    committed: map<int, seq<Version>>, upToDate: map<int, bool>, v: int)
    requires VersionedOn(committed0, upToDate0, uncommitted, ts, done, committed, upToDate)
    requires v in committed0 && v in uncommitted && v !in done
    ensures VersionedOn(committed0, upToDate0, uncommitted, ts, done + {v},
                        committed[v := [Version(uncommitted[v], ts)] + committed[v]], upToDate[v := true])
  {
  }

  lemma VersionsDone(committed0: map<int, seq<Version>>, upToDate0: map<int, bool>,
                     uncommitted: map<int, int>, d: set<int>, ts: int,
                     committed: map<int, seq<Version>>, upToDate: map<int, bool>)
    requires VersionedOn(committed0, upToDate0, uncommitted, ts, d, committed, upToDate)
    ensures committed == map v | v in committed0 ::
                           if v in d then [Version(uncommitted[v], ts)] + committed0[v] else committed0[v]
    ensures upToDate == upToDate0 + map v | v in d :: true
  {
    Overridden(upToDate0, map v | v in d :: true, upToDate);
    ghost var target := map v | v in committed0 ::
                          if v in d then [Version(uncommitted[v], ts)] + committed0[v] else committed0[v];
    assert committed.Keys == target.Keys;
    forall v | v in committed
      ensures committed[v] == target[v]
    {
    }
  }

  /**
   * Abort's loop over the variables d that the transaction wrote: each
   * gets its newest committed value back as scratch value.
   */
  method RestoredScratch(uncommitted0: map<int, int>, committed: map<int, seq<Version>>, d: set<int>)
    returns (uncommitted: map<int, int>)
    requires forall v :: v in d ==> v in committed && |committed[v]| > 0
    ensures uncommitted == uncommitted0 + map v | v in d :: committed[v][0].value
  {
    uncommitted := uncommitted0;
    var todo := d;
    while todo != {}
      invariant todo <= d
      invariant uncommitted.Keys == uncommitted0.Keys + (d - todo)
      invariant forall v :: v in uncommitted ==>
                  uncommitted[v] == if v in d && v !in todo then committed[v][0].value else uncommitted0[v]
      decreases todo
    {
      Inhabited(todo);
      var v :| v in todo;
      uncommitted := uncommitted[v := committed[v][0].value];
      todo := todo - {v};
    }
    Overridden(uncommitted0, map v | v in d :: committed[v][0].value, uncommitted);
  }

  /**
   * The constructor's loop over the variable ids: the scratch values,
   * histories and freshness flags of a new site numbered id.
   */
  method InitialMaps(id: int) returns (uc: map<int, int>, cm: map<int, seq<Version>>, flags: map<int, bool>)
    ensures uc == Initial(id).uncommitted
    ensures cm == Initial(id).committed
    ensures flags == Initial(id).upToDate
  {
    uc, cm, flags := map[], map[], map[];
    var i := 1;
    while i <= VariableCount
      invariant 1 <= i <= VariableCount + 1
      invariant forall v :: v in cm <==> 1 <= v < i && Resident(id, v)
      invariant uc.Keys == cm.Keys && flags.Keys == cm.Keys
      invariant forall v :: v in cm ==> uc[v] == 10 * v && cm[v] == [InitialVersion(v)] && flags[v]
    {
      if i % 2 == 0 || 1 + i % 10 == id {
        cm := cm[i := [InitialVersion(i)]];
        flags := flags[i := true];
        uc := uc[i := i * 10];
      }
      i := i + 1;
    }
    assert cm.Keys == ResidentSet(id);
  }

  class DataManager {
    const siteID: int
    var status: SiteStatus
    var failureHistory: seq<int>
    var recoveryHistory: seq<int>
    var uncommitted: map<int, int>
    var committed: map<int, seq<Version>>
    var upToDate: map<int, bool>
    var lockTable: LockTable
    /** transactionsToVariables: the variables each transaction has written here. */
    var dirty: map<int, set<int>>

    /** The fields, read as one value. */
    function State(): SiteState
      reads this
    {
      SiteState(status, failureHistory, recoveryHistory, uncommitted, committed, upToDate, lockTable, dirty)
    }

    ghost predicate Valid()
      reads this
    {
      Inv(siteID, State())
    }

    /** A new, up site holding the sentinel version (10 * v, -1) of each resident variable. */
    constructor (id: int)
      ensures siteID == id
      ensures State() == Initial(id)
      ensures Valid()
    {
      var uc, cm, flags := InitialMaps(id);
      siteID := id;
      status := Up;
      failureHistory := [];
      recoveryHistory := [];
      uncommitted := uc;
      committed := cm;
      upToDate := flags;
      lockTable := map[];
      dirty := map[];
      new;
      InitialInv(id);
    }

    /** The site goes down and loses everything but its committed histories. */
    method Fail(ts: int)
      requires Valid()
      modifies this
      ensures Valid()
      ensures State() == FailState(old(State()), ts)
    {
      FailInv(siteID, State(), ts);
      status := Down;
      uncommitted := map[];
      upToDate := map[];
      lockTable := map[];
      dirty := map[];
      failureHistory := failureHistory + [ts];
    }

    /**
     * The site comes back: scratch values from the newest committed
     * versions, replicated variables stale until their next commit.
     */
    method Recover(ts: int)
      requires Valid()
      modifies this
      ensures Valid()
      ensures State() == RecoverState(old(State()), ts)
    {
      RecoverInv(siteID, State(), ts);
      var uc, flags := Refreshed(committed, uncommitted, upToDate);
      status := Up;
      recoveryHistory := recoveryHistory + [ts];
      uncommitted := uc;
      upToDate := flags;
    }

    /**
     * AcquireReadLock: refused on a stale copy; otherwise granted by the
     * read grant rule, or the request is queued once.
     */
    method AcquireReadLock(txn: int, v: int) returns (ok: bool)
      requires Valid() && v in upToDate
      modifies this
      ensures Valid()
      ensures ok == ReadLockGranted(old(State()), txn, v)
      ensures State() == ReadLockState(old(State()), txn, v)
    {
      ReadLockSpec(siteID, State(), txn, v);
      if !upToDate[v] {
        return false;
      }
      if ReadLockCheck(lockTable, txn, v) {
        var e := if v in lockTable then lockTable[v] else LockEntry(LockType.Read, {}, []);
        if e.mode == Idle {
          e := e.(mode := LockType.Read);
        }
        lockTable := lockTable[v := e.(holders := e.holders + {txn})];
        return true;
      }
      QueueOnce(Request(txn, LockType.Read), v);
      return false;
    }

    /** AcquireWriteLock: granted by the write grant rule, or the request is queued once. */
    method AcquireWriteLock(txn: int, v: int) returns (ok: bool)
      requires Valid()
      modifies this
      ensures Valid()
      ensures ok == WriteLockCheck(old(lockTable), txn, v)
      ensures State() == WriteLockState(old(State()), txn, v)
    {
      WriteLockSpec(siteID, State(), txn, v);
      if WriteLockCheck(lockTable, txn, v) {
        var e := if v in lockTable then lockTable[v] else LockEntry(LockType.Write, {}, []);
        lockTable := lockTable[v := e.(mode := LockType.Write, holders := e.holders + {txn})];
        return true;
      }
      QueueOnce(Request(txn, LockType.Write), v);
      return false;
    }

    /** Appends r to the waitlist of v unless the same request is already there. */
    method QueueOnce(r: Request, v: int)
      requires v in lockTable
      modifies this
      ensures lockTable == old(lockTable)[v := Enqueue(old(lockTable)[v], r)]
      ensures State() == old(State()).(lockTable := lockTable)
    {
      var w := lockTable[v].waitlist;
      var i := 0;
      while i < |w|
        invariant 0 <= i <= |w|
        invariant forall j :: 0 <= j < i ==> w[j] != r
      {
        if w[i] == r {
          return;
        }
        i := i + 1;
      }
      lockTable := lockTable[v := lockTable[v].(waitlist := w + [r])];
    }

    /** Read: the scratch value, when the copy is fresh and txn holds a lock on the variable. */
    function Read(op: Operation): (r: Response)
      reads this
      requires Valid() && op.variable in upToDate
      ensures r == ReadAt(State(), op)
    {
      if !upToDate[op.variable] then Failed
      else if op.variable !in lockTable || op.txn !in lockTable[op.variable].holders then Failed
      else Response(true, uncommitted[op.variable])
    }

    /** ReadOnly: the lock-free snapshot read of the committed history. */
    function ReadOnly(op: Operation): (r: Response)
      reads this
      ensures r == ReadOnlyAt(State(), op)
    {
      if op.variable !in committed then Failed
      else Snapshot(committed[op.variable], failureHistory, op.variable % 2 == 0, op.timestamp)
    }

    /** Write: under txn's WRITE lock, sets the scratch value and records the variable as written. */
    method Write(op: Operation) returns (r: Response)
      requires Valid()
      modifies this
      ensures Valid()
      ensures r == WriteResponse(old(State()), op)
      ensures State() == WriteState(old(State()), op)
    {
      WriteSpec(siteID, State(), op);
      var v := op.variable;
      if v !in lockTable || lockTable[v].mode != LockType.Write || op.txn !in lockTable[v].holders {
        return Failed;
      }
      var written := if op.txn in dirty then dirty[op.txn] else {};
      uncommitted, dirty := uncommitted[v := op.value], dirty[op.txn := written + {v}];
      return Response(true, 0);
    }

    /**
     * Commit at time ts: one new version per variable txn wrote, those
     * variables fresh, the written set dropped, locks released and
     * re-granted.
     */
    method Commit(txn: int, ts: int)
      requires Valid() && CommitReady(State(), txn)
      modifies this
      ensures Valid()
      ensures State() == CommitState(old(State()), txn, ts)
    {
      ghost var target := CommitState(State(), txn, ts);
      CommitInv(siteID, State(), txn, ts);
      var written := if txn in dirty then dirty[txn] else {};
      assert written == DirtyOf(dirty, txn);
      var c, u := NewVersions(committed, upToDate, uncommitted, written, ts);
      var released := ReleaseLocks(lockTable, txn);
      var lt := ReassignLocks(released);
      committed, upToDate, dirty, lockTable := c, u, dirty - {txn}, lt;
      assert State() == target;
    }

    /**
     * Abort: the variables txn wrote get their newest committed values back
     * as scratch values, the written set is dropped, locks are released and
     * re-granted.
     */
    method Abort(txn: int)
      requires Valid() && AbortReady(State(), txn)
      modifies this
      ensures Valid()
      ensures State() == AbortState(old(State()), txn)
    {
      ghost var target := AbortState(State(), txn);
      AbortInv(siteID, State(), txn);
      var written := if txn in dirty then dirty[txn] else {};
      assert written == DirtyOf(dirty, txn);
      var uc := RestoredScratch(uncommitted, committed, written);
      var released := ReleaseLocks(lockTable, txn);
      var lt := ReassignLocks(released);
      uncommitted, dirty, lockTable := uc, dirty - {txn}, lt;
      assert State() == target;
    }

    /**
     * GenWaitGraph: the wait-for edges of this site's lock table, as a graph
     * with no empty rows.
     */
    method GenWaitGraph() returns (g: Graph)
      ensures NoEmptyRows(g)
      ensures EdgeSet(g) == WaitEdges(lockTable)
    {
      g := map[];
      var todo := lockTable.Keys;
      while todo != {}
        invariant todo <= lockTable.Keys
        invariant NoEmptyRows(g)
        invariant EdgeSet(g) == set v, p | v in lockTable && v !in todo && p in EntryEdges(lockTable[v]) :: p
        decreases todo
      {
        Inhabited(todo);
        var v :| v in todo;
        g := AddEntryEdges(g, lockTable[v]);
        todo := todo - {v};
      }
    }
  }
}
