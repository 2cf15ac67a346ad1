/**
 * Lock-table entries of one site, as values: the grant rules of
 * AcquireReadLock / AcquireWriteLock, the re-grant rule of ReassignLocks, the
 * release done by Commit and Abort, and the conflict rules that produce
 * wait-for edges.
 */
module Locks {

  import opened Sets

  datatype LockType = Read | Write | Idle

  /** A queued lock request (TransactionLockNode). */
  datatype Request = Request(txn: int, mode: LockType)

  /** The lock state of one variable at one site (VariableLockNode). */
  datatype LockEntry = LockEntry(mode: LockType, holders: set<int>, waitlist: seq<Request>)

  type LockTable = map<int, LockEntry>

  /** The lock invariant: IDLE iff nobody holds the lock, and WRITE has exactly one holder. */
  predicate WellFormed(e: LockEntry) {
    && (e.mode == Idle <==> e.holders == {})
    && (e.mode == Write ==> |e.holders| == 1)
  }

  predicate AllWellFormed(lt: LockTable) {
    forall v :: v in lt ==> WellFormed(lt[v])
  }

  lemma Singleton(s: set<int>, x: int)
    ensures |s| == 1 && x in s ==> s == {x}
  {
    if |s| == 1 && x in s {
      assert |s - {x}| == 0;
    }
  }

  /** The entry of v, or a fresh entry of the given mode with no holders and no waiters. */
  function EntryOr(lt: LockTable, v: int, mode: LockType): LockEntry {
    if v in lt then lt[v] else LockEntry(mode, {}, [])
  }

  // ---------------------------------------------------------------------------
  // Immediate grants (ReadLockCheck / WriteLockCheck)
  // ---------------------------------------------------------------------------

  /**
   * May txn take a read lock on v now: there is no entry, txn already holds
   * v, or the mode is not WRITE and every queued request of another
   * transaction is a read. A read is never granted beside a foreign writer.
   */
  function ReadLockCheck(lt: LockTable, txn: int, v: int): (ok: bool)
    ensures ok && v in lt && WellFormed(lt[v]) && lt[v].mode == Write ==> lt[v].holders == {txn}
  {
    Singleton(EntryOr(lt, v, Read).holders, txn);
    || v !in lt
    || txn in lt[v].holders
    || (lt[v].mode != Write && forall r :: r in lt[v].waitlist ==> r.txn == txn || r.mode == Read)
  }

  /**
   * May txn take the write lock on v now: there is no entry, txn already
   * holds it in WRITE mode, or the entry is IDLE (or READ with txn as its
   * only holder) and nobody else is queued. A write grant never shares the
   * lock with another transaction.
   */
  function WriteLockCheck(lt: LockTable, txn: int, v: int): (ok: bool)
    ensures ok && v in lt && WellFormed(lt[v]) ==> lt[v].holders <= {txn}
  {
    Singleton(EntryOr(lt, v, Write).holders, txn);
    || v !in lt
    || (txn in lt[v].holders && lt[v].mode == Write)
    || ((lt[v].mode == Idle || (lt[v].mode == Read && |lt[v].holders| == 1 && txn in lt[v].holders))
        && forall r :: r in lt[v].waitlist ==> r.txn == txn)
  }

  /** Adds r at the tail of the waitlist unless that exact request is already queued. */
  function Enqueue(e: LockEntry, r: Request): (e': LockEntry)
    ensures e'.mode == e.mode && e'.holders == e.holders
    ensures r in e'.waitlist
    ensures forall q :: q in e'.waitlist <==> q in e.waitlist || q == r
    ensures multiset(e'.waitlist)[r] == if r in e.waitlist then multiset(e.waitlist)[r] else 1
  {
    if r in e.waitlist then e else LockEntry(e.mode, e.holders, e.waitlist + [r])
  }

  /** The lock table after AcquireReadLock(txn, v) on an up-to-date variable. */
  function AfterReadRequest(lt: LockTable, txn: int, v: int): (lt': LockTable)
    ensures lt'.Keys == lt.Keys + {v}
    ensures forall u :: u in lt && u != v ==> lt'[u] == lt[u]
    ensures ReadLockCheck(lt, txn, v) ==>
              && lt'[v].mode != Idle
              && lt'[v].holders == EntryOr(lt, v, Read).holders + {txn}
              && lt'[v].waitlist == EntryOr(lt, v, Read).waitlist
    ensures !ReadLockCheck(lt, txn, v) ==>
              v in lt && lt'[v] == Enqueue(lt[v], Request(txn, Read))
  {
    if ReadLockCheck(lt, txn, v) then
      var e := EntryOr(lt, v, Read);
      lt[v := LockEntry(if e.mode == Idle then Read else e.mode, e.holders + {txn}, e.waitlist)]
    else
      lt[v := Enqueue(lt[v], Request(txn, Read))]
  }

  /** The lock table after AcquireWriteLock(txn, v). */
  function AfterWriteRequest(lt: LockTable, txn: int, v: int): (lt': LockTable)
    ensures lt'.Keys == lt.Keys + {v}
    ensures forall u :: u in lt && u != v ==> lt'[u] == lt[u]
    ensures WriteLockCheck(lt, txn, v) ==>
              && lt'[v].mode == Write
              && lt'[v].holders == EntryOr(lt, v, Write).holders + {txn}
              && lt'[v].waitlist == EntryOr(lt, v, Write).waitlist
    ensures !WriteLockCheck(lt, txn, v) ==>
              v in lt && lt'[v] == Enqueue(lt[v], Request(txn, Write))
  {
    if WriteLockCheck(lt, txn, v) then
      var e := EntryOr(lt, v, Write);
      lt[v := LockEntry(Write, e.holders + {txn}, e.waitlist)]
    else
      lt[v := Enqueue(lt[v], Request(txn, Write))]
  }

  /** A read request keeps the lock invariant; a granted one makes txn a holder. */
  lemma ReadRequestWellFormed(lt: LockTable, txn: int, v: int)
    requires AllWellFormed(lt)
    ensures AllWellFormed(AfterReadRequest(lt, txn, v))
  {
    var lt' := AfterReadRequest(lt, txn, v);
    if ReadLockCheck(lt, txn, v) && v in lt && lt[v].mode == Write {
      assert lt[v].holders == {txn};
      assert lt'[v].holders == {txn};
    }
  }

  /** A granted write request leaves txn as the only holder, in WRITE mode. */
  lemma WriteRequestWellFormed(lt: LockTable, txn: int, v: int)
    requires AllWellFormed(lt)
    ensures AllWellFormed(AfterWriteRequest(lt, txn, v))
    ensures WriteLockCheck(lt, txn, v) ==>
              AfterWriteRequest(lt, txn, v)[v] == LockEntry(Write, {txn}, EntryOr(lt, v, Write).waitlist)
  {
    if WriteLockCheck(lt, txn, v) {
      var e := EntryOr(lt, v, Write);
      assert e.holders <= {txn};
      assert e.holders + {txn} == {txn};
    }
  }

  /** Re-submitting a read request (as the coordinator does every tick) changes nothing more. */
  lemma ReadRequestIdempotent(lt: LockTable, txn: int, v: int)
    ensures AfterReadRequest(AfterReadRequest(lt, txn, v), txn, v) == AfterReadRequest(lt, txn, v)
  {
    var lt' := AfterReadRequest(lt, txn, v);
    if ReadLockCheck(lt, txn, v) {
      assert ReadLockCheck(lt', txn, v);
      assert lt'[v].holders + {txn} == lt'[v].holders;
    } else {
      assert Request(txn, Read) in lt'[v].waitlist;
      if lt[v].mode != Write {
        var q :| q in lt[v].waitlist && q.txn != txn && q.mode != Read;
        assert q in lt'[v].waitlist;
      }
      assert !ReadLockCheck(lt', txn, v);
    }
  }

  /** Re-submitting a write request changes nothing more. */
  lemma WriteRequestIdempotent(lt: LockTable, txn: int, v: int)
    ensures AfterWriteRequest(AfterWriteRequest(lt, txn, v), txn, v) == AfterWriteRequest(lt, txn, v)
  {
    var lt' := AfterWriteRequest(lt, txn, v);
    if WriteLockCheck(lt, txn, v) {
      assert WriteLockCheck(lt', txn, v);
      assert lt'[v].holders + {txn} == lt'[v].holders;
    } else {
      assert Request(txn, Write) in lt'[v].waitlist;
      if lt[v].mode == Idle || (lt[v].mode == Read && |lt[v].holders| == 1 && txn in lt[v].holders) {
        var q :| q in lt[v].waitlist && q.txn != txn;
        assert q in lt'[v].waitlist;
      }
      assert !WriteLockCheck(lt', txn, v);
    }
  }

  // ---------------------------------------------------------------------------
  // Release at commit / abort
  // ---------------------------------------------------------------------------

  /** The waitlist without the requests of txn, in the original order (the ListIterator loop). */
  function Purge(w: seq<Request>, txn: int): (p: seq<Request>)
    ensures forall r :: r in p <==> r in w && r.txn != txn
    ensures |p| <= |w|
  {
    if w == [] then []
    else
      var last := w[|w| - 1];
      assert w == w[..|w| - 1] + [last];
      Purge(w[..|w| - 1], txn) + (if last.txn != txn then [last] else [])
  }

  /**
   * Purge keeps the FIFO order of the other requests: purging a waitlist
   * piece by piece and joining the pieces is purging the whole.
   */
  lemma {:induction false} PurgeAppend(w1: seq<Request>, w2: seq<Request>, txn: int)
    ensures Purge(w1 + w2, txn) == Purge(w1, txn) + Purge(w2, txn)
    decreases |w2|
  {
    if w2 == [] {
      assert w1 + w2 == w1;
    } else {
      var init, last := w2[..|w2| - 1], w2[|w2| - 1];
      PurgeAppend(w1, init, txn);
      assert w2 == init + [last];
      PurgeAppendStep(w1, init, last, txn);
    }
  }

  /** The inductive step of PurgeAppend: one more request at the end of the second piece. */
  lemma PurgeAppendStep(w1: seq<Request>, init: seq<Request>, last: Request, txn: int)
    requires Purge(w1 + init, txn) == Purge(w1, txn) + Purge(init, txn)
    ensures Purge(w1 + (init + [last]), txn) == Purge(w1, txn) + Purge(init + [last], txn)
  {
    var a, b, c := Purge(w1, txn), Purge(init, txn), if last.txn != txn then [last] else [];
    assert w1 + (init + [last]) == (w1 + init) + [last];
    PurgeSnoc(w1 + init, last, txn);
    PurgeSnoc(init, last, txn);
    JoinAssoc(a, b, c);
  }

  /** Joining sequences is associative. */
  lemma JoinAssoc(a: seq<Request>, b: seq<Request>, c: seq<Request>)
    ensures (a + b) + c == a + (b + c)
  {
  }

  /** Purge of a waitlist with one more request at its end. */
  lemma PurgeSnoc(w: seq<Request>, r: Request, txn: int)
    ensures Purge(w + [r], txn) == Purge(w, txn) + (if r.txn != txn then [r] else [])
  {
    var w' := w + [r];
    assert w'[..|w'| - 1] == w;
  }

  /** A waitlist without requests of txn comes through Purge unchanged, duplicates included. */
  lemma {:induction false} PurgeUntouched(w: seq<Request>, txn: int)
    requires forall r :: r in w ==> r.txn != txn
    ensures Purge(w, txn) == w
    decreases |w|
  {
    if w != [] {
      PurgeUntouched(w[..|w| - 1], txn);
      assert w == w[..|w| - 1] + [w[|w| - 1]];
    }
  }

  /**
   * What Commit and Abort do to one entry: only where txn is a holder, drop
   * it from the holders, purge its queued requests, and go IDLE when nobody
   * holds the lock any more. Entries where txn only waits keep its requests.
   */
  function Release(e: LockEntry, txn: int): (e': LockEntry)
    ensures e'.holders == e.holders - {txn}
    ensures txn in e.holders ==> forall r :: r in e'.waitlist ==> r.txn != txn
    ensures txn in e.holders ==> e'.waitlist == Purge(e.waitlist, txn)
    ensures e'.mode == (if e'.holders == {} && txn in e.holders then Idle else e.mode)
    ensures txn !in e.holders ==> e' == e
    ensures WellFormed(e) ==> WellFormed(e')
  {
    Singleton(e.holders, txn);
    if txn in e.holders then
      var h := e.holders - {txn};
      LockEntry(if h == {} then Idle else e.mode, h, Purge(e.waitlist, txn))
    else
      e
  }

  /** Release applied to every entry of a table. */
  function Released(lt: LockTable, txn: int): (lt': LockTable)
    ensures lt'.Keys == lt.Keys
    ensures forall v :: v in lt' ==> txn !in lt'[v].holders
    ensures AllWellFormed(lt) ==> AllWellFormed(lt')
  {
    map v | v in lt :: Release(lt[v], txn)
  }

  // ---------------------------------------------------------------------------
  // ReassignLocks: granting waitlist heads until nothing changes
  // ---------------------------------------------------------------------------

  /**
   * The grant rule ReassignLocks applies to the head of a waitlist: the
   * rule of ReadLockCheck / WriteLockCheck for the head's mode, with the
   * waitlist set aside.
   */
  predicate HeadGrantable(e: LockEntry)
    ensures HeadGrantable(e) <==>
              && |e.waitlist| > 0
              && var r, alone := e.waitlist[0], map[0 := e.(waitlist := [])];
                 if r.mode == Read then ReadLockCheck(alone, r.txn, 0) else WriteLockCheck(alone, r.txn, 0)
  {
    && |e.waitlist| > 0
    && var r := e.waitlist[0];
       if r.mode == Read then e.mode == Idle || e.mode == Read || r.txn in e.holders
       else e.mode == Idle || (r.txn in e.holders && (e.mode == Write || |e.holders| == 1))
  }

  /** Grants the head request and pops it. */
  function GrantHead(e: LockEntry): (e': LockEntry)
    requires |e.waitlist| > 0
    ensures e'.waitlist == e.waitlist[1..]
    ensures e'.holders == e.holders + {e.waitlist[0].txn}
    ensures e'.mode == (if e.waitlist[0].mode != Read then Write else if e.mode == Idle then Read else e.mode)
  {
    var r := e.waitlist[0];
    var mode := if r.mode == Read then (if e.mode == Idle then Read else e.mode) else Write;
    LockEntry(mode, e.holders + {r.txn}, e.waitlist[1..])
  }

  /** One visit of ReassignLocks' scan to an entry. */
  function Advance(e: LockEntry): LockEntry {
    if HeadGrantable(e) then GrantHead(e) else e
  }

  /** The entry once no head can be granted any more: it only gains holders and only loses waiters. */
  function Settle(e: LockEntry): (e': LockEntry)
    ensures e.holders <= e'.holders && |e'.waitlist| <= |e.waitlist|
    decreases |e.waitlist|
  {
    if HeadGrantable(e) then Settle(GrantHead(e)) else e
  }

  /** How many heads Settle grants. */
  function Granted(e: LockEntry): nat
    decreases |e.waitlist|
  {
    if HeadGrantable(e) then 1 + Granted(GrantHead(e)) else 0
  }

  function Txns(w: seq<Request>): set<int> {
    set r | r in w :: r.txn
  }

  lemma GrantHeadWellFormed(e: LockEntry)
    requires WellFormed(e) && HeadGrantable(e)
    ensures WellFormed(GrantHead(e))
  {
    Singleton(e.holders, e.waitlist[0].txn);
  }

  /**
   * Settle is the fixpoint ReassignLocks reaches on one entry: no head is
   * grantable afterwards, the lock invariant is kept, and the grants are
   * exactly a prefix of the waitlist taken in FIFO order.
   */
  lemma SettleSpec(e: LockEntry)
    ensures !HeadGrantable(Settle(e))
    ensures WellFormed(e) ==> WellFormed(Settle(e))
    ensures Granted(e) <= |e.waitlist|
    ensures Settle(e).waitlist == e.waitlist[Granted(e)..]
    ensures Settle(e).holders == e.holders + Txns(e.waitlist[..Granted(e)])
  {
    SettleFixpoint(e);
    SettleGrants(e);
  }

  /** After Settle no head is grantable, and the lock invariant is kept. */
  lemma {:induction false} SettleFixpoint(e: LockEntry)
    ensures !HeadGrantable(Settle(e))
    ensures WellFormed(e) ==> WellFormed(Settle(e))
    decreases |e.waitlist|
  {
    if HeadGrantable(e) {
      SettleFixpoint(GrantHead(e));
      if WellFormed(e) {
        GrantHeadWellFormed(e);
      }
    }
  }

  /** Settle grants a prefix of the waitlist, in order, and adds exactly its transactions to the holders. */
  lemma {:induction false} SettleGrants(e: LockEntry)
    ensures Granted(e) <= |e.waitlist|
    ensures Settle(e).waitlist == e.waitlist[Granted(e)..]
    ensures Settle(e).holders == e.holders + Txns(e.waitlist[..Granted(e)])
    decreases |e.waitlist|
  {
    if HeadGrantable(e) {
      var g := GrantHead(e);
      SettleGrants(g);
      var n := Granted(g);
      assert e.waitlist[1..][n..] == e.waitlist[n + 1..];
      TxnsCons(e.waitlist[..n + 1]);
      assert e.waitlist[..n + 1][1..] == e.waitlist[1..][..n];
    }
  }

  /** The transactions of a non-empty waitlist: its head's and its tail's. */
  lemma TxnsCons(w: seq<Request>)
    requires w != []
    ensures Txns(w) == {w[0].txn} + Txns(w[1..])
  {
    assert w == [w[0]] + w[1..];
  }

  /** One scan visit does not change where Settle ends. */
  lemma AdvanceSettle(e: LockEntry)
    ensures Settle(Advance(e)) == Settle(e)
  {
  }

  /** The table after ReassignLocks: every entry settled. */
  function Reassigned(lt: LockTable): (lt': LockTable)
    ensures lt'.Keys == lt.Keys
    ensures forall v :: v in lt' ==> !HeadGrantable(lt'[v])
    ensures AllWellFormed(lt) ==> AllWellFormed(lt')
  {
    forall v | v in lt {
      SettleSpec(lt[v]);
    }
    map v | v in lt :: Settle(lt[v])
  }

  /** The waitlist positions of a table; ReassignLocks' termination measure. */
  function WaitSlots(lt: LockTable): set<(int, int)> {
    set v, k | v in lt && 0 <= k < |lt[v].waitlist| :: (v, k)
  }

  /** A scan that grants at least one head strictly shrinks the waitlist positions. */
  lemma AdvanceShrinks(before: LockTable, after: LockTable, granted: int)
    requires after.Keys == before.Keys
    requires forall v :: v in after ==> after[v] == before[v] || after[v] == Advance(before[v])
    requires granted in before && after[granted] == Advance(before[granted]) && HeadGrantable(before[granted])
    ensures WaitSlots(after) < WaitSlots(before)
  {
    forall p | p in WaitSlots(after)
      ensures p in WaitSlots(before)
    {
      var v, k := p.0, p.1;
      assert |after[v].waitlist| <= |before[v].waitlist|;
    }
    var n := |before[granted].waitlist|;
    assert (granted, n - 1) in WaitSlots(before);
    assert (granted, n - 1) !in WaitSlots(after);
  }

  // ---------------------------------------------------------------------------
  // Conflicts and wait-for edges
  // ---------------------------------------------------------------------------

  /**
   * A waiting request conflicts with the current holders of the entry
   * (VTConflict): the entry is locked and ReassignLocks would not grant the
   * request if it stood at the head.
   */
  predicate VTConflict(e: LockEntry, r: Request)
    ensures VTConflict(e, r) <==> e.mode != Idle && !HeadGrantable(e.(waitlist := [r]))
  {
    if e.mode == Idle then false
    else if e.mode == Write then r.txn !in e.holders
    else if r.mode == Read then false
    else !(r.txn in e.holders && |e.holders| == 1)
  }

  /**
   * Two queued requests conflict (TTConflict): different transactions, not
   * both reads. Once b is granted (as b's only holder), a could not be
   * granted after it.
   */
  predicate TTConflict(a: Request, b: Request)
    ensures b.mode != Idle ==>
              (TTConflict(a, b) <==> a.txn != b.txn && !HeadGrantable(LockEntry(b.mode, {b.txn}, [a])))
  {
    a.txn != b.txn && !(a.mode == Read && b.mode == Read)
  }

  /** A conflicting waiter always has some other holder to wait for. */
  lemma ConflictHasOtherHolder(e: LockEntry, r: Request)
    requires WellFormed(e) && VTConflict(e, r)
    ensures exists h :: h in e.holders && h != r.txn
  {
    Inhabited(e.holders);
    var h :| h in e.holders;
    if h == r.txn {
      var rest := e.holders - {r.txn};
      assert |rest| == |e.holders| - 1;
      Inhabited(rest);
      var g :| g in rest;
    }
  }

  /** Edges from each conflicting waiter to every holder other than itself; every edge ends at a holder. */
  function HolderEdges(e: LockEntry): (edges: set<(int, int)>)
    ensures forall a, b :: (a, b) in edges ==> a != b && b in e.holders
  {
    set k, h | 0 <= k < |e.waitlist| && h in e.holders && VTConflict(e, e.waitlist[k]) && h != e.waitlist[k].txn
      :: (e.waitlist[k].txn, h)
  }

  /** In a well-formed entry every waiter that conflicts with the holders waits on some holder. */
  lemma ConflictingWaiterWaits(e: LockEntry, k: int)
    requires WellFormed(e) && 0 <= k < |e.waitlist| && VTConflict(e, e.waitlist[k])
    ensures exists h :: (e.waitlist[k].txn, h) in HolderEdges(e)
  {
    ConflictHasOtherHolder(e, e.waitlist[k]);
    var h :| h in e.holders && h != e.waitlist[k].txn;
    assert (e.waitlist[k].txn, h) in HolderEdges(e);
  }

  /** Edges from a later waiter to an earlier conflicting waiter. */
  function QueueEdges(e: LockEntry): set<(int, int)> {
    set i, j | 0 <= j < i < |e.waitlist| && TTConflict(e.waitlist[i], e.waitlist[j])
      :: (e.waitlist[i].txn, e.waitlist[j].txn)
  }

  /**
   * The wait-for edges one entry contributes; IDLE entries and entries
   * nobody waits on contribute none, and every edge starts at a waiter.
   */
  function EntryEdges(e: LockEntry): (edges: set<(int, int)>)
    ensures e.mode == Idle || e.waitlist == [] ==> edges == {}
    ensures forall a, b :: (a, b) in edges ==> a != b && exists k :: 0 <= k < |e.waitlist| && e.waitlist[k].txn == a
  {
    if e.mode != Idle && |e.waitlist| > 0 then HolderEdges(e) + QueueEdges(e) else {}
  }

  /** txn is queued on some non-IDLE entry of the table. */
  ghost predicate Waiting(lt: LockTable, txn: int) {
    exists v, k :: v in lt && lt[v].mode != Idle && 0 <= k < |lt[v].waitlist| && lt[v].waitlist[k].txn == txn
  }

  /**
   * The wait-for edges of a site's lock table. There is no self-edge, and
   * every edge starts at a transaction waiting on a locked entry.
   */
  function WaitEdges(lt: LockTable): (edges: set<(int, int)>)
    ensures forall a, b :: (a, b) in edges ==> a != b
    ensures forall a, b :: (a, b) in edges ==> Waiting(lt, a)
  {
    set v, p | v in lt && p in EntryEdges(lt[v]) :: p
  }
}
