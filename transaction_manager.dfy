/**
 * The coordinator: the transaction registry, the buffer of pending reads
 * and writes retried once per tick, the available-copies fan-out of reads
 * and writes to the sites, failure handling, commit and abort fan-out, and
 * deadlock resolution over the merged wait-for graphs of the sites. Each
 * method is proved against the functions of Attempts applied to the state
 * of the coordinator and its sites.
 */
module Coordination {

  import opened Bookkeeping
  import opened Sets
  import opened Records
  import opened Placement
  import opened SiteSpec
  import opened WaitGraph
  import opened Passes
  import opened Rows
  import opened Sites
  import opened Fanout
  import opened Attempts

  /**
   * Whether a decoded input line can be applied to a registry: `end`, R and
   * W name a registered transaction and R and W a real variable, `fail`
   * and `recover` name a site, and new transaction ids are not negative.
   */
  predicate Applicable(cmd: Command, ts: map<int, Transaction>) {
    match cmd
    case Begin(txn) => txn >= 0
    case BeginRO(txn) => txn >= 0
    case End(txn) => txn in ts
    case Fail(site) => 0 <= site <= SiteCount
    case Recover(site) => IsSite(site)
    case R(txn, v) => txn in ts && (!ts[txn].willAbort ==> IsVariable(v))
    case W(txn, v, _) => txn in ts && (!ts[txn].willAbort ==> IsVariable(v))
    case Dump => true
    case Blank => true
  }

  /** The same ids are registered, and every transaction marked to abort stays marked. */
  predicate AbortsKept(ts: map<int, Transaction>, ts': map<int, Transaction>) {
    ts'.Keys == ts.Keys && forall t :: t in ts && ts[t].willAbort ==> ts'[t].willAbort
  }

  /** A command that applies still applies once more transactions are marked to abort. */
  lemma ApplicableKeys(cmd: Command, ts: map<int, Transaction>, ts': map<int, Transaction>)
    requires Applicable(cmd, ts) && AbortsKept(ts, ts')
    ensures Applicable(cmd, ts')
  {
  }

  /** The registered transaction ids after a command: begin adds one, end removes one. */
  function Enrolled(ids: set<int>, cmd: Command): set<int> {
    match cmd
    case Begin(txn) => ids + {txn}
    case BeginRO(txn) => ids + {txn}
    case End(txn) => ids - {txn}
    case _ => ids
  }

  /** A transaction that Fail aborts when `site` fails: read-write, not aborting, and it visited the site. */
  predicate FailVictim(t: Transaction, site: int) {
    !t.isReadOnly && !t.willAbort && site in t.visitedSites
  }

  /** The registry ts once fail(site) has marked as aborting the victims among `done`. */
  function Marked(ts: map<int, Transaction>, site: int, done: set<int>): (r: map<int, Transaction>)
    ensures r.Keys == ts.Keys
  {
    map t | t in ts :: ts[t].(willAbort := ts[t].willAbort || (t in done && FailVictim(ts[t], site)))
  }

  /** Marking nothing changes nothing. */
  lemma MarkedNone(ts: map<int, Transaction>, site: int)
    ensures Marked(ts, site, {}) == ts
  {
    assert forall t :: t in ts ==> ts[t].(willAbort := ts[t].willAbort) == ts[t];
  }

  /** Looking at one more transaction t marks it when it is a victim. */
  lemma MarkedNext(ts: map<int, Transaction>, site: int, done: set<int>, t: int)
    requires t in ts && t !in done
    ensures var m := Marked(ts, site, done);
            m[t := m[t].(willAbort := m[t].willAbort || FailVictim(m[t], site))] == Marked(ts, site, done + {t})
  {
  }

  /**
   * A failure at `site` followed by changes that keep every history and
   * status keeps every history, and every status but that of `site`.
   */
  lemma FailKeeps(r0: seq<SiteState>, r1: seq<SiteState>, r2: seq<SiteState>, site: int, ts: int)
    requires |r0| == |r2| == SiteCount && IsSite(site)
    requires r1 == r0[site - 1 := FailState(r0[site - 1], ts)]
    requires forall i :: 0 <= i < SiteCount ==> r2[i].committed == r1[i].committed && r2[i].status == r1[i].status
    ensures forall i :: 0 <= i < SiteCount ==>
              && r2[i].committed == r0[i].committed
              && (i + 1 != site ==> r2[i].status == r0[i].status)
  {
  }

  /** The merged wait-for graph of a row of sites. */
  function WaitFor(ss: seq<SiteState>): (g: Graph)
    ensures NoEmptyRows(g) && EdgeSet(g) == AllWaitEdges(ss)
  {
    GraphOf(AllWaitEdges(ss))
  }

  /** A transaction with a row in a graph without empty rows has an edge out of it. */
  lemma RowsRegistered(g: Graph, ts: map<int, Transaction>)
    requires NoEmptyRows(g) && forall e :: e in EdgeSet(g) ==> e.0 in ts
    ensures forall k :: k in g ==> k in ts
  {
    forall k | k in g
      ensures k in ts
    {
      Inhabited(g[k]);
      var b :| b in g[k];
      assert (k, b) in EdgeSet(g);
    }
  }

  /**
   * The transaction with the latest start time among those of g that lie
   * on a cycle, the first met on a tie; -1 when none does.
   */
  method Youngest(g: Graph, ts: map<int, Transaction>) returns (abortID: int)
    requires forall k :: k in g ==> k >= 0 && k in ts && ts[k].startTime >= 0
    ensures abortID == -1 ==> forall k :: k in g ==> !OnCycle(g, k)
    ensures abortID != -1 ==>
              && abortID in g && OnCycle(g, abortID)
              && forall k :: k in g && OnCycle(g, k) ==> ts[k].startTime <= ts[abortID].startTime
  {
    var youngestTime := -1;
    abortID := -1;
    var todo := g.Keys;
    while todo != {}
      invariant todo <= g.Keys
      invariant abortID == -1 ==> youngestTime == -1
      invariant abortID != -1 ==>
                  && abortID in g && OnCycle(g, abortID)
                  && youngestTime == ts[abortID].startTime
      invariant forall k :: k in g && k !in todo && OnCycle(g, k) ==>
                  abortID != -1 && ts[k].startTime <= youngestTime
      decreases todo
    {
      Inhabited(todo);
      var transID :| transID in todo;
      var startTime := ts[transID].startTime;
      var cyclic := HasCycle(g, transID);
      if cyclic && youngestTime < startTime {
        youngestTime := startTime;
        abortID := transID;
      }
      todo := todo - {transID};
    }
  }

  /** The pass over ops[i..] is its first operation, which takes the world to w1 and answers ok, then the pass over the rest. */
  lemma PassHead(w: World, up: seq<bool>, ops: seq<Operation>, i: int, w1: World, ok: bool)
    requires Fits(w, up) && 0 <= i < |ops|
    requires Live(w.transactions, ops[i]) ==> (w1, ok) == Attempt(w, up, ops[i])
    ensures Live(w.transactions, ops[i]) ==> Fits(w1, up)
    ensures Pass(w, up, ops[i..]) ==
              if !Live(w.transactions, ops[i]) then Pass(w, up, ops[i + 1..])
              else (Pass(w1, up, ops[i + 1..]).0, (if ok then [] else [ops[i]]) + Pass(w1, up, ops[i + 1..]).1)
  {
    assert ops[i..][0] == ops[i] && ops[i..][1..] == ops[i + 1..];
  }

  /**
   * One step of ExecuteReadWrite at a live operation: when the pass
   * `here` is op, kept or not, and then the pass `rest`, the whole pass
   * `total` is still what is left of `rest` after the operations kept so
   * far.
   */
  lemma PassStepLive(total: (World, seq<Operation>), here: (World, seq<Operation>), rest: (World, seq<Operation>),
                     op: Operation, left: seq<Operation>, keep: bool)
    requires total.0 == here.0 && total.1 == left + here.1
    requires here == (rest.0, (if keep then [op] else []) + rest.1)
    ensures total.0 == rest.0
    ensures total.1 == (if keep then left + [op] else left) + rest.1
  {
    assert left + ([op] + rest.1) == (left + [op]) + rest.1;
  }

  /** One step of ExecuteReadWrite at an operation that is dropped: the world stays. */
  lemma PassStepDropped(total: (World, seq<Operation>), wi: World, up: seq<bool>, ops: seq<Operation>,
                        i: int, left: seq<Operation>)
    requires Fits(wi, up) && 0 <= i < |ops| && !Live(wi.transactions, ops[i])
    requires total.0 == Pass(wi, up, ops[i..]).0
    requires total.1 == left + Pass(wi, up, ops[i..]).1
    ensures total.0 == Pass(wi, up, ops[i + 1..]).0
    ensures total.1 == left + Pass(wi, up, ops[i + 1..]).1
  {
    PassHead(wi, up, ops, i, wi, true);
  }

  /**
   * The transaction DetectDeadLock aborts, -1 for none: of those on a
   * cycle of the merged wait-for graph of the sites dms, one with the
   * latest start time.
   */
  method Victim(dms: seq<DataManager>, ts: map<int, Transaction>) returns (victim: int)
    requires forall t :: t in ts ==> t >= 0 && ts[t].startTime >= 0
    requires forall e :: e in AllWaitEdges(States(dms)) ==> e.0 in ts
    ensures victim == -1 ==> forall t :: !OnCycle(WaitFor(States(dms)), t)
    ensures victim != -1 ==>
              && victim in ts
              && OnCycle(WaitFor(States(dms)), victim)
              && forall t :: OnCycle(WaitFor(States(dms)), t) ==> t in ts && ts[t].startTime <= ts[victim].startTime
  {
    var g := MergeSites(dms);
    GraphOfEdges(g);
    RowsRegistered(g, ts);
    forall t | OnCycle(g, t)
      ensures t in g
    {
      CycleHasRow(g, t);
    }
    if g == map[] {
      return -1;
    }
    victim := Youngest(g, ts);
  }

  class TransactionManager {
    var time: int
    /** DM: site s is sites[s - 1]. */
    const sites: seq<DataManager>
    /** Whether each site 1..SiteCount is up; index 0 is unused. */
    const siteStatus: array<bool>
    /** The registry of live transactions. */
    var transactions: map<int, Transaction>
    /** The hosting sites of each variable, in ascending order. */
    const itemSites: map<int, seq<int>>
    var pendingOperations: seq<Operation>
    /** What the simulator reports, in order. */
    var output: seq<Output>

    ghost function SiteSet(): set<DataManager> {
      set i | 0 <= i < |sites| :: sites[i]
    }

    /** The states of the sites, site s at index s - 1. */
    ghost function Row(): seq<SiteState>
      reads SiteSet()
    {
      States(sites)
    }

    /** The status array without its unused slot 0: site s at index s - 1. */
    ghost function Up(): seq<bool>
      reads siteStatus
      requires siteStatus.Length == SiteCount + 1
    {
      siteStatus[1..]
    }

    /** The sites, the registry and the output, as one value. */
    ghost function Now(): World
      reads this, SiteSet()
    {
      World(Row(), transactions, output)
    }

    /** The coordinator invariant. */
    ghost predicate Valid()
      reads this, siteStatus, SiteSet()
    {
      siteStatus.Length == SiteCount + 1
      && !siteStatus[0]
      && Wired(sites, siteStatus[1..])
      && Registered(transactions, time, pendingOperations, itemSites)
      && Historic(Row(), time)
    }

    /** All sites start up with their initial data; no transaction, no pending operation. */
    constructor ()
      ensures Valid() && Historic(Row(), time - 1)
      ensures fresh(SiteSet()) && fresh(siteStatus)
      ensures time == 0 && transactions == map[] && pendingOperations == [] && output == []
      ensures forall i :: 0 <= i < |sites| ==> Row()[i] == Initial(i + 1)
      ensures forall s :: IsSite(s) ==> siteStatus[s]
    {
      var dms, flags := Boot();
      ghost var r := States(dms);
      assert Historic(r, -1);
      var table := BuildItemSites();
      assert States(dms) == r;
      time := 0;
      sites := dms;
      siteStatus := flags;
      transactions := map[];
      itemSites := table;
      pendingOperations := [];
      output := [];
      new;
      assert Row() == r;
      assert Wired(sites, siteStatus[1..]);
      HistoricLater(r, -1, 0);
      assert time - 1 == -1;
      assert Historic(Row(), -1);
    }

    /** begin / beginRO: registers the transaction with the current time as its start time. */
    method Begin(txn: int, isReadOnly: bool)
      requires Valid() && txn >= 0
      modifies this
      ensures Valid()
      ensures transactions == old(transactions)[txn := Transaction(time, isReadOnly, false, {})]
      ensures time == old(time) && pendingOperations == old(pendingOperations) && output == old(output)
    {
      transactions := transactions[txn := Transaction(time, isReadOnly, false, {})];
    }

    /**
     * R(txn, v): buffered at the end of the pending operations with the
     * transaction's start time, as a snapshot read for a read-only
     * transaction; dropped when the transaction is to abort.
     */
    method SubmitRead(txn: int, v: int)
      requires Valid() && txn in transactions && (!transactions[txn].willAbort ==> IsVariable(v))
      modifies this
      ensures Valid()
      ensures var t := old(transactions[txn]);
              pendingOperations == old(pendingOperations) +
                (if t.willAbort then []
                 else [Operation(txn, v, if t.isReadOnly then ReadOnlyOp else ReadOp, -1, t.startTime)])
      ensures transactions == old(transactions) && time == old(time) && output == old(output)
    {
      var t := transactions[txn];
      if t.willAbort {
        return;
      }
      var op := Operation(txn, v, ReadOp, -1, t.startTime);
      if t.isReadOnly {
        op := op.(kind := ReadOnlyOp);
      }
      pendingOperations := pendingOperations + [op];
    }

    /** W(txn, v, value): buffered like a read, unless the transaction is to abort. */
    method SubmitWrite(txn: int, v: int, value: int)
      requires Valid() && txn in transactions && (!transactions[txn].willAbort ==> IsVariable(v))
      modifies this
      ensures Valid()
      ensures var t := old(transactions[txn]);
              pendingOperations == old(pendingOperations) +
                (if t.willAbort then [] else [Operation(txn, v, WriteOp, value, t.startTime)])
      ensures transactions == old(transactions) && time == old(time) && output == old(output)
    {
      var t := transactions[txn];
      if t.willAbort {
        return;
      }
      pendingOperations := pendingOperations + [Operation(txn, v, WriteOp, value, t.startTime)];
    }

    /** Reports one line of output; nothing else changes. */
    method Say(line: Output)
      requires Valid()
      modifies this
      ensures Valid()
      ensures Row() == old(Row()) && Up() == old(Up())
      ensures output == old(output) + [line]
      ensures transactions == old(transactions) && time == old(time) && pendingOperations == old(pendingOperations)
    {
      output := output + [line];
    }

    /** Records that txn has also visited the sites of `more`. */
    method Note(txn: int, more: set<int>)
      requires Valid() && txn in transactions && forall s :: s in more ==> IsSite(s)
      modifies this
      ensures Valid()
      ensures Row() == old(Row()) && Up() == old(Up())
      ensures transactions == Visit(old(transactions), txn, more)
      ensures output == old(output) && time == old(time) && pendingOperations == old(pendingOperations)
    {
      transactions := transactions[txn := transactions[txn].(visitedSites := transactions[txn].visitedSites + more)];
    }

    /** Marks txn as to abort. */
    method Mark(txn: int)
      requires Valid() && txn in transactions
      modifies this
      ensures Valid()
      ensures Row() == old(Row()) && Up() == old(Up())
      ensures transactions == old(transactions)[txn := old(transactions)[txn].(willAbort := true)]
      ensures output == old(output) && time == old(time) && pendingOperations == old(pendingOperations)
    {
      transactions := transactions[txn := transactions[txn].(willAbort := true)];
    }

    /** Removes txn from the registry and reports `line`. */
    method Retire(txn: int, line: Output)
      requires Valid()
      modifies this
      ensures Valid()
      ensures Row() == old(Row()) && Up() == old(Up())
      ensures transactions == old(transactions) - {txn} && output == old(output) + [line]
      ensures time == old(time) && pendingOperations == old(pendingOperations)
    {
      transactions := transactions - {txn};
      output := output + [line];
    }

    /** Replaces the buffer of pending operations. */
    method Requeue(ops: seq<Operation>)
      requires Valid() && forall op :: op in ops ==> IsVariable(op.variable)
      modifies this
      ensures Valid()
      ensures Row() == old(Row()) && Up() == old(Up())
      ensures pendingOperations == ops
      ensures transactions == old(transactions) && output == old(output) && time == old(time)
    {
      pendingOperations := ops;
    }

    /** The read pass over the up hosting sites of op's variable. */
    method AskRead(op: Operation) returns (site: int, value: int)
      requires Valid() && IsVariable(op.variable)
      modifies SiteSet()
      ensures Valid() && Up() == old(Up())
      ensures InRow(SiteCount, Hosts(op.variable))
      ensures (Row(), site) == ReadPass(old(Row()), Hosts(op.variable), Up(), op)
      ensures site != 0 ==>
                IsSite(site) && ReadAnswered(Row()[site - 1], op) && value == ReadAt(Row()[site - 1], op).readResult
    {
      var hosts := itemSites[op.variable];
      HostsWalk(op.variable);
      UpRowStates(sites, siteStatus[1..]);
      ghost var up := siteStatus[1..];
      site, value := ReadSites(sites, siteStatus[1..], hosts, op);
      assert siteStatus[1..] == up;
      UpRowStates(sites, up);
      ReadPassKept(old(Row()), hosts, up, op);
      HistoricKept(old(Row()), Row(), time);
    }

    /** The WRITE lock pass over the up hosting sites of op's variable. */
    method AskLocks(op: Operation) returns (ok: bool)
      requires Valid() && IsVariable(op.variable)
      modifies SiteSet()
      ensures Valid() && Up() == old(Up())
      ensures InRow(SiteCount, Hosts(op.variable))
      ensures (Row(), ok) == WriteLocks(old(Row()), Hosts(op.variable), Up(), op.txn, op.variable)
    {
      var hosts := itemSites[op.variable];
      HostsWalk(op.variable);
      UpRowStates(sites, siteStatus[1..]);
      ghost var up := siteStatus[1..];
      ok := LockSites(sites, siteStatus[1..], hosts, op.txn, op.variable);
      assert siteStatus[1..] == up;
      UpRowStates(sites, up);
      WriteLocksKept(old(Row()), hosts, up, op.txn, op.variable);
      HistoricKept(old(Row()), Row(), time);
    }

    /** The write pass over the up hosting sites of op's variable. */
    method PutWrites(op: Operation) returns (written: set<int>)
      requires Valid() && IsVariable(op.variable)
      modifies SiteSet()
      ensures Valid() && Up() == old(Up())
      ensures InRow(SiteCount, Hosts(op.variable))
      ensures Row() == WriteAll(old(Row()), Hosts(op.variable), Up(), op)
      ensures written == UpIn(Hosts(op.variable), Up()) && forall s :: s in written ==> IsSite(s)
    {
      var hosts := itemSites[op.variable];
      HostsWalk(op.variable);
      UpRowStates(sites, siteStatus[1..]);
      ghost var up := siteStatus[1..];
      written := WriteSites(sites, siteStatus[1..], hosts, op);
      assert siteStatus[1..] == up;
      UpRowStates(sites, up);
      WriteAllKept(old(Row()), hosts, up, op);
      HistoricKept(old(Row()), Row(), time);
    }

    /** Aborts txn at the sites of `visited`. */
    method AbortSites(visited: set<int>, txn: int)
      requires Valid() && forall s :: s in visited ==> IsSite(s)
      modifies SiteSet()
      ensures Valid() && Up() == old(Up())
      ensures forall i :: 0 <= i < |old(Row())| ==> AbortReady(old(Row())[i], txn)
      ensures Row() == AbortAll(old(Row()), visited, txn)
    {
      AbortAt(sites, visited, txn);
      AbortKeepsUp(old(Row()), visited, txn, Up());
      AbortAllKeeps(old(Row()), visited, txn);
      HistoricKept(old(Row()), Row(), time);
    }

    /** Commits txn, with the current time, at the sites of `visited`. */
    method CommitSites(visited: set<int>, txn: int)
      requires Valid() && Historic(Row(), time - 1) && forall s :: s in visited ==> IsSite(s)
      modifies SiteSet()
      ensures Valid() && Up() == old(Up())
      ensures forall i :: 0 <= i < |old(Row())| ==> CommitReady(old(Row())[i], txn)
      ensures Row() == CommitAll(old(Row()), visited, txn, time)
    {
      CommitAt(sites, visited, txn, time);
      CommitKeepsUp(old(Row()), visited, txn, time, Up());
      CommitAllHistoric(old(Row()), visited, txn, time);
    }

    /**
     * Read: asks the up hosting sites in ascending order for a read lock
     * and reads at the first that grants it; that site becomes visited and
     * the value is reported.
     */
    method Read(op: Operation) returns (ok: bool)
      requires Valid() && op.txn in transactions && IsVariable(op.variable)
      modifies this, SiteSet()
      ensures Valid()
      ensures (Now(), ok) == ReadTry(old(Now()), Up(), op)
      ensures time == old(time) && pendingOperations == old(pendingOperations)
    {
      ghost var w0 := Now();
      var site, value := AskRead(op);
      ReadTryFrom(w0, Up(), op, Row(), site, value);
      if site == 0 {
        return false;
      }
      Served(op.txn, site, ReadResult(op.variable, value));
      ok := true;
    }

    /** A read served at `site`: the site becomes visited by txn and `line` is reported. */
    method Served(txn: int, site: int, line: Output)
      requires Valid() && txn in transactions && IsSite(site)
      modifies this
      ensures Valid() && Up() == old(Up())
      ensures Now() == World(old(Row()), Visit(old(transactions), txn, {site}), old(output) + [line])
      ensures time == old(time) && pendingOperations == old(pendingOperations)
    {
      Note(txn, {site});
      Say(line);
    }

    /**
     * ReadOnly: asks the up hosting sites in ascending order for a
     * snapshot read and reports the first answer; no lock is taken and no
     * site becomes visited.
     */
    method ReadOnly(op: Operation) returns (ok: bool)
      requires Valid() && IsVariable(op.variable)
      modifies this
      ensures Valid()
      ensures (Now(), ok) == ReadOnlyTry(old(Now()), Up(), op)
      ensures time == old(time) && pendingOperations == old(pendingOperations)
      ensures InRow(SiteCount, Hosts(op.variable))
      ensures var row := old(Row());
              var site := ReadOnlyPass(row, Hosts(op.variable), Up(), op);
              ok ==> && site in Hosts(op.variable) && Up()[site - 1]
                     && op.variable in row[site - 1].committed
                     && var x := ReadOnlyAt(row[site - 1], op).readResult;
                     && output == old(output) + [ReadResult(op.variable, x)]
                     && Latest(row[site - 1].committed[op.variable], op.timestamp, x)
    {
      ghost var w0 := Now();
      var up := siteStatus[1..];
      var hosts := itemSites[op.variable];
      HostsWalk(op.variable);
      ReadOnlyTryLatest(w0, up, op, time);
      var site, value := SnapshotSites(sites, up, hosts, op);
      ReadOnlyTryFrom(w0, up, op, site, value);
      if site == 0 {
        return false;
      }
      Say(ReadResult(op.variable, value));
      ok := true;
    }

    /**
     * Write: asks every up hosting site for the WRITE lock; when all of
     * them granted, writes at each of them and they become visited.
     */
    method Write(op: Operation) returns (ok: bool)
      requires Valid() && op.txn in transactions && IsVariable(op.variable)
      modifies this, SiteSet()
      ensures Valid()
      ensures (Now(), ok) == WriteTry(old(Now()), Up(), op)
      ensures time == old(time) && pendingOperations == old(pendingOperations)
    {
      ghost var w0 := Now();
      ok := AskLocks(op);
      ghost var locked := Row();
      if ok {
        var written := PutWrites(op);
        WriteTryFrom(w0, Up(), op, locked, ok, Row(), written);
        Note(op.txn, written);
      } else {
        WriteTryFrom(w0, Up(), op, locked, ok, Row(), {});
      }
    }

    /** One attempt at a buffered operation, by its kind. */
    method Dispatch(op: Operation) returns (ok: bool)
      requires Valid() && op.txn in transactions && IsVariable(op.variable)
      modifies this, SiteSet()
      ensures Valid()
      ensures (Now(), ok) == Attempt(old(Now()), Up(), op)
      ensures time == old(time) && pendingOperations == old(pendingOperations)
    {
      match op.kind
      case ReadOp => ok := Read(op);
      case ReadOnlyOp => ok := ReadOnly(op);
      case WriteOp => ok := Write(op);
    }

    /**
     * Operation i of the buffer ops: dropped unless its transaction is
     * live, else tried once; `keep` when it stays buffered. The whole pass
     * `total` is then still what is left of the pass over ops[i + 1..]
     * after the operations kept so far.
     */
    method Retry(ghost total: (World, seq<Operation>), ghost up: seq<bool>, ops: seq<Operation>, i: int,
                 ghost left: seq<Operation>) returns (keep: bool)
      requires Valid() && Up() == up && pendingOperations == ops && 0 <= i < |ops|
      requires total.0 == Pass(Now(), up, ops[i..]).0 && total.1 == left + Pass(Now(), up, ops[i..]).1
      modifies this, SiteSet()
      ensures Valid() && Up() == up
      ensures time == old(time) && pendingOperations == old(pendingOperations)
      ensures total.0 == Pass(Now(), up, ops[i + 1..]).0
      ensures total.1 == (if keep then left + [ops[i]] else left) + Pass(Now(), up, ops[i + 1..]).1
    {
      ghost var wi := Now();
      var op := ops[i];
      if op.txn !in transactions || transactions[op.txn].willAbort {
        PassStepDropped(total, wi, up, ops, i, left);
        return false;
      }
      var ok := Dispatch(op);
      keep := !ok;
      PassHead(wi, up, ops, i, Now(), ok);
      PassStepLive(total, Pass(wi, up, ops[i..]), Pass(Now(), up, ops[i + 1..]), op, left, keep);
    }

    /**
     * ExecuteReadWrite: every buffered operation in order; those of a
     * transaction that is gone or aborting are dropped, the others are
     * tried once, and the ones that fail stay buffered in their order.
     */
    method ExecuteReadWrite()
      requires Valid()
      modifies this, SiteSet()
      ensures Valid()
      ensures (Now(), pendingOperations) == Pass(old(Now()), Up(), old(pendingOperations))
      ensures time == old(time)
    {
      ghost var w0 := Now();
      ghost var up := Up();
      var ops := pendingOperations;
      var left: seq<Operation> := [];
      var i := 0;
      assert ops[0..] == ops;
      while i < |ops|
        invariant 0 <= i <= |ops|
        invariant Valid() && time == old(time) && pendingOperations == ops && Up() == up
        invariant forall op :: op in left ==> IsVariable(op.variable)
        invariant Pass(w0, up, ops).0 == Pass(Now(), up, ops[i..]).0
        invariant Pass(w0, up, ops).1 == left + Pass(Now(), up, ops[i..]).1
      {
        var op := ops[i];
        var keep := Retry(Pass(w0, up, ops), up, ops, i, left);
        if keep {
          left := left + [op];
        }
        i := i + 1;
      }
      ghost var wEnd := Now();
      assert ops[i..] == [];
      assert Pass(wEnd, up, ops[i..]) == (wEnd, []);
      assert left + [] == left;
      assert Pass(w0, up, ops).0 == wEnd;
      assert Pass(w0, up, ops).1 == left;
      Requeue(left);
      assert Now() == wEnd && pendingOperations == left;
      assert w0 == old(Now()) && up == Up() && ops == old(pendingOperations);
    }

    /**
     * Abort: the first abort of a transaction aborts it at every site it
     * visited and marks it aborting; a later one changes nothing.
     */
    method Abort(txn: int)
      requires Valid() && txn in transactions
      modifies this, SiteSet()
      ensures Valid()
      ensures forall i :: 0 <= i < |old(Row())| ==> AbortReady(old(Row())[i], txn)
      ensures Now() == AbortTxn(old(Now()), txn)
      ensures time == old(time) && pendingOperations == old(pendingOperations)
    {
      RowReady(sites, txn);
      var t := transactions[txn];
      if t.willAbort {
        return;
      }
      AbortSites(t.visitedSites, txn);
      Mark(txn);
    }

    /**
     * Aborts t when it is a victim of the failure of `site`, whose state is
     * that of s0 failed now; the failed site itself does not change.
     */
    method AbortIfVictim(t: int, site: int, ghost s0: SiteState)
      requires Valid() && t in transactions && IsSite(site)
      requires Row()[site - 1] == FailState(s0, time)
      requires forall i :: 0 <= i < |Row()| ==> AbortReady(Row()[i], t)
      modifies this, SiteSet()
      ensures Valid() && Up() == old(Up())
      ensures time == old(time) && pendingOperations == old(pendingOperations) && output == old(output)
      ensures transactions == old(transactions)[t := old(transactions)[t].(willAbort :=
                                old(transactions)[t].willAbort || FailVictim(old(transactions)[t], site))]
      ensures Now() == if FailVictim(old(transactions)[t], site) then AbortTxn(old(Now()), t) else old(Now())
      ensures Row()[site - 1] == old(Row())[site - 1]
      ensures forall i :: 0 <= i < SiteCount ==>
                Row()[i].committed == old(Row())[i].committed && Row()[i].status == old(Row())[i].status
    {
      var ts := transactions[t];
      if !FailVictim(ts, site) {
        assert transactions[t := ts] == transactions;
        return;
      }
      AbortVictim(t, site, s0);
    }

    /** Aborts a victim t of the failure of `site`; the failed site itself does not change. */
    method AbortVictim(t: int, site: int, ghost s0: SiteState)
      requires Valid() && t in transactions && IsSite(site) && FailVictim(transactions[t], site)
      requires Row()[site - 1] == FailState(s0, time)
      requires forall i :: 0 <= i < |Row()| ==> AbortReady(Row()[i], t)
      modifies this, SiteSet()
      ensures Valid() && Up() == old(Up())
      ensures time == old(time) && pendingOperations == old(pendingOperations) && output == old(output)
      ensures transactions == old(transactions)[t := old(transactions)[t].(willAbort := true)]
      ensures Now() == AbortTxn(old(Now()), t)
      ensures Row()[site - 1] == old(Row())[site - 1]
      ensures forall i :: 0 <= i < SiteCount ==>
                Row()[i].committed == old(Row())[i].committed && Row()[i].status == old(Row())[i].status
    {
      ghost var before, w0, visited := Row(), Now(), transactions[t].visitedSites;
      Abort(t);
      AbortTxnRegistry(w0, t);
      AbortAllKeeps(before, visited, t);
      AbortAllAt(before, visited, t, site - 1);
      AbortAfterFail(s0, time, t);
    }

    /**
     * fail(site): only an up site fails; then every read-write transaction
     * that visited it and is not already aborting is aborted. No history
     * changes and no other site's status.
     */
    method Fail(site: int)
      requires Valid() && 0 <= site <= SiteCount
      modifies this, siteStatus, SiteSet()
      ensures Valid()
      ensures time == old(time) && pendingOperations == old(pendingOperations) && output == old(output)
      ensures !old(siteStatus[site]) ==> Now() == old(Now()) && Up() == old(Up())
      ensures old(siteStatus[site]) ==>
                Row()[site - 1] == FailState(old(Row())[site - 1], time) && Up() == old(Up())[site - 1 := false]
      ensures forall i :: 0 <= i < SiteCount ==>
                && Row()[i].committed == old(Row())[i].committed
                && (i + 1 != site ==> Row()[i].status == old(Row())[i].status)
      ensures transactions == Marked(old(transactions), site, if old(siteStatus[site]) then old(transactions).Keys else {})
    {
      if !siteStatus[site] {
        MarkedNone(transactions, site);
        return;
      }
      FailFlagged(sites, siteStatus, site, time);
      ghost var mid := Row();
      CommitsKeptUpdate(old(Row()), site - 1, FailState(old(Row())[site - 1], time));
      HistoricKept(old(Row()), mid, time);
      AbortVictims(site, old(Row())[site - 1]);
      FailKeeps(old(Row()), mid, Row(), site, time);
    }

    /**
     * The second half of fail(site): every read-write transaction that
     * visited the site, which failed from state s0, and is not already
     * aborting is aborted. The failed site itself does not change.
     */
    method AbortVictims(site: int, ghost s0: SiteState)
      requires Valid() && IsSite(site) && Row()[site - 1] == FailState(s0, time)
      modifies this, SiteSet()
      ensures Valid() && Up() == old(Up())
      ensures time == old(time) && pendingOperations == old(pendingOperations) && output == old(output)
      ensures Row()[site - 1] == old(Row())[site - 1]
      ensures forall i :: 0 <= i < SiteCount ==>
                Row()[i].committed == old(Row())[i].committed && Row()[i].status == old(Row())[i].status
      ensures transactions == Marked(old(transactions), site, old(transactions).Keys)
    {
      ghost var t0 := transactions;
      var todo := transactions.Keys;
      MarkedNone(t0, site);
      while todo != {}
        invariant todo <= t0.Keys
        invariant Valid() && Up() == old(Up())
        invariant time == old(time) && pendingOperations == old(pendingOperations) && output == old(output)
        invariant transactions == Marked(t0, site, t0.Keys - todo)
        invariant Row()[site - 1] == old(Row())[site - 1]
        invariant forall i :: 0 <= i < SiteCount ==>
                    Row()[i].committed == old(Row())[i].committed && Row()[i].status == old(Row())[i].status
        decreases todo
      {
        Inhabited(todo);
        var t :| t in todo;
        RowReady(sites, t);
        AbortIfVictim(t, site, s0);
        MarkedNext(t0, site, t0.Keys - todo, t);
        assert t0.Keys - (todo - {t}) == (t0.Keys - todo) + {t};
        todo := todo - {t};
      }
    }

    /** recover(site): the site comes back, whatever its status was. */
    method Recover(site: int)
      requires Valid() && IsSite(site)
      modifies siteStatus, SiteSet()
      ensures Valid()
      ensures Row() == old(Row())[site - 1 := RecoverState(old(Row())[site - 1], time)]
      ensures Up() == old(Up())[site - 1 := true]
      ensures transactions == old(transactions) && time == old(time) && output == old(output)
    {
      RecoverFlagged(sites, siteStatus, site, time);
      CommitsKeptUpdate(old(Row()), site - 1, RecoverState(old(Row())[site - 1], time));
      HistoricKept(old(Row()), Row(), time);
    }

    /**
     * end(txn): an aborting transaction is reported aborted and no site
     * changes; otherwise it commits, with the current time, at exactly the
     * sites it visited. Either way it leaves the registry.
     */
    method Finish(txn: int)
      requires Valid() && Historic(Row(), time - 1) && txn in transactions
      modifies this, SiteSet()
      ensures Valid() && Historic(Row(), time)
      ensures forall i :: 0 <= i < |old(Row())| ==> CommitReady(old(Row())[i], txn)
      ensures Now() == FinishTxn(old(Now()), txn, time)
      ensures time == old(time) && pendingOperations == old(pendingOperations)
    {
      RowReady(sites, txn);
      var t := transactions[txn];
      if t.willAbort {
        Retire(txn, Aborts(txn));
      } else {
        CommitSites(t.visitedSites, txn);
        Retire(txn, Commits(txn));
      }
    }

    /**
     * DetectDeadLock: merges the wait-for graphs of all sites and, when
     * some transaction lies on a cycle, aborts one on a cycle with the
     * latest start time and reports it. Every transaction with an edge out
     * of it must be registered.
     */
    method DetectDeadLock() returns (found: bool, victim: int)
      requires Valid()
      requires forall e :: e in AllWaitEdges(Row()) ==> e.0 in transactions
      modifies this, SiteSet()
      ensures Valid()
      ensures time == old(time) && pendingOperations == old(pendingOperations)
      ensures !found ==> victim == -1 && Now() == old(Now()) && forall t :: !OnCycle(WaitFor(old(Row())), t)
      ensures found ==> && victim in old(transactions)
                        && OnCycle(WaitFor(old(Row())), victim)
                        && forall t :: OnCycle(WaitFor(old(Row())), t) ==>
                             t in old(transactions) && old(transactions)[t].startTime <= old(transactions)[victim].startTime
      ensures found ==> forall i :: 0 <= i < |old(Row())| ==> AbortReady(old(Row())[i], victim)
      ensures found ==> Now() == AbortTxn(old(Now()), victim)
    {
      victim := Victim(sites, transactions);
      found := victim != -1;
      if found {
        Abort(victim);
      }
    }

    /** A deadlock check, with what the simulation loop relies on: no registration and no output changes. */
    method Resolve() returns (found: bool)
      requires Valid()
      requires forall e :: e in AllWaitEdges(Row()) ==> e.0 in transactions
      modifies this, SiteSet()
      ensures Valid() && time == old(time) && CommitsKept(old(Row()), Row())
      ensures transactions.Keys == old(transactions).Keys && output == old(output)
      ensures AbortsKept(old(transactions), transactions)
    {
      ghost var r0, t0 := Row(), transactions;
      var victim;
      found, victim := DetectDeadLock();
      if found && !t0[victim].willAbort {
        AbortAllKeeps(r0, t0[victim].visitedSites, victim);
      }
    }

    /**
     * The head of each input line: a deadlock check and, when it aborted a
     * victim, a pass over the buffer. No committed history changes.
     */
    method Unblock()
      requires Valid()
      requires forall e :: e in AllWaitEdges(Row()) ==> e.0 in transactions
      modifies this, SiteSet()
      ensures Valid() && time == old(time) && CommitsKept(old(Row()), Row())
      ensures transactions.Keys == old(transactions).Keys && old(output) <= output
      ensures AbortsKept(old(transactions), transactions)
    {
      ghost var r0 := Row();
      var found := Resolve();
      if found {
        ghost var r1 := Row();
        Settle();
        CommitsKeptTrans(r0, r1, Row());
      }
    }

    /** A pass over the buffer keeps the registered ids and only adds output. */
    method Settle()
      requires Valid()
      modifies this, SiteSet()
      ensures Valid() && time == old(time) && CommitsKept(old(Row()), Row())
      ensures transactions.Keys == old(transactions).Keys && old(output) <= output
      ensures AbortsKept(old(transactions), transactions)
      ensures (Now(), pendingOperations) == Pass(old(Now()), Up(), old(pendingOperations))
    {
      ghost var w0 := Now();
      ghost var up := Up();
      ghost var ops := pendingOperations;
      ExecuteReadWrite();
      PassKeeps(w0, up, ops);
    }

    /** Applies one decoded input line; dump and blank lines change nothing. */
    method Apply(cmd: Command)
      requires Valid() && Historic(Row(), time - 1) && Applicable(cmd, transactions)
      modifies this, siteStatus, SiteSet()
      ensures Valid() && time == old(time)
      ensures transactions.Keys == Enrolled(old(transactions).Keys, cmd) && old(output) <= output
    {
      match cmd
      case Begin(txn) => Begin(txn, false);
      case BeginRO(txn) => Begin(txn, true);
      case End(txn) => Finish(txn);
      case Fail(_) => SiteChange(cmd);
      case Recover(_) => SiteChange(cmd);
      case R(txn, v) => SubmitRead(txn, v);
      case W(txn, v, value) => SubmitWrite(txn, v, value);
      case Dump =>
      case Blank =>
    }

    /** A `fail` or `recover` line: the registry keeps its ids and nothing is reported. */
    method SiteChange(cmd: Command)
      requires Valid() && (cmd.Fail? || cmd.Recover?)
      requires if cmd.Fail? then 0 <= cmd.site <= SiteCount else IsSite(cmd.site)
      modifies this, siteStatus, SiteSet()
      ensures Valid() && time == old(time)
      ensures transactions.Keys == old(transactions).Keys && output == old(output)
    {
      if cmd.Fail? {
        Fail(cmd.site);
      } else {
        Recover(cmd.site);
      }
    }

    /** The tail of each input line: a pass over the buffer, then the clock advances. */
    method Close()
      requires Valid()
      modifies this, SiteSet()
      ensures Valid() && Historic(Row(), time - 1) && time == old(time) + 1
      ensures transactions.Keys == old(transactions).Keys && old(output) <= output
    {
      Settle();
      Tick();
    }

    /** The clock advances by one. */
    method Tick()
      requires Valid()
      modifies this
      ensures Valid() && Historic(Row(), time - 1) && time == old(time) + 1
      ensures transactions == old(transactions) && output == old(output)
    {
      ghost var r := Row();
      time := time + 1;
      assert Row() == r;
      HistoricLater(r, time - 1, time);
    }

    /**
     * One input line of the simulation loop: a deadlock check, with an extra
     * pass over the buffer when it aborted a victim; then the command; then
     * a pass over the buffer; then the clock advances.
     */
    method Step(cmd: Command)
      requires Valid() && Historic(Row(), time - 1) && Applicable(cmd, transactions)
      requires forall e :: e in AllWaitEdges(Row()) ==> e.0 in transactions
      modifies this, siteStatus, SiteSet()
      ensures Valid() && Historic(Row(), time - 1) && time == old(time) + 1
      ensures transactions.Keys == Enrolled(old(transactions).Keys, cmd) && old(output) <= output
    {
      ghost var r0, t0 := Row(), transactions;
      Unblock();
      HistoricKept(r0, Row(), time - 1);
      ApplicableKeys(cmd, t0, transactions);
      Apply(cmd);
      Close();
    }
  }
}
