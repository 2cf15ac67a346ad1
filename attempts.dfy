/**
 * The coordinator's transaction-level steps as functions on values: one
 * attempt at a buffered read, snapshot read or write, a whole pass over
 * the buffer of pending operations, and the abort and end of a
 * transaction. A World holds what these steps change: the states of the
 * sites 1..SiteCount (site h is element h - 1), the transaction registry
 * and the output. `up` is the coordinator's view of which sites are up.
 */
module Attempts {

  import opened Records
  import opened Placement
  import opened Locks
  import opened Versions
  import opened SiteSpec
  import opened Passes
  import opened Rows

  datatype World = World(row: seq<SiteState>, transactions: map<int, Transaction>, output: seq<Output>)

  /** A row of all the sites, and a status for each of them. */
  predicate Fits(w: World, up: seq<bool>) {
    |w.row| == SiteCount && |up| == SiteCount
  }

  /** Every site of the row satisfies the site invariant. */
  ghost predicate RowInv(ss: seq<SiteState>) {
    forall i :: 0 <= i < |ss| ==> Inv(i + 1, ss[i])
  }

  /** Every history of every site is ordered and holds no commit later than t. */
  ghost predicate Historic(ss: seq<SiteState>, t: int) {
    forall i :: 0 <= i < |ss| ==> Chronological(ss[i], t)
  }

  /** A bound on every commit time stays a bound when it grows. */
  lemma HistoricLater(ss: seq<SiteState>, t: int, t': int)
    requires Historic(ss, t) && t <= t'
    ensures Historic(ss, t')
  {
    forall i | 0 <= i < |ss|
      ensures Chronological(ss[i], t')
    {
      ChronologicalLater(ss[i], t, t');
    }
  }

  /** The same number of sites, with the same committed histories. */
  ghost predicate CommitsKept(ss: seq<SiteState>, ss': seq<SiteState>) {
    |ss'| == |ss| && forall i :: 0 <= i < |ss| ==> ss'[i].committed == ss[i].committed
  }

  /** Replacing one site by a state with the same committed histories keeps them all. */
  lemma CommitsKeptUpdate(ss: seq<SiteState>, i: int, x: SiteState)
    requires 0 <= i < |ss| && x.committed == ss[i].committed
    ensures CommitsKept(ss, ss[i := x])
  {
  }

  /** Keeping the committed histories twice keeps them. */
  lemma CommitsKeptTrans(ss: seq<SiteState>, ss': seq<SiteState>, ss'': seq<SiteState>)
    requires CommitsKept(ss, ss') && CommitsKept(ss', ss'')
    ensures CommitsKept(ss, ss'')
  {
  }

  /** Sites with the same committed histories are as chronological as before. */
  lemma HistoricKept(ss: seq<SiteState>, ss': seq<SiteState>, t: int)
    requires Historic(ss, t) && CommitsKept(ss, ss')
    ensures Historic(ss', t)
  {
    forall i | 0 <= i < |ss'|
      ensures Chronological(ss'[i], t)
    {
      assert ss'[i].committed == ss[i].committed;
    }
  }

  /** A buffered operation is tried only while its transaction is registered and not aborting. */
  predicate Live(ts: map<int, Transaction>, op: Operation) {
    op.txn in ts && !ts[op.txn].willAbort
  }

  /** The registry after txn has also visited the sites of `more`. */
  function Visit(ts: map<int, Transaction>, txn: int, more: set<int>): map<int, Transaction>
    requires txn in ts
  {
    ts[txn := ts[txn].(visitedSites := ts[txn].visitedSites + more)]
  }

  // ---------------------------------------------------------------------------
  // One attempt at a buffered operation
  // ---------------------------------------------------------------------------

  /** Read: the read pass; the serving site becomes visited and the value it read is reported. */
  function ReadTry(w: World, up: seq<bool>, op: Operation): (r: (World, bool))
    requires Fits(w, up) && op.txn in w.transactions
    ensures Fits(r.0, up) && r.0.transactions.Keys == w.transactions.Keys
  {
    HostsWalk(op.variable);
    ReadPassStops(w.row, Hosts(op.variable), up, op);
    var (row, site) := ReadPass(w.row, Hosts(op.variable), up, op);
    if site == 0 then (w.(row := row), false)
    else (World(row, Visit(w.transactions, op.txn, {site}),
                w.output + [ReadResult(op.variable, ReadAt(row[site - 1], op).readResult)]), true)
  }

  /** ReadOnly: the snapshot pass; a value found is reported and nothing else changes. */
  function ReadOnlyTry(w: World, up: seq<bool>, op: Operation): (r: (World, bool))
    requires Fits(w, up)
    ensures r.0.row == w.row && r.0.transactions == w.transactions
  {
    HostsWalk(op.variable);
    var site := ReadOnlyPass(w.row, Hosts(op.variable), up, op);
    if site == 0 then (w, false)
    else (w.(output := w.output + [ReadResult(op.variable, ReadOnlyAt(w.row[site - 1], op).readResult)]), true)
  }

  /**
   * Write: the lock pass; when every up hosting site granted, the write
   * pass, and those sites become visited. A refused attempt keeps the
   * locks and requests it left behind.
   */
  function WriteTry(w: World, up: seq<bool>, op: Operation): (r: (World, bool))
    requires Fits(w, up) && op.txn in w.transactions
    ensures Fits(r.0, up) && r.0.transactions.Keys == w.transactions.Keys
  {
    HostsWalk(op.variable);
    var hosts := Hosts(op.variable);
    var (locked, ok) := WriteLocks(w.row, hosts, up, op.txn, op.variable);
    if !ok then (w.(row := locked), false)
    else (w.(row := WriteAll(locked, hosts, up, op),
             transactions := Visit(w.transactions, op.txn, UpIn(hosts, up))), true)
  }

  /** One attempt at a buffered operation, by its kind; the flag says whether it went through. */
  function Attempt(w: World, up: seq<bool>, op: Operation): (r: (World, bool))
    requires Fits(w, up) && op.txn in w.transactions
    ensures Fits(r.0, up) && r.0.transactions.Keys == w.transactions.Keys
  {
    match op.kind
    case ReadOp => ReadTry(w, up, op)
    case ReadOnlyOp => ReadOnlyTry(w, up, op)
    case WriteOp => WriteTry(w, up, op)
  }

  // ---------------------------------------------------------------------------
  // A pass over the buffer
  // ---------------------------------------------------------------------------

  /**
   * ExecuteReadWrite: the buffered operations in order. One whose
   * transaction is gone or aborting is dropped; every other one is tried
   * once, and kept when the attempt fails. The result is the new world and
   * the operations kept, in their order.
   */
  function Pass(w: World, up: seq<bool>, ops: seq<Operation>): (r: (World, seq<Operation>))
    requires Fits(w, up)
    ensures Fits(r.0, up)
    ensures |r.1| <= |ops| && forall op :: op in r.1 ==> op in ops
    decreases |ops|
  {
    if ops == [] then (w, [])
    else if !Live(w.transactions, ops[0]) then Pass(w, up, ops[1..])
    else
      var (w1, ok) := Attempt(w, up, ops[0]);
      var (w2, left) := Pass(w1, up, ops[1..]);
      (w2, (if ok then [] else [ops[0]]) + left)
  }

  /** The elements of a occur in b in the same order. */
  predicate Subsequence<T(==)>(a: seq<T>, b: seq<T>)
    decreases |b|
  {
    if a == [] then true
    else if b == [] then false
    else (a[0] == b[0] && Subsequence(a[1..], b[1..])) || Subsequence(a, b[1..])
  }

  /**
   * What reads and writes never change in a registry entry: start time,
   * kind and abort flag. The visited set only grows, by sites of the row.
   */
  predicate Grown(t: Transaction, t': Transaction) {
    && t'.startTime == t.startTime && t'.isReadOnly == t.isReadOnly && t'.willAbort == t.willAbort
    && t.visitedSites <= t'.visitedSites
    && forall s :: s in t'.visitedSites && s !in t.visitedSites ==> IsSite(s)
  }

  /** The same transactions are registered, each entry grown at most. */
  ghost predicate RegistryKept(ts: map<int, Transaction>, ts': map<int, Transaction>) {
    ts'.Keys == ts.Keys && forall t :: t in ts ==> Grown(ts[t], ts'[t])
  }

  /** The same sites, with the same committed histories and statuses. */
  ghost predicate HistoryKept(ss: seq<SiteState>, ss': seq<SiteState>) {
    |ss'| == |ss| && forall i :: 0 <= i < |ss| ==> ss'[i].committed == ss[i].committed && ss'[i].status == ss[i].status
  }

  /**
   * What reads and writes never change: the registry's entries apart from
   * visited sets, the committed histories and the site statuses; the
   * output only grows.
   */
  ghost predicate Keeps(w: World, w': World) {
    RegistryKept(w.transactions, w'.transactions) && HistoryKept(w.row, w'.row) && w.output <= w'.output
  }

  lemma KeepsTrans(w0: World, w1: World, w2: World)
    requires Keeps(w0, w1) && Keeps(w1, w2)
    ensures Keeps(w0, w2)
  {
    forall t | t in w0.transactions
      ensures Grown(w0.transactions[t], w2.transactions[t])
    {
      var a, b, c := w0.transactions[t], w1.transactions[t], w2.transactions[t];
      assert Grown(a, b) && Grown(b, c);
      forall s | s in c.visitedSites && s !in a.visitedSites
        ensures IsSite(s)
      {
        if s !in b.visitedSites {
          assert Grown(a, b);
        }
      }
    }
  }

  /** Visiting sites of the row keeps the registry. */
  lemma VisitKept(ts: map<int, Transaction>, txn: int, more: set<int>)
    requires txn in ts && forall s :: s in more ==> IsSite(s)
    ensures RegistryKept(ts, Visit(ts, txn, more))
  {
  }

  /** The read pass only asks for locks: histories and statuses stay. */
  lemma ReadPassKept(ss: seq<SiteState>, hosts: seq<int>, up: seq<bool>, op: Operation)
    requires |up| == |ss| && InRow(|ss|, hosts) && Ascending(hosts)
    ensures HistoryKept(ss, ReadPass(ss, hosts, up, op).0)
  {
    ScanAsks(ss, hosts, up, ReadAsk(op.txn, op.variable), ReadServes(op));
  }

  /** The lock pass of a write only asks for locks: histories and statuses stay. */
  lemma WriteLocksKept(ss: seq<SiteState>, hosts: seq<int>, up: seq<bool>, txn: int, v: int)
    requires |up| == |ss| && InRow(|ss|, hosts) && Ascending(hosts)
    ensures HistoryKept(ss, WriteLocks(ss, hosts, up, txn, v).0)
  {
    WriteLocksSpec(ss, hosts, up, txn, v);
  }

  /** The write pass only sets scratch values: histories and statuses stay. */
  lemma WriteAllKept(ss: seq<SiteState>, hosts: seq<int>, up: seq<bool>, op: Operation)
    requires |up| == |ss| && InRow(|ss|, hosts) && Ascending(hosts)
    ensures HistoryKept(ss, WriteAll(ss, hosts, up, op))
  {
    SweepAsks(ss, hosts, up, WriteAt(op), Unjudged());
  }

  /** A read attempt keeps histories, statuses and the registry apart from visited sites. */
  lemma ReadTryKeeps(w: World, up: seq<bool>, op: Operation)
    requires Fits(w, up) && op.txn in w.transactions
    ensures Keeps(w, ReadTry(w, up, op).0)
  {
    HostsWalk(op.variable);
    var (row, site) := ReadPass(w.row, Hosts(op.variable), up, op);
    ReadPassKept(w.row, Hosts(op.variable), up, op);
    if site != 0 {
      VisitKept(w.transactions, op.txn, {site});
    }
  }

  /** A write attempt keeps histories, statuses and the registry apart from visited sites. */
  lemma WriteTryKeeps(w: World, up: seq<bool>, op: Operation)
    requires Fits(w, up) && op.txn in w.transactions
    ensures Keeps(w, WriteTry(w, up, op).0)
  {
    HostsWalk(op.variable);
    var hosts := Hosts(op.variable);
    var (locked, ok) := WriteLocks(w.row, hosts, up, op.txn, op.variable);
    WriteLocksKept(w.row, hosts, up, op.txn, op.variable);
    if ok {
      WriteAllKept(locked, hosts, up, op);
      VisitKept(w.transactions, op.txn, UpIn(hosts, up));
    }
  }

  /** No attempt changes a registry entry other than visited sites, a history or a status. */
  lemma AttemptKeeps(w: World, up: seq<bool>, op: Operation)
    requires Fits(w, up) && op.txn in w.transactions
    ensures Keeps(w, Attempt(w, up, op).0)
  {
    match op.kind
    case ReadOp => ReadTryKeeps(w, up, op);
    case ReadOnlyOp =>
    case WriteOp => WriteTryKeeps(w, up, op);
  }

  /** A pass changes no registry entry other than visited sites, no history and no status. */
  lemma {:induction false} PassKeeps(w: World, up: seq<bool>, ops: seq<Operation>)
    requires Fits(w, up)
    ensures Keeps(w, Pass(w, up, ops).0)
    decreases |ops|
  {
    if ops == [] {
    } else if !Live(w.transactions, ops[0]) {
      PassKeeps(w, up, ops[1..]);
    } else {
      var w1 := Attempt(w, up, ops[0]).0;
      AttemptKeeps(w, up, ops[0]);
      PassKeeps(w1, up, ops[1..]);
      KeepsTrans(w, w1, Pass(w1, up, ops[1..]).0);
    }
  }

  /** Dropping the head of b keeps a subsequence of its tail a subsequence of b. */
  lemma SubsequenceSkip<T>(a: seq<T>, b: seq<T>)
    requires b != [] && Subsequence(a, b[1..])
    ensures Subsequence(a, b)
  {
  }

  /** Matching heads extend a subsequence of the tail. */
  lemma SubsequenceCons<T>(x: T, a: seq<T>, b: seq<T>)
    requires b != [] && b[0] == x && Subsequence(a, b[1..])
    ensures Subsequence([x] + a, b)
  {
    assert ([x] + a)[1..] == a;
  }

  /** The operations a pass keeps are buffered operations, in their original order. */
  lemma {:induction false} PassOrder(w: World, up: seq<bool>, ops: seq<Operation>)
    requires Fits(w, up)
    ensures Subsequence(Pass(w, up, ops).1, ops)
    decreases |ops|
  {
    if ops != [] {
      var left := Pass(w, up, ops).1;
      if !Live(w.transactions, ops[0]) {
        assert left == Pass(w, up, ops[1..]).1;
        PassOrder(w, up, ops[1..]);
        SubsequenceSkip(left, ops);
      } else {
        var w1 := Attempt(w, up, ops[0]).0;
        var rest := Pass(w1, up, ops[1..]).1;
        PassOrder(w1, up, ops[1..]);
        if Attempt(w, up, ops[0]).1 {
          assert left == rest;
          SubsequenceSkip(rest, ops);
        } else {
          assert left == [ops[0]] + rest;
          SubsequenceCons(ops[0], rest, ops);
        }
      }
    }
  }

  /** Every operation a pass keeps belongs to a registered transaction that is not aborting. */
  lemma {:induction false} PassLive(w: World, up: seq<bool>, ops: seq<Operation>)
    requires Fits(w, up)
    ensures forall op :: op in Pass(w, up, ops).1 ==> Live(w.transactions, op)
    decreases |ops|
  {
    if ops != [] {
      var left := Pass(w, up, ops).1;
      if !Live(w.transactions, ops[0]) {
        assert left == Pass(w, up, ops[1..]).1;
        PassLive(w, up, ops[1..]);
      } else {
        var (w1, ok) := Attempt(w, up, ops[0]);
        var rest := Pass(w1, up, ops[1..]).1;
        AttemptKeeps(w, up, ops[0]);
        PassLive(w1, up, ops[1..]);
        assert left == (if ok then [] else [ops[0]]) + rest;
        forall op | op in rest
          ensures Live(w.transactions, op)
        {
          assert Live(w1.transactions, op);
          assert Grown(w.transactions[op.txn], w1.transactions[op.txn]);
        }
      }
    }
  }

  /** A pass over operations none of which may run drops them all and changes nothing. */
  lemma {:induction false} PassQuiet(w: World, up: seq<bool>, ops: seq<Operation>)
    requires Fits(w, up)
    requires forall op :: op in ops ==> !Live(w.transactions, op)
    ensures Pass(w, up, ops) == (w, [])
    decreases |ops|
  {
    if ops != [] {
      assert ops[0] in ops;
      assert forall op :: op in ops[1..] ==> op in ops;
      PassQuiet(w, up, ops[1..]);
    }
  }

  // ---------------------------------------------------------------------------
  // What one attempt promises
  // ---------------------------------------------------------------------------

  /**
   * A read goes through exactly when the read pass finds a serving site;
   * no up hosting site before it serves. The serving site becomes visited
   * and the value reported is its scratch value; a read that does not go
   * through changes neither the registry nor the output.
   */
  lemma ReadTrySpec(w: World, up: seq<bool>, op: Operation)
    requires Fits(w, up) && op.txn in w.transactions && RowInv(w.row)
    ensures InRow(SiteCount, Hosts(op.variable))
    ensures var r := ReadTry(w, up, op);
            var site := ReadPass(w.row, Hosts(op.variable), up, op).1;
            && r.1 == (site != 0)
            && (forall h :: h in Hosts(op.variable) && up[h - 1] && (site == 0 || h < site) ==>
                  !Serves(w.row[h - 1], op))
            && (r.1 ==> && Serves(w.row[site - 1], op)
                        && r.0.transactions == Visit(w.transactions, op.txn, {site})
                        && exists value :: && ScratchIs(w.row[site - 1], op.variable, value)
                                           && r.0.output == w.output + [ReadResult(op.variable, value)])
            && (!r.1 ==> r.0.transactions == w.transactions && r.0.output == w.output)
  {
    HostsWalk(op.variable);
    var hosts := Hosts(op.variable);
    var (row, site) := ReadPass(w.row, hosts, up, op);
    ReadPassStops(w.row, hosts, up, op);
    if site != 0 {
      var value := ReadTryHit(w, up, op);
    } else {
      ReadTryFrom(w, up, op, row, site, 0);
    }
  }

  /** A read whose pass found a site reports that site's scratch value before the pass. */
  lemma ReadTryHit(w: World, up: seq<bool>, op: Operation) returns (value: int)
    requires Fits(w, up) && op.txn in w.transactions && RowInv(w.row)
    requires InRow(SiteCount, Hosts(op.variable)) && ReadPass(w.row, Hosts(op.variable), up, op).1 != 0
    ensures var site := ReadPass(w.row, Hosts(op.variable), up, op).1;
            && ScratchIs(w.row[site - 1], op.variable, value)
            && ReadTry(w, up, op) ==
                 (World(ReadPass(w.row, Hosts(op.variable), up, op).0, Visit(w.transactions, op.txn, {site}),
                        w.output + [ReadResult(op.variable, value)]), true)
  {
    HostsWalk(op.variable);
    var hosts := Hosts(op.variable);
    var (row, site) := ReadPass(w.row, hosts, up, op);
    ReadPassValue(w.row, hosts, up, op);
    value := ReadAt(row[site - 1], op).readResult;
    ReadPassAnswer(w.row, hosts, up, op, row, site, value);
    ReadTryFrom(w, up, op, row, site, value);
  }

  /** A read goes through exactly when some up hosting site serves it. */
  lemma ReadTryIff(w: World, up: seq<bool>, op: Operation)
    requires Fits(w, up) && op.txn in w.transactions && RowInv(w.row)
    ensures ReadTry(w, up, op).1 <==>
              exists h :: h in Hosts(op.variable) && up[h - 1] && Serves(w.row[h - 1], op)
  {
    ReadTrySpec(w, up, op);
    HostsWalk(op.variable);
    var site := ReadPass(w.row, Hosts(op.variable), up, op).1;
    if site != 0 {
      assert site in Hosts(op.variable) && up[site - 1] && Serves(w.row[site - 1], op);
    }
  }

  /** x is the value of the newest version of h committed no later than ts. */
  ghost predicate VisibleValue(h: seq<Version>, ts: int, x: int) {
    exists k :: Visible(h, ts, k) && h[k].value == x
  }

  /**
   * A snapshot read goes through exactly when the snapshot pass finds a
   * site that can answer; no up hosting site before it can. It changes
   * neither the sites nor the registry, and reports a version of the
   * variable that was committed by the operation's timestamp.
   */
  lemma ReadOnlyTrySpec(w: World, up: seq<bool>, op: Operation)
    requires Fits(w, up)
    ensures InRow(SiteCount, Hosts(op.variable))
    ensures var (w', ok) := ReadOnlyTry(w, up, op);
            var site := ReadOnlyPass(w.row, Hosts(op.variable), up, op);
            && ok == (site != 0)
            && w'.row == w.row && w'.transactions == w.transactions
            && (forall h :: h in Hosts(op.variable) && up[h - 1] && (site == 0 || h < site) ==>
                  !ReadOnlyAt(w.row[h - 1], op).success)
            && (ok ==> var x := ReadOnlyAt(w.row[site - 1], op).readResult;
                       && w'.output == w.output + [ReadResult(op.variable, x)]
                       && op.variable in w.row[site - 1].committed
                       && VisibleValue(w.row[site - 1].committed[op.variable], op.timestamp, x))
            && (!ok ==> w' == w)
  {
    HostsWalk(op.variable);
    ReadOnlyPassSpec(w.row, Hosts(op.variable), up, op);
  }

  /** x is the value of a version of h committed no later than ts, and no such version is newer. */
  ghost predicate Latest(h: seq<Version>, ts: int, x: int) {
    exists k :: && 0 <= k < |h| && h[k].commitTime <= ts && h[k].value == x
                && forall j :: 0 <= j < |h| && h[j].commitTime <= ts ==> h[j].commitTime <= h[k].commitTime
  }

  /**
   * With ordered histories, the value a snapshot read reports is that of
   * the latest version committed by the operation's timestamp at the site
   * that answered, which is up and hosts the variable.
   */
  lemma ReadOnlyTryLatest(w: World, up: seq<bool>, op: Operation, t: int)
    requires Fits(w, up) && Historic(w.row, t)
    ensures InRow(SiteCount, Hosts(op.variable))
    ensures var site := ReadOnlyPass(w.row, Hosts(op.variable), up, op);
            ReadOnlyTry(w, up, op).1 ==>
              && site in Hosts(op.variable) && up[site - 1]
              && op.variable in w.row[site - 1].committed
              && var x := ReadOnlyAt(w.row[site - 1], op).readResult;
              && ReadOnlyTry(w, up, op).0.output == w.output + [ReadResult(op.variable, x)]
              && Latest(w.row[site - 1].committed[op.variable], op.timestamp, x)
  {
    ReadOnlyTrySpec(w, up, op);
    var site := ReadOnlyPass(w.row, Hosts(op.variable), up, op);
    if site != 0 {
      var h := w.row[site - 1].committed[op.variable];
      var x := ReadOnlyAt(w.row[site - 1], op).readResult;
      var k :| Visible(h, op.timestamp, k) && h[k].value == x;
      assert Chronological(w.row[site - 1], t);
      VisibleIsLatest(h, op.timestamp, k);
    }
  }

  /** The effect of a read whose pass left `row` and found `site`, and there the value `value`. */
  lemma ReadTryFrom(w: World, up: seq<bool>, op: Operation, row: seq<SiteState>, site: int, value: int)
    requires Fits(w, up) && op.txn in w.transactions && InRow(SiteCount, Hosts(op.variable))
    requires (row, site) == ReadPass(w.row, Hosts(op.variable), up, op)
    requires site != 0 ==> ReadAnswered(row[site - 1], op) && value == ReadAt(row[site - 1], op).readResult
    ensures ReadTry(w, up, op) ==
              if site == 0 then (w.(row := row), false)
              else (World(row, Visit(w.transactions, op.txn, {site}), w.output + [ReadResult(op.variable, value)]), true)
  {
  }

  /**
   * The effect of a write whose lock pass left `locked` and answered ok,
   * and whose write pass, when ok, left `row` and wrote at `written`.
   */
  lemma WriteTryFrom(w: World, up: seq<bool>, op: Operation, locked: seq<SiteState>, ok: bool,
                     row: seq<SiteState>, written: set<int>)
    requires Fits(w, up) && op.txn in w.transactions && InRow(SiteCount, Hosts(op.variable))
    requires (locked, ok) == WriteLocks(w.row, Hosts(op.variable), up, op.txn, op.variable)
    requires ok ==> row == WriteAll(locked, Hosts(op.variable), up, op) && written == UpIn(Hosts(op.variable), up)
    ensures WriteTry(w, up, op) ==
              if !ok then (w.(row := locked), false)
              else (w.(row := row, transactions := Visit(w.transactions, op.txn, written)), true)
  {
  }

  /** The effect of a snapshot read whose pass found `site`, and there the value `value`. */
  lemma ReadOnlyTryFrom(w: World, up: seq<bool>, op: Operation, site: int, value: int)
    requires Fits(w, up) && InRow(SiteCount, Hosts(op.variable))
    requires site == ReadOnlyPass(w.row, Hosts(op.variable), up, op)
    requires site != 0 ==> value == ReadOnlyAt(w.row[site - 1], op).readResult
    ensures ReadOnlyTry(w, up, op) ==
              if site == 0 then (w, false)
              else (w.(output := w.output + [ReadResult(op.variable, value)]), true)
  {
  }

  /**
   * A write goes through exactly when every up hosting site grants the
   * WRITE lock. Then each of them holds the written value as scratch
   * value and becomes visited, and no other site changes. Otherwise each
   * up hosting site has answered the lock request and the registry stays.
   * Nothing is reported.
   */
  lemma WriteTrySpec(w: World, up: seq<bool>, op: Operation)
    requires Fits(w, up) && op.txn in w.transactions && RowInv(w.row)
    ensures var r := WriteTry(w, up, op);
            var written := UpIn(Hosts(op.variable), up);
            && (r.1 <==> forall h :: h in written ==> WriteLockCheck(w.row[h - 1].lockTable, op.txn, op.variable))
            && r.0.output == w.output
            && (r.1 ==> && r.0.transactions == Visit(w.transactions, op.txn, written)
                        && (forall h :: h in written ==> ScratchIs(r.0.row[h - 1], op.variable, op.value))
                        && (forall i :: 0 <= i < |w.row| && i + 1 !in written ==> r.0.row[i] == w.row[i]))
            && (!r.1 ==> && r.0.transactions == w.transactions
                         && forall i :: 0 <= i < |w.row| ==>
                              r.0.row[i] == if i + 1 in written then WriteLockState(w.row[i], op.txn, op.variable)
                                            else w.row[i])
  {
    HostsWalk(op.variable);
    var hosts := Hosts(op.variable);
    var ok := WriteLocks(w.row, hosts, up, op.txn, op.variable).1;
    WriteLocksSpec(w.row, hosts, up, op.txn, op.variable);
    if ok {
      WriteTryGranted(w, up, op);
    } else {
      WriteTryRefused(w, up, op);
    }
  }

  /** The granted half of WriteTrySpec: every up host holds the value, nobody else changes. */
  lemma WriteTryGranted(w: World, up: seq<bool>, op: Operation)
    requires Fits(w, up) && op.txn in w.transactions && RowInv(w.row)
    requires InRow(SiteCount, Hosts(op.variable)) && Ascending(Hosts(op.variable))
    requires WriteLocks(w.row, Hosts(op.variable), up, op.txn, op.variable).1
    ensures var r := WriteTry(w, up, op);
            var written := UpIn(Hosts(op.variable), up);
            && r.1 && r.0.output == w.output
            && r.0.transactions == Visit(w.transactions, op.txn, written)
            && (forall h :: h in written ==> ScratchIs(r.0.row[h - 1], op.variable, op.value))
            && (forall i :: 0 <= i < |w.row| && i + 1 !in written ==> r.0.row[i] == w.row[i])
  {
    var hosts := Hosts(op.variable);
    var locked := WriteLocks(w.row, hosts, up, op.txn, op.variable).0;
    WriteLands(w.row, hosts, up, op);
    WriteTryFrom(w, up, op, locked, true, WriteAll(locked, hosts, up, op), UpIn(hosts, up));
  }

  /** The refused half of WriteTrySpec: only the lock requests of the up hosts remain. */
  lemma WriteTryRefused(w: World, up: seq<bool>, op: Operation)
    requires Fits(w, up) && op.txn in w.transactions
    requires InRow(SiteCount, Hosts(op.variable)) && Ascending(Hosts(op.variable))
    requires !WriteLocks(w.row, Hosts(op.variable), up, op.txn, op.variable).1
    ensures var r := WriteTry(w, up, op);
            && !r.1 && r.0.output == w.output && r.0.transactions == w.transactions
            && r.0.row == WriteLocks(w.row, Hosts(op.variable), up, op.txn, op.variable).0
  {
    var hosts := Hosts(op.variable);
    var locked := WriteLocks(w.row, hosts, up, op.txn, op.variable).0;
    WriteTryFrom(w, up, op, locked, false, w.row, {});
  }

  /** With no hosting site up, a write goes through, changes no site and visits none. */
  lemma WriteTryVacuous(w: World, up: seq<bool>, op: Operation)
    requires Fits(w, up) && op.txn in w.transactions
    requires UpIn(Hosts(op.variable), up) == {}
    ensures WriteTry(w, up, op) == (w, true)
  {
    HostsWalk(op.variable);
    var hosts := Hosts(op.variable);
    WriteVacuous(w.row, hosts, up, op);
    var (locked, ok) := WriteLocks(w.row, hosts, up, op.txn, op.variable);
    assert locked == w.row && ok;
    VisitNothing(w.transactions, op.txn);
  }

  /** Visiting no site leaves the registry as it was. */
  lemma VisitNothing(ts: map<int, Transaction>, txn: int)
    requires txn in ts
    ensures Visit(ts, txn, {}) == ts
  {
    var t := ts[txn];
    assert t.(visitedSites := t.visitedSites + {}) == t;
  }

  // ---------------------------------------------------------------------------
  // Abort and end
  // ---------------------------------------------------------------------------

  /**
   * Abort: the first abort of txn aborts it at every site it visited and
   * marks it aborting; an abort of a transaction already aborting changes
   * nothing.
   */
  function AbortTxn(w: World, txn: int): (r: World)
    requires txn in w.transactions
    requires !w.transactions[txn].willAbort ==> forall i :: 0 <= i < |w.row| ==> AbortReady(w.row[i], txn)
    ensures r.transactions.Keys == w.transactions.Keys && r.transactions[txn].willAbort
    ensures forall t :: t in w.transactions && t != txn ==> r.transactions[t] == w.transactions[t]
    ensures r.output == w.output && |r.row| == |w.row|
  {
    var t := w.transactions[txn];
    if t.willAbort then w
    else w.(row := AbortAll(w.row, t.visitedSites, txn),
            transactions := w.transactions[txn := t.(willAbort := true)])
  }

  /** The registry after an abort: only txn's entry changes, and only its mark. */
  lemma AbortTxnRegistry(w: World, txn: int)
    requires txn in w.transactions
    requires !w.transactions[txn].willAbort ==> forall i :: 0 <= i < |w.row| ==> AbortReady(w.row[i], txn)
    ensures AbortTxn(w, txn).transactions == w.transactions[txn := w.transactions[txn].(willAbort := true)]
  {
  }

  /**
   * Abort marks txn aborting and changes no other registry entry and no
   * output. At each site it visited its written set is gone, each variable
   * it wrote has its newest committed value back as scratch value, and no
   * history changes; other sites do not change. A second abort changes
   * nothing.
   */
  lemma AbortTxnSpec(w: World, txn: int)
    requires txn in w.transactions && RowInv(w.row)
    requires forall i :: 0 <= i < |w.row| ==> AbortReady(w.row[i], txn)
    ensures var w' := AbortTxn(w, txn);
            var t := w.transactions[txn];
            && w'.transactions == w.transactions[txn := t.(willAbort := true)]
            && w'.output == w.output
            && RowInv(w'.row)
            && (forall i :: 0 <= i < |w.row| ==> w'.row[i].committed == w.row[i].committed)
            && (forall i :: 0 <= i < |w.row| && (t.willAbort || i + 1 !in t.visitedSites) ==> w'.row[i] == w.row[i])
            && (forall i :: 0 <= i < |w.row| && !t.willAbort && i + 1 in t.visitedSites ==>
                  && txn !in w'.row[i].dirty
                  && forall v :: v in DirtyOf(w.row[i].dirty, txn) ==>
                       w'.row[i].uncommitted[v] == w.row[i].committed[v][0].value)
            && AbortTxn(w', txn) == w'
  {
    var t := w.transactions[txn];
    if t.willAbort {
      assert w.transactions[txn := t.(willAbort := true)] == w.transactions;
    } else {
      forall i | 0 <= i < |w.row|
        ensures Inv(i + 1, AbortTxn(w, txn).row[i])
        ensures AbortTxn(w, txn).row[i].committed == w.row[i].committed
        ensures i + 1 in t.visitedSites ==>
                  && txn !in AbortTxn(w, txn).row[i].dirty
                  && forall v :: v in DirtyOf(w.row[i].dirty, txn) ==>
                       AbortTxn(w, txn).row[i].uncommitted[v] == w.row[i].committed[v][0].value
      {
        AbortAllAt(w.row, t.visitedSites, txn, i);
        if i + 1 in t.visitedSites {
          AbortSpec(i + 1, w.row[i], txn);
        }
      }
    }
  }

  /**
   * end(txn): an aborting transaction is reported aborted and no site
   * changes; any other commits, with time ts, at every site it visited
   * and is reported committed. Either way it leaves the registry.
   */
  function FinishTxn(w: World, txn: int, ts: int): (r: World)
    requires txn in w.transactions
    requires !w.transactions[txn].willAbort ==> forall i :: 0 <= i < |w.row| ==> CommitReady(w.row[i], txn)
    ensures r.transactions == w.transactions - {txn} && |r.row| == |w.row|
    ensures w.transactions[txn].willAbort ==> r.row == w.row && r.output == w.output + [Aborts(txn)]
    ensures !w.transactions[txn].willAbort ==> r.output == w.output + [Commits(txn)]
  {
    var t := w.transactions[txn];
    if t.willAbort then World(w.row, w.transactions - {txn}, w.output + [Aborts(txn)])
    else World(CommitAll(w.row, t.visitedSites, txn, ts), w.transactions - {txn}, w.output + [Commits(txn)])
  }

  /**
   * When every commit so far is earlier than ts, committing at ts at any
   * set of sites keeps every history ordered and bounded by ts.
   */
  lemma CommitAllHistoric(ss: seq<SiteState>, visited: set<int>, txn: int, ts: int)
    requires Historic(ss, ts - 1) && forall i :: 0 <= i < |ss| ==> CommitReady(ss[i], txn)
    ensures Historic(CommitAll(ss, visited, txn, ts), ts)
  {
    forall i | 0 <= i < |ss|
      ensures Chronological(CommitAll(ss, visited, txn, ts)[i], ts)
    {
      CommitAllAt(ss, visited, txn, ts, i);
      if i + 1 in visited {
        CommitSpec(ss[i], txn, ts, ts - 1);
      } else {
        ChronologicalLater(ss[i], ts - 1, ts);
      }
    }
  }

  /**
   * When every commit so far is earlier than ts, end keeps every history
   * ordered and bounded by ts. A committing transaction gives each
   * variable it wrote at a site it visited one new version, its scratch
   * value at ts, in front of the history; every other history stays, and
   * an aborting transaction changes no site.
   */
  lemma FinishTxnSpec(w: World, txn: int, ts: int)
    requires txn in w.transactions && Historic(w.row, ts - 1)
    requires forall i :: 0 <= i < |w.row| ==> CommitReady(w.row[i], txn)
    ensures var w' := FinishTxn(w, txn, ts);
            var t := w.transactions[txn];
            && w'.transactions == w.transactions - {txn}
            && Historic(w'.row, ts)
            && (t.willAbort ==> w'.row == w.row)
            && forall i :: 0 <= i < |w.row| ==>
                 && w'.row[i].committed.Keys == w.row[i].committed.Keys
                 && forall v :: v in w.row[i].committed ==>
                      w'.row[i].committed[v] ==
                        if !t.willAbort && i + 1 in t.visitedSites && v in DirtyOf(w.row[i].dirty, txn)
                        then [Version(w.row[i].uncommitted[v], ts)] + w.row[i].committed[v]
                        else w.row[i].committed[v]
  {
    var t := w.transactions[txn];
    var w' := FinishTxn(w, txn, ts);
    forall i | 0 <= i < |w.row|
      ensures Chronological(w'.row[i], ts)
      ensures w'.row[i].committed.Keys == w.row[i].committed.Keys
      ensures forall v :: v in w.row[i].committed ==>
                w'.row[i].committed[v] ==
                  if !t.willAbort && i + 1 in t.visitedSites && v in DirtyOf(w.row[i].dirty, txn)
                  then [Version(w.row[i].uncommitted[v], ts)] + w.row[i].committed[v]
                  else w.row[i].committed[v]
    {
      if !t.willAbort && i + 1 in t.visitedSites {
        CommitAllAt(w.row, t.visitedSites, txn, ts, i);
        CommitSpec(w.row[i], txn, ts, ts - 1);
      } else {
        if !t.willAbort {
          CommitAllAt(w.row, t.visitedSites, txn, ts, i);
        }
        ChronologicalLater(w.row[i], ts - 1, ts);
      }
    }
  }
}
