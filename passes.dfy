/**
 * The two ways the coordinator walks over the hosting sites of a
 * variable, in ascending site order and skipping the sites that are down:
 * a scan that asks one site after the other and stops at the first one
 * that grants (reads and snapshot reads), and a sweep that asks every up
 * site (the two passes of a write). Site h of a row is its element h - 1;
 * `up` says which sites are up. The lemmas state each walk without its
 * recursion.
 */
module Passes {

  import opened Placement

  /** Every site named in hosts is a site of a row of n sites. */
  predicate InRow(n: int, hosts: seq<int>) {
    forall h :: h in hosts ==> 1 <= h <= n
  }

  /** The sites of hosts that are up. */
  function UpIn(hosts: seq<int>, up: seq<bool>): set<int> {
    set h | h in hosts && 1 <= h <= |up| && up[h - 1]
  }

  /** A non-empty sequence holds its head and the elements of its tail, and nothing else. */
  lemma HeadTail(hosts: seq<int>)
    requires |hosts| > 0
    ensures hosts[0] in hosts
    ensures forall h :: h in hosts <==> h == hosts[0] || h in hosts[1..]
  {
    assert hosts == [hosts[0]] + hosts[1..];
  }

  /** Each element lies below every later one: a list of distinct sites in ascending order. */
  predicate Ascending(hosts: seq<int>)
    decreases |hosts|
  {
    hosts == [] || ((forall h :: h in hosts[1..] ==> hosts[0] < h) && Ascending(hosts[1..]))
  }

  /** A strictly increasing sequence is ascending. */
  lemma {:induction false} IncreasingAscending(hosts: seq<int>)
    requires StrictlyIncreasing(hosts)
    ensures Ascending(hosts)
    decreases |hosts|
  {
    if hosts != [] {
      var tail := hosts[1..];
      assert StrictlyIncreasing(tail) by {
        forall i, j | 0 <= i < j < |tail|
          ensures tail[i] < tail[j]
        {
          assert tail[i] == hosts[i + 1] && tail[j] == hosts[j + 1];
        }
      }
      forall h | h in tail
        ensures hosts[0] < h
      {
        var k :| 0 <= k < |tail| && tail[k] == h;
        assert hosts[k + 1] == h;
      }
      IncreasingAscending(tail);
    }
  }

  /** The hosting sites of v are an ascending list of sites of the row, each storing v. */
  lemma HostsWalk(v: int)
    ensures InRow(SiteCount, Hosts(v)) && Ascending(Hosts(v))
    ensures forall h :: h in Hosts(v) ==> Resident(h, v)
  {
    HostsSpec(v);
    IncreasingAscending(Hosts(v));
  }

  /** The up sites of hosts: its head, when up, and the up sites of its tail. */
  lemma UpInTail(hosts: seq<int>, up: seq<bool>)
    requires |hosts| > 0
    ensures UpIn(hosts, up) ==
              UpIn(hosts[1..], up) + (if 1 <= hosts[0] <= |up| && up[hosts[0] - 1] then {hosts[0]} else {})
  {
    HeadTail(hosts);
  }

  // ---------------------------------------------------------------------------
  // Scan: ask until the first grant
  // ---------------------------------------------------------------------------

  /**
   * Walks hosts in order, skipping down sites. At each up site it decides
   * whether the site grants (on the site as it is before the request),
   * then applies the request `ask`; it stops after the first granting
   * site. The result is the new row and the granting site, or 0.
   */
  function Scan<S>(ss: seq<S>, hosts: seq<int>, up: seq<bool>, ask: S -> S, grant: S -> bool): (r: (seq<S>, int))
    requires |up| == |ss| && InRow(|ss|, hosts)
    ensures |r.0| == |ss|
    ensures r.1 != 0 ==> r.1 in hosts && 1 <= r.1 <= |ss| && up[r.1 - 1]
    decreases |hosts|
  {
    if hosts == [] then (ss, 0)
    else
      HeadTail(hosts);
      var h := hosts[0];
      if !up[h - 1] then Scan(ss, hosts[1..], up, ask, grant)
      else if grant(ss[h - 1]) then (ss[h - 1 := ask(ss[h - 1])], h)
      else Scan(ss[h - 1 := ask(ss[h - 1])], hosts[1..], up, ask, grant)
  }

  /** One step of a scan: its first site, then the scan of the rest. */
  lemma ScanStep<S>(ss: seq<S>, hosts: seq<int>, up: seq<bool>, ask: S -> S, grant: S -> bool)
    requires |up| == |ss| && InRow(|ss|, hosts) && hosts != []
    ensures 1 <= hosts[0] <= |ss| && InRow(|ss|, hosts[1..])
    ensures var h := hosts[0];
            Scan(ss, hosts, up, ask, grant) ==
              if !up[h - 1] then Scan(ss, hosts[1..], up, ask, grant)
              else if grant(ss[h - 1]) then (ss[h - 1 := ask(ss[h - 1])], h)
              else Scan(ss[h - 1 := ask(ss[h - 1])], hosts[1..], up, ask, grant)
  {
    HeadTail(hosts);
  }

  /**
   * A scan stops at the first up site that grants: that site grants, and
   * no up site before it does (no up site at all when the scan fails).
   */
  lemma {:induction false} ScanStops<S>(ss: seq<S>, hosts: seq<int>, up: seq<bool>, ask: S -> S, grant: S -> bool)
    requires |up| == |ss| && InRow(|ss|, hosts) && Ascending(hosts)
    ensures var site := Scan(ss, hosts, up, ask, grant).1;
            && (site != 0 ==> grant(ss[site - 1]))
            && (forall h :: h in hosts && up[h - 1] && (site == 0 || h < site) ==> !grant(ss[h - 1]))
    decreases |hosts|
  {
    if hosts != [] {
      var h := hosts[0];
      HeadTail(hosts);
      if !up[h - 1] {
        ScanStops(ss, hosts[1..], up, ask, grant);
      } else if !grant(ss[h - 1]) {
        var ss1 := ss[h - 1 := ask(ss[h - 1])];
        ScanStops(ss1, hosts[1..], up, ask, grant);
        var site := Scan(ss, hosts, up, ask, grant).1;
        assert site == Scan(ss1, hosts[1..], up, ask, grant).1;
        if site != 0 {
          assert ss1[site - 1] == ss[site - 1];
        }
        forall x | x in hosts && up[x - 1] && (site == 0 || x < site)
          ensures !grant(ss[x - 1])
        {
          if x != h {
            assert ss1[x - 1] == ss[x - 1];
          }
        }
      }
    }
  }

  /**
   * A scan asks every up site up to the granting one (every up site when
   * none grants), once, and changes no other site.
   */
  lemma {:induction false} ScanAsks<S>(ss: seq<S>, hosts: seq<int>, up: seq<bool>, ask: S -> S, grant: S -> bool)
    requires |up| == |ss| && InRow(|ss|, hosts) && Ascending(hosts)
    ensures var (ss', site) := Scan(ss, hosts, up, ask, grant);
            forall i :: 0 <= i < |ss| ==>
              ss'[i] == if i + 1 in hosts && up[i] && (site == 0 || i + 1 <= site) then ask(ss[i]) else ss[i]
    decreases |hosts|
  {
    if hosts != [] {
      var h := hosts[0];
      HeadTail(hosts);
      var (ss', site) := Scan(ss, hosts, up, ask, grant);
      if !up[h - 1] {
        ScanAsks(ss, hosts[1..], up, ask, grant);
      } else if !grant(ss[h - 1]) {
        var ss1 := ss[h - 1 := ask(ss[h - 1])];
        ScanAsks(ss1, hosts[1..], up, ask, grant);
        forall i | 0 <= i < |ss|
          ensures ss'[i] == if i + 1 in hosts && up[i] && (site == 0 || i + 1 <= site) then ask(ss[i]) else ss[i]
        {
          if i != h - 1 {
            assert ss1[i] == ss[i];
          }
        }
      }
    }
  }

  /** Where a scan succeeds, the granting site grants and is asked. */
  lemma ScanGranted<S>(ss: seq<S>, hosts: seq<int>, up: seq<bool>, ask: S -> S, grant: S -> bool)
    requires |up| == |ss| && InRow(|ss|, hosts) && Ascending(hosts)
    ensures var r := Scan(ss, hosts, up, ask, grant);
            r.1 != 0 ==> grant(ss[r.1 - 1]) && r.0[r.1 - 1] == ask(ss[r.1 - 1])
  {
    ScanStops(ss, hosts, up, ask, grant);
    ScanAsks(ss, hosts, up, ask, grant);
  }

  // ---------------------------------------------------------------------------
  // Sweep: ask every up site
  // ---------------------------------------------------------------------------

  /**
   * Walks hosts in order, skipping down sites, and applies `ask` at each up
   * site. The flag is set when every up site granted, each judged on the
   * site as it was before its request; a refusal does not stop the sweep.
   */
  function Sweep<S>(ss: seq<S>, hosts: seq<int>, up: seq<bool>, ask: S -> S, grant: S -> bool): (r: (seq<S>, bool))
    requires |up| == |ss| && InRow(|ss|, hosts)
    ensures |r.0| == |ss|
    decreases |hosts|
  {
    if hosts == [] then (ss, true)
    else
      HeadTail(hosts);
      var h := hosts[0];
      if !up[h - 1] then Sweep(ss, hosts[1..], up, ask, grant)
      else
        var rest := Sweep(ss[h - 1 := ask(ss[h - 1])], hosts[1..], up, ask, grant);
        (rest.0, grant(ss[h - 1]) && rest.1)
  }

  /** One step of a sweep: its first site, then the sweep of the rest. */
  lemma SweepStep<S>(ss: seq<S>, hosts: seq<int>, up: seq<bool>, ask: S -> S, grant: S -> bool)
    requires |up| == |ss| && InRow(|ss|, hosts) && hosts != []
    ensures 1 <= hosts[0] <= |ss| && InRow(|ss|, hosts[1..])
    ensures var h := hosts[0];
            Sweep(ss, hosts, up, ask, grant) ==
              if !up[h - 1] then Sweep(ss, hosts[1..], up, ask, grant)
              else
                var rest := Sweep(ss[h - 1 := ask(ss[h - 1])], hosts[1..], up, ask, grant);
                (rest.0, grant(ss[h - 1]) && rest.1)
  {
    HeadTail(hosts);
  }

  /** A sweep asks exactly the up sites of hosts, each once. */
  lemma {:induction false} SweepAsks<S>(ss: seq<S>, hosts: seq<int>, up: seq<bool>, ask: S -> S, grant: S -> bool)
    requires |up| == |ss| && InRow(|ss|, hosts) && Ascending(hosts)
    ensures var ss' := Sweep(ss, hosts, up, ask, grant).0;
            forall i :: 0 <= i < |ss| ==> ss'[i] == if i + 1 in UpIn(hosts, up) then ask(ss[i]) else ss[i]
    decreases |hosts|
  {
    if hosts != [] {
      var h := hosts[0];
      HeadTail(hosts);
      UpInTail(hosts, up);
      if !up[h - 1] {
        SweepAsks(ss, hosts[1..], up, ask, grant);
      } else {
        var ss1 := ss[h - 1 := ask(ss[h - 1])];
        SweepAsks(ss1, hosts[1..], up, ask, grant);
        var ss' := Sweep(ss, hosts, up, ask, grant).0;
        assert ss' == Sweep(ss1, hosts[1..], up, ask, grant).0;
        forall i | 0 <= i < |ss|
          ensures ss'[i] == if i + 1 in UpIn(hosts, up) then ask(ss[i]) else ss[i]
        {
          if i != h - 1 {
            assert ss1[i] == ss[i];
          } else {
            assert h !in UpIn(hosts[1..], up);
            assert h in UpIn(hosts, up);
          }
        }
      }
    }
  }

  /** A sweep's flag is set exactly when every up site of hosts grants. */
  lemma {:induction false} SweepGrants<S>(ss: seq<S>, hosts: seq<int>, up: seq<bool>, ask: S -> S, grant: S -> bool)
    requires |up| == |ss| && InRow(|ss|, hosts) && Ascending(hosts)
    ensures Sweep(ss, hosts, up, ask, grant).1 <==> forall h :: h in UpIn(hosts, up) ==> grant(ss[h - 1])
    decreases |hosts|
  {
    if hosts != [] {
      var h := hosts[0];
      HeadTail(hosts);
      UpInTail(hosts, up);
      if !up[h - 1] {
        SweepGrants(ss, hosts[1..], up, ask, grant);
      } else {
        var ss1 := ss[h - 1 := ask(ss[h - 1])];
        SweepGrants(ss1, hosts[1..], up, ask, grant);
        assert forall x :: x in hosts[1..] ==> ss1[x - 1] == ss[x - 1];
      }
    }
  }
}
