/**
 * Static placement of variables on sites: even variables are replicated on
 * every site, odd variable v lives only on site 1 + v % 10.
 */
module Placement {

  const VariableCount := 20
  const SiteCount := 10

  predicate IsVariable(v: int) { 1 <= v <= VariableCount }

  predicate IsSite(s: int) { 1 <= s <= SiteCount }

  /** Variable v is stored at site `site`. */
  predicate Resident(site: int, v: int) {
    IsVariable(v) && (v % 2 == 0 || 1 + v % 10 == site)
  }

  /** The variables a site stores. */
  function ResidentSet(site: int): (vs: set<int>)
    ensures forall v :: v in vs <==> Resident(site, v)
  {
    set v | 1 <= v <= VariableCount && Resident(site, v)
  }

  /** The hosting sites of v among 1..n, in ascending order. */
  function HostsUpTo(v: int, n: int): seq<int>
    decreases n
  {
    if n <= 0 then []
    else HostsUpTo(v, n - 1) + (if Resident(n, v) then [n] else [])
  }

  /** All the sites, in ascending order. */
  function AllSites(): (r: seq<int>)
    ensures |r| == SiteCount && forall i :: 0 <= i < SiteCount ==> r[i] == i + 1
  {
    seq(SiteCount, i => i + 1)
  }

  /** The hosting sites of v, in ascending order of site id: all of them, or its home site. */
  function Hosts(v: int): seq<int> {
    if !IsVariable(v) then []
    else if v % 2 == 0 then AllSites()
    else [1 + v % 10]
  }

  /** A number that is no variable is hosted nowhere. */
  lemma {:induction false} NoHostsUpTo(v: int, n: int)
    requires !IsVariable(v)
    ensures HostsUpTo(v, n) == []
    decreases n
  {
    if n > 0 {
      NoHostsUpTo(v, n - 1);
    }
  }

  /** The constructor's tables list, for every variable, exactly its hosting sites. */
  lemma HostsUpToAll(v: int)
    ensures HostsUpTo(v, SiteCount) == Hosts(v)
  {
    if !IsVariable(v) {
      NoHostsUpTo(v, SiteCount);
    } else if v % 2 == 0 {
      EvenHostsUpTo(v, SiteCount);
    } else {
      OddHostsUpTo(v, SiteCount);
    }
  }

  predicate StrictlyIncreasing(s: seq<int>) {
    forall i, j :: 0 <= i < j < |s| ==> s[i] < s[j]
  }

  /** Every entry of HostsUpTo(v, n) is a hosting site in 1..n, and every such site appears. */
  lemma {:induction false} HostsUpToMembers(v: int, n: int)
    ensures forall s :: s in HostsUpTo(v, n) <==> 1 <= s <= n && Resident(s, v)
    ensures StrictlyIncreasing(HostsUpTo(v, n))
    decreases n
  {
    if n > 0 {
      HostsUpToMembers(v, n - 1);
      var prev := HostsUpTo(v, n - 1);
      assert HostsUpTo(v, n) == prev + (if Resident(n, v) then [n] else []);
      forall i | 0 <= i < |prev|
        ensures prev[i] < n
      {
        assert prev[i] in HostsUpTo(v, n - 1);
      }
    }
  }

  /** The site list of v holds exactly the hosting sites, in strictly ascending order. */
  lemma HostsSpec(v: int)
    ensures forall s :: s in Hosts(v) <==> IsSite(s) && Resident(s, v)
    ensures StrictlyIncreasing(Hosts(v))
  {
    HostsUpToMembers(v, SiteCount);
    HostsUpToAll(v);
  }

  /** A replicated (even) variable is hosted by all sites 1..n. */
  lemma {:induction false} EvenHostsUpTo(v: int, n: int)
    requires IsVariable(v) && v % 2 == 0 && 0 <= n
    ensures |HostsUpTo(v, n)| == n
    ensures forall i :: 0 <= i < n ==> HostsUpTo(v, n)[i] == i + 1
    decreases n
  {
    if n > 0 {
      EvenHostsUpTo(v, n - 1);
    }
  }

  /** A non-replicated (odd) variable is hosted by its single home site only. */
  lemma {:induction false} OddHostsUpTo(v: int, n: int)
    requires IsVariable(v) && v % 2 == 1
    ensures HostsUpTo(v, n) == if n >= 1 + v % 10 then [1 + v % 10] else []
    decreases n
  {
    if n > 0 {
      OddHostsUpTo(v, n - 1);
    }
  }

  /** The variable ids 1..VariableCount. */
  function Variables(): (vs: set<int>)
    ensures forall v :: v in vs <==> IsVariable(v)
  {
    set v | 1 <= v <= VariableCount && IsVariable(v)
  }

  /** The placement table the coordinator's constructor builds. */
  ghost function ItemSitesSpec(): map<int, seq<int>> {
    map v | v in Variables() :: Hosts(v)
  }

  /**
   * Builds the variable -> hosting sites table with the two nested loops of
   * the coordinator's constructor: for every site in ascending order, append
   * it to the list of every variable it stores.
   */
  method BuildItemSites() returns (itemSites: map<int, seq<int>>)
    ensures itemSites == ItemSitesSpec()
  {
    itemSites := map[];
    var i := 1;
    while i <= VariableCount
      invariant 1 <= i <= VariableCount + 1
      invariant forall v :: v in itemSites <==> 1 <= v < i
      invariant forall v :: v in itemSites ==> itemSites[v] == []
    {
      itemSites := itemSites[i := []];
      i := i + 1;
    }
    var site := 1;
    while site <= SiteCount
      invariant 1 <= site <= SiteCount + 1
      invariant forall v :: v in itemSites <==> IsVariable(v)
      invariant forall v :: v in itemSites ==> itemSites[v] == HostsUpTo(v, site - 1)
    {
      itemSites := AddSite(itemSites, site);
      site := site + 1;
    }
    TableComplete(itemSites);
  }

  /** A table listing HostsUpTo(v, SiteCount) for exactly the variables is the placement table. */
  lemma TableComplete(m: map<int, seq<int>>)
    requires forall v :: v in m <==> IsVariable(v)
    requires forall v :: v in m ==> m[v] == HostsUpTo(v, SiteCount)
    ensures m == ItemSitesSpec()
  {
    var spec := ItemSitesSpec();
    assert m.Keys == spec.Keys;
    forall v | v in m
      ensures m[v] == spec[v]
    {
      HostsUpToAll(v);
      assert spec[v] == Hosts(v);
    }
  }

  /** The inner loop: site is appended to the list of every variable it stores. */
  method AddSite(m0: map<int, seq<int>>, site: int) returns (m: map<int, seq<int>>)
    requires site >= 1
    requires forall v :: v in m0 <==> IsVariable(v)
    requires forall v :: v in m0 ==> m0[v] == HostsUpTo(v, site - 1)
    ensures forall v :: v in m <==> IsVariable(v)
    ensures forall v :: v in m ==> m[v] == HostsUpTo(v, site)
  {
    m := m0;
    var x := 1;
    while x <= VariableCount
      invariant 1 <= x <= VariableCount + 1
      invariant forall v :: v in m <==> IsVariable(v)
      invariant forall v :: v in m && v < x ==> m[v] == HostsUpTo(v, site)
      invariant forall v :: v in m && x <= v ==> m[v] == HostsUpTo(v, site - 1)
    {
      ghost var before := m;
      assert HostsUpTo(x, site) == HostsUpTo(x, site - 1) + (if Resident(site, x) then [site] else []);
      if x % 2 == 0 || 1 + x % 10 == site {
        m := m[x := m[x] + [site]];
      }
      assert m[x] == HostsUpTo(x, site);
      assert forall v :: v in m && v != x ==> m[v] == before[v];
      x := x + 1;
    }
  }
}
