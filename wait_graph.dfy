/**
 * Wait-for graphs (transaction -> transactions it waits for) and the
 * depth-first cycle search the coordinator runs on them.
 */
module WaitGraph {

  import opened Sets

  /** Adjacency map: a key is a waiting transaction, its row the transactions it waits for. */
  type Graph = map<int, set<int>>

  /** The edges of a graph as pairs. */
  function EdgeSet(g: Graph): set<(int, int)> {
    set a, b | a in g && b in g[a] :: (a, b)
  }

  /** The graph is built edge by edge, so no row is empty. */
  predicate NoEmptyRows(g: Graph) {
    forall a :: a in g ==> g[a] != {}
  }

  /** Adds the edge a -> b, creating the row of a when it is missing. */
  function AddEdge(g: Graph, a: int, b: int): (g': Graph)
    ensures EdgeSet(g') == EdgeSet(g) + {(a, b)}
    ensures NoEmptyRows(g) ==> NoEmptyRows(g')
    ensures g'.Keys == g.Keys + {a}
  {
    var g' := g[a := (if a in g then g[a] else {}) + {b}];
    assert (a, b) in EdgeSet(g');
    g'
  }

  /** A graph without edges has no rows left once empty rows are excluded. */
  lemma EmptyEdges(g: Graph)
    requires NoEmptyRows(g)
    ensures g == map[] <==> EdgeSet(g) == {}
  {
    if g != map[] {
      Inhabited(g.Keys);
      var a :| a in g;
      Inhabited(g[a]);
      var b :| b in g[a];
      assert (a, b) in EdgeSet(g);
    }
  }

  /** The nodes with an edge out of them in E. */
  function Sources(E: set<(int, int)>): set<int> {
    set e | e in E :: e.0
  }

  /** The targets of the edges of E out of a. */
  function TargetsOf(E: set<(int, int)>, a: int): set<int> {
    set e | e in E && e.0 == a :: e.1
  }

  /** The graph whose edges are E: a row for each source, holding its targets. */
  function GraphOf(E: set<(int, int)>): (g: Graph)
    ensures NoEmptyRows(g) && EdgeSet(g) == E
  {
    var g := map a | a in Sources(E) :: TargetsOf(E, a);
    assert NoEmptyRows(g) by {
      forall a | a in g
        ensures g[a] != {}
      {
        var e :| e in E && e.0 == a;
        assert e.1 in TargetsOf(E, a);
      }
    }
    assert EdgeSet(g) == E by {
      forall e | e in E
        ensures e in EdgeSet(g)
      {
        var a, b := e.0, e.1;
        assert a in Sources(E) && b in TargetsOf(E, a);
        assert a in g && b in g[a];
        assert (a, b) in EdgeSet(g);
      }
    }
    g
  }

  /** A graph without empty rows is the graph of its edges. */
  lemma GraphOfEdges(g: Graph)
    requires NoEmptyRows(g)
    ensures GraphOf(EdgeSet(g)) == g
  {
    var h := GraphOf(EdgeSet(g));
    forall a | a in g
      ensures a in h
    {
      Inhabited(g[a]);
      var b :| b in g[a];
      assert (a, b) in EdgeSet(h);
    }
    forall a | a in h
      ensures a in g && h[a] == g[a]
    {
      Inhabited(h[a]);
      var b :| b in h[a];
      assert (a, b) in EdgeSet(g);
      forall c
        ensures c in h[a] <==> c in g[a]
      {
        assert (a, c) in EdgeSet(h) <==> (a, c) in EdgeSet(g);
      }
    }
  }

  /** Every node that has an edge, as source or target. */
  function Nodes(g: Graph): (ns: set<int>)
    ensures forall a :: a in g ==> a in ns && g[a] <= ns
  {
    var targets := set a, b | a in g && b in g[a] :: b;
    RowsAreTargets(g, targets);
    g.Keys + targets
  }

  lemma RowsAreTargets(g: Graph, targets: set<int>)
    requires targets == set a, b | a in g && b in g[a] :: b
    ensures forall a :: a in g ==> g[a] <= targets
  {
    forall a, b | a in g && b in g[a]
      ensures b in targets
    {
    }
  }

  /** The smallest element of a non-empty set of ids. */
  function Least(s: set<int>): (m: int)
    requires s != {}
    ensures m in s && forall x :: x in s ==> m <= x
  {
    LeastExists(s);
    var m :| m in s && forall x :: x in s ==> m <= x;
    m
  }

  lemma {:induction false} LeastExists(s: set<int>)
    requires s != {}
    ensures exists m :: m in s && forall x :: x in s ==> m <= x
    decreases |s|
  {
    Inhabited(s);
    var y :| y in s;
    if s != {y} {
      var rest := s - {y};
      Inhabited(rest);
      LeastExists(rest);
      var m :| m in rest && forall x :: x in rest ==> m <= x;
      var least := if y < m then y else m;
      forall x | x in s
        ensures least <= x
      {
        if x != y {
          assert x in rest;
        }
      }
    }
  }

  // ---------------------------------------------------------------------------
  // hasCycle: depth-first search with one visited set shared by the whole search
  // ---------------------------------------------------------------------------

  /**
   * hasCycle(cur, root, graph, path): marks cur visited and looks for an
   * edge back to root among the successors of cur, descending into each
   * successor not visited yet. The visited set is threaded through the
   * search and returned with the answer.
   */
  function Search(g: Graph, cur: int, root: int, path: set<int>): (res: (bool, set<int>))
    requires cur !in path
    ensures path + {cur} <= res.1
    decreases Nodes(g) - path, 0, 0
  {
    var path' := path + {cur};
    if cur !in g then (false, path')
    else
      assert Nodes(g) - path' < Nodes(g) - path by {
        assert cur in Nodes(g) - path;
      }
      Children(g, root, g[cur], path')
  }

  /** The loop of hasCycle over the successors cs still to be tried, smallest first. */
  function Children(g: Graph, root: int, cs: set<int>, path: set<int>): (res: (bool, set<int>))
    requires cs <= Nodes(g)
    ensures path <= res.1
    decreases Nodes(g) - path, 1, |cs|
  {
    if cs == {} then (false, path)
    else
      var c := Least(cs);
      if c == root then (true, path)
      else if c in path then Children(g, root, cs - {c}, path)
      else
        var r := Search(g, c, root, path);
        if r.0 then (true, r.1)
        else Children(g, root, cs - {c}, r.1)
  }

  /** hasCycle(r, r, graph, {}): does r lie on a cycle? */
  function HasCycle(g: Graph, r: int): (b: bool)
    ensures b <==> OnCycle(g, r)
  {
    var res := Search(g, r, r, {});
    if res.0 then
      SearchSound(g, r, r, {});
      res.0
    else
      SearchClosed(g, r, r, {});
      NoWalkBack(g, r, res.1);
      res.0
  }

  // ---------------------------------------------------------------------------
  // Walks and cycles
  // ---------------------------------------------------------------------------

  /** w follows edges of g and has at least one edge. */
  predicate IsWalk(g: Graph, w: seq<int>) {
    && |w| >= 2
    && forall i :: 0 <= i < |w| - 1 ==> w[i] in g && w[i + 1] in g[w[i]]
  }

  /** b is reachable from a by one or more edges. */
  ghost predicate Reaches(g: Graph, a: int, b: int) {
    exists w :: IsWalk(g, w) && w[0] == a && w[|w| - 1] == b
  }

  /** t reaches itself: t lies on a cycle of the wait-for graph. */
  ghost predicate OnCycle(g: Graph, t: int) {
    Reaches(g, t, t)
  }

  /** A node on a cycle has a row: it waits for someone. */
  lemma CycleHasRow(g: Graph, t: int)
    requires OnCycle(g, t)
    ensures t in g
  {
    var w :| IsWalk(g, w) && w[0] == t && w[|w| - 1] == t;
  }

  lemma EdgeReaches(g: Graph, a: int, b: int)
    requires a in g && b in g[a]
    ensures Reaches(g, a, b)
  {
    assert IsWalk(g, [a, b]);
  }

  /** An edge followed by a walk is a walk. */
  lemma PrependEdge(g: Graph, a: int, b: int, c: int)
    requires a in g && b in g[a] && Reaches(g, b, c)
    ensures Reaches(g, a, c)
  {
    var w :| IsWalk(g, w) && w[0] == b && w[|w| - 1] == c;
    var w' := [a] + w;
    assert forall i :: 1 <= i < |w'| ==> w'[i] == w[i - 1];
    assert IsWalk(g, w');
  }

  /** A true answer comes with a path from cur back to root. */
  lemma {:induction false} SearchSound(g: Graph, cur: int, root: int, path: set<int>)
    requires cur !in path
    requires Search(g, cur, root, path).0
    ensures Reaches(g, cur, root)
    decreases Nodes(g) - path, 0, 0
  {
    var path' := path + {cur};
    assert Nodes(g) - path' < Nodes(g) - path by {
      assert cur in Nodes(g) - path;
    }
    ChildrenSound(g, root, g[cur], path');
    var c :| c in g[cur] && (c == root || Reaches(g, c, root));
    if c == root {
      EdgeReaches(g, cur, root);
    } else {
      PrependEdge(g, cur, c, root);
    }
  }

  lemma {:induction false} ChildrenSound(g: Graph, root: int, cs: set<int>, path: set<int>)
    requires cs <= Nodes(g)
    requires Children(g, root, cs, path).0
    ensures exists c :: c in cs && (c == root || Reaches(g, c, root))
    decreases Nodes(g) - path, 1, |cs|
  {
    var c := Least(cs);
    if c == root {
    } else if c in path {
      ChildrenSound(g, root, cs - {c}, path);
    } else {
      var r := Search(g, c, root, path);
      if r.0 {
        SearchSound(g, c, root, path);
      } else {
        ChildrenSound(g, root, cs - {c}, r.1);
      }
    }
  }

  /**
   * Every node visited by a search that answered false has all its
   * successors visited, and none of them is root.
   */
  ghost predicate ClosedAway(g: Graph, root: int, seen: set<int>, visited: set<int>) {
    forall x :: x in seen && x in g ==> root !in g[x] && g[x] <= visited
  }

  lemma {:induction false} SearchClosed(g: Graph, cur: int, root: int, path: set<int>)
    requires cur !in path
    requires !Search(g, cur, root, path).0
    ensures ClosedAway(g, root, Search(g, cur, root, path).1 - path, Search(g, cur, root, path).1)
    decreases Nodes(g) - path, 0, 0
  {
    var path' := path + {cur};
    if cur in g {
      assert Nodes(g) - path' < Nodes(g) - path by {
        assert cur in Nodes(g) - path;
      }
      ChildrenClosed(g, root, g[cur], path');
    }
  }

  lemma {:induction false} ChildrenClosed(g: Graph, root: int, cs: set<int>, path: set<int>)
    requires cs <= Nodes(g)
    requires !Children(g, root, cs, path).0
    ensures var p1 := Children(g, root, cs, path).1;
            && root !in cs && cs <= p1
            && ClosedAway(g, root, p1 - path, p1)
    decreases Nodes(g) - path, 1, |cs|
  {
    if cs != {} {
      var c := Least(cs);
      if c in path {
        ChildrenClosed(g, root, cs - {c}, path);
      } else {
        var r := Search(g, c, root, path);
        SearchClosed(g, c, root, path);
        ChildrenClosed(g, root, cs - {c}, r.1);
      }
    }
  }

  /**
   * If the visited set contains root, is closed under successors and no
   * visited node has an edge to root, then root is not on a cycle.
   */
  lemma NoWalkBack(g: Graph, root: int, visited: set<int>)
    requires root in visited
    requires ClosedAway(g, root, visited, visited)
    ensures !OnCycle(g, root)
  {
    forall w | IsWalk(g, w) && w[0] == root
      ensures w[|w| - 1] != root
    {
      var n := |w| - 2;
      WalkStays(g, root, visited, w, n);
      var x := w[n];
      assert x in g && w[n + 1] in g[x];
      assert root !in g[x];
    }
  }

  lemma {:induction false} WalkStays(g: Graph, root: int, visited: set<int>, w: seq<int>, n: int)
    requires IsWalk(g, w) && w[0] in visited
    requires ClosedAway(g, root, visited, visited)
    requires 0 <= n < |w|
    ensures w[n] in visited
    decreases n
  {
    if n > 0 {
      WalkStays(g, root, visited, w, n - 1);
      var x := w[n - 1];
      assert x in g && w[n] in g[x];
      assert g[x] <= visited;
    }
  }
}
