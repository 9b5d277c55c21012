/** For each branch of a block graph: the block where its arms meet, and the blocks on the way there. */
module MergePoints {
  import opened Ir
  import opened Statements
  import opened BlockGraph

  // ---------- The merge-point search ----------

  /** The first block of the leftmost walk from n that is in s, or the terminal block. */
  ghost function FirstHit(g: Graph, rank: map<int, nat>, n: int, s: set<int>): int
    requires Dag(g, rank) && n in g
    decreases rank[n]
  {
    if n in s || n == TERMINAL then n else FirstHit(g, rank, g[n].succ[0], s)
  }

  /** Follows the true arm to the end, collecting blocks, then the false arm up to the first collected block. */
  class FindEndNode {
    const g: Graph
    var endNode: int
    var pathNodes: set<int>

    constructor (g: Graph, startNode: int)
      ensures this.g == g && pathNodes == {} && endNode == startNode
    {
      this.g, endNode, pathNodes := g, startNode, {};
    }

    method Search(startNode: int, ghost rank: map<int, nat>, ghost m: int)
      requires Dag(g, rank) && IsBranch(g, startNode) && MeetsAt(g, rank, startNode, m)
      requires pathNodes == {}
      modifies this
      ensures endNode == m
    {
      var t, f := g[startNode].succ[0], g[startNode].succ[1];
      Recursion(t, rank);
      FirstHitNone(g, rank, t);
      FirstHitIsMeet(g, rank, f, t, m);
      assert pathNodes == Leftmost(g, rank, t, TERMINAL);
      Recursion(f, rank);
    }

    method Recursion(node: int, ghost rank: map<int, nat>)
      requires Dag(g, rank) && node in g
      modifies this
      ensures endNode == FirstHit(g, rank, node, old(pathNodes))
      ensures pathNodes == old(pathNodes) + Leftmost(g, rank, node, endNode)
      decreases rank[node]
    {
      if node in pathNodes {
        endNode := node;
        return;
      }
      pathNodes := pathNodes + {node};
      if g[node].succ != [] {
        FirstHitMore(g, rank, g[node].succ[0], old(pathNodes), node);
        FirstHitRank(g, rank, g[node].succ[0], old(pathNodes));
        Recursion(g[node].succ[0], rank);
      } else {
        endNode := node;
      }
    }
  }

  lemma {:induction false} FirstHitMore(g: Graph, rank: map<int, nat>, n: int, s: set<int>, x: int)
    requires Dag(g, rank) && n in g && x in g && rank[n] < rank[x]
    ensures FirstHit(g, rank, n, s + {x}) == FirstHit(g, rank, n, s)
    decreases rank[n]
  {
    if n !in s && n != TERMINAL { FirstHitMore(g, rank, g[n].succ[0], s, x); }
  }

  lemma {:induction false} FirstHitRank(g: Graph, rank: map<int, nat>, n: int, s: set<int>)
    requires Dag(g, rank) && n in g
    ensures FirstHit(g, rank, n, s) in g && rank[FirstHit(g, rank, n, s)] <= rank[n]
    decreases rank[n]
  {
    if n !in s && n != TERMINAL { FirstHitRank(g, rank, g[n].succ[0], s); }
  }

  lemma {:induction false} FirstHitNone(g: Graph, rank: map<int, nat>, n: int)
    requires Dag(g, rank) && n in g
    ensures FirstHit(g, rank, n, {}) == TERMINAL
    decreases rank[n]
  {
    if n != TERMINAL { FirstHitNone(g, rank, g[n].succ[0]); }
  }

  lemma {:induction false} LeftmostHasMeet(g: Graph, rank: map<int, nat>, n: int, m: int)
    requires Dag(g, rank) && n in g && AllPass(g, rank, n, m)
    ensures m in Leftmost(g, rank, n, TERMINAL)
    decreases rank[n]
  {
    if n != m { LeftmostHasMeet(g, rank, g[n].succ[0], m); }
  }

  /** Walking down from x, in the arm beside t, the first block of t's leftmost walk is the meeting block. */
  lemma {:induction false} FirstHitIsMeet(g: Graph, rank: map<int, nat>, x: int, t: int, m: int)
    requires Dag(g, rank) && x in g && t in g && m in g
    requires AllPass(g, rank, x, m) && AllPass(g, rank, t, m) && Before(g, rank, x, m) !! Before(g, rank, t, m)
    ensures FirstHit(g, rank, x, Leftmost(g, rank, t, TERMINAL)) == m
    decreases rank[x]
  {
    if x == m {
      LeftmostHasMeet(g, rank, t, m);
    } else {
      BeforePass(g, rank, x, m, x);
      if x in Leftmost(g, rank, t, TERMINAL) { LeftmostSplit(g, rank, t, m, x); }
      FirstHitIsMeet(g, rank, g[x].succ[0], t, m);
    }
  }

  // ---------- The blocks between a branch and its meeting block ----------

  datatype Search = Search(visited: set<int>, found: set<int>)

  /** The depth-first search: it does not enter a block twice, so it need not find every block in between. */
  ghost function Dfs(g: Graph, rank: map<int, nat>, n: int, end: int, path: set<int>, s: Search): Search
    requires Dag(g, rank) && n in g
    decreases rank[n], 1
  {
    if n == end then s.(found := s.found + {n} + path)
    else if n in s.visited then s
    else DfsAll(g, rank, n, 0, end, path + {n}, s.(visited := s.visited + {n}))
  }

  ghost function DfsAll(g: Graph, rank: map<int, nat>, n: int, i: nat, end: int, path: set<int>, s: Search): Search
    requires Dag(g, rank) && n in g && i <= |g[n].succ|
    decreases rank[n], 0, |g[n].succ| - i
  {
    if i == |g[n].succ| then s
    else DfsAll(g, rank, n, i + 1, end, path, Dfs(g, rank, g[n].succ[i], end, path, s))
  }

  class EnumeratePaths {
    const g: Graph
    const endNode: int
    var visitedNodes: set<int>
    var nodeList: set<int>

    constructor (g: Graph, endNode: int)
      ensures this.g == g && this.endNode == endNode && visitedNodes == {} && nodeList == {}
    {
      this.g, this.endNode, visitedNodes, nodeList := g, endNode, {}, {};
    }

    method Core(node: int, path: set<int>, ghost rank: map<int, nat>)
      requires Dag(g, rank) && node in g
      modifies this
      ensures Search(visitedNodes, nodeList) == Dfs(g, rank, node, endNode, path, old(Search(visitedNodes, nodeList)))
      decreases rank[node]
    {
      if node == endNode {
        nodeList := nodeList + {node};
        nodeList := nodeList + path;
        return;
      }
      if node in visitedNodes {
        return;
      }
      visitedNodes := visitedNodes + {node};
      ghost var all := Dfs(g, rank, node, endNode, path, old(Search(visitedNodes, nodeList)));
      for i := 0 to |g[node].succ|
        invariant all == DfsAll(g, rank, node, i, endNode, path + {node}, Search(visitedNodes, nodeList))
      {
        Core(g[node].succ[i], path + {node}, rank);
      }
    }
  }

  ghost predicate Larger(a: Search, b: Search, region: set<int>) {
    a.visited <= b.visited <= a.visited + region && a.found <= b.found
  }

  /** The search only enters blocks met before the end, and keeps what it found. */
  lemma {:induction false} DfsRange(g: Graph, rank: map<int, nat>, n: int, end: int, path: set<int>, s: Search)
    requires Dag(g, rank) && n in g
    ensures Larger(s, Dfs(g, rank, n, end, path, s), Before(g, rank, n, end))
    decreases rank[n]
  {
    if n != end && n !in s.visited && g[n].succ != [] {
      var s1 := s.(visited := s.visited + {n});
      DfsRange(g, rank, g[n].succ[0], end, path + {n}, s1);
      var s2 := Dfs(g, rank, g[n].succ[0], end, path + {n}, s1);
      if g[n].branch.Some? {
        DfsRange(g, rank, g[n].succ[1], end, path + {n}, s2);
      }
      DfsTwo(g, rank, n, end, path + {n}, s1);
    }
  }

  lemma DfsTwo(g: Graph, rank: map<int, nat>, n: int, end: int, path: set<int>, s: Search)
    requires Dag(g, rank) && n in g && n != TERMINAL
    ensures DfsAll(g, rank, n, 0, end, path, s) ==
      var s1 := Dfs(g, rank, g[n].succ[0], end, path, s);
      if g[n].branch.Some? then Dfs(g, rank, g[n].succ[1], end, path, s1) else s1
  {
    var s1 := Dfs(g, rank, g[n].succ[0], end, path, s);
    assert DfsAll(g, rank, n, 0, end, path, s) == DfsAll(g, rank, n, 1, end, path, s1);
    if g[n].branch.Some? {
      assert DfsAll(g, rank, n, 1, end, path, s1) ==
        DfsAll(g, rank, n, 2, end, path, Dfs(g, rank, g[n].succ[1], end, path, s1));
    }
  }

  /** From a block none of whose region was entered yet, the leftmost walk to the end is found, with the path so far. */
  lemma {:induction false} DfsFinds(g: Graph, rank: map<int, nat>, n: int, end: int, path: set<int>, s: Search)
    requires Dag(g, rank) && n in g && end in g && AllPass(g, rank, n, end)
    requires Before(g, rank, n, end) !! s.visited
    ensures path + Leftmost(g, rank, n, end) <= Dfs(g, rank, n, end, path, s).found
    decreases rank[n]
  {
    if n != end {
      var c, s1 := g[n].succ[0], s.(visited := s.visited + {n});
      forall x | x in Before(g, rank, c, end) ensures x !in s1.visited {
        BeforePass(g, rank, c, end, x);
      }
      DfsFinds(g, rank, c, end, path + {n}, s1);
      DfsTwo(g, rank, n, end, path + {n}, s1);
      if g[n].branch.Some? {
        DfsRange(g, rank, g[n].succ[1], end, path + {n}, Dfs(g, rank, c, end, path + {n}, s1));
      }
    }
  }

  /** The blocks the flattener relies on for branch b: both leftmost walks from its arms to the meeting block. */
  ghost predicate Covers(g: Graph, rank: map<int, nat>, b: int, m: int, nodes: set<int>)
    requires Dag(g, rank) && IsBranch(g, b)
  {
    && Leftmost(g, rank, g[b].succ[0], m) <= nodes
    && Leftmost(g, rank, g[b].succ[1], m) <= nodes
  }

  lemma DfsCovers(g: Graph, rank: map<int, nat>, b: int, m: int)
    requires Dag(g, rank) && IsBranch(g, b) && MeetsAt(g, rank, b, m)
    ensures Covers(g, rank, b, m, Dfs(g, rank, b, m, {}, Search({}, {})).found)
  {
    var t, f, s1 := g[b].succ[0], g[b].succ[1], Search({b}, {});
    PassRank(g, rank, t, m);
    forall x | x in Before(g, rank, t, m) ensures x != b { BeforePass(g, rank, t, m, x); }
    forall x | x in Before(g, rank, f, m) ensures x != b { BeforePass(g, rank, f, m, x); }
    assert Search({}, {}).(visited := {} + {b}) == s1;
    DfsFinds(g, rank, t, m, {} + {b}, s1);
    DfsRange(g, rank, t, m, {} + {b}, s1);
    var s2 := Dfs(g, rank, t, m, {} + {b}, s1);
    DfsFinds(g, rank, f, m, {} + {b}, s2);
    DfsRange(g, rank, f, m, {} + {b}, s2);
    DfsTwo(g, rank, b, m, {} + {b}, s1);
  }

  // ---------- The tables over all branches ----------

  /** The meeting block of every branch. */
  method GetStartEndMap(g: Graph, ghost rank: map<int, nat>, ghost meet: map<int, int>) returns (startEnd: map<int, int>)
    requires Structured(g, rank, meet)
    ensures forall b :: b in startEnd <==> IsBranch(g, b)
    ensures forall b :: b in startEnd ==> startEnd[b] == meet[b]
  {
    startEnd := map[];
    var todo := g.Keys;
    while todo != {}
      invariant todo <= g.Keys
      invariant forall b :: b in startEnd <==> b !in todo && IsBranch(g, b)
      invariant forall b :: b in startEnd ==> startEnd[b] == meet[b]
      decreases |todo|
    {
      HasElement(todo);
      var b :| b in todo;
      todo := todo - {b};
      if g[b].branch.Some? {
        var visitor := new FindEndNode(g, b);
        visitor.Search(b, rank, meet[b]);
        startEnd := startEnd[b := visitor.endNode];
      }
    }
  }

  /** For every branch, blocks between it and its meeting block, enough of them for the flattener. */
  method GetPathNodes(g: Graph, startEnd: map<int, int>, ghost rank: map<int, nat>) returns (pathNodes: map<int, set<int>>)
    requires Dag(g, rank)
    requires forall b :: b in startEnd ==> IsBranch(g, b) && MeetsAt(g, rank, b, startEnd[b])
    ensures pathNodes.Keys == startEnd.Keys
    ensures forall b :: b in pathNodes ==> Covers(g, rank, b, startEnd[b], pathNodes[b])
  {
    pathNodes := map[];
    var todo := startEnd.Keys;
    while todo != {}
      invariant todo <= startEnd.Keys && pathNodes.Keys == startEnd.Keys - todo
      invariant forall b :: b in pathNodes ==> Covers(g, rank, b, startEnd[b], pathNodes[b])
      decreases |todo|
    {
      HasElement(todo);
      var b :| b in todo;
      todo := todo - {b};
      var visitor := new EnumeratePaths(g, startEnd[b]);
      visitor.Core(b, {}, rank);
      DfsCovers(g, rank, b, startEnd[b]);
      pathNodes := pathNodes[b := visitor.nodeList];
    }
  }

  // ---------- Blocks the search leaves out ----------

  /** A branch with a diamond in its true arm; the false arm is empty. */
  ghost function Diamond(c: Expr): Graph {
    map[0 := Block([], Some(c), [1, -1]), 1 := Block([], Some(c), [2, 3]), 2 := Block([], None, [4]), 3 := Block([], None, [4]),
        4 := Block([], None, [-1]), -1 := Block([], None, [])]
  }

  ghost function DiamondRank(): map<int, nat> { map[0 := 4, 1 := 3, 2 := 2, 3 := 2, 4 := 1, -1 := 0] }

  lemma DiamondOk(c: Expr)
    requires StmtOk(If(c))
    ensures Dag(Diamond(c), DiamondRank())
  {
    hide StmtOk;
  }

  lemma DfsOn(g: Graph, rank: map<int, nat>, n: int, end: int, path: set<int>, s: Search)
    requires Dag(g, rank) && n in g && n != end && n != TERMINAL && n !in s.visited
    ensures var p, a := path + {n}, Dfs(g, rank, g[n].succ[0], end, path + {n}, s.(visited := s.visited + {n}));
      Dfs(g, rank, n, end, path, s) == if g[n].branch.Some? then Dfs(g, rank, g[n].succ[1], end, p, a) else a
  {
    DfsTwo(g, rank, n, end, path + {n}, s.(visited := s.visited + {n}));
  }

  lemma DfsStops(g: Graph, rank: map<int, nat>, n: int, end: int, path: set<int>, s: Search)
    requires Dag(g, rank) && n in g
    ensures n == end ==> Dfs(g, rank, n, end, path, s) == s.(found := s.found + {n} + path)
    ensures n != end && n in s.visited ==> Dfs(g, rank, n, end, path, s) == s
  {
  }

  /** The block on the second way through the diamond lies between the branch and its end and is not recorded. */
  lemma DfsPrunes(c: Expr)
    requires StmtOk(If(c))
    ensures Dag(Diamond(c), DiamondRank())
    ensures var g, rank := Diamond(c), DiamondRank();
      && MeetsAt(g, rank, 0, TERMINAL) && 3 in Before(g, rank, g[0].succ[0], TERMINAL)
      && 3 !in Dfs(g, rank, 0, TERMINAL, {}, Search({}, {})).found
  {
    DiamondOk(c);
    DiamondArms(c);
    hide StmtOk, Dfs, DfsAll, Dag, Before, MeetsAt;
    var g, rank := Diamond(c), DiamondRank();
    var all: set<int> := {0, 1, 2, 4};
    DfsOn(g, rank, 0, TERMINAL, {}, Search({}, {}));
    DfsOn(g, rank, 1, TERMINAL, {} + {0}, Search({} + {0}, {}));
    DfsOn(g, rank, 2, TERMINAL, {} + {0} + {1}, Search({} + {0} + {1}, {}));
    DfsOn(g, rank, 4, TERMINAL, {} + {0} + {1} + {2}, Search({} + {0} + {1} + {2}, {}));
    DfsStops(g, rank, TERMINAL, TERMINAL, {} + {0} + {1} + {2} + {4}, Search({} + {0} + {1} + {2} + {4}, {}));
    var a1 := Dfs(g, rank, 2, TERMINAL, {} + {0} + {1}, Search({} + {0} + {1}, {}));
    assert a1.visited == all && 3 !in a1.found;
    DfsOn(g, rank, 3, TERMINAL, {} + {0} + {1}, a1);
    DfsStops(g, rank, 4, TERMINAL, {} + {0} + {1} + {3}, a1.(visited := a1.visited + {3}));
    var a0 := Dfs(g, rank, 1, TERMINAL, {} + {0}, Search({} + {0}, {}));
    assert 3 !in a0.found;
    DfsStops(g, rank, TERMINAL, TERMINAL, {} + {0}, a0);
  }

  lemma DiamondArms(c: Expr)
    requires Dag(Diamond(c), DiamondRank())
    ensures MeetsAt(Diamond(c), DiamondRank(), 0, TERMINAL) && 3 in Before(Diamond(c), DiamondRank(), 1, TERMINAL)
  {
    hide Dag;
    var g, rank := Diamond(c), DiamondRank();
    AllPassTerminal(g, rank, 1);
    AllPassTerminal(g, rank, TERMINAL);
    assert Before(g, rank, 3, TERMINAL) == {3} + Before(g, rank, 4, TERMINAL);
    assert Before(g, rank, TERMINAL, TERMINAL) == {};
  }
}
