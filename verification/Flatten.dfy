/** Decompiling: a block graph back into nested code. */
module Flatten {
  import opened Ir
  import opened Statements
  import opened NestedCode
  import opened BlockGraph
  import MergePoints

  function Simples(stmts: seq<Stmt>): (cs: seq<Code>)
    ensures |cs| == |stmts|
  {
    seq(|stmts|, i requires 0 <= i < |stmts| => Simple(stmts[i]))
  }

  /** The tables the flattener works with, as the earlier stages filled them. */
  ghost predicate Tables(g: Graph, rank: map<int, nat>, startEnd: map<int, int>, pathNodes: map<int, set<int>>) {
    && Dag(g, rank)
    && (forall b :: IsBranch(g, b) ==> b in startEnd && b in pathNodes)
    && (forall b :: IsBranch(g, b) ==>
          && MeetsAt(g, rank, b, startEnd[b])
          && MergePoints.Covers(g, rank, b, startEnd[b], pathNodes[b]))
  }

  /** The code from block n up to block end, where a block outside allowed cuts it off. */
  ghost function Segment(g: Graph, rank: map<int, nat>, startEnd: map<int, int>, pathNodes: map<int, set<int>>,
                         n: int, end: int, allowed: set<int>): seq<Code>
    requires Tables(g, rank, startEnd, pathNodes) && n in g
    decreases rank[n]
  {
    if n !in allowed || n == end || n == TERMINAL then []
    else if g[n].branch.None? then
      Simples(g[n].stmts) + Segment(g, rank, startEnd, pathNodes, g[n].succ[0], end, allowed)
    else
      var m := startEnd[n];
      BranchMeets(g, rank, n, m);
      var yes := Segment(g, rank, startEnd, pathNodes, g[n].succ[0], m, pathNodes[n]);
      var no := Segment(g, rank, startEnd, pathNodes, g[n].succ[1], m, pathNodes[n]);
      Simples(g[n].stmts) + [ITE(g[n].branch.value, yes, no)]
        + (if m == end then [] else Segment(g, rank, startEnd, pathNodes, m, end, allowed))
  }

  lemma BranchMeets(g: Graph, rank: map<int, nat>, b: int, m: int)
    requires Dag(g, rank) && IsBranch(g, b) && MeetsAt(g, rank, b, m)
    ensures m in g && rank[m] < rank[b]
  {
    PassRank(g, rank, g[b].succ[0], m);
  }

  lemma {:induction false} SimplesRun(r: Run, stmts: seq<Stmt>)
    requires StmtsOk(stmts) && forall i :: 0 <= i < |stmts| ==> !stmts[i].If?
    ensures CodesOk(Simples(stmts)) && RunCodes(r, Simples(stmts)) == Exec(r, stmts, false)
    decreases |stmts|
  {
    if stmts != [] {
      assert Simples(stmts)[1..] == Simples(stmts[1..]);
      SimplesRun(Step(r, stmts[0], false), stmts[1..]);
    }
  }

  lemma OneCode(r: Run, c: Code)
    requires CodeOk(c)
    ensures CodesOk([c]) && RunCodes(r, [c]) == RunCode(r, c)
  {
    assert [c][1..] == [];
  }

  /** Running a segment is walking the graph. */
  lemma {:induction false} SegmentExact(g: Graph, rank: map<int, nat>, startEnd: map<int, int>, pathNodes: map<int, set<int>>,
                                        n: int, end: int, allowed: set<int>, r: Run)
    requires Tables(g, rank, startEnd, pathNodes) && n in g && end in g
    requires AllPass(g, rank, n, end) && Leftmost(g, rank, n, end) <= allowed
    ensures var cs := Segment(g, rank, startEnd, pathNodes, n, end, allowed);
      CodesOk(cs) && RunCodes(r, cs) == Walk(g, rank, n, end, r)
    decreases rank[n]
  {
    if n != end {
      var simples, r1 := Simples(g[n].stmts), Exec(r, g[n].stmts, false);
      SimplesRun(r, g[n].stmts);
      if g[n].branch.None? {
        SegmentExact(g, rank, startEnd, pathNodes, g[n].succ[0], end, allowed, r1);
        CodesConcat(r, simples, Segment(g, rank, startEnd, pathNodes, g[n].succ[0], end, allowed));
      } else {
        BranchExact(g, rank, startEnd, pathNodes, n, end, allowed, r, r1);
      }
    }
  }

  /** Where the recorded blocks cover the leftmost walk, the code stops at no other block than the end. */
  lemma {:induction false} NothingCut(g: Graph, rank: map<int, nat>, startEnd: map<int, int>, pathNodes: map<int, set<int>>,
                                      n: int, end: int, allowed: set<int>)
    requires Tables(g, rank, startEnd, pathNodes) && n in g && end in g
    requires AllPass(g, rank, n, end) && Leftmost(g, rank, n, end) <= allowed
    ensures n in allowed
    ensures Segment(g, rank, startEnd, pathNodes, n, end, allowed) == Segment(g, rank, startEnd, pathNodes, n, end, g.Keys)
    decreases rank[n]
  {
    if n != end {
      if g[n].branch.None? {
        NothingCut(g, rank, startEnd, pathNodes, g[n].succ[0], end, allowed);
      } else {
        var m := startEnd[n];
        BranchMeets(g, rank, n, m);
        NotInArms(g, rank, n, m, end);
        PassOn(g, rank, g[n].succ[0], m, end);
        LeftmostReaches(g, rank, g[n].succ[0], m, end);
        NothingCut(g, rank, startEnd, pathNodes, m, end, allowed);
      }
    }
  }

  lemma {:induction false} BranchExact(g: Graph, rank: map<int, nat>, startEnd: map<int, int>, pathNodes: map<int, set<int>>,
                                       n: int, end: int, allowed: set<int>, r: Run, r1: Run)
    requires Tables(g, rank, startEnd, pathNodes) && IsBranch(g, n) && end in g && n != end
    requires AllPass(g, rank, n, end) && Leftmost(g, rank, n, end) <= allowed
    requires r1 == Exec(r, g[n].stmts, false)
    ensures var cs := Segment(g, rank, startEnd, pathNodes, n, end, allowed);
      CodesOk(cs) && RunCodes(r, cs) == Walk(g, rank, n, end, r)
    decreases rank[n], 0
  {
    var m, t, f := startEnd[n], g[n].succ[0], g[n].succ[1];
    BranchMeets(g, rank, n, m);
    NotInArms(g, rank, n, m, end);
    var next := Next(g[n], r1.env);
    SegmentExact(g, rank, startEnd, pathNodes, t, m, pathNodes[n], r1);
    SegmentExact(g, rank, startEnd, pathNodes, f, m, pathNodes[n], r1);
    WalkCut(g, rank, next, m, end, r1);
    PassOn(g, rank, t, m, end);
    LeftmostReaches(g, rank, t, m, end);
    var r2 := Walk(g, rank, next, m, r1);
    SegmentExact(g, rank, startEnd, pathNodes, m, end, allowed, r2);
    var simples := Simples(g[n].stmts);
    var ite := ITE(g[n].branch.value, Segment(g, rank, startEnd, pathNodes, t, m, pathNodes[n]),
                   Segment(g, rank, startEnd, pathNodes, f, m, pathNodes[n]));
    var rest := if m == end then [] else Segment(g, rank, startEnd, pathNodes, m, end, allowed);
    SimplesRun(r, g[n].stmts);
    OneCode(r1, ite);
    CodesConcat(r, simples, [ite]);
    CodesConcat(r, simples + [ite], rest);
  }

  /** What one step of a flattener needs to know about block n. */
  lemma BlockFacts(g: Graph, rank: map<int, nat>, startEnd: map<int, int>, pathNodes: map<int, set<int>>, n: int)
    requires Tables(g, rank, startEnd, pathNodes) && n in g && n != TERMINAL
    ensures n in rank
    ensures g[n].branch.None? ==> |g[n].succ| == 1 && g[n].succ[0] in g && g[n].succ[0] in rank && rank[g[n].succ[0]] < rank[n]
    ensures g[n].branch.Some? ==>
      n in pathNodes && n in startEnd && startEnd[n] in g && startEnd[n] in rank && rank[startEnd[n]] < rank[n] && |g[n].succ| == 2
    ensures forall i :: 0 <= i < |g[n].succ| ==> g[n].succ[i] in g
  {
    if g[n].branch.Some? { BranchMeets(g, rank, n, startEnd[n]); }
  }

  lemma Assoc(a: seq<Code>, b: seq<Code>, c: seq<Code>, d: seq<Code>)
    ensures ((a + b) + c) + d == a + ((b + c) + d)
    ensures (a + b) + c == a + ((b + c) + [])
    ensures (a + b) + c == a + (b + c)
  {
  }

  // ---------- The flatteners ----------

  /** Builds the if-then-else of one branch: pass 0 fills the true list and pass 1 the false list. */
  class FlattenIf {
    const g: Graph
    const startEnd: map<int, int>
    const pathNodes: map<int, set<int>>
    const startNode: int
    const endNode: int
    var pass: int
    var ifList: seq<Code>
    var elseList: seq<Code>

    constructor (g: Graph, startEnd: map<int, int>, pathNodes: map<int, set<int>>, startNode: int, endNode: int)
      ensures this.g == g && this.startEnd == startEnd && this.pathNodes == pathNodes
      ensures this.startNode == startNode && this.endNode == endNode
      ensures pass == 0 && ifList == [] && elseList == []
    {
      this.g, this.startEnd, this.pathNodes := g, startEnd, pathNodes;
      this.startNode, this.endNode := startNode, endNode;
      pass, ifList, elseList := 0, [], [];
    }

    ghost predicate Ready(rank: map<int, nat>) {
      && Tables(g, rank, startEnd, pathNodes)
      && IsBranch(g, startNode) && endNode == startEnd[startNode]
    }

    ghost function Arm(rank: map<int, nat>, n: int): seq<Code>
      requires Ready(rank) && n in g
    {
      Segment(g, rank, startEnd, pathNodes, n, endNode, pathNodes[startNode])
    }

    method Build(ghost rank: map<int, nat>) returns (ite: Code)
      requires Ready(rank) && pass == 0 && ifList == [] && elseList == []
      modifies this
      ensures ite == ITE(g[startNode].branch.value, Arm(rank, g[startNode].succ[0]), Arm(rank, g[startNode].succ[1]))
      decreases rank[startNode], 0
    {
      Core(g[startNode].succ[0], rank);
      pass := 1;
      Core(g[startNode].succ[1], rank);
      ite := ITE(g[startNode].branch.value, ifList, elseList);
    }

    method Add(cs: seq<Code>)
      requires pass == 0 || pass == 1
      modifies this`ifList, this`elseList
      ensures ifList == old(ifList) + (if pass == 0 then cs else [])
      ensures elseList == old(elseList) + (if pass == 1 then cs else [])
    {
      if pass == 0 { ifList := ifList + cs; }
      if pass == 1 { elseList := elseList + cs; }
    }

    method Core(n: int, ghost rank: map<int, nat>)
      requires Ready(rank) && n in g && rank[n] < rank[startNode] && (pass == 0 || pass == 1)
      modifies this`ifList, this`elseList
      ensures ifList == old(ifList) + (if pass == 0 then Arm(rank, n) else [])
      ensures elseList == old(elseList) + (if pass == 1 then Arm(rank, n) else [])
      decreases rank[n], 1
    {
      hide Tables, Simples;
      BlockFacts(g, rank, startEnd, pathNodes, startNode);
      if n !in pathNodes[startNode] {
        return;
      }
      if n != endNode && n != TERMINAL {
        BlockFacts(g, rank, startEnd, pathNodes, n);
        ghost var olds, simples := if pass == 0 then ifList else elseList, Simples(g[n].stmts);
        Add(Simples(g[n].stmts));
        if g[n].branch.Some? {
          var cascade := new FlattenIf(g, startEnd, pathNodes, n, startEnd[n]);
          var ite := cascade.Build(rank);
          Add([ite]);
          Assoc(olds, simples, [ite], if startEnd[n] != endNode then Arm(rank, startEnd[n]) else []);
          if startEnd[n] != endNode {
            Core(startEnd[n], rank);
          }
        } else {
          Assoc(olds, simples, Arm(rank, g[n].succ[0]), []);
          Core(g[n].succ[0], rank);
        }
      }
    }
  }

  /** The outermost walk, from the block after the entry to the terminal block. */
  class FlattenWhile {
    const g: Graph
    const startEnd: map<int, int>
    const pathNodes: map<int, set<int>>
    var stmtList: seq<Code>

    constructor (g: Graph, startEnd: map<int, int>, pathNodes: map<int, set<int>>)
      ensures this.g == g && this.startEnd == startEnd && this.pathNodes == pathNodes && stmtList == []
    {
      this.g, this.startEnd, this.pathNodes, stmtList := g, startEnd, pathNodes, [];
    }

    method Flatten(startNode: int, ghost rank: map<int, nat>)
      requires Tables(g, rank, startEnd, pathNodes) && startNode in g && g[startNode].succ != [] && stmtList == []
      modifies this
      ensures stmtList == Segment(g, rank, startEnd, pathNodes, g[startNode].succ[0], TERMINAL, g.Keys)
    {
      Core(g[startNode].succ[0], rank);
    }

    method Core(n: int, ghost rank: map<int, nat>)
      requires Tables(g, rank, startEnd, pathNodes) && n in g
      modifies this
      ensures stmtList == old(stmtList) + Segment(g, rank, startEnd, pathNodes, n, TERMINAL, g.Keys)
      decreases rank[n]
    {
      hide Tables, Simples;
      if n != TERMINAL {
        BlockFacts(g, rank, startEnd, pathNodes, n);
        ghost var olds, simples := stmtList, Simples(g[n].stmts);
        stmtList := stmtList + Simples(g[n].stmts);
        if g[n].branch.Some? {
          ghost var m := startEnd[n];
          var cascade := new FlattenIf(g, startEnd, pathNodes, n, startEnd[n]);
          var ite := cascade.Build(rank);
          stmtList := stmtList + [ite];
          Assoc(olds, simples, [ite], if m != TERMINAL then Segment(g, rank, startEnd, pathNodes, m, TERMINAL, g.Keys) else []);
          if startEnd[n] != TERMINAL {
            Core(startEnd[n], rank);
          }
        } else {
          Assoc(olds, simples, Segment(g, rank, startEnd, pathNodes, g[n].succ[0], TERMINAL, g.Keys), []);
          Core(g[n].succ[0], rank);
        }
      }
    }
  }

  /**
   * Decompiling preserves meaning. The flattened list, run from any state, ends where the walk from the block after the
   * entry to the terminal block ends.
   */
  lemma DecompileExact(g: Graph, rank: map<int, nat>, startEnd: map<int, int>, pathNodes: map<int, set<int>>, n: int, r: Run)
    requires Tables(g, rank, startEnd, pathNodes) && n in g
    ensures var cs := Segment(g, rank, startEnd, pathNodes, n, TERMINAL, g.Keys);
      CodesOk(cs) && RunCodes(r, cs) == Walk(g, rank, n, TERMINAL, r)
  {
    AllPassTerminal(g, rank, n);
    forall x | x in Leftmost(g, rank, n, TERMINAL) ensures x in g { LeftmostRank(g, rank, n, TERMINAL, x); }
    SegmentExact(g, rank, startEnd, pathNodes, n, TERMINAL, g.Keys, r);
  }

  /** The function body that returns x in its entry block: what is flattened starts after that block and returns nothing. */
  lemma EntryDropped(x: Expr, r: Run)
    requires StmtOk(Return(x)) && r.ret.None?
    ensures var g, rank: map<int, nat> := map[0 := Block([Return(x)], None, [-1]), -1 := Block([], None, [])], map[0 := 1, -1 := 0];
      && Tables(g, rank, map[], map[])
      && Segment(g, rank, map[], map[], g[0].succ[0], TERMINAL, g.Keys) == []
      && Walk(g, rank, 0, TERMINAL, r).ret == Some(Eval(x, r.env))
  {
    var g, rank: map<int, nat> := map[0 := Block([Return(x)], None, [-1]), -1 := Block([], None, [])], map[0 := 1, -1 := 0];
    hide StmtOk;
    OneReturn(r, x);
    assert Walk(g, rank, 0, TERMINAL, r) == Walk(g, rank, TERMINAL, TERMINAL, Exec(r, [Return(x)], false));
  }

  lemma OneReturn(r: Run, x: Expr)
    requires StmtOk(Return(x)) && r.ret.None?
    ensures Exec(r, [Return(x)], false).ret == Some(Eval(x, r.env))
  {
    OneRun(r, Return(x), false);
  }
}
