/** Block graphs of function bodies: what walking one does, and where the arms of a branch meet. */
module BlockGraph {
  import opened Ir
  import opened Statements

  /** A basic block. A branch has its true successor first. */
  datatype Block = Block(stmts: seq<Stmt>, branch: Option<Expr>, succ: seq<int>)

  type Graph = map<int, Block>

  const TERMINAL: int := -1

  predicate BodyOk(b: Block) {
    StmtsOk(b.stmts) && forall i :: 0 <= i < |b.stmts| ==> !b.stmts[i].If?
  }

  predicate BlockOk(g: Graph, b: Block) {
    && BodyOk(b)
    && (forall i :: 0 <= i < |b.succ| ==> b.succ[i] in g)
    && |b.succ| == (if b.branch.Some? then 2 else 1)
    && (b.branch.Some? ==> StmtOk(If(b.branch.value)))
  }

  /** The graph of a function body once the terminal block is added: everything else has a successor. */
  ghost predicate Closed(g: Graph) {
    && TERMINAL in g && g[TERMINAL] == Block([], None, [])
    && forall b :: b in g && b != TERMINAL ==> BlockOk(g, g[b])
  }

  /** Ranks that fall along every edge; a finite graph has them exactly when it is acyclic. */
  ghost predicate Ranked(g: Graph, rank: map<int, nat>) {
    && g.Keys <= rank.Keys
    && forall b, i :: b in g && 0 <= i < |g[b].succ| ==> g[b].succ[i] in g && rank[g[b].succ[i]] < rank[b]
  }

  /** A closed acyclic graph. */
  ghost predicate Dag(g: Graph, rank: map<int, nat>) {
    Closed(g) && Ranked(g, rank)
  }

  /** The successor that the branch of b chooses in env. */
  function Next(b: Block, env: Env): int
    requires b.succ != [] && (b.branch.Some? ==> |b.succ| == 2)
  {
    if b.branch.None? || Holds(b.branch.value, env) then b.succ[0] else b.succ[1]
  }

  /** Walks the graph from block n up to block stop. */
  ghost function Walk(g: Graph, rank: map<int, nat>, n: int, stop: int, r: Run): Run
    requires Dag(g, rank) && n in g
    decreases rank[n]
  {
    if n == stop || n == TERMINAL then r
    else
      var r1 := Exec(r, g[n].stmts, false);
      Walk(g, rank, Next(g[n], r1.env), stop, r1)
  }

  lemma HasElement(todo: set<int>)
    ensures todo == {} || exists b :: b in todo
  {
    if forall b :: b !in todo {
      assert todo == {};
    }
  }

  // ---------- Where arms meet ----------

  /** Every walk from n reaches m. */
  ghost predicate AllPass(g: Graph, rank: map<int, nat>, n: int, m: int)
    requires Dag(g, rank) && n in g
    decreases rank[n]
  {
    n == m || (n != TERMINAL && forall i :: 0 <= i < |g[n].succ| ==> AllPass(g, rank, g[n].succ[i], m))
  }

  /** The blocks some walk from n meets before it meets m. */
  ghost function Before(g: Graph, rank: map<int, nat>, n: int, m: int): set<int>
    requires Dag(g, rank) && n in g
    decreases rank[n]
  {
    if n == m then {}
    else if n == TERMINAL then {n}
    else if g[n].branch.None? then {n} + Before(g, rank, g[n].succ[0], m)
    else {n} + Before(g, rank, g[n].succ[0], m) + Before(g, rank, g[n].succ[1], m)
  }

  /** The arms of branch b are disjoint regions that first meet at m, which every walk from either arm reaches. */
  ghost predicate MeetsAt(g: Graph, rank: map<int, nat>, b: int, m: int)
    requires Dag(g, rank) && b in g && g[b].branch.Some? && b != TERMINAL
  {
    && m in g
    && AllPass(g, rank, g[b].succ[0], m) && AllPass(g, rank, g[b].succ[1], m)
    && Before(g, rank, g[b].succ[0], m) !! Before(g, rank, g[b].succ[1], m)
  }

  predicate IsBranch(g: Graph, b: int) {
    b in g && b != TERMINAL && g[b].branch.Some?
  }

  /** Every branch has its meeting block. */
  ghost predicate Structured(g: Graph, rank: map<int, nat>, meet: map<int, int>) {
    && Dag(g, rank)
    && forall b :: IsBranch(g, b) ==> b in meet && MeetsAt(g, rank, b, meet[b])
  }

  lemma {:induction false} PassRank(g: Graph, rank: map<int, nat>, n: int, m: int)
    requires Dag(g, rank) && n in g && m in g && AllPass(g, rank, n, m)
    ensures rank[m] <= rank[n]
    decreases rank[n]
  {
    if n != m { PassRank(g, rank, g[n].succ[0], m); }
  }

  lemma {:induction false} BeforePass(g: Graph, rank: map<int, nat>, n: int, m: int, x: int)
    requires Dag(g, rank) && n in g && m in g && AllPass(g, rank, n, m) && x in Before(g, rank, n, m)
    ensures x in g && rank[m] < rank[x] <= rank[n]
    decreases rank[n]
  {
    PassRank(g, rank, g[n].succ[0], m);
    if x != n {
      if x in Before(g, rank, g[n].succ[0], m) {
        BeforePass(g, rank, g[n].succ[0], m, x);
      } else {
        BeforePass(g, rank, g[n].succ[1], m, x);
      }
    }
  }

  lemma {:induction false} HigherIsBefore(g: Graph, rank: map<int, nat>, n: int, m: int, e: int)
    requires Dag(g, rank) && n in g && m in g && e in g && AllPass(g, rank, n, e) && rank[m] < rank[e]
    ensures e in Before(g, rank, n, m)
    decreases rank[n]
  {
    PassRank(g, rank, n, e);
    if n != e { HigherIsBefore(g, rank, g[n].succ[0], m, e); }
  }

  /** A block that every walk from a branch reaches is not met inside an arm. */
  lemma NotInArms(g: Graph, rank: map<int, nat>, b: int, m: int, e: int)
    requires Dag(g, rank) && IsBranch(g, b) && e in g && MeetsAt(g, rank, b, m) && b != e && AllPass(g, rank, b, e)
    ensures e !in Before(g, rank, g[b].succ[0], m) && e !in Before(g, rank, g[b].succ[1], m)
  {
    var t, f := g[b].succ[0], g[b].succ[1];
    if e in Before(g, rank, t, m) {
      BeforePass(g, rank, t, m, e);
      HigherIsBefore(g, rank, f, m, e);
    }
    if e in Before(g, rank, f, m) {
      BeforePass(g, rank, f, m, e);
      HigherIsBefore(g, rank, t, m, e);
    }
  }

  lemma {:induction false} PassOn(g: Graph, rank: map<int, nat>, n: int, m: int, e: int)
    requires Dag(g, rank) && n in g && m in g && AllPass(g, rank, n, m) && AllPass(g, rank, n, e)
    requires e !in Before(g, rank, n, m)
    ensures AllPass(g, rank, m, e)
    decreases rank[n]
  {
    if n != m { PassOn(g, rank, g[n].succ[0], m, e); }
  }

  /** A walk to e that first reaches m can be cut there. */
  lemma {:induction false} WalkCut(g: Graph, rank: map<int, nat>, n: int, m: int, e: int, r: Run)
    requires Dag(g, rank) && n in g && m in g && AllPass(g, rank, n, m) && e !in Before(g, rank, n, m)
    ensures Walk(g, rank, n, e, r) == Walk(g, rank, m, e, Walk(g, rank, n, m, r))
    decreases rank[n]
  {
    if n != m {
      var r1 := Exec(r, g[n].stmts, false);
      WalkCut(g, rank, Next(g[n], r1.env), m, e, r1);
    }
  }

  lemma {:induction false} AllPassTerminal(g: Graph, rank: map<int, nat>, n: int)
    requires Dag(g, rank) && n in g
    ensures AllPass(g, rank, n, TERMINAL)
    decreases rank[n]
  {
    if n != TERMINAL {
      forall i | 0 <= i < |g[n].succ| ensures AllPass(g, rank, g[n].succ[i], TERMINAL) {
        AllPassTerminal(g, rank, g[n].succ[i]);
      }
    }
  }

  // ---------- The leftmost walk ----------

  /** The blocks of the leftmost walk from n that stand before e, and e. */
  ghost function Leftmost(g: Graph, rank: map<int, nat>, n: int, e: int): set<int>
    requires Dag(g, rank) && n in g
    decreases rank[n]
  {
    if n == e || n == TERMINAL then {n} else {n} + Leftmost(g, rank, g[n].succ[0], e)
  }

  lemma {:induction false} LeftmostReaches(g: Graph, rank: map<int, nat>, n: int, m: int, e: int)
    requires Dag(g, rank) && n in g && m in g && AllPass(g, rank, n, m) && e !in Before(g, rank, n, m)
    ensures Leftmost(g, rank, m, e) <= Leftmost(g, rank, n, e)
    decreases rank[n]
  {
    if n != m { LeftmostReaches(g, rank, g[n].succ[0], m, e); }
  }

  lemma {:induction false} LeftmostRank(g: Graph, rank: map<int, nat>, n: int, e: int, x: int)
    requires Dag(g, rank) && n in g && x in Leftmost(g, rank, n, e)
    ensures x in g && rank[x] <= rank[n]
    decreases rank[n]
  {
    if x != n { LeftmostRank(g, rank, g[n].succ[0], e, x); }
  }

  lemma {:induction false} LeftmostHas(g: Graph, rank: map<int, nat>, n: int, e: int)
    requires Dag(g, rank) && n in g && AllPass(g, rank, n, e)
    ensures e in Leftmost(g, rank, n, e)
    decreases rank[n]
  {
    if n != e { LeftmostHas(g, rank, g[n].succ[0], e); }
  }

  /** Seen from a block that must reach m, the leftmost walk to the end stays before m or goes on from m. */
  lemma {:induction false} LeftmostSplit(g: Graph, rank: map<int, nat>, n: int, m: int, x: int)
    requires Dag(g, rank) && n in g && m in g && AllPass(g, rank, n, m) && x in Leftmost(g, rank, n, TERMINAL)
    ensures x in Before(g, rank, n, m) || (x in g && rank[x] <= rank[m])
    decreases rank[n]
  {
    if n == m {
      LeftmostRank(g, rank, n, TERMINAL, x);
    } else if x != n {
      LeftmostSplit(g, rank, g[n].succ[0], m, x);
    }
  }
}
