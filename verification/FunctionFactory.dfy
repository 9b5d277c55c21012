/** The return table of a function: from its block graph to (return value, conditions) pairs. */
module FunctionFactory {
  import opened Ir
  import opened Statements
  import opened SymbolicExecution
  import opened Reconstruct
  import opened NestedCode
  import opened Paths
  import opened BlockGraph
  import opened Trails
  import MergePoints
  import Flatten
  import FindPathsToReturn

  datatype Entry = Entry(value: Expr, conditions: seq<Expr>)

  // ---------- The function itself ----------

  /** A function body as translated: the last blocks have no successor, and the entry block 0 is empty. */
  ghost predicate FunctionBody(g: Graph) {
    && 0 in g && TERMINAL !in g
    && g[0].stmts == [] && g[0].branch.None?
    && forall b :: b in g ==> BlockOk(g, g[b]) || (BodyOk(g[b]) && g[b].branch.None? && g[b].succ == [])
  }

  function AddTerminal(g: Graph): Graph {
    map b | b in g.Keys + {TERMINAL} ::
      if b == TERMINAL then Block([], None, [])
      else if g[b].succ == [] then g[b].(succ := [TERMINAL]) else g[b]
  }

  datatype Flow = Continue(env: Env) | Returned(value: Value)

  function CallStmts(env: Env, stmts: seq<Stmt>): Flow
    requires StmtsOk(stmts)
    decreases |stmts|
  {
    if stmts == [] then Continue(env)
    else if stmts[0].Return? then Returned(Eval(stmts[0].result, env))
    else CallStmts(Step(Run(env, None), stmts[0], false).env, stmts[1..])
  }

  /** Calls the function: control walks the blocks from n until a return statement or the end of the body. */
  ghost function Call(g: Graph, rank: map<int, nat>, n: int, env: Env): Flow
    requires FunctionBody(g) && Ranked(g, rank) && n in g
    decreases rank[n]
  {
    match CallStmts(env, g[n].stmts)
    case Returned(v) => Returned(v)
    case Continue(next) => if g[n].succ == [] then Continue(next) else Call(g, rank, Next(g[n], next), next)
  }

  lemma {:induction false} CallStmtsIsExec(env: Env, stmts: seq<Stmt>)
    requires StmtsOk(stmts)
    ensures var r := Exec(Run(env, None), stmts, false);
      match CallStmts(env, stmts)
      case Continue(end) => r == Run(end, None)
      case Returned(v) => r.ret == Some(v)
    decreases |stmts|
  {
    if stmts != [] {
      if stmts[0].Return? {
        ExecKeepsReturn(Step(Run(env, None), stmts[0], false), stmts[1..]);
      } else {
        CallStmtsIsExec(Step(Run(env, None), stmts[0], false).env, stmts[1..]);
      }
    }
  }

  lemma {:induction false} ExecKeepsReturn(r: Run, stmts: seq<Stmt>)
    requires StmtsOk(stmts) && r.ret.Some?
    ensures Exec(r, stmts, false).ret == r.ret
    decreases |stmts|
  {
    if stmts != [] { ExecKeepsReturn(Step(r, stmts[0], false), stmts[1..]); }
  }

  lemma {:induction false} WalkKeepsReturn(g: Graph, rank: map<int, nat>, n: int, r: Run)
    requires Dag(g, rank) && n in g && r.ret.Some?
    ensures Walk(g, rank, n, TERMINAL, r).ret == r.ret
    decreases rank[n]
  {
    if n != TERMINAL {
      var r1 := Exec(r, g[n].stmts, false);
      ExecKeepsReturn(r, g[n].stmts);
      WalkKeepsReturn(g, rank, Next(g[n], r1.env), r1);
    }
  }

  ghost function WithTerminal(g: Graph, rank: map<int, nat>): map<int, nat>
    requires Ranked(g, rank)
  {
    map b | b in g.Keys + {TERMINAL} :: if b in g then rank[b] + 1 else 0
  }

  lemma TerminalAdded(g: Graph, rank: map<int, nat>)
    requires FunctionBody(g) && Ranked(g, rank)
    ensures Dag(AddTerminal(g), WithTerminal(g, rank))
  {
    var h := AddTerminal(g);
    forall b | b in h && b != TERMINAL ensures BlockOk(h, h[b]) {
      assert BlockOk(g, g[b]) || g[b].succ == [];
    }
  }

  /** Walking on to the terminal block past the first return finds the value the call returns. */
  lemma {:induction false} CallIsWalk(g: Graph, rank: map<int, nat>, n: int, env: Env)
    requires FunctionBody(g) && Ranked(g, rank) && n in g && Dag(AddTerminal(g), WithTerminal(g, rank))
    ensures var r := Walk(AddTerminal(g), WithTerminal(g, rank), n, TERMINAL, Run(env, None));
      match Call(g, rank, n, env)
      case Continue(end) => r == Run(end, None)
      case Returned(v) => r.ret == Some(v)
    decreases rank[n]
  {
    var h, hrank := AddTerminal(g), WithTerminal(g, rank);
    CallStmtsIsExec(env, g[n].stmts);
    var r1 := Exec(Run(env, None), g[n].stmts, false);
    match CallStmts(env, g[n].stmts)
    case Returned(v) => WalkKeepsReturn(h, hrank, Next(h[n], r1.env), r1);
    case Continue(next) =>
      if g[n].succ != [] {
        CallIsWalk(g, rank, Next(g[n], next), next);
      } else {
        assert Walk(h, hrank, TERMINAL, TERMINAL, r1) == r1;
      }
  }

  // ---------- The factory ----------

  /** The decompiled body, in the form the stages before path enumeration leave it. */
  ghost predicate Decompiles(g: Graph, rank: map<int, nat>, cs: seq<Code>)
    requires FunctionBody(g) && Ranked(g, rank) && Dag(AddTerminal(g), WithTerminal(g, rank))
  {
    && CodesOk(cs)
    && forall r: Run :: RunCodes(r, cs) == Walk(AddTerminal(g), WithTerminal(g, rank), 0, TERMINAL, r)
  }

  /** What is done along every walk of the body, on whichever arm, feasible or not. */
  ghost function BodyWalks(g: Graph, rank: map<int, nat>, n: int): set<Path>
    requires FunctionBody(g) && Ranked(g, rank) && n in g
    decreases rank[n]
  {
    if g[n].succ == [] then {g[n].stmts}
    else if g[n].branch.None? then Both({g[n].stmts}, BodyWalks(g, rank, g[n].succ[0]))
    else Both({g[n].stmts}, BodyWalks(g, rank, g[n].succ[0]) + BodyWalks(g, rank, g[n].succ[1]))
  }

  lemma {:induction false} BodyWalksExact(g: Graph, rank: map<int, nat>, n: int)
    requires FunctionBody(g) && Ranked(g, rank) && n in g && Dag(AddTerminal(g), WithTerminal(g, rank))
    ensures Walks(AddTerminal(g), WithTerminal(g, rank), n, TERMINAL) == BodyWalks(g, rank, n)
    decreases rank[n]
  {
    hide Both;
    var h, hrank := AddTerminal(g), WithTerminal(g, rank);
    assert n in h && h[n].stmts == g[n].stmts;
    if g[n].succ == [] {
      assert h[n].succ == [TERMINAL] && Walks(h, hrank, TERMINAL, TERMINAL) == {[]};
      BothNeutral({g[n].stmts});
    } else {
      assert BlockOk(g, g[n]);
      BodyWalksExact(g, rank, g[n].succ[0]);
      if g[n].branch.Some? { BodyWalksExact(g, rank, g[n].succ[1]); }
    }
  }

  method AddTerminalNode(g: Graph) returns (h: Graph)
    requires TERMINAL !in g
    ensures h == AddTerminal(g)
  {
    h := g;
    var todo := g.Keys;
    while todo != {}
      invariant todo <= g.Keys == h.Keys
      invariant forall b :: b in g ==>
        h[b] == if b !in todo && g[b].succ == [] then g[b].(succ := [TERMINAL]) else g[b]
      decreases |todo|
    {
      HasElement(todo);
      var b :| b in todo;
      todo := todo - {b};
      if g[b].succ == [] {
        h := h[b := g[b].(succ := [TERMINAL])];
      }
    }
    h := h[TERMINAL := Block([], None, [])];
  }

  method Decompile(g: Graph, ghost rank: map<int, nat>, ghost meet: map<int, int>) returns (cs: seq<Code>)
    requires FunctionBody(g) && Ranked(g, rank) && Structured(AddTerminal(g), WithTerminal(g, rank), meet)
    ensures Decompiles(g, rank, cs) && AllDeeds(Ways(cs)) == BodyWalks(g, rank, 0)
  {
    var h := AddTerminalNode(g);
    ghost var hrank := WithTerminal(g, rank);
    var startEnd := MergePoints.GetStartEndMap(h, hrank, meet);
    var pathNodes := MergePoints.GetPathNodes(h, startEnd, hrank);
    var visitor := new Flatten.FlattenWhile(h, startEnd, pathNodes);
    visitor.Flatten(0, hrank);
    cs := visitor.stmtList;
    forall r: Run
      ensures CodesOk(cs) && RunCodes(r, cs) == Walk(h, hrank, 0, TERMINAL, r)
    {
      Flatten.DecompileExact(h, hrank, startEnd, pathNodes, h[0].succ[0], r);
      assert Exec(r, h[0].stmts, false) == r;
    }
    Flatten.DecompileExact(h, hrank, startEnd, pathNodes, h[0].succ[0], Run(Env(map[], {}, LogicalNot), None));
    EntryWalks(g, rank);
    DecompiledWays(h, hrank, startEnd, pathNodes, h[0].succ[0]);
  }

  lemma EntryWalks(g: Graph, rank: map<int, nat>)
    requires FunctionBody(g) && Ranked(g, rank) && Dag(AddTerminal(g), WithTerminal(g, rank))
    ensures var (h, hrank) := (AddTerminal(g), WithTerminal(g, rank));
      && h[0].succ != [] && h[0].succ[0] in h && Walks(h, hrank, h[0].succ[0], TERMINAL) == BodyWalks(g, rank, 0)
  {
    var h, hrank := AddTerminal(g), WithTerminal(g, rank);
    assert 0 in h && BlockOk(h, h[0]) && h[0].branch.None? && h[0].stmts == [];
    assert Walks(h, hrank, 0, TERMINAL) == Both({[]}, Walks(h, hrank, h[0].succ[0], TERMINAL));
    BothNeutral(Walks(h, hrank, h[0].succ[0], TERMINAL));
    BodyWalksExact(g, rank, 0);
    hide *;
  }

  /** The entry of one path: what it returns, and under which conditions. */
  function EntryOf(p: Path): Result<Entry>
    requires StmtsOk(p)
  {
    match SymRun(START, p, false)
    case Err(e) => Err(e)
    case Ok(st) => if st.ret.None? then Err(NoReturn) else Ok(Entry(st.ret.value, st.assumptions))
  }

  /** A path has an entry exactly when it returns once and assigns compounds only in the supported ways. */
  lemma EntryOfOk(p: Path)
    requires StmtsOk(p)
    ensures EntryOf(p).Ok? <==> Executable(p) && Returns(p) == 1
  {
    SymRunOk(START, p, false);
  }

  /** Guards neither return nor assign. */
  lemma {:induction false} DeedsCount(p: Path)
    ensures (Executable(Deeds(p)) <==> Executable(p)) && Returns(Deeds(p)) == Returns(p)
    decreases |p|
  {
    if p != [] {
      DeedsCount(p[1..]);
      ExecutableTail(p);
      if p[0].If? {
        assert Deeds(p) == Deeds(p[1..]);
      } else {
        assert Deeds(p) == [p[0]] + Deeds(p[1..]);
        ExecutableTail(Deeds(p));
        assert Deeds(p)[1..] == Deeds(p[1..]) && Deeds(p)[0] == p[0];
        assert Deeds(p)[..1] == p[..1];
      }
    }
  }

  ghost predicate TableOf(paths: seq<Path>, table: seq<Entry>) {
    && PathsOk(paths) && |table| == |paths|
    && forall i :: 0 <= i < |paths| ==> EntryOf(paths[i]) == Ok(table[i])
  }

  method ReconstructPath(p: Path) returns (r: Result<Entry>)
    requires StmtsOk(p)
    ensures r == EntryOf(p)
  {
    var visitor := new ReconstructOperations({});
    var err := visitor.VisitAll(p);
    if err.Some? {
      return Err(err.value);
    }
    if visitor.returnValue.None? {
      return Err(NoReturn);
    }
    r := Ok(Entry(visitor.returnValue.value, visitor.assumptionsList));
  }

  method BuildTable(paths: seq<Path>) returns (table: Result<seq<Entry>>)
    requires PathsOk(paths)
    ensures table.Ok? ==> TableOf(paths, table.value)
    ensures table.Err? ==> exists i :: 0 <= i < |paths| && EntryOf(paths[i]) == Err(table.error)
  {
    var list: seq<Entry> := [];
    for i := 0 to |paths|
      invariant |list| == i && forall k :: 0 <= k < i ==> EntryOf(paths[k]) == Ok(list[k])
    {
      var entry := ReconstructPath(paths[i]);
      match entry {
        case Err(e) => return Err(e);
        case Ok(x) => list := list + [x];
      }
    }
    table := Ok(list);
  }

  /** Entry i is the only one whose conditions hold for these arguments, and it gives the value v. */
  ghost predicate OnlyEntry(table: seq<Entry>, args: Env, i: nat, v: Value) {
    && i < |table|
    && (forall j :: 0 <= j < |table| ==> (AllHold(table[j].conditions, args) <==> j == i))
    && Eval(table[i].value, args) == v
  }

  /** The table answers every call: one entry applies and gives what the call returns. */
  ghost predicate Answers(g: Graph, rank: map<int, nat>, table: seq<Entry>)
    requires FunctionBody(g) && Ranked(g, rank)
  {
    forall args: Env :: Call(g, rank, 0, args).Returned? &&
      exists i: nat :: OnlyEntry(table, args, i, Call(g, rank, 0, args).value)
  }

  lemma EntryExact(p: Path, entry: Entry, args: Env)
    requires StmtsOk(p) && EntryOf(p) == Ok(entry)
    ensures AllHold(entry.conditions, args) <==> Taken(Run(args, None), p, false)
    ensures Exec(Run(args, None), p, false).ret == Some(Eval(entry.value, args))
  {
    SymbolicExecutionExact(p, false, args);
  }

  lemma TableExact(cs: seq<Code>, table: seq<Entry>, args: Env) returns (i: nat)
    requires CodesOk(cs) && PathsOf(cs) != [] && TableOf(PathsOf(cs), table)
    ensures RunCodes(Run(args, None), cs).ret.Some?
    ensures OnlyEntry(table, args, i, RunCodes(Run(args, None), cs).ret.value)
  {
    var r, paths := Run(args, None), PathsOf(cs);
    EnumerationExact(r, cs);
    i := CountOne(r, paths);
    forall j | 0 <= j < |paths| ensures AllHold(table[j].conditions, args) <==> Taken(r, paths[j], false) {
      EntryExact(paths[j], table[j], args);
    }
    EntryExact(paths[i], table[i], args);
  }

  /** Every walk returns once and is executable exactly when every enumerated path is. */
  lemma WalksDecide(cs: seq<Code>)
    requires PathsOf(cs) != []
    ensures (forall p :: p in PathsOf(cs) ==> Executable(p) && Returns(p) == 1) <==>
      forall t :: t in AllDeeds(Ways(cs)) ==> Executable(t) && Returns(t) == 1
  {
    hide Executable, Returns, Deeds, PathsOf, Ways;
    forall p ensures p in PathsOf(cs) <==> p in Ways(cs) { PathsExact(cs, p); }
    if forall p :: p in PathsOf(cs) ==> Executable(p) && Returns(p) == 1 {
      forall t | t in AllDeeds(Ways(cs)) ensures Executable(t) && Returns(t) == 1 {
        var p :| p in Ways(cs) && t == Deeds(p);
        DeedsCount(p);
      }
    }
    if forall t :: t in AllDeeds(Ways(cs)) ==> Executable(t) && Returns(t) == 1 {
      forall p | p in PathsOf(cs) ensures Executable(p) && Returns(p) == 1 {
        DeedsHas(Ways(cs), p);
        DeedsCount(p);
      }
    }
  }

  lemma TableAnswers(g: Graph, rank: map<int, nat>, cs: seq<Code>, table: seq<Entry>)
    requires FunctionBody(g) && Ranked(g, rank) && Dag(AddTerminal(g), WithTerminal(g, rank)) && Decompiles(g, rank, cs)
    requires PathsOf(cs) != [] && TableOf(PathsOf(cs), table)
    ensures Answers(g, rank, table)
  {
    forall args: Env
      ensures Call(g, rank, 0, args).Returned?
      ensures exists i: nat :: OnlyEntry(table, args, i, Call(g, rank, 0, args).value)
    {
      var i := TableExact(cs, table, args);
      CallIsWalk(g, rank, 0, args);
    }
  }

  lemma NothingDone(cs: seq<Code>)
    requires PathsOf(cs) == []
    ensures AllDeeds(Ways(cs)) == {[]}
  {
    forall p: Path ensures p in Ways(cs) <==> p == [] { PathsExact(cs, p); }
    assert Ways(cs) == {[]};
    OneDeed([]);
  }

  /**
   * The function table is correct. The body is decompiled to cs. A function with no statement to enumerate gets the empty
   * table. For any other a table is built exactly when every walk of the graph returns once and is executable, and then it
   * answers every call.
   */
  method Build(g: Graph, ghost rank: map<int, nat>, ghost meet: map<int, int>)
      returns (table: Result<seq<Entry>>, cs: seq<Code>)
    requires FunctionBody(g) && Ranked(g, rank) && Structured(AddTerminal(g), WithTerminal(g, rank), meet)
    ensures Decompiles(g, rank, cs) && PathsOk(PathsOf(cs))
    ensures PathsOf(cs) == [] ==> table == Ok([]) && BodyWalks(g, rank, 0) == {[]}
    ensures PathsOf(cs) != [] ==> (table.Ok? <==> forall t :: t in BodyWalks(g, rank, 0) ==> Executable(t) && Returns(t) == 1)
    ensures PathsOf(cs) != [] && table.Ok? ==> Answers(g, rank, table.value)
  {
    hide AllDeeds, Ways, Executable, Returns, EntryOf, BodyWalks, Answers, AddTerminal, WithTerminal, FunctionBody;
    cs := Decompile(g, rank, meet);
    var visitor := new FindPathsToReturn.PathVisitor();
    var guards := new FindPathsToReturn.GuardCache();
    visitor.VisitAll(cs, guards);
    EnumerationExact(Run(Env(map[], {}, LogicalNot), None), cs);
    table := BuildTable(visitor.pathList);
    forall p | p in PathsOf(cs) ensures StmtsOk(p) && (EntryOf(p).Ok? <==> Executable(p) && Returns(p) == 1) {
      var i :| 0 <= i < |PathsOf(cs)| && p == PathsOf(cs)[i];
      assert StmtsOk(OrEmptyPath(PathsOf(cs))[i]);
      EntryOfOk(p);
    }
    if PathsOf(cs) == [] { NothingDone(cs); } else { WalksDecide(cs); }
    if table.Ok? && PathsOf(cs) != [] { TableAnswers(g, rank, cs, table.value); }
  }
}
