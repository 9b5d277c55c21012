/** From raw paths between important states to statement lists, and why different operations exclude each other. */
module Operations {
  import opened Ir
  import opened Statements
  import opened SymbolicExecution

  /** A control-flow node; the node of reset and the empty else node have no statement. */
  datatype Node = Node(id: int, stmt: Option<Stmt>, succ: seq<int>)

  /** Which operation of a path is built, and the one kind that slave modules have. */
  datatype Mode = Explicit | NotSync | WaitOp | SlaveOp

  datatype Position = First | Middle | Last

  predicate RawPath(p: seq<Node>) {
    && |p| >= 2 && p[|p| - 1].stmt.Some?
    && forall i :: 0 <= i < |p| && p[i].stmt.Some? ==> StmtOk(p[i].stmt.value)
  }

  /** The state the path starts in is a communication over a blocking interface. */
  predicate BlockingStart(p: seq<Node>) {
    p != [] && p[0].stmt.Some? && (p[0].stmt.value.Read? || p[0].stmt.value.Write?) && p[0].stmt.value.port.iface == Blocking
  }

  // ---------- What each node contributes ----------

  function SyncGuard(p: Port, mode: Mode): Stmt {
    if mode == WaitOp || mode == NotSync then If(UnaryExpr(Not, SyncSignal(p.name))) else If(SyncSignal(p.name))
  }

  function StatusFromSync(p: Port, status: Option<Var>): seq<Stmt> {
    if status.Some? then [Assign(status.value, SyncSignal(p.name))] else []
  }

  /** A read in the first position happens, a write there already happened when the state was entered. */
  function EmitFirst(s: Stmt, mode: Mode): seq<Stmt>
    requires s.Read? || s.Write?
  {
    var guard := if s.port.iface == Blocking then [SyncGuard(s.port, mode)] else [];
    if s.Read? then
      guard + (if s.port.iface == Blocking && s.nonBlocking then (if mode != NotSync then [s] else StatusFromSync(s.port, s.status))
               else if !s.nonBlocking && mode != WaitOp then [s] else [])
    else
      guard + (if s.port.iface == Blocking && s.nonBlocking then StatusFromSync(s.port, s.status) else [])
        + (if !s.nonBlocking && mode == WaitOp then [s] else [])
  }

  function Emit(s: Stmt, pos: Position, cond: bool, mode: Mode): seq<Stmt> {
    match s
    case If(c) => [if cond then s else If(UnaryExpr(Not, c))]
    case Read(_, _, _, _) => if pos == First then EmitFirst(s, mode) else if pos == Last then [] else [s]
    case Write(_, _, _, _) => if pos == First then EmitFirst(s, mode) else [s]
    case While => []
    case Wait => []
    case _ => [s]
  }

  /** Statements the visitors throw on. */
  predicate Refused(s: Stmt, pos: Position, mode: Mode) {
    s.Return? || (mode == SlaveOp && pos != Middle && (s.Read? || s.Write?))
  }

  predicate Branching(n: Node) {
    n.stmt.Some? && |n.succ| > 1
  }

  /** The condition flag when node i is visited: set at branching nodes and left alone elsewhere. */
  function FlagAt(p: seq<Node>, i: nat, start: bool): bool
    requires i < |p|
  {
    if Branching(p[i]) && i + 1 < |p| then p[i + 1].id == p[i].id + 1
    else if i == 0 then start else FlagAt(p, i - 1, start)
  }

  function PositionOf(p: seq<Node>, i: nat): Position
    requires i < |p|
  {
    if i == 0 then First else if i == |p| - 1 then Last else Middle
  }

  function EmitAt(p: seq<Node>, i: nat, start: bool, mode: Mode): seq<Stmt>
    requires i < |p|
  {
    if p[i].stmt.None? then []
    else Emit(p[i].stmt.value, PositionOf(p, i), FlagAt(p, i, start), mode)
  }

  function EmitUpTo(p: seq<Node>, n: nat, start: bool, mode: Mode): seq<Stmt>
    requires n <= |p|
  {
    if n == 0 then [] else EmitUpTo(p, n - 1, start, mode) + EmitAt(p, n - 1, start, mode)
  }

  /** The statement list of an operation; a wait operation only has its first statement. */
  function StatementsOf(p: seq<Node>, start: bool, mode: Mode): seq<Stmt> {
    EmitUpTo(p, if mode == WaitOp && p != [] then 1 else |p|, start, mode)
  }

  predicate AcceptedUpTo(p: seq<Node>, n: nat, mode: Mode)
    requires n <= |p|
  {
    n == 0 || (AcceptedUpTo(p, n - 1, mode) && (p[n - 1].stmt.Some? ==> !Refused(p[n - 1].stmt.value, PositionOf(p, n - 1), mode)))
  }

  predicate Accepted(p: seq<Node>, mode: Mode) {
    AcceptedUpTo(p, if mode == WaitOp && p != [] then 1 else |p|, mode)
  }

  // ---------- Lists of operations ----------

  /** An operation to build: a raw path and the kind of operation. */
  datatype Plan = Plan(path: seq<Node>, mode: Mode)

  datatype Built = Built(plan: Plan, stmts: seq<Stmt>)

  /** The condition flag left by an operation; a wait operation passes no branch. */
  function FlagAfter(x: Plan, start: bool): bool {
    if x.mode == WaitOp || |x.path| < 2 then start else FlagAt(x.path, |x.path| - 2, start)
  }

  /** The flag is not reset between operations: each starts with what the ones before it left. */
  function FlagAfterAll(plans: seq<Plan>, start: bool): bool {
    if plans == [] then start else FlagAfter(plans[|plans| - 1], FlagAfterAll(plans[..|plans| - 1], start))
  }

  /** The operations, built one after the other. */
  function BuiltOf(plans: seq<Plan>, start: bool): (bs: seq<Built>)
    ensures |bs| == |plans|
  {
    if plans == [] then []
    else
      var before, x := plans[..|plans| - 1], plans[|plans| - 1];
      BuiltOf(before, start) + [Built(x, StatementsOf(x.path, FlagAfterAll(before, start), x.mode))]
  }

  lemma BuiltMore(plans: seq<Plan>, x: Plan, start: bool)
    ensures FlagAfterAll(plans + [x], start) == FlagAfter(x, FlagAfterAll(plans, start))
    ensures BuiltOf(plans + [x], start)
         == BuiltOf(plans, start) + [Built(x, StatementsOf(x.path, FlagAfterAll(plans, start), x.mode))]
  {
    assert (plans + [x])[..|plans|] == plans;
  }

  lemma {:induction false} BuiltAt(plans: seq<Plan>, start: bool, i: nat)
    requires i < |plans|
    ensures var x := plans[i];
      BuiltOf(plans, start)[i] == Built(x, StatementsOf(x.path, FlagAfterAll(plans[..i], start), x.mode))
    decreases |plans|
  {
    hide StatementsOf, FlagAfterAll;
    var before := plans[..|plans| - 1];
    if i < |before| {
      BuiltAt(before, start, i);
      assert before[..i] == plans[..i];
    }
  }

  predicate SameState(x: Plan, y: Plan) {
    x.path != [] && y.path != [] && x.path[0] == y.path[0]
  }

  /** Never enabled together, whatever the flag was before each of them. */
  ghost predicate Exclusive(x: Plan, y: Plan) {
    forall start: bool, start': bool, env: Env ::
      !(Enabled(StatementsOf(x.path, start, x.mode), x.mode, env) && Enabled(StatementsOf(y.path, start', y.mode), y.mode, env))
  }

  ghost predicate Apart(x: Built, y: Built) {
    forall env: Env :: !(Enabled(x.stmts, x.plan.mode, env) && Enabled(y.stmts, y.plan.mode, env))
  }

  /** In every state and for all values there at most one operation is enabled. */
  ghost predicate Deterministic(bs: seq<Built>) {
    forall a, b :: 0 <= a < b < |bs| && SameState(bs[a].plan, bs[b].plan) ==> Apart(bs[a], bs[b])
  }

  ghost predicate PlansExclude(plans: seq<Plan>) {
    forall a, b :: 0 <= a < b < |plans| && SameState(plans[a], plans[b]) ==> Exclusive(plans[a], plans[b])
  }

  lemma BuiltDeterministic(plans: seq<Plan>, start: bool)
    requires PlansExclude(plans)
    ensures Deterministic(BuiltOf(plans, start))
  {
    hide Enabled, StatementsOf, FlagAfterAll, SameState;
    var bs := BuiltOf(plans, start);
    forall a, b | 0 <= a < b < |bs| && SameState(bs[a].plan, bs[b].plan) ensures Apart(bs[a], bs[b]) {
      BuiltAt(plans, start, a);
      BuiltAt(plans, start, b);
      assert Exclusive(plans[a], plans[b]);
    }
  }

  lemma EmitFirstOk(s: Stmt, mode: Mode)
    requires StmtOk(s) && (s.Read? || s.Write?)
    ensures StmtsOk(EmitFirst(s, mode))
  {
    assert WellTyped(SyncSignal(s.port.name)) && TypeOf(SyncSignal(s.port.name)) == TBool;
    assert StmtOk(SyncGuard(s.port, mode));
    if s.status.Some? { assert StmtOk(Assign(s.status.value, SyncSignal(s.port.name))); }
    assert StmtsOk(StatusFromSync(s.port, s.status));
  }

  lemma EmitOk(s: Stmt, pos: Position, cond: bool, mode: Mode)
    requires StmtOk(s)
    ensures StmtsOk(Emit(s, pos, cond, mode))
  {
    hide EmitFirst;
    if s.Read? || s.Write? { EmitFirstOk(s, mode); }
    if s.If? { assert StmtOk(If(UnaryExpr(Not, s.cond))); }
  }

  lemma {:induction false} EmitUpToOk(p: seq<Node>, n: nat, start: bool, mode: Mode)
    requires RawPath(p) && n <= |p|
    ensures StmtsOk(EmitUpTo(p, n, start, mode))
    decreases n
  {
    hide Emit, StmtOk, FlagAt;
    if n > 0 {
      EmitUpToOk(p, n - 1, start, mode);
      var i := n - 1;
      if p[i].stmt.Some? {
        EmitOk(p[i].stmt.value, PositionOf(p, i), FlagAt(p, i, start), mode);
      }
    }
  }

  // ---------- What is accepted ----------

  /** No node of the path holds a return. */
  predicate ReturnFree(p: seq<Node>) {
    forall k :: 0 <= k < |p| && p[k].stmt.Some? ==> !p[k].stmt.value.Return?
  }

  predicate Communicates(n: Node) {
    n.stmt.Some? && (n.stmt.value.Read? || n.stmt.value.Write?)
  }

  lemma {:induction false} AcceptedFirst(p: seq<Node>, n: nat, mode: Mode)
    requires n <= |p|
    ensures AcceptedUpTo(p, n, mode) <==>
      && (forall k :: 0 <= k < n && p[k].stmt.Some? ==> !p[k].stmt.value.Return?)
      && (mode == SlaveOp ==> forall k :: 0 <= k < n && PositionOf(p, k) != Middle ==> !Communicates(p[k]))
    decreases n
  {
    if n > 0 { AcceptedFirst(p, n - 1, mode); }
  }

  /** The visitors throw on a return, and in a slave module on a communication at either end, and on nothing else. */
  lemma AcceptedExact(p: seq<Node>, mode: Mode)
    requires |p| >= 2 && mode != WaitOp
    ensures Accepted(p, mode) <==>
      ReturnFree(p) && (mode == SlaveOp ==> !Communicates(p[0]) && !Communicates(p[|p| - 1]))
  {
    AcceptedFirst(p, |p|, mode);
    assert PositionOf(p, 0) == First && PositionOf(p, |p| - 1) == Last;
  }

  // ---------- Exclusion ----------

  /** The operation can start: all its assumptions hold for the values at its start. */
  ghost predicate Enabled(stmts: seq<Stmt>, mode: Mode, env: Env) {
    && StmtsOk(stmts)
    && var st := SymRun(START, stmts, mode == WaitOp); st.Ok? && AllHold(st.value.assumptions, env)
  }

  lemma EnabledTaken(stmts: seq<Stmt>, mode: Mode, env: Env)
    requires Enabled(stmts, mode, env)
    ensures StmtsOk(stmts) && Taken(Run(env, None), stmts, mode == WaitOp)
  {
    SymbolicExecutionExact(stmts, mode == WaitOp, env);
  }

  /** Up to k the paths agree, and the branch at k - 1 goes to the next numbered node on exactly one of them. */
  ghost predicate DivergeAt(p: seq<Node>, q: seq<Node>, k: nat) {
    && 0 < k < |p| && k < |q| && p[..k] == q[..k]
    && Branching(p[k - 1]) && p[k - 1].stmt.value.If?
    && (p[k].id == p[k - 1].id + 1) != (q[k].id == p[k - 1].id + 1)
  }

  /** The raw paths from one state part pairwise. */
  ghost predicate PathsPart(raw: seq<seq<Node>>) {
    && (forall i :: 0 <= i < |raw| ==> RawPath(raw[i]))
    && forall i, j :: 0 <= i < j < |raw| && raw[i][0] == raw[j][0] ==> exists k: nat :: DivergeAt(raw[i], raw[j], k)
  }

  lemma {:induction false} EmitPrefix(p: seq<Node>, i: nat, n: nat, start: bool, mode: Mode)
    requires i <= n <= |p|
    ensures EmitUpTo(p, i, start, mode) <= EmitUpTo(p, n, start, mode)
    decreases n
  {
    if i < n { EmitPrefix(p, i, n - 1, start, mode); }
  }

  lemma TakenPrefix(r: Run, a: seq<Stmt>, all: seq<Stmt>, waiting: bool)
    requires StmtsOk(all) && a <= all && Taken(r, all, waiting)
    ensures StmtsOk(a) && Taken(r, a, waiting)
  {
    assert all == a + all[|a|..];
    ExecConcat(r, a, all[|a|..], waiting);
  }

  lemma NotBoth(r: Run, c: Expr, waiting: bool)
    requires StmtOk(If(c))
    ensures StmtOk(If(UnaryExpr(Not, c)))
    ensures !(Taken(r, [If(c)], waiting) && Taken(r, [If(UnaryExpr(Not, c))], waiting))
  {
    OneGuard(r, c, waiting);
    OneGuard(r, UnaryExpr(Not, c), waiting);
    EvalFits(c, r.env);
  }

  /** Outside slave modules every kind of operation accepts what the explicit one accepts. */
  lemma {:induction false} AcceptedAnyMode(p: seq<Node>, n: nat, mode: Mode)
    requires n <= |p| && AcceptedUpTo(p, n, Explicit) && mode != SlaveOp
    ensures forall i :: 0 <= i <= n ==> AcceptedUpTo(p, i, mode)
    decreases n
  {
    if n > 0 { AcceptedAnyMode(p, n - 1, mode); }
  }

  lemma {:induction false} AcceptedStays(p: seq<Node>, i: nat, n: nat, mode: Mode)
    requires i <= n <= |p| && AcceptedUpTo(p, n, mode)
    ensures AcceptedUpTo(p, i, mode)
    decreases n
  {
    if i < n { AcceptedStays(p, i, n - 1, mode); }
  }

  /** After a taken list, whatever follows one of its prefixes is taken from where the prefix ends. */
  lemma TakenAfter(r: Run, a: seq<Stmt>, s: Stmt, all: seq<Stmt>, waiting: bool)
    requires StmtsOk(all) && a + [s] <= all && Taken(r, all, waiting)
    ensures StmtsOk(a) && StmtOk(s) && Taken(Exec(r, a, waiting), [s], waiting)
  {
    TakenPrefix(r, a + [s], all, waiting);
    assert StmtsOk(a) && StmtOk(s) by {
      assert forall i :: 0 <= i < |a| ==> a[i] == (a + [s])[i];
      assert (a + [s])[|a|] == s;
    }
    ExecConcat(r, a, [s], waiting);
  }

  /** Node j stands in both paths before the end, is an If, and gets its condition in one list only. */
  ghost predicate Opposite(p: seq<Node>, q: seq<Node>, j: nat, start: bool, start': bool) {
    && j + 1 < |p| && j + 1 < |q| && p[j] == q[j]
    && p[j].stmt.Some? && p[j].stmt.value.If? && FlagAt(p, j, start) != FlagAt(q, j, start')
  }

  lemma EmitsAlike(p: seq<Node>, q: seq<Node>, j: nat, start: bool, start': bool, mode: Mode)
    requires j + 1 < |p| && j + 1 < |q| && p[j] == q[j]
    ensures EmitAt(p, j, start, mode) == EmitAt(q, j, start', mode) || Opposite(p, q, j, start, start')
  {
  }

  lemma PartsOpposite(p: seq<Node>, q: seq<Node>, k: nat, start: bool, start': bool)
    requires DivergeAt(p, q, k)
    ensures Opposite(p, q, k - 1, start, start')
  {
    assert p[k - 1] == p[..k][k - 1] && q[k - 1] == q[..k][k - 1];
  }

  /**
   * The first node where the two lists part: the branch at k - 1, or an If before it that has one successor and so got
   * whatever the flag was.
   */
  lemma {:induction false} FirstPart(p: seq<Node>, q: seq<Node>, k: nat, start: bool, start': bool, mode: Mode, n: nat)
      returns (j: nat)
    requires DivergeAt(p, q, k) && n < k
    ensures j <= n && EmitUpTo(p, j, start, mode) == EmitUpTo(q, j, start', mode)
    ensures j < n ==> Opposite(p, q, j, start, start')
    decreases n
  {
    hide Opposite, Emit, EmitAt, FlagAt;
    if n == 0 {
      j := 0;
    } else {
      j := FirstPart(p, q, k, start, start', mode, n - 1);
      assert p[n - 1] == p[..k][n - 1] && q[n - 1] == q[..k][n - 1];
      EmitsAlike(p, q, n - 1, start, start', mode);
      if j == n - 1 && EmitAt(p, j, start, mode) == EmitAt(q, j, start', mode) { j := n; }
    }
  }

  lemma EmitsOne(p: seq<Node>, j: nat, start: bool, mode: Mode)
    requires mode != WaitOp && j < |p| && p[j].stmt.Some? && p[j].stmt.value.If?
    ensures var c, g := p[j].stmt.value.cond, EmitAt(p, j, start, mode);
      && g == [if FlagAt(p, j, start) then If(c) else If(UnaryExpr(Not, c))]
      && EmitUpTo(p, j, start, mode) + g <= StatementsOf(p, start, mode)
  {
    EmitPrefix(p, j + 1, |p|, start, mode);
  }

  /** Paths that part at a branch exclude each other, whatever the condition flag was before each of them. */
  lemma DivergingExclude(p: seq<Node>, q: seq<Node>, k: nat, start: bool, start': bool, mode: Mode, env: Env)
    requires RawPath(p) && RawPath(q) && DivergeAt(p, q, k) && mode != WaitOp
    ensures !(Enabled(StatementsOf(p, start, mode), mode, env) && Enabled(StatementsOf(q, start', mode), mode, env))
  {
    hide Enabled, Opposite, EmitUpTo;
    PartsOpposite(p, q, k, start, start');
    var j := FirstPart(p, q, k, start, start', mode, k - 1);
    OppositeExcludes(p, q, j, start, start', mode, env);
  }

  lemma OppositeExcludes(p: seq<Node>, q: seq<Node>, j: nat, start: bool, start': bool, mode: Mode, env: Env)
    requires RawPath(p) && mode != WaitOp && Opposite(p, q, j, start, start')
    requires EmitUpTo(p, j, start, mode) == EmitUpTo(q, j, start', mode)
    ensures !(Enabled(StatementsOf(p, start, mode), mode, env) && Enabled(StatementsOf(q, start', mode), mode, env))
  {
    hide Taken, Exec, Enabled, StmtOk, EmitUpTo, FlagAt, EmitAt;
    var ps, qs := StatementsOf(p, start, mode), StatementsOf(q, start', mode);
    if Enabled(ps, mode, env) && Enabled(qs, mode, env) {
      var r, before, c := Run(env, None), EmitUpTo(p, j, start, mode), p[j].stmt.value.cond;
      EnabledTaken(ps, mode, env);
      EnabledTaken(qs, mode, env);
      EmitsOne(p, j, start, mode);
      EmitsOne(q, j, start', mode);
      TakenAfter(r, before, if FlagAt(p, j, start) then If(c) else If(UnaryExpr(Not, c)), ps, false);
      TakenAfter(r, before, if FlagAt(q, j, start') then If(c) else If(UnaryExpr(Not, c)), qs, false);
      BranchOk(p, j);
      NotBoth(Exec(r, before, false), c, false);
    }
  }

  lemma BranchOk(p: seq<Node>, n: nat)
    requires RawPath(p) && n < |p| && p[n].stmt.Some?
    ensures StmtOk(p[n].stmt.value)
  {
  }

  /** An operation that needs the partner excludes one that needs it absent. */
  lemma SyncExcludes(p: seq<Node>, q: seq<Node>, start: bool, start': bool, mode: Mode, env: Env)
    requires RawPath(p) && RawPath(q) && p[0] == q[0] && p[0].stmt.Some?
    requires (p[0].stmt.value.Read? || p[0].stmt.value.Write?) && p[0].stmt.value.port.iface == Blocking
    requires mode == WaitOp || mode == NotSync
    ensures !(Enabled(StatementsOf(p, start, Explicit), Explicit, env) && Enabled(StatementsOf(q, start', mode), mode, env))
  {
    hide Taken, Exec, Enabled;
    var ps, qs := StatementsOf(p, start, Explicit), StatementsOf(q, start', mode);
    if Enabled(ps, Explicit, env) && Enabled(qs, mode, env) {
      var port := p[0].stmt.value.port;
      EnabledTaken(ps, Explicit, env);
      EnabledTaken(qs, mode, env);
      GuardFirst(p, start, Explicit);
      GuardFirst(q, start', mode);
      TakenAfter(Run(env, None), [], SyncGuard(port, Explicit), ps, false);
      TakenAfter(Run(env, None), [], SyncGuard(port, mode), qs, mode == WaitOp);
      SyncGuards(port, env, mode == WaitOp);
    }
  }

  lemma SyncGuards(port: Port, env: Env, waiting: bool)
    ensures var r, yes, no := Run(env, None), SyncGuard(port, Explicit), SyncGuard(port, NotSync);
      !(Taken(Exec(r, [], false), [yes], false) && Taken(Exec(r, [], waiting), [no], waiting))
  {
    OneGuard(Run(env, None), SyncSignal(port.name), false);
    OneGuard(Run(env, None), UnaryExpr(Not, SyncSignal(port.name)), waiting);
  }

  lemma GuardFirst(p: seq<Node>, start: bool, mode: Mode)
    requires RawPath(p) && p[0].stmt.Some?
    requires (p[0].stmt.value.Read? || p[0].stmt.value.Write?) && p[0].stmt.value.port.iface == Blocking
    ensures [] + [SyncGuard(p[0].stmt.value.port, mode)] <= StatementsOf(p, start, mode)
  {
    EmitPrefix(p, 1, if mode == WaitOp then 1 else |p|, start, mode);
    assert EmitUpTo(p, 1, start, mode) == [] + EmitAt(p, 0, start, mode);
    assert EmitAt(p, 0, start, mode)[0] == SyncGuard(p[0].stmt.value.port, mode);
  }

  // ---------- Polarity ----------

  /** A branch has two successors, the true one numbered next; any other node has one. */
  predicate Numbered(n: Node) {
    if n.stmt.Some? && n.stmt.value.If? then |n.succ| == 2 && n.succ[0] == n.id + 1 != n.succ[1] else |n.succ| == 1
  }

  /** A walk on a numbered graph from a state to a state. */
  predicate OnGraph(p: seq<Node>) {
    && RawPath(p) && !p[|p| - 1].stmt.value.If?
    && forall i :: 0 <= i < |p| - 1 ==> Numbered(p[i]) && p[i + 1].id in p[i].succ
  }

  /** Where control goes after the node. */
  function NextId(n: Node, env: Env): int
    requires Numbered(n)
  {
    if n.stmt.Some? && n.stmt.value.If? && !Holds(n.stmt.value.cond, env) then n.succ[1] else n.succ[0]
  }

  /** A blocking first statement finds its partner as the kind of operation wants it. */
  predicate StartOk(p: seq<Node>, mode: Mode, env: Env)
    requires p != []
  {
    BlockingStart(p) ==> (p[0].stmt.value.port.name in env.sync <==> mode == Explicit || mode == SlaveOp)
  }

  /** Without two successors the flag is whatever it was: such an If restricts an operation that every run takes. */
  lemma OneSuccessorIf()
    ensures var x := Operand(Var(Variable, "x", "", TBool));
      var p := [Node(0, Some(Wait), [1]), Node(1, Some(If(x)), [2]), Node(2, Some(Wait), [0])];
      && RawPath(p)
      && StatementsOf(p, true, Explicit) == [If(x)] && StatementsOf(p, false, Explicit) == [If(UnaryExpr(Not, x))]
  {
    var x := Operand(Var(Variable, "x", "", TBool));
    var p := [Node(0, Some(Wait), [1]), Node(1, Some(If(x)), [2]), Node(2, Some(Wait), [0])];
    forall start: bool
      ensures EmitUpTo(p, 3, start, Explicit) == [if start then If(x) else If(UnaryExpr(Not, x))]
    {
      assert FlagAt(p, 1, start) == FlagAt(p, 0, start) == start;
      assert EmitUpTo(p, 1, start, Explicit) == EmitUpTo(p, 0, start, Explicit) + [];
      assert EmitUpTo(p, 2, start, Explicit) == EmitUpTo(p, 1, start, Explicit) + EmitAt(p, 1, start, Explicit);
      assert EmitUpTo(p, 3, start, Explicit) == EmitUpTo(p, 2, start, Explicit) + [];
    }
  }

  // ---------- The flag left from before ----------

  /** A branching node up to i has set the flag. */
  ghost predicate FlagSet(p: seq<Node>, i: nat)
    requires i < |p|
  {
    exists j :: 0 <= j <= i && Branching(p[j]) && j + 1 < |p|
  }

  lemma {:induction false} FlagKept(p: seq<Node>, i: nat, start: bool)
    requires i < |p|
    ensures if FlagSet(p, i) then FlagAt(p, i, start) == FlagAt(p, i, !start) else FlagAt(p, i, start) == start
    decreases i
  {
    if !(Branching(p[i]) && i + 1 < |p|) && i > 0 {
      FlagKept(p, i - 1, start);
      assert FlagSet(p, i) <==> FlagSet(p, i - 1);
    }
  }

  predicate IfAt(p: seq<Node>, i: nat)
    requires i < |p|
  {
    p[i].stmt.Some? && p[i].stmt.value.If?
  }

  lemma EmitAtEither(p: seq<Node>, i: nat, mode: Mode)
    requires i < |p|
    ensures |EmitAt(p, i, true, mode)| == |EmitAt(p, i, false, mode)|
    ensures EmitAt(p, i, true, mode) == EmitAt(p, i, false, mode) <==> (IfAt(p, i) ==> FlagSet(p, i))
  {
    FlagKept(p, i, true);
    FlagKept(p, i, false);
    hide EmitFirst, FlagAt, FlagSet;
    if IfAt(p, i) {
      var c := p[i].stmt.value.cond;
      assert [If(c)][0] != [If(UnaryExpr(Not, c))][0];
    }
  }

  lemma {:induction false} EmitUpToEither(p: seq<Node>, n: nat, mode: Mode)
    requires n <= |p|
    ensures |EmitUpTo(p, n, true, mode)| == |EmitUpTo(p, n, false, mode)|
    ensures EmitUpTo(p, n, true, mode) == EmitUpTo(p, n, false, mode) <==>
      forall i :: 0 <= i < n && IfAt(p, i) ==> FlagSet(p, i)
    decreases n
  {
    hide EmitAt, FlagSet, IfAt;
    if n > 0 {
      EmitUpToEither(p, n - 1, mode);
      EmitAtEither(p, n - 1, mode);
      SplitEqual(EmitUpTo(p, n - 1, true, mode), EmitAt(p, n - 1, true, mode),
                 EmitUpTo(p, n - 1, false, mode), EmitAt(p, n - 1, false, mode));
    }
  }

  lemma SplitEqual<T>(a: seq<T>, b: seq<T>, c: seq<T>, d: seq<T>)
    requires |a| == |c|
    ensures a + b == c + d <==> a == c && b == d
  {
    if a + b == c + d {
      assert a == (a + b)[..|a|] && b == (a + b)[|a|..] && c == (c + d)[..|a|] && d == (c + d)[|a|..];
    }
  }

  /** The flag left from the operation before matters exactly when an If comes before the first branching node. */
  lemma StartFlagExact(p: seq<Node>, mode: Mode)
    requires p != [] && mode != WaitOp
    ensures StatementsOf(p, true, mode) == StatementsOf(p, false, mode) <==>
      forall i :: 0 <= i < |p| && IfAt(p, i) ==> FlagSet(p, i)
  {
    EmitUpToEither(p, |p|, mode);
  }
}
