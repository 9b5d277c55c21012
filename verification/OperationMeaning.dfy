/** What an operation means: the process, run along the path of the operation, does what its assumptions and commitments say. */
module OperationMeaning {
  import opened Ir
  import opened Statements
  import opened SymbolicExecution
  import opened Reconstruct
  import opened Operations

  /** Only communications over blocking interfaces and the accesses of masters, which always succeed, are states. */
  predicate StartsInState(p: seq<Node>) {
    p != [] && (Communicates(p[0]) ==>
      p[0].stmt.value.port.iface == Blocking || (p[0].stmt.value.port.iface == Master && !p[0].stmt.value.nonBlocking))
  }

  /** The kinds of operation a path has; in a slave module no communication is a state. */
  predicate ModeFits(p: seq<Node>, mode: Mode) {
    match mode
    case Explicit => true
    case NotSync => BlockingStart(p) && p[0].stmt.value.nonBlocking
    case WaitOp => BlockingStart(p) && !p[0].stmt.value.nonBlocking
    case SlaveOp => p != [] && !Communicates(p[0]) && !Communicates(p[|p| - 1])
  }

  // ---------- The process along the path ----------

  function WithStatus(env: Env, s: Stmt, success: bool): Env
    requires s.Read? || s.Write?
  {
    if s.nonBlocking && s.status.Some? then env.Set(s.status.value, Flag(success)) else env
  }

  /**
   * The communication of the state the path starts in. While it waits, nothing changes; without the partner only the
   * failure is noted; otherwise a read takes the data, while what a write offers is on the port since the state was
   * entered, and the success is noted.
   */
  ghost function FirstRun(r: Run, s: Stmt, mode: Mode): Run
    requires StmtOk(s) && (s.Read? || s.Write?)
  {
    if mode == WaitOp then r
    else if mode == NotSync then r.(env := WithStatus(r.env, s, false))
    else if s.Read? then
      r.(env := WithStatus(SetAll(r.env, s.into.Leaves(), EvalAll(OperandsOf(s.port.Signal().Leaves()), r.env)), s, true))
    else r.(env := WithStatus(r.env, s, true))
  }

  /** One node: the read of the state the path ends in is left to the next operation. */
  ghost function NodeRun(r: Run, p: seq<Node>, i: nat, mode: Mode): Run
    requires RawPath(p) && i < |p|
  {
    if p[i].stmt.None? then r
    else if i == 0 && Communicates(p[0]) then FirstRun(r, p[0].stmt.value, mode)
    else if i == |p| - 1 && p[i].stmt.value.Read? then r
    else Step(r, p[i].stmt.value, false)
  }

  /** The first n nodes. */
  ghost function PathRun(p: seq<Node>, n: nat, mode: Mode, env: Env): Run
    requires RawPath(p) && n <= |p|
  {
    if n == 0 then Run(env, None) else NodeRun(PathRun(p, n - 1, mode, env), p, n - 1, mode)
  }

  /** The operation as a whole; one that waits stays in its state. */
  ghost function OperationRun(p: seq<Node>, mode: Mode, env: Env): Run
    requires RawPath(p)
  {
    PathRun(p, if mode == WaitOp then 1 else |p|, mode, env)
  }

  /** Control leaves each of the first n nodes for the next node of the path. */
  ghost predicate Follows(p: seq<Node>, n: nat, mode: Mode, env: Env)
    requires OnGraph(p) && n < |p|
  {
    forall i :: 0 <= i < n ==> p[i + 1].id == NextId(p[i], PathRun(p, i, mode, env).env)
  }

  /** The process, started in env, takes the operation. */
  ghost predicate Takes(p: seq<Node>, mode: Mode, env: Env)
    requires OnGraph(p)
  {
    StartOk(p, mode, env) && Follows(p, if mode == WaitOp then 0 else |p| - 1, mode, env)
  }

  // ---------- The first communication ----------

  lemma GuardRun(port: Port, mode: Mode, r: Run, waiting: bool)
    ensures StmtOk(SyncGuard(port, mode)) && Exec(r, [SyncGuard(port, mode)], waiting) == r
    ensures Taken(r, [SyncGuard(port, mode)], waiting) <==> (port.name in r.env.sync <==> mode == Explicit || mode == SlaveOp)
  {
    assert WellTyped(SyncSignal(port.name)) && TypeOf(SyncSignal(port.name)) == TBool;
    OneGuard(r, SyncSignal(port.name), waiting);
    OneGuard(r, UnaryExpr(Not, SyncSignal(port.name)), waiting);
  }

  /** What follows the guard. */
  function AfterGuard(s: Stmt, mode: Mode): seq<Stmt>
    requires s.Read? || s.Write?
  {
    EmitFirst(s, mode)[if s.port.iface == Blocking then 1 else 0..]
  }

  lemma StatusRun(r: Run, s: Stmt, waiting: bool)
    requires StmtOk(s) && (s.Read? || s.Write?) && s.nonBlocking
    ensures StmtsOk(StatusFromSync(s.port, s.status))
    ensures Exec(r, StatusFromSync(s.port, s.status), waiting).env == WithStatus(r.env, s, s.port.name in r.env.sync)
    ensures Exec(r, StatusFromSync(s.port, s.status), waiting).ret == r.ret
  {
    hide Taken, Exec;
    NoneRun(r, waiting);
    if s.status.Some? {
      var set_ := Assign(s.status.value, SyncSignal(s.port.name));
      assert StmtOk(set_);
      OneRun(r, set_, waiting);
    }
  }

  lemma ReadRun(r: Run, s: Stmt)
    requires StmtOk(s) && s.Read? && (s.nonBlocking ==> s.port.name in r.env.sync)
    ensures Step(r, s, false) == FirstRun(r, s, Explicit)
  {
    ReadKeepsSync(r, s);
    hide SetAll;
  }

  lemma FirstRest(s: Stmt, mode: Mode, r: Run)
    requires StmtOk(s) && (s.Read? || s.Write?) && mode != SlaveOp
    requires s.port.iface == Blocking || (s.port.iface == Master && !s.nonBlocking && mode == Explicit)
    requires mode == NotSync ==> s.nonBlocking
    requires mode == WaitOp ==> !s.nonBlocking
    requires s.port.iface == Blocking ==> (s.port.name in r.env.sync <==> mode == Explicit)
    ensures var rest := AfterGuard(s, mode);
      && StmtsOk(rest) && (forall i :: 0 <= i < |rest| ==> !rest[i].If?)
      && Exec(r, rest, mode == WaitOp) == FirstRun(r, s, mode)
  {
    hide Taken, Exec, SetAll, Step;
    EmitFirstOk(s, mode);
    var w, status := mode == WaitOp, StatusFromSync(s.port, s.status);
    NoneRun(r, w);
    OneRun(r, s, w);
    if s.nonBlocking { StatusRun(r, s, w); }
    if mode == WaitOp {
      assert AfterGuard(s, mode) == if s.Read? then [] else [s];
      if s.Write? { WaitsHere(r, s); }
    } else if s.Read? && mode == Explicit {
      assert AfterGuard(s, mode) == [s];
      ReadRun(r, s);
    } else {
      assert AfterGuard(s, mode) == if s.nonBlocking then status else [];
    }
  }

  lemma WaitsHere(r: Run, s: Stmt)
    requires StmtOk(s) && s.Write?
    ensures Step(r, s, true) == r
  {
  }

  /** The first communication is taken when its partner is as wanted, and then does what the process does. */
  lemma FirstMeans(s: Stmt, mode: Mode, r: Run)
    requires StmtOk(s) && (s.Read? || s.Write?) && mode != SlaveOp
    requires s.port.iface == Blocking || (s.port.iface == Master && !s.nonBlocking && mode == Explicit)
    requires mode == NotSync ==> s.nonBlocking
    requires mode == WaitOp ==> !s.nonBlocking
    ensures StmtsOk(EmitFirst(s, mode))
    ensures var w := mode == WaitOp;
      && (Taken(r, EmitFirst(s, mode), w) <==>
            (s.port.iface == Blocking ==> (s.port.name in r.env.sync <==> mode == Explicit)))
      && (Taken(r, EmitFirst(s, mode), w) ==> Exec(r, EmitFirst(s, mode), w) == FirstRun(r, s, mode))
  {
    hide Taken, Exec, FirstRun;
    EmitFirstOk(s, mode);
    var all, rest, w := EmitFirst(s, mode), AfterGuard(s, mode), mode == WaitOp;
    if s.port.iface == Blocking {
      GuardRun(s.port, mode, r, w);
      assert all == [SyncGuard(s.port, mode)] + rest;
      assert StmtsOk([SyncGuard(s.port, mode)]) && StmtsOk(rest);
      ExecConcat(r, [SyncGuard(s.port, mode)], rest, w);
      if s.port.name in r.env.sync <==> mode == Explicit {
        FirstRest(s, mode, r);
        NoGuardTaken(r, rest, w);
      }
    } else {
      assert all == rest;
      FirstRest(s, mode, r);
      NoGuardTaken(r, rest, w);
    }
  }

  // ---------- One node ----------

  /** A statement that is not the first communication. */
  lemma LaterMeans(s: Stmt, pos: Position, flag: bool, mode: Mode, r: Run)
    requires StmtOk(s) && (s.Read? || s.Write? ==> pos != First)
    ensures StmtsOk(Emit(s, pos, flag, mode))
    ensures Taken(r, Emit(s, pos, flag, mode), false) <==> (s.If? ==> (Holds(s.cond, r.env) <==> flag))
    ensures Exec(r, Emit(s, pos, flag, mode), false) == if s.Read? && pos == Last then r else Step(r, s, false)
  {
    hide Taken, Exec, EmitFirst;
    EmitOk(s, pos, flag, mode);
    OneRun(r, s, false);
    NoneRun(r, false);
    if s.If? {
      EvalFits(s.cond, r.env);
      OneGuard(r, s.cond, false);
      OneGuard(r, UnaryExpr(Not, s.cond), false);
    }
  }

  /** What node i adds is taken exactly when control goes on along the path, and then does what the process does. */
  lemma NodeMeans(p: seq<Node>, i: nat, start: bool, mode: Mode, r: Run)
    requires OnGraph(p) && i < |p| && mode != WaitOp && StartsInState(p) && ModeFits(p, mode)
    ensures StmtsOk(EmitAt(p, i, start, mode))
    ensures Taken(r, EmitAt(p, i, start, mode), false) <==>
      (i == 0 ==> StartOk(p, mode, r.env)) && (i + 1 < |p| ==> p[i + 1].id == NextId(p[i], r.env))
    ensures Taken(r, EmitAt(p, i, start, mode), false) ==> Exec(r, EmitAt(p, i, start, mode), false) == NodeRun(r, p, i, mode)
  {
    hide Taken, Exec, EmitFirst, Step, FirstRun, StmtOk;
    NodeStmtOk(p, i);
    if p[i].stmt.None? {
      NoneRun(r, false);
    } else if i == 0 && Communicates(p[0]) {
      FirstMeans(p[0].stmt.value, mode, r);
    } else {
      LaterMeans(p[i].stmt.value, PositionOf(p, i), FlagAt(p, i, start), mode, r);
    }
  }

  lemma NodeStmtOk(p: seq<Node>, i: nat)
    requires OnGraph(p) && i < |p|
    ensures p[i].stmt.Some? ==> StmtOk(p[i].stmt.value)
  {
  }

  // ---------- The whole path ----------

  lemma FollowsOn(p: seq<Node>, n: nat, mode: Mode, env: Env)
    requires OnGraph(p) && 0 < n < |p|
    ensures Follows(p, n, mode, env) <==>
      Follows(p, n - 1, mode, env) && p[n].id == NextId(p[n - 1], PathRun(p, n - 1, mode, env).env)
  {
    hide PathRun, NextId, StmtOk, Numbered;
  }

  lemma {:induction false} UpToMeans(p: seq<Node>, n: nat, start: bool, mode: Mode, env: Env)
    requires OnGraph(p) && 0 < n <= |p| && mode != WaitOp && StartsInState(p) && ModeFits(p, mode)
    ensures var es := EmitUpTo(p, n, start, mode);
      && StmtsOk(es)
      && (Taken(Run(env, None), es, false) <==> StartOk(p, mode, env) && Follows(p, if n < |p| then n else n - 1, mode, env))
      && (Taken(Run(env, None), es, false) ==> Exec(Run(env, None), es, false) == PathRun(p, n, mode, env))
    decreases n
  {
    var r, i := Run(env, None), n - 1;
    assert RawPath(p);
    hide Taken, Exec, NextId, OnGraph, StartOk, Follows, EmitAt, StmtsOk, RawPath, NodeRun, StartsInState, ModeFits;
    var before := EmitUpTo(p, i, start, mode);
    EmitUpToOk(p, n, start, mode);
    EmitUpToOk(p, i, start, mode);
    NodeMeans(p, i, start, mode, Exec(r, before, false));
    ExecConcat(r, before, EmitAt(p, i, start, mode), false);
    if n < |p| { FollowsOn(p, n, mode, env); }
    if n > 1 {
      UpToMeans(p, i, start, mode, env);
    } else {
      FollowsNone(p, mode, env);
      NoneRun(r, false);
    }
  }

  lemma FollowsNone(p: seq<Node>, mode: Mode, env: Env)
    requires OnGraph(p)
    ensures Follows(p, 0, mode, env) && |p| >= 2
  {
  }

  /**
   * The statements of an operation are the path: run from any start their conditions are all met exactly when the process
   * takes the operation, and then they end as the process does.
   */
  lemma StatementsMean(p: seq<Node>, start: bool, mode: Mode, env: Env)
    requires OnGraph(p) && StartsInState(p) && ModeFits(p, mode)
    ensures var es, r, w := StatementsOf(p, start, mode), Run(env, None), mode == WaitOp;
      && StmtsOk(es)
      && (Taken(r, es, w) <==> Takes(p, mode, env))
      && (Taken(r, es, w) ==> Exec(r, es, w) == OperationRun(p, mode, env))
  {
    if mode == WaitOp {
      WaitMeans(p, start, env);
    } else {
      hide OnGraph, Taken, Exec, Follows;
      UpToMeans(p, |p|, start, mode, env);
    }
  }

  lemma WaitMeans(p: seq<Node>, start: bool, env: Env)
    requires OnGraph(p) && ModeFits(p, WaitOp)
    ensures var es, r := StatementsOf(p, start, WaitOp), Run(env, None);
      && StmtsOk(es)
      && (Taken(r, es, true) <==> Takes(p, WaitOp, env))
      && (Taken(r, es, true) ==> Exec(r, es, true) == OperationRun(p, WaitOp, env))
  {
    hide Taken, Exec, EmitFirst, FirstRun, StmtOk, Numbered, NextId;
    var r, s := Run(env, None), p[0].stmt.value;
    assert StmtOk(s) by { NodeStmtOk(p, 0); }
    FirstMeans(s, WaitOp, r);
    FollowsNone(p, WaitOp, env);
    assert EmitAt(p, 0, start, WaitOp) == EmitFirst(s, WaitOp);
    assert EmitUpTo(p, 1, start, WaitOp) == EmitUpTo(p, 0, start, WaitOp) + EmitFirst(s, WaitOp);
    assert EmitUpTo(p, 0, start, WaitOp) == [];
    assert StatementsOf(p, start, WaitOp) == EmitFirst(s, WaitOp);
    assert OperationRun(p, WaitOp, env) == FirstRun(r, s, WaitOp) by {
      assert PathRun(p, 0, WaitOp, env) == r;
      assert PathRun(p, 1, WaitOp, env) == NodeRun(r, p, 0, WaitOp);
    }
  }

  /**
   * From the raw path to the property: the assumptions of an operation hold for the values at its start exactly when the
   * process then takes the operation, and in that case each commitment gives the value at its end, and what is not
   * committed does not change.
   */
  lemma RawPathExact(p: seq<Node>, start: bool, mode: Mode, seen: set<Var>, dpSignals: set<Var>, env: Env)
    requires OnGraph(p) && StartsInState(p) && ModeFits(p, mode)
    requires StmtsOk(StatementsOf(p, start, mode)) && SymRun(START, StatementsOf(p, start, mode), mode == WaitOp).Ok?
    ensures var st := SymRun(START, StatementsOf(p, start, mode), mode == WaitOp).value;
      var c, end := Commitments(st.assign, seen, dpSignals), OperationRun(p, mode, env).env;
      && (AllHold(st.assumptions, env) <==> Takes(p, mode, env))
      && (Takes(p, mode, env) ==>
            && (forall v :: v in c ==> Eval(c[v], env) == end.Get(v))
            && (forall v :: v !in c ==> env.Get(v) == end.Get(v)))
  {
    hide OnGraph, Taken, Exec, SymRun, Takes, OperationRun, StatementsOf, Commitments, StartsInState, ModeFits;
    StatementsMean(p, start, mode, env);
    OperationExact(StatementsOf(p, start, mode), mode == WaitOp, seen, dpSignals, env);
  }

  /** Such a path: a read that may fail, and a branch on its success. */
  function TryRead(): Node {
    Node(0, Some(Read(Port("b", Blocking, In, [("", TInt)]), Object(Variable, "x", [("", TInt)]), true, Some(SUCCESS))), [1])
  }

  const SUCCESS := Var(Variable, "ok", "", TBool)

  /** With the partner there, the process takes the explicit operation of the path, and without it neither operation. */
  lemma TryReadTakes(env: Env)
    ensures var p := [TryRead(), Node(1, Some(If(Operand(SUCCESS))), [2, 0]), Node(2, Some(Wait), [0])];
      && OnGraph(p) && StartsInState(p) && ModeFits(p, Explicit) && ModeFits(p, NotSync)
      && (Takes(p, Explicit, env) <==> "b" in env.sync) && !Takes(p, NotSync, env)
  {
    var p := [TryRead(), Node(1, Some(If(Operand(SUCCESS))), [2, 0]), Node(2, Some(Wait), [0])];
    hide SetAll;
    forall mode | mode == Explicit || mode == NotSync
      ensures PathRun(p, 1, mode, env).env.Get(SUCCESS) == Flag(mode == Explicit)
      ensures Follows(p, 2, mode, env) <==> mode == Explicit
    {
      var r := PathRun(p, 0, mode, env);
      assert PathRun(p, 1, mode, env) == FirstRun(r, p[0].stmt.value, mode);
      assert p[0 + 1].id == NextId(p[0], r.env);
      FollowsOn(p, 2, mode, env);
      FollowsOn(p, 1, mode, env);
    }
  }
}
