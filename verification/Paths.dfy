/** Path enumeration: nested code as guarded straight-line paths. */
module Paths {
  import opened Ir
  import opened Statements
  import opened NestedCode

  type Path = seq<Stmt>

  function Negated(cond: Expr): Expr { UnaryExpr(Not, cond) }

  // ---------- What the visitor computes ----------

  function AppendStmt(paths: seq<Path>, s: Stmt): seq<Path> {
    if paths == [] then [[s]] else seq(|paths|, i requires 0 <= i < |paths| => paths[i] + [s])
  }

  /** An empty list of paths stands for the one empty path. */
  function OrEmptyPath(paths: seq<Path>): (r: seq<Path>)
    ensures r != []
  {
    if paths == [] then [[]] else paths
  }

  function Prefixed(p: Path, paths: seq<Path>): seq<Path> {
    seq(|paths|, i requires 0 <= i < |paths| => p + paths[i])
  }

  /** All ways through a branch, the true arm first. */
  function Arms(cond: Expr, ifPaths: seq<Path>, elsePaths: seq<Path>): seq<Path> {
    Prefixed([If(cond)], OrEmptyPath(ifPaths)) + Prefixed([If(Negated(cond))], OrEmptyPath(elsePaths))
  }

  /** Every old path followed by every arm. */
  function Cross(olds: seq<Path>, arms: seq<Path>): seq<Path> {
    if olds == [] then [] else Cross(olds[..|olds| - 1], arms) + Prefixed(olds[|olds| - 1], arms)
  }

  function Extend(paths: seq<Path>, c: Code): seq<Path>
    decreases c, 0
  {
    match c
    case Simple(s) => AppendStmt(paths, s)
    case ITE(cond, t, e) =>
      if t == [] && e == [] then paths
      else Cross(OrEmptyPath(paths), Arms(cond, ExtendAll([], t), ExtendAll([], e)))
  }

  function ExtendAll(paths: seq<Path>, cs: seq<Code>): seq<Path>
    decreases cs
  {
    if cs == [] then paths else ExtendAll(Extend(paths, cs[0]), cs[1..])
  }

  function PathsOf(cs: seq<Code>): seq<Path> { ExtendAll([], cs) }

  // ---------- Exactly one path is taken, and it does what the code does ----------

  predicate PathsOk(paths: seq<Path>) {
    forall i :: 0 <= i < |paths| ==> StmtsOk(paths[i])
  }

  /** How many of the paths have all their conditions met when run from r. */
  ghost function TakenCount(r: Run, paths: seq<Path>): nat
    requires PathsOk(paths)
  {
    if paths == [] then 0
    else TakenCount(r, paths[..|paths| - 1]) + (if Taken(r, paths[|paths| - 1], false) then 1 else 0)
  }

  ghost predicate Selects(r: Run, paths: seq<Path>, end: Run) {
    && PathsOk(paths)
    && TakenCount(r, paths) == 1
    && forall i :: 0 <= i < |paths| && Taken(r, paths[i], false) ==> Exec(r, paths[i], false) == end
  }

  lemma {:induction false} CountConcat(r: Run, a: seq<Path>, b: seq<Path>)
    requires PathsOk(a) && PathsOk(b)
    ensures PathsOk(a + b) && TakenCount(r, a + b) == TakenCount(r, a) + TakenCount(r, b)
    decreases |b|
  {
    hide Taken, StmtsOk;
    assert PathsOk(a + b);
    if b == [] {
      assert a + b == a;
    } else {
      assert (a + b)[..|a + b| - 1] == a + b[..|b| - 1];
      CountConcat(r, a, b[..|b| - 1]);
    }
  }

  lemma {:induction false} CountPrefixed(r: Run, p: Path, paths: seq<Path>)
    requires StmtsOk(p) && PathsOk(paths)
    ensures PathsOk(Prefixed(p, paths))
    ensures TakenCount(r, Prefixed(p, paths)) == if Taken(r, p, false) then TakenCount(Exec(r, p, false), paths) else 0
    decreases |paths|
  {
    if paths != [] {
      var init, last := paths[..|paths| - 1], paths[|paths| - 1];
      assert Prefixed(p, paths) == Prefixed(p, init) + [p + last];
      CountPrefixed(r, p, init);
      ExecConcat(r, p, last, false);
    }
  }

  lemma {:induction false} CountCross(r: Run, olds: seq<Path>, arms: seq<Path>, mid: Run)
    requires PathsOk(olds) && PathsOk(arms)
    requires forall i :: 0 <= i < |olds| && Taken(r, olds[i], false) ==> Exec(r, olds[i], false) == mid
    requires TakenCount(mid, arms) == 1
    ensures PathsOk(Cross(olds, arms)) && TakenCount(r, Cross(olds, arms)) == TakenCount(r, olds)
    decreases |olds|
  {
    if olds != [] {
      var init, last := olds[..|olds| - 1], olds[|olds| - 1];
      CountCross(r, init, arms, mid);
      CountPrefixed(r, last, arms);
      CountConcat(r, Cross(init, arms), Prefixed(last, arms));
    }
  }

  /** Every crossed path is an old path followed by an arm. */
  lemma {:induction false} CrossParts(olds: seq<Path>, arms: seq<Path>, k: nat) returns (i: nat, j: nat)
    requires k < |Cross(olds, arms)|
    ensures i < |olds| && j < |arms| && Cross(olds, arms)[k] == olds[i] + arms[j]
    decreases |olds|
  {
    var init := olds[..|olds| - 1];
    if k < |Cross(init, arms)| {
      i, j := CrossParts(init, arms, k);
    } else {
      i, j := |olds| - 1, k - |Cross(init, arms)|;
    }
  }

  lemma CrossSelects(r: Run, olds: seq<Path>, arms: seq<Path>, mid: Run, end: Run)
    requires Selects(r, olds, mid) && Selects(mid, arms, end)
    ensures Selects(r, Cross(olds, arms), end)
  {
    CountCross(r, olds, arms, mid);
    var all := Cross(olds, arms);
    forall k | 0 <= k < |all| && Taken(r, all[k], false) ensures Exec(r, all[k], false) == end {
      var i, j := CrossParts(olds, arms, k);
      ExecConcat(r, olds[i], arms[j], false);
    }
  }

  lemma GuardSelects(r: Run, cond: Expr, paths: seq<Path>)
    requires StmtOk(If(cond)) && PathsOk(paths)
    ensures PathsOk(Prefixed([If(cond)], paths))
    ensures TakenCount(r, Prefixed([If(cond)], paths)) == if Holds(cond, r.env) then TakenCount(r, paths) else 0
    ensures forall k :: 0 <= k < |paths| && Taken(r, Prefixed([If(cond)], paths)[k], false) ==>
      Taken(r, paths[k], false) && Exec(r, Prefixed([If(cond)], paths)[k], false) == Exec(r, paths[k], false)
  {
    hide Eval, Taken;
    OneGuard(r, cond, false);
    CountPrefixed(r, [If(cond)], paths);
    forall k | 0 <= k < |paths|
      ensures Taken(r, [If(cond)] + paths[k], false) ==> Taken(r, paths[k], false)
      ensures Exec(r, [If(cond)] + paths[k], false) == Exec(r, paths[k], false)
    {
      ExecConcat(r, [If(cond)], paths[k], false);
    }
  }

  lemma NegatedHolds(cond: Expr, env: Env)
    requires StmtOk(If(cond))
    ensures StmtOk(If(Negated(cond))) && (Holds(Negated(cond), env) <==> !Holds(cond, env))
  {
    EvalFits(cond, env);
  }

  lemma ArmsSelect(r: Run, cond: Expr, ifPaths: seq<Path>, elsePaths: seq<Path>, end: Run)
    requires StmtOk(If(cond)) && PathsOk(ifPaths) && PathsOk(elsePaths)
    requires Selects(r, OrEmptyPath(if Holds(cond, r.env) then ifPaths else elsePaths), end)
    ensures Selects(r, Arms(cond, ifPaths, elsePaths), end)
  {
    hide Holds, Taken, Exec, TakenCount;
    var yes, no := OrEmptyPath(ifPaths), OrEmptyPath(elsePaths);
    NegatedHolds(cond, r.env);
    GuardSelects(r, cond, yes);
    GuardSelects(r, Negated(cond), no);
    CountConcat(r, Prefixed([If(cond)], yes), Prefixed([If(Negated(cond))], no));
    if Holds(cond, r.env) {
      CountZero(r, Prefixed([If(Negated(cond))], no));
    } else {
      CountZero(r, Prefixed([If(cond)], yes));
    }
    var arms := Arms(cond, ifPaths, elsePaths);
    forall k | 0 <= k < |arms| && Taken(r, arms[k], false) ensures Exec(r, arms[k], false) == end {
      if k < |yes| {
        assert arms[k] == Prefixed([If(cond)], yes)[k];
      } else {
        assert arms[k] == Prefixed([If(Negated(cond))], no)[k - |yes|];
      }
    }
  }

  lemma {:induction false} CountAppend(r: Run, paths: seq<Path>, s: Stmt)
    requires PathsOk(paths) && paths != [] && StmtOk(s) && !s.If?
    ensures PathsOk(AppendStmt(paths, s)) && TakenCount(r, AppendStmt(paths, s)) == TakenCount(r, paths)
    decreases |paths|
  {
    var init, last := paths[..|paths| - 1], paths[|paths| - 1];
    ExecConcat(r, last, [s], false);
    if init != [] {
      assert AppendStmt(paths, s) == AppendStmt(init, s) + [last + [s]];
      CountAppend(r, init, s);
    } else {
      assert AppendStmt(paths, s) == [last + [s]];
      assert AppendStmt(paths, s)[..0] == init;
    }
  }

  lemma AppendSelects(r: Run, paths: seq<Path>, s: Stmt, mid: Run)
    requires Selects(r, OrEmptyPath(paths), mid) && StmtOk(s) && !s.If?
    ensures Selects(r, AppendStmt(paths, s), Step(mid, s, false))
  {
    var olds := OrEmptyPath(paths);
    var all := AppendStmt(olds, s);
    assert all == AppendStmt(paths, s) by { if paths == [] { assert [] + [s] == [s]; } }
    CountAppend(r, olds, s);
    forall k | 0 <= k < |all| && Taken(r, all[k], false) ensures Exec(r, all[k], false) == Step(mid, s, false) {
      ExecConcat(r, olds[k], [s], false);
    }
  }

  lemma EmptySelects(r: Run)
    ensures Selects(r, OrEmptyPath([]), r)
  {
    var one: seq<Path> := [[]];
    assert one[..0] == [];
    assert TakenCount(r, one) == 1;
  }

  lemma {:induction false} ExtendSelects(r: Run, paths: seq<Path>, c: Code, mid: Run)
    requires CodeOk(c) && Selects(r, OrEmptyPath(paths), mid)
    ensures Selects(r, OrEmptyPath(Extend(paths, c)), RunCode(mid, c))
    decreases c, 0
  {
    match c
    case Simple(s) => AppendSelects(r, paths, s, mid);
    case ITE(cond, t, e) =>
      if t != [] || e != [] {
        EmptySelects(mid);
        ExtendAllSelects(mid, [], t, mid);
        ExtendAllSelects(mid, [], e, mid);
        ArmsSelect(mid, cond, ExtendAll([], t), ExtendAll([], e), RunCode(mid, c));
        CrossSelects(r, OrEmptyPath(paths), Arms(cond, ExtendAll([], t), ExtendAll([], e)), mid, RunCode(mid, c));
      }
  }

  lemma {:induction false} ExtendAllSelects(r: Run, paths: seq<Path>, cs: seq<Code>, mid: Run)
    requires CodesOk(cs) && Selects(r, OrEmptyPath(paths), mid)
    ensures Selects(r, OrEmptyPath(ExtendAll(paths, cs)), RunCodes(mid, cs))
    decreases cs
  {
    if cs != [] {
      ExtendSelects(r, paths, cs[0], mid);
      ExtendAllSelects(r, Extend(paths, cs[0]), cs[1..], RunCode(mid, cs[0]));
    }
  }

  /** Path enumeration preserves meaning: from every state one path is taken, and it ends where the code ends. */
  lemma EnumerationExact(r: Run, cs: seq<Code>)
    requires CodesOk(cs)
    ensures Selects(r, OrEmptyPath(PathsOf(cs)), RunCodes(r, cs))
  {
    EmptySelects(r);
    ExtendAllSelects(r, [], cs, r);
  }

  /** A count of one means one position, and no other. */
  lemma {:induction false} CountOne(r: Run, paths: seq<Path>) returns (i: nat)
    requires PathsOk(paths) && TakenCount(r, paths) == 1
    ensures i < |paths| && Taken(r, paths[i], false)
    ensures forall j :: 0 <= j < |paths| && Taken(r, paths[j], false) ==> j == i
    decreases |paths|
  {
    var init, last := paths[..|paths| - 1], |paths| - 1;
    if Taken(r, paths[last], false) {
      i := last;
      CountZero(r, init);
    } else {
      i := CountOne(r, init);
    }
  }

  lemma {:induction false} CountZero(r: Run, paths: seq<Path>)
    requires PathsOk(paths) && TakenCount(r, paths) == 0
    ensures forall j :: 0 <= j < |paths| ==> !Taken(r, paths[j], false)
    decreases |paths|
  {
    if paths != [] { CountZero(r, paths[..|paths| - 1]); }
  }
}
