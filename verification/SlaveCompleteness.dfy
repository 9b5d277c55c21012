/** The operations of a slave module cover the process, and reads that use up their data are what the order check allows. */
module SlaveCompleteness {
  import opened Ir
  import opened Statements
  import opened Operations
  import opened SlaveExpansion
  import opened SlaveMeaning
  import opened CreateOperationsSlave
  import opened SlavesOrder
  import opened OperationMeaning
  import FindOperations

  // ---------- What the order check gives ----------

  lemma {:induction false} AccessPlace(p: seq<Node>, i: nat, n: nat)
    requires i < n <= |p| && FindOperations.IsSlave(p[i])
    ensures var s, a := FindOperations.Accesses(p, n), |FindOperations.Accesses(p, i)|;
      a < |s| && s[a] == p[i].stmt.value.port.name
    decreases n
  {
    hide FindOperations.IsSlave;
    if i < n - 1 { AccessPlace(p, i, n - 1); }
  }

  lemma {:induction false} AccessesGrow(p: seq<Node>, i: nat, n: nat)
    requires i <= n <= |p|
    ensures |FindOperations.Accesses(p, i)| <= |FindOperations.Accesses(p, n)|
    decreases n
  {
    hide FindOperations.IsSlave;
    if i < n { AccessesGrow(p, i, n - 1); }
  }

  lemma TwoPlaces(s: seq<string>, a: nat, b: nat)
    requires a < b < |s| && s[a] == s[b]
    ensures multiset(s)[s[a]] >= 2
  {
    assert s == s[..b] + [s[b]] + s[b + 1..];
    assert s[..b][a] == s[b];
    assert multiset(s[..b])[s[b]] >= 1;
  }

  lemma OrderedDistinct(s: seq<string>, ins: set<string>, outs: set<string>, a: nat, b: nat)
    requires Ordered(s, ins, outs) && ins !! outs && a < b < |s|
    ensures s[a] != s[b]
  {
    assert s == s[..|ins|] + s[|ins|..];
    assert multiset(s) == multiset(ins) + multiset(outs);
    if s[a] == s[b] { TwoPlaces(s, a, b); }
  }

  /** A path that passes the order check reads every slave-in port once. */
  lemma OrderedReadsOnce(p: seq<Node>, ins: set<string>, outs: set<string>)
    requires p != [] && p[0].stmt.Some? && ins !! outs && FindOperations.SlaveLegal(p, ins, outs)
    ensures OnceEach(p)
  {
    hide Ordered;
    forall i, j | 0 <= i < j < |p| && IsSlaveRead(p[i]) && IsSlaveRead(p[j])
      ensures p[i].stmt.value.port.name != p[j].stmt.value.port.name
    {
      AccessPlace(p, i, |p|);
      AccessPlace(p, j, |p|);
      AccessesGrow(p, i + 1, j);
      OrderedDistinct(FindOperations.Accesses(p, |p|), ins, outs, |FindOperations.Accesses(p, i)|, |FindOperations.Accesses(p, j)|);
    }
  }

  // ---------- Exactly one operation ----------

  lemma {:induction false} ExtendedStands(raw: seq<seq<Node>>, i: nat, n: nat, next: int)
    requires i < n <= |raw|
    ensures Extended(raw, i, next) + ExtendOne(raw[i], NextAt(raw, i, next)) <= Extended(raw, n, next)
    decreases n
  {
    hide ExtendOne, NextAt;
    if i + 1 < n { ExtendedStands(raw, i, n - 1, next); }
  }

  /** The list entry b, made of the expansion j of path i, is taken when the process takes that path and finds what j assumes. */
  lemma EntryTaken(raw: seq<seq<Node>>, next: int, i: nat, j: nat, flag: bool, env: Env)
    requires RawOk(raw, next) && i < |raw| && raw[i][0].stmt.Some? && j < |ExtendOne(raw[i], NextAt(raw, i, next))|
    ensures var p, e, r := raw[i], ExtendOne(raw[i], NextAt(raw, i, next))[j], Run(env, None);
      var stmts := StatementsOf(e, flag, SlaveOp);
      && RawPath(p) && StmtsOk(stmts)
      && (Taken(r, stmts, false) <==>
            FixedTaken(r, p, |p|) && AbsentOf(Distinct(p, |p|), j) == Unavailable(p, env.sync))
      && (Taken(r, stmts, false) ==> Exec(r, stmts, false) == FixedRun(r, p, |p|))
  {
    hide Taken, Exec, StatementsOf, NextAt, ElseIds, DivergeAt, SlavePath, AbsentOf, Distinct, Unavailable,
         FixedTaken, FixedRun;
    FreshAt(raw, i, next);
    ExpansionTaken(raw[i], ElseIds(raw[i], |raw[i]|, NextAt(raw, i, next)), j, flag, env);
  }

  /** Where the operation of expansion j of path i stands in the list. */
  ghost function PlaceOf(raw: seq<seq<Node>>, next: int, i: nat, j: nat): nat
    requires i < |raw|
  {
    |Extended(raw, i, next)| + j
  }

  lemma PlaceExact(raw: seq<seq<Node>>, next: int, i: nat, j: nat)
    requires i < |raw| && j < |ExtendOne(raw[i], NextAt(raw, i, next))|
    ensures PlaceOf(raw, next, i, j) < |Extended(raw, |raw|, next)|
    ensures Extended(raw, |raw|, next)[PlaceOf(raw, next, i, j)] == ExtendOne(raw[i], NextAt(raw, i, next))[j]
  {
    hide ExtendOne, NextAt;
    ExtendedStands(raw, i, |raw|, next);
    var before, own, all := Extended(raw, i, next), ExtendOne(raw[i], NextAt(raw, i, next)), Extended(raw, |raw|, next);
    assert (before + own)[|before| + j] == all[|before| + j];
  }

  /** Of the entries over paths from one state, only those of the path the process takes can be taken. */
  lemma OtherPath(raw: seq<seq<Node>>, next: int, i: nat, k: nat, env: Env)
    requires RawOk(raw, next) && i < |raw| && k < |raw| && i != k && raw[i][0] == raw[k][0]
    requires RawPath(raw[i]) && FixedTaken(Run(env, None), raw[i], |raw[i]|)
    ensures RawPath(raw[k]) && !FixedTaken(Run(env, None), raw[k], |raw[k]|)
  {
    hide DivergeAt, FixedTaken, SlavePath, RawPath;
    var m: nat :| if i < k then DivergeAt(raw[i], raw[k], m) else DivergeAt(raw[k], raw[i], m);
    if i < k {
      PartingNotBoth(Run(env, None), raw[i], raw[k], m);
    } else {
      PartingNotBoth(Run(env, None), raw[k], raw[i], m);
    }
  }

  /** Whether entry b is taken, when the process takes path i and the ports offer what expansion m assumes. */
  lemma EntryExact(raw: seq<seq<Node>>, next: int, i: nat, m: nat, b: nat, flag: bool, env: Env)
    requires RawOk(raw, next) && i < |raw| && raw[i][0].stmt.Some? && b < |Extended(raw, |raw|, next)|
    requires RawPath(raw[i]) && FixedTaken(Run(env, None), raw[i], |raw[i]|)
    requires m < Pow2(|Distinct(raw[i], |raw[i]|)|)
    requires AbsentOf(Distinct(raw[i], |raw[i]|), m) == Unavailable(raw[i], env.sync)
    ensures var e, r := Extended(raw, |raw|, next)[b], Run(env, None);
      e != [] && (e[0] == raw[i][0] ==>
        && StmtsOk(StatementsOf(e, flag, SlaveOp))
        && (Taken(r, StatementsOf(e, flag, SlaveOp), false) <==> b == PlaceOf(raw, next, i, m))
        && (b == PlaceOf(raw, next, i, m) ==>
              Exec(r, StatementsOf(e, flag, SlaveOp), false) == FixedRun(r, raw[i], |raw[i]|)))
  {
    var k, j := ExtendedSource(raw, |raw|, next, b);
    StartOf(raw, next, k, j);
    if raw[k][0] == raw[i][0] {
      EntryTaken(raw, next, k, j, flag, env);
      hide *;
      if k == i {
        SameChoice(raw[i], j, m, env.sync, raw, next, i);
      } else {
        OtherPath(raw, next, i, k, env);
        PlaceApart(raw, next, i, m, k, j);
      }
    }
  }

  lemma SameChoice(p: seq<Node>, j: nat, m: nat, sync: set<string>, raw: seq<seq<Node>>, next: int, i: nat)
    requires RawOk(raw, next) && i < |raw| && p == raw[i] && p[0].stmt.Some? && j < |ExtendOne(p, NextAt(raw, i, next))|
    requires m < Pow2(|Distinct(p, |p|)|) && AbsentOf(Distinct(p, |p|), m) == Unavailable(p, sync)
    ensures AbsentOf(Distinct(p, |p|), j) == Unavailable(p, sync) <==> j == m
    ensures PlaceOf(raw, next, i, j) == |Extended(raw, i, next)| + j && PlaceOf(raw, next, i, m) == |Extended(raw, i, next)| + m
  {
    FreshAt(raw, i, next);
    hide AbsentOf, Unavailable, ElseIds, NextAt, RawOk, Distinct, Extended;
    DistinctFacts(p, |p|);
    if AbsentOf(Distinct(p, |p|), j) == AbsentOf(Distinct(p, |p|), m) { NumberUnique(Distinct(p, |p|), j, m); }
  }

  lemma PlaceApart(raw: seq<seq<Node>>, next: int, i: nat, m: nat, k: nat, j: nat)
    requires RawOk(raw, next) && i < |raw| && k < |raw| && i != k && raw[i][0].stmt.Some?
    requires m < Pow2(|Distinct(raw[i], |raw[i]|)|) && j < |ExtendOne(raw[k], NextAt(raw, k, next))|
    ensures |Extended(raw, k, next)| + j != PlaceOf(raw, next, i, m)
  {
    FreshAt(raw, i, next);
    assert |ExtendOne(raw[i], NextAt(raw, i, next))| == Pow2(|Distinct(raw[i], |raw[i]|)|);
    hide ElseIds, NextAt, RawOk, Distinct, Extended, ExtendOne;
    if i < k { ExtendedGrows(raw, i, k, next); } else { ExtendedGrows(raw, k, i, next); }
  }

  /**
   * Operations of a slave module are complete: when the process takes one of the paths from a state, whatever the ports
   * offer, the conditions of exactly one operation of that state are met, and its statements end as the process does. Only
   * what the reads used up is no longer offered.
   */
  lemma SlaveOperationsComplete(raw: seq<seq<Node>>, next: int, i: nat, start: bool, env: Env) returns (a: nat)
    requires RawOk(raw, next) && i < |raw| && raw[i][0].stmt.Some? && ReadsOnce(raw[i])
    requires RawPath(raw[i]) && SlaveTaken(Run(env, None), raw[i], |raw[i]|)
    ensures var ops, r := BuiltOf(SlavePlans(Extended(raw, |raw|, next)), start), Run(env, None);
      && a < |ops|
      && (forall b :: 0 <= b < |ops| ==>
            && ops[b].plan.path != []
            && (ops[b].plan.path[0] == raw[i][0] ==> StmtsOk(ops[b].stmts) && (Taken(r, ops[b].stmts, false) <==> b == a)))
      && ops[a].plan.path[0] == raw[i][0]
      && Exec(r, ops[a].stmts, false) == Offering(SlaveRun(r, raw[i], |raw[i]|), env.sync)
  {
    var p, r := raw[i], Run(env, None);
    var plans := SlavePlans(Extended(raw, |raw|, next));
    UsedUp(p, |p|, r);
    DistinctFacts(p, |p|);
    assert p[..|p|] == p;
    var m := CombinationNumber(Distinct(p, |p|), Unavailable(p, env.sync));
    EnoughExpansions(raw, next, i);
    PlaceExact(raw, next, i, m);
    StartOf(raw, next, i, m);
    a := PlaceOf(raw, next, i, m);
    forall b | 0 <= b < |plans|
      ensures var op := BuiltOf(plans, start)[b]; op.plan.path != [] && (op.plan.path[0] == p[0] ==>
        && StmtsOk(op.stmts) && (Taken(r, op.stmts, false) <==> b == a)
        && (b == a ==> Exec(r, op.stmts, false) == FixedRun(r, p, |p|)))
    {
      hide *;
      ListedAt(raw, next, b, start);
      EntryExact(raw, next, i, m, b, FlagAfterAll(plans[..b], start), env);
    }
    hide *;
    ListedAt(raw, next, a, start);
  }

  lemma EnoughExpansions(raw: seq<seq<Node>>, next: int, i: nat)
    requires RawOk(raw, next) && i < |raw| && raw[i][0].stmt.Some?
    ensures |ExtendOne(raw[i], NextAt(raw, i, next))| == Pow2(|Distinct(raw[i], |raw[i]|)|)
  {
    FreshAt(raw, i, next);
    hide ElseIds, NextAt, RawOk, Distinct;
  }

  lemma ListedAt(raw: seq<seq<Node>>, next: int, b: nat, start: bool)
    requires b < |Extended(raw, |raw|, next)|
    ensures var e, plans := Extended(raw, |raw|, next)[b], SlavePlans(Extended(raw, |raw|, next));
      && |BuiltOf(plans, start)| == |plans| == |Extended(raw, |raw|, next)|
      && BuiltOf(plans, start)[b].plan.path == e
      && BuiltOf(plans, start)[b].stmts == StatementsOf(e, FlagAfterAll(plans[..b], start), SlaveOp)
  {
    hide StatementsOf, FlagAfterAll, Extended;
    BuiltAt(SlavePlans(Extended(raw, |raw|, next)), start, b);
  }

  // ---------- Paths that are not expanded ----------

  lemma {:induction false} SamePathRun(p: seq<Node>, q: seq<Node>, n: nat, env: Env)
    requires RawPath(p) && RawPath(q) && n < |p| && n < |q| && p[..n] == q[..n]
    ensures PathRun(p, n, SlaveOp, env) == PathRun(q, n, SlaveOp, env)
    decreases n
  {
    hide Step, FirstRun, StmtOk;
    if n > 0 {
      assert p[..n - 1] == p[..n][..n - 1] && q[..n - 1] == q[..n][..n - 1];
      assert p[n - 1] == p[..n][n - 1] && q[n - 1] == q[..n][n - 1];
      if n > 1 { assert p[0] == p[..n][0] && q[0] == q[..n][0]; }
      SamePathRun(p, q, n - 1, env);
    }
  }

  /** Control does not follow two paths that part. */
  lemma TakesPart(p: seq<Node>, q: seq<Node>, k: nat, env: Env)
    requires OnGraph(p) && OnGraph(q) && DivergeAt(p, q, k) && Takes(p, SlaveOp, env)
    ensures !Takes(q, SlaveOp, env)
  {
    var i := k - 1;
    assert p[i] == p[..k][i] && q[i] == q[..k][i];
    assert p[..i] == p[..k][..i] && q[..i] == q[..k][..i];
    SamePathRun(p, q, i, env);
    hide PathRun, RawPath, Numbered, NextId;
    assert p[i + 1].id == NextId(p[i], PathRun(p, i, SlaveOp, env).env);
  }

  /** A path as it is: on the graph, and without a communication at its ends. */
  predicate AsItIs(p: seq<Node>) {
    OnGraph(p) && !Communicates(p[0]) && !Communicates(p[|p| - 1])
  }

  lemma PlainEntry(raw: seq<seq<Node>>, i: nat, k: nat, flag: bool, env: Env)
    requires PathsPart(raw) && i < |raw| && k < |raw| && AsItIs(raw[i]) && AsItIs(raw[k]) && raw[i][0] == raw[k][0]
    requires Takes(raw[i], SlaveOp, env)
    ensures var es, r := StatementsOf(raw[k], flag, SlaveOp), Run(env, None);
      && StmtsOk(es) && (Taken(r, es, false) <==> k == i)
      && (k == i ==> Exec(r, es, false) == OperationRun(raw[i], SlaveOp, env))
  {
    hide Taken, Exec, StatementsOf, OperationRun, Takes, OnGraph, DivergeAt;
    StatementsMean(raw[k], flag, SlaveOp, env);
    if k < i {
      var m: nat :| DivergeAt(raw[k], raw[i], m);
      if Takes(raw[k], SlaveOp, env) { TakesPart(raw[k], raw[i], m, env); }
    } else if i < k {
      var m: nat :| DivergeAt(raw[i], raw[k], m);
      TakesPart(raw[i], raw[k], m, env);
    }
  }

  // ---------- All slave modules ----------

  /** A path is expanded unless it starts with the reset or there are no slave inputs. */
  predicate IsExpanded(p: seq<Node>, hasSlaveIns: bool)
    requires p != []
  {
    hasSlaveIns && p[0].stmt.Some?
  }

  /** The process takes the path, whose reads use up their data. */
  ghost predicate ProcessTakes(p: seq<Node>, hasSlaveIns: bool, env: Env)
    requires p != [] && if IsExpanded(p, hasSlaveIns) then RawPath(p) else AsItIs(p)
  {
    if IsExpanded(p, hasSlaveIns) then SlaveTaken(Run(env, None), p, |p|) else Takes(p, SlaveOp, env)
  }

  ghost function ProcessEnd(p: seq<Node>, hasSlaveIns: bool, env: Env): Run
    requires p != [] && if IsExpanded(p, hasSlaveIns) then RawPath(p) else AsItIs(p)
  {
    if IsExpanded(p, hasSlaveIns) then Offering(SlaveRun(Run(env, None), p, |p|), env.sync) else OperationRun(p, SlaveOp, env)
  }

  /** Of the operations from s the one at a is taken, and no other, and it ends there. */
  ghost predicate OnlySlaveTaken(ops: seq<Built>, s: Node, env: Env, a: nat, end: Run) {
    && a < |ops| && ops[a].plan.path != [] && ops[a].plan.path[0] == s
    && (forall b :: 0 <= b < |ops| && ops[b].plan.path != [] && ops[b].plan.path[0] == s ==>
          StmtsOk(ops[b].stmts) && (Taken(Run(env, None), ops[b].stmts, false) <==> b == a))
    && Exec(Run(env, None), ops[a].stmts, false) == end
  }

  lemma PlainAt(paths: seq<seq<Node>>, b: nat, start: bool)
    requires b < |paths|
    ensures var ops := BuiltOf(SlavePlans(paths), start);
      && |ops| == |paths| && ops[b].plan.path == paths[b]
      && ops[b].stmts == StatementsOf(paths[b], FlagAfterAll(SlavePlans(paths)[..b], start), SlaveOp)
  {
    hide StatementsOf, FlagAfterAll;
    BuiltAt(SlavePlans(paths), start, b);
  }

  /** Which entries start in the state of a path that is not expanded: those of the raw paths from there, as they are. */
  lemma PlainPlace(raw: seq<seq<Node>>, hasSlaveIns: bool, next: int, i: nat, b: nat) returns (k: nat)
    requires (if hasSlaveIns then RawOk(raw, next) else PathsPart(raw)) && i < |raw| && raw[i] != []
    requires !IsExpanded(raw[i], hasSlaveIns) && b < |PathsOf(raw, hasSlaveIns, next)|
    requires PathsOf(raw, hasSlaveIns, next)[b] != [] && PathsOf(raw, hasSlaveIns, next)[b][0] == raw[i][0]
    ensures k < |raw| && PathsOf(raw, hasSlaveIns, next)[b] == raw[k]
    ensures b == if hasSlaveIns then PlaceOf(raw, next, k, 0) else k
  {
    hide Extended, NextAt, ElseIds, DivergeAt, SlavePath, Expansions;
    if hasSlaveIns {
      var j;
      k, j := ExtendedSource(raw, |raw|, next, b);
      StartOf(raw, next, k, j);
    } else {
      k := b;
    }
  }

  lemma OwnPlace(raw: seq<seq<Node>>, hasSlaveIns: bool, next: int, i: nat) returns (a: nat)
    requires if hasSlaveIns then RawOk(raw, next) else PathsPart(raw)
    requires i < |raw| && raw[i] != [] && !IsExpanded(raw[i], hasSlaveIns)
    ensures a < |PathsOf(raw, hasSlaveIns, next)| && PathsOf(raw, hasSlaveIns, next)[a] == raw[i]
    ensures a == if hasSlaveIns then PlaceOf(raw, next, i, 0) else i
  {
    if hasSlaveIns {
      PlaceExact(raw, next, i, 0);
      a := PlaceOf(raw, next, i, 0);
    } else {
      a := i;
    }
  }

  lemma PlacesApart(raw: seq<seq<Node>>, next: int, i: nat, k: nat)
    requires i < |raw| && k < |raw| && raw[i] != [] && raw[k] != [] && raw[i][0].stmt.None? && raw[k][0].stmt.None?
    requires PlaceOf(raw, next, i, 0) == PlaceOf(raw, next, k, 0)
    ensures i == k
  {
    assert |ExtendOne(raw[i], NextAt(raw, i, next))| == 1 && |ExtendOne(raw[k], NextAt(raw, k, next))| == 1;
    hide ExtendOne, NextAt, Extended;
    if i < k { ExtendedGrows(raw, i, k, next); }
    if k < i { ExtendedGrows(raw, k, i, next); }
  }

  lemma PlainComplete(raw: seq<seq<Node>>, hasSlaveIns: bool, next: int, i: nat, start: bool, env: Env) returns (a: nat)
    requires (if hasSlaveIns then RawOk(raw, next) else PathsPart(raw)) && i < |raw| && raw[i] != []
    requires !IsExpanded(raw[i], hasSlaveIns) && AsItIs(raw[i]) && Takes(raw[i], SlaveOp, env)
    requires forall k :: 0 <= k < |raw| && raw[k] != [] && raw[k][0] == raw[i][0] ==> AsItIs(raw[k])
    ensures OnlySlaveTaken(BuiltOf(SlavePlans(PathsOf(raw, hasSlaveIns, next)), start), raw[i][0], env, a,
                           OperationRun(raw[i], SlaveOp, env))
  {
    hide RawOk, PathsPart, PathsOf, BuiltOf, SlavePlans, Taken, Exec, StatementsOf, OperationRun, AsItIs, Extended, PlaceOf;
    var paths := PathsOf(raw, hasSlaveIns, next);
    var ops := BuiltOf(SlavePlans(paths), start);
    a := OwnPlace(raw, hasSlaveIns, next, i);
    PlainAt(paths, a, start);
    PartsToo(raw, hasSlaveIns, next);
    PlainEntry(raw, i, i, FlagAfterAll(SlavePlans(paths)[..a], start), env);
    forall b | 0 <= b < |ops| && ops[b].plan.path != [] && ops[b].plan.path[0] == raw[i][0]
      ensures StmtsOk(ops[b].stmts) && (Taken(Run(env, None), ops[b].stmts, false) <==> b == a)
    {
      PlainAt(paths, b, start);
      var k := PlainPlace(raw, hasSlaveIns, next, i, b);
      PlainEntry(raw, i, k, FlagAfterAll(SlavePlans(paths)[..b], start), env);
      if hasSlaveIns && b == a { PlacesApart(raw, next, i, k); }
    }
  }

  lemma PartsToo(raw: seq<seq<Node>>, hasSlaveIns: bool, next: int)
    requires if hasSlaveIns then RawOk(raw, next) else PathsPart(raw)
    ensures PathsPart(raw)
  {
  }

  /** What the theorem asks of path i: reads once each if it is expanded, and otherwise no communication at the ends. */
  ghost predicate PathReady(raw: seq<seq<Node>>, hasSlaveIns: bool, i: nat)
    requires i < |raw|
  {
    && raw[i] != []
    && if IsExpanded(raw[i], hasSlaveIns) then RawPath(raw[i]) && ReadsOnce(raw[i])
       else AsItIs(raw[i]) && forall k :: 0 <= k < |raw| && raw[k] != [] && raw[k][0] == raw[i][0] ==> AsItIs(raw[k])
  }

  /** With and without slave inputs, for the reset and for every other state: exactly one operation is taken. */
  lemma SlaveListComplete(raw: seq<seq<Node>>, hasSlaveIns: bool, next: int, i: nat, start: bool, env: Env) returns (a: nat)
    requires (if hasSlaveIns then RawOk(raw, next) else PathsPart(raw)) && i < |raw| && PathReady(raw, hasSlaveIns, i)
    requires ProcessTakes(raw[i], hasSlaveIns, env)
    ensures OnlySlaveTaken(BuiltOf(SlavePlans(PathsOf(raw, hasSlaveIns, next)), start), raw[i][0], env, a,
                           ProcessEnd(raw[i], hasSlaveIns, env))
  {
    hide RawOk, PathsPart, BuiltOf, SlavePlans, Taken, Exec, StatementsOf, OperationRun, AsItIs, Extended, SlaveTaken,
         SlaveRun, ReadsOnce, RawPath, Takes;
    if IsExpanded(raw[i], hasSlaveIns) {
      a := SlaveOperationsComplete(raw, next, i, start, env);
    } else {
      a := PlainComplete(raw, hasSlaveIns, next, i, start, env);
    }
  }

  /** From every path the process takes, exactly one of the operations from its state is taken. */
  ghost predicate CoversSlave(raw: seq<seq<Node>>, hasSlaveIns: bool, ops: seq<Built>) {
    forall i: nat, env: Env :: i < |raw| && PathReady(raw, hasSlaveIns, i) && ProcessTakes(raw[i], hasSlaveIns, env) ==>
      exists a: nat :: OnlySlaveTaken(ops, raw[i][0], env, a, ProcessEnd(raw[i], hasSlaveIns, env))
  }

  lemma ListCovers(raw: seq<seq<Node>>, hasSlaveIns: bool, next: int, start: bool)
    requires if hasSlaveIns then RawOk(raw, next) else PathsPart(raw)
    ensures CoversSlave(raw, hasSlaveIns, BuiltOf(SlavePlans(PathsOf(raw, hasSlaveIns, next)), start))
  {
    hide RawOk, PathsPart, BuiltOf, SlavePlans, PathsOf, OnlySlaveTaken, ProcessEnd, ProcessTakes;
    var ops := BuiltOf(SlavePlans(PathsOf(raw, hasSlaveIns, next)), start);
    forall i: nat, env: Env | i < |raw| && PathReady(raw, hasSlaveIns, i) && ProcessTakes(raw[i], hasSlaveIns, env)
      ensures exists a: nat :: OnlySlaveTaken(ops, raw[i][0], env, a, ProcessEnd(raw[i], hasSlaveIns, env))
    {
      var a := SlaveListComplete(raw, hasSlaveIns, next, i, start, env);
    }
  }

  /**
   * Builds the operations of a slave module. It throws exactly when a path holds a return or a communication as a state;
   * otherwise the operations cover what the process does.
   */
  method CompleteSlaveOperations(raw: seq<seq<Node>>, hasSlaveIns: bool, next: int)
      returns (err: Option<Error>, ops: seq<Built>)
    requires if hasSlaveIns then RawOk(raw, next) else PathsPart(raw)
    ensures err.None? <==> forall i :: 0 <= i < |raw| ==> raw[i] != [] && RawAllowed(raw[i], hasSlaveIns)
    ensures err.None? ==> CoversSlave(raw, hasSlaveIns, ops)
  {
    AllRaw(raw, hasSlaveIns, next);
    hide RawOk, PathsPart, BuiltOf, SlavePlans, PathsOf, CoversSlave, RawAllowed, RawPath, Accepted, Deterministic;
    var builder := new Builder(next);
    ListCovers(raw, hasSlaveIns, next, builder.condition);
    err := builder.Create(raw, hasSlaveIns);
    ops := builder.operationsList;
  }

  lemma AllRaw(raw: seq<seq<Node>>, hasSlaveIns: bool, next: int)
    requires if hasSlaveIns then RawOk(raw, next) else PathsPart(raw)
    ensures forall i :: 0 <= i < |raw| ==> |raw[i]| >= 2
    ensures forall i :: 0 <= i < |PathsOf(raw, hasSlaveIns, next)| ==> RawPath(PathsOf(raw, hasSlaveIns, next)[i])
  {
    if hasSlaveIns {
      forall i | 0 <= i < |Extended(raw, |raw|, next)| ensures RawPath(Extended(raw, |raw|, next)[i]) { ExtendedRaw(raw, next, i); }
    }
  }
}
