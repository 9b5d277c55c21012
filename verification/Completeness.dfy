/** The operations of a state cover the process: whatever it does from the state, exactly one of them is taken. */
module Completeness {
  import opened Ir
  import opened Statements
  import opened Operations
  import opened OperationMeaning
  import opened Determinism
  import opened CreateOperations

  // ---------- The graph ----------

  /** Nodes stand under their ids, are well typed and numbered, and no edge leads out of the graph. */
  ghost predicate GraphOk(cfg: map<int, Node>) {
    forall x :: x in cfg ==>
      && cfg[x].id == x && Numbered(cfg[x]) && (cfg[x].stmt.Some? ==> StmtOk(cfg[x].stmt.value))
      && forall y :: y in cfg[x].succ ==> y in cfg
  }

  // ---------- The process ----------

  /** How the process leaves a statement: with its partner, without it, or not at all. */
  function Manner(s: Option<Stmt>, env: Env): Mode {
    if s.None? || !(s.value.Read? || s.value.Write?) || s.value.port.iface != Blocking || s.value.port.name in env.sync then Explicit
    else if s.value.nonBlocking then NotSync else WaitOp
  }

  function ModeOf(n: Node, env: Env): Mode { Manner(n.stmt, env) }

  /**
   * What passing a statement does. A communication over a blocking interface is done as the partner allows, and so is the one
   * of the state the process starts in.
   */
  ghost function Passed(s: Option<Stmt>, r: Run, atStart: bool): Run
    requires s.Some? ==> StmtOk(s.value)
  {
    if s.None? then r
    else if (s.value.Read? || s.value.Write?) && (atStart || s.value.port.iface == Blocking) then
      FirstRun(r, s.value, Manner(s, r.env))
    else Step(r, s.value, false)
  }

  /** Where control is, and what was done on the way there. */
  datatype Config = Config(node: Node, run: Run)

  /** The process after n steps from state s; where it waits for a partner it stays. */
  ghost function Moves(cfg: map<int, Node>, s: Node, env: Env, n: nat): (c: Config)
    requires GraphOk(cfg) && InGraph(cfg, s)
    ensures InGraph(cfg, c.node)
  {
    if n == 0 then Config(s, Run(env, None))
    else
      var c := Moves(cfg, s, env, n - 1);
      if ModeOf(c.node, c.run.env) == WaitOp then c
      else Config(cfg[NextId(c.node, c.run.env)], Passed(c.node.stmt, c.run, n == 1))
  }

  ghost function Walked(cfg: map<int, Node>, s: Node, env: Env, n: nat): (p: seq<Node>)
    requires GraphOk(cfg) && InGraph(cfg, s)
    ensures |p| == n + 1
  {
    seq(n + 1, i requires 0 <= i => Moves(cfg, s, env, i).node)
  }

  /** After n steps, and not before, the process is in a state again. */
  ghost predicate Arrives(cfg: map<int, Node>, states: seq<Node>, s: Node, env: Env, n: nat)
    requires GraphOk(cfg) && InGraph(cfg, s)
  {
    && n > 0 && Moves(cfg, s, env, n).node in states
    && forall i :: 0 < i < n ==> Moves(cfg, s, env, i).node !in states
  }

  /** What has happened then: a write is offered as the state is entered, a read is left for later. */
  ghost function Arrived(cfg: map<int, Node>, s: Node, env: Env, n: nat): Run
    requires GraphOk(cfg) && InGraph(cfg, s)
  {
    var c := Moves(cfg, s, env, n);
    if c.node.stmt.Some? && !c.node.stmt.value.Read? then Step(c.run, c.node.stmt.value, false) else c.run
  }

  /** Every wait and every communication over a blocking interface is a state. */
  ghost predicate StatesCover(cfg: map<int, Node>, states: seq<Node>) {
    forall x :: x in cfg && (cfg[x].stmt == Some(Wait) || BlockingStart([cfg[x]])) ==> cfg[x] in states
  }

  /** The process gets away from s and meets no partner on the way. */
  ghost predicate Undisturbed(cfg: map<int, Node>, s: Node, env: Env, n: nat)
    requires GraphOk(cfg) && InGraph(cfg, s)
  {
    ModeOf(s, env) != WaitOp && forall i :: 0 < i < n ==> !BlockingStart([Moves(cfg, s, env, i).node])
  }

  lemma ArrivesUndisturbed(cfg: map<int, Node>, states: seq<Node>, s: Node, env: Env, n: nat)
    requires GraphOk(cfg) && InGraph(cfg, s) && StatesCover(cfg, states) && Arrives(cfg, states, s, env, n)
    requires ModeOf(s, env) != WaitOp
    ensures Undisturbed(cfg, s, env, n)
  {
    hide Moves, BlockingStart, GraphOk;
  }

  predicate Quiet(p: seq<Node>, n: nat)
    requires n <= |p|
  {
    forall i :: 0 < i < n ==> !BlockingStart([p[i]])
  }

  lemma BetweenQuiet(cfg: map<int, Node>, states: seq<Node>, p: seq<Node>)
    requires StatesCover(cfg, states) && p != [] && Route(cfg, p) && FindOperations.Between(p, states, p[0])
    ensures Quiet(p, |p| - 1)
  {
    hide BlockingStart;
    forall i | 0 < i < |p| - 1 ensures !BlockingStart([p[i]]) {
      assert p[i] == p[1..|p| - 1][i - 1];
      assert InGraph(cfg, p[i]);
    }
  }

  // ---------- Paths the process follows ----------

  /** A path that control follows is the one the process walks, and running it is what the process does. */
  lemma {:induction false} FollowsMoves(cfg: map<int, Node>, p: seq<Node>, env: Env, n: nat)
    requires GraphOk(cfg) && OnGraph(p) && InGraph(cfg, p[0]) && Route(cfg, p) && n < |p|
    requires ModeOf(p[0], env) != WaitOp && Quiet(p, n) && Follows(p, n, ModeOf(p[0], env), env)
    ensures var c := Moves(cfg, p[0], env, n);
      c.node == p[n] && c.run == PathRun(p, n, ModeOf(p[0], env), env)
    decreases n
  {
    if n > 0 {
      var mode := ModeOf(p[0], env);
      FollowsPrefix(cfg, p, mode, env, n);
      hide *;
      FollowsMoves(cfg, p, env, n - 1);
      PassedNode(p, n - 1, PathRun(p, n - 1, mode, env), env);
      MoveMore(cfg, p[0], env, n);
    } else {
      hide Follows;
    }
  }

  lemma FollowsPrefix(cfg: map<int, Node>, p: seq<Node>, mode: Mode, env: Env, n: nat)
    requires OnGraph(p) && Route(cfg, p) && 0 < n < |p| && Quiet(p, n) && Follows(p, n, mode, env)
    ensures RawPath(p) && Quiet(p, n - 1) && Follows(p, n - 1, mode, env) && (n - 1 > 0 ==> !BlockingStart([p[n - 1]]))
    ensures var r := PathRun(p, n - 1, mode, env);
      && NextId(p[n - 1], r.env) in cfg && cfg[NextId(p[n - 1], r.env)] == p[n]
      && PathRun(p, n, mode, env) == NodeRun(r, p, n - 1, mode) && PathRun(p, 0, mode, env) == Run(env, None)
  {
    hide BlockingStart, NodeRun, NextId;
    assert p[n - 1 + 1].id == NextId(p[n - 1], PathRun(p, n - 1, mode, env).env);
    assert InGraph(cfg, p[n]);
  }

  lemma MoveMore(cfg: map<int, Node>, s: Node, env: Env, n: nat)
    requires GraphOk(cfg) && InGraph(cfg, s) && n > 0
    ensures var c := Moves(cfg, s, env, n - 1);
      && Numbered(c.node) && (c.node.stmt.Some? ==> StmtOk(c.node.stmt.value))
      && (ModeOf(c.node, c.run.env) != WaitOp ==>
            && NextId(c.node, c.run.env) in cfg
            && Moves(cfg, s, env, n) == Config(cfg[NextId(c.node, c.run.env)], Passed(c.node.stmt, c.run, n == 1)))
  {
    hide Passed, ModeOf, StmtOk;
  }

  /** Before its end a path runs as the process passes its nodes. */
  lemma PassedNode(p: seq<Node>, i: nat, r: Run, env: Env)
    requires RawPath(p) && i + 1 < |p| && ModeOf(p[0], env) != WaitOp && (i > 0 ==> !BlockingStart([p[i]]))
    requires i == 0 ==> r.env == env
    ensures ModeOf(p[i], r.env) != WaitOp && Passed(p[i].stmt, r, i == 0) == NodeRun(r, p, i, ModeOf(p[0], env))
  {
    hide FirstRun, Step, StmtOk;
  }

  lemma MovesOn(cfg: map<int, Node>, s: Node, env: Env, n: nat)
    requires GraphOk(cfg) && InGraph(cfg, s) && Undisturbed(cfg, s, env, n + 1)
    ensures var c, d := Moves(cfg, s, env, n), Moves(cfg, s, env, n + 1);
      Numbered(c.node) && d.node.id == NextId(c.node, c.run.env) && d.node.id in c.node.succ
  {
    hide Passed;
    MovesNone(cfg, s, env);
    assert ModeOf(Moves(cfg, s, env, n).node, Moves(cfg, s, env, n).run.env) != WaitOp;
  }

  lemma WalkedRoute(cfg: map<int, Node>, s: Node, env: Env, n: nat)
    requires GraphOk(cfg) && InGraph(cfg, s) && Undisturbed(cfg, s, env, n)
    ensures var p := Walked(cfg, s, env, n);
      Route(cfg, p) && p[0] == s && (forall i :: 0 <= i <= n ==> p[i] == Moves(cfg, s, env, i).node) && Quiet(p, n)
  {
    hide Moves, InGraph, BlockingStart, ModeOf;
    var p := Walked(cfg, s, env, n);
    assert Moves(cfg, s, env, 0).node == s by { MovesNone(cfg, s, env); }
    forall i | 0 <= i < n ensures p[i + 1].id in p[i].succ { MovesOn(cfg, s, env, i); }
  }

  lemma MovesNone(cfg: map<int, Node>, s: Node, env: Env)
    requires GraphOk(cfg) && InGraph(cfg, s)
    ensures Moves(cfg, s, env, 0) == Config(s, Run(env, None))
  {
  }

  /** Control follows the nodes the process passes. */
  lemma {:induction false} WalkedFollows(cfg: map<int, Node>, s: Node, env: Env, k: nat, n: nat)
    requires GraphOk(cfg) && InGraph(cfg, s) && OnGraph(Walked(cfg, s, env, n)) && k <= n && Undisturbed(cfg, s, env, n)
    ensures Follows(Walked(cfg, s, env, n), k, ModeOf(s, env), env)
    decreases k
  {
    hide *;
    var p, mode := Walked(cfg, s, env, n), ModeOf(s, env);
    WalkedRoute(cfg, s, env, n);
    if k > 0 {
      WalkedFollows(cfg, s, env, k - 1, n);
      UndisturbedLess(cfg, s, env, k, n);
      FollowsMoves(cfg, p, env, k - 1);
      MovesOn(cfg, s, env, k - 1);
      FollowsOn(p, k, mode, env);
    } else {
      FollowsNone(p, mode, env);
    }
  }

  lemma UndisturbedLess(cfg: map<int, Node>, s: Node, env: Env, k: nat, n: nat)
    requires GraphOk(cfg) && InGraph(cfg, s) && Undisturbed(cfg, s, env, n) && 0 < k <= n
    ensures Undisturbed(cfg, s, env, k) && ModeOf(s, env) != WaitOp
    ensures |Walked(cfg, s, env, n)| == n + 1 && Quiet(Walked(cfg, s, env, n), k - 1)
  {
    hide Moves, BlockingStart, ModeOf;
  }

  // ---------- Arriving in a state ----------

  /** The nodes passed until a state is reached again are a path from the state to that state with none between. */
  lemma WalkedBetween(cfg: map<int, Node>, states: seq<Node>, s: Node, env: Env, n: nat)
    requires GraphOk(cfg) && InGraph(cfg, s) && Arrives(cfg, states, s, env, n) && Undisturbed(cfg, s, env, n)
    ensures var p := Walked(cfg, s, env, n); p[0] == s && FindOperations.Between(p, states, s)
  {
    hide Moves;
    WalkedRoute(cfg, s, env, n);
    var p := Walked(cfg, s, env, n);
    forall x | x in p[1..|p| - 1] ensures x !in states {
      var i :| 0 <= i < |p| - 2 && p[1..|p| - 1][i] == x;
      assert x == p[i + 1];
    }
  }

  /** A path between states that control follows is the one the process walks until it is in a state again. */
  lemma OnlyWalked(cfg: map<int, Node>, states: seq<Node>, q: seq<Node>, env: Env, n: nat)
    requires GraphOk(cfg) && OnGraph(q) && InGraph(cfg, q[0]) && Route(cfg, q) && FindOperations.Between(q, states, q[0])
    requires StatesCover(cfg, states) && ModeOf(q[0], env) != WaitOp
    requires Follows(q, |q| - 1, ModeOf(q[0], env), env) && Arrives(cfg, states, q[0], env, n)
    ensures q == Walked(cfg, q[0], env, n)
  {
    var s := q[0];
    hide *;
    BetweenQuiet(cfg, states, q);
    FollowedNodes(cfg, q, env);
    ArrivesUndisturbed(cfg, states, s, env, n);
    WalkedRoute(cfg, s, env, n);
    SameLength(cfg, states, q, env, n);
  }

  lemma FollowedNodes(cfg: map<int, Node>, q: seq<Node>, env: Env)
    requires GraphOk(cfg) && OnGraph(q) && InGraph(cfg, q[0]) && Route(cfg, q) && |q| > 0
    requires ModeOf(q[0], env) != WaitOp && Quiet(q, |q| - 1) && Follows(q, |q| - 1, ModeOf(q[0], env), env)
    ensures forall i :: 0 <= i < |q| ==> q[i] == Moves(cfg, q[0], env, i).node
  {
    forall i | 0 <= i < |q| ensures q[i] == Moves(cfg, q[0], env, i).node {
      assert Quiet(q, i);
      hide *;
      FollowsLess(q, i, |q| - 1, ModeOf(q[0], env), env);
      FollowsMoves(cfg, q, env, i);
    }
  }

  /** Both end where a state comes first. */
  lemma SameLength(cfg: map<int, Node>, states: seq<Node>, q: seq<Node>, env: Env, n: nat)
    requires q != [] && GraphOk(cfg) && InGraph(cfg, q[0]) && FindOperations.Between(q, states, q[0])
    requires Arrives(cfg, states, q[0], env, n)
    requires forall i :: 0 <= i < |q| ==> q[i] == Moves(cfg, q[0], env, i).node
    ensures |q| == n + 1 && q == Walked(cfg, q[0], env, n)
  {
    hide Moves, GraphOk;
  }

  lemma FollowsLess(q: seq<Node>, i: nat, n: nat, mode: Mode, env: Env)
    requires OnGraph(q) && i <= n < |q| && Follows(q, n, mode, env)
    ensures Follows(q, i, mode, env)
  {
    hide PathRun, NextId, OnGraph;
  }

  // ---------- Which plan it is ----------

  /** A plan is the explicit one of its path, or the implicit one of the path at position j. */
  lemma PlanSource(raw: seq<seq<Node>>, b: nat) returns (j: nat)
    requires b < |Plans(raw)|
    ensures j < |raw| && Plans(raw)[b].path == raw[j]
    ensures if b < |raw| then j == b && Plans(raw)[b].mode == Explicit
            else ImplicitOf(raw, j) == [Plans(raw)[b]] && b == |raw| + |Implicit(raw, j)|
  {
    if b < |raw| { j := b; } else { j := ImplicitSource(raw, |raw|, b - |raw|); }
  }

  lemma {:induction false} ImplicitStands(raw: seq<seq<Node>>, j: nat, n: nat)
    requires j < n <= |raw|
    ensures Implicit(raw, j) + ImplicitOf(raw, j) <= Implicit(raw, n)
    decreases n
  {
    hide ImplicitOf;
    if j + 1 < n { ImplicitStands(raw, j, n - 1); }
  }

  /** Plans of one kind over one path, and wait operations of one state, are one plan. */
  lemma OnePlan(raw: seq<seq<Node>>, b: nat, b': nat)
    requires (forall i, j :: 0 <= i < j < |raw| ==> raw[i] != raw[j]) && (forall i :: 0 <= i < |raw| ==> raw[i] != [])
    requires b < |Plans(raw)| && b' < |Plans(raw)| && Plans(raw)[b].mode == Plans(raw)[b'].mode
    requires SameState(Plans(raw)[b], Plans(raw)[b'])
    requires Plans(raw)[b].mode != WaitOp ==> Plans(raw)[b].path == Plans(raw)[b'].path
    ensures b == b'
  {
    var j := PlanSource(raw, b);
    var j' := PlanSource(raw, b');
    hide Plans, Implicit;
    if j < j' && Plans(raw)[b].mode == WaitOp { WaitedBefore(raw, j, j'); }
    if j' < j && Plans(raw)[b].mode == WaitOp { WaitedBefore(raw, j', j); }
  }

  /** A later path from the same blocking start has no wait operation of its own. */
  lemma WaitedBefore(raw: seq<seq<Node>>, j: nat, j': nat)
    requires j < j' < |raw| && raw[j] != [] && raw[j'] != [] && raw[j][0] == raw[j'][0]
    requires |ImplicitOf(raw, j)| == 1 && ImplicitOf(raw, j)[0].mode == WaitOp
    ensures ImplicitOf(raw, j') == []
  {
    assert Waited(raw, j');
  }

  /** The plan of this kind for the path at position i; of the wait operations of a state, the first. */
  lemma PlanFor(raw: seq<seq<Node>>, i: nat, mode: Mode) returns (b: nat)
    requires i < |raw| && raw[i] != [] && mode != SlaveOp
    requires mode != Explicit ==> BlockingStart(raw[i]) && (raw[i][0].stmt.value.nonBlocking <==> mode == NotSync)
    ensures b < |Plans(raw)| && Plans(raw)[b].mode == mode && Plans(raw)[b].path != [] && Plans(raw)[b].path[0] == raw[i][0]
    ensures mode != WaitOp ==> Plans(raw)[b].path == raw[i]
    decreases i
  {
    if mode == Explicit {
      b := i;
    } else if mode == WaitOp && Waited(raw, i) {
      var j :| 0 <= j < i && BlockingStart(raw[j]) && !raw[j][0].stmt.value.nonBlocking && raw[j][0] == raw[i][0];
      b := PlanFor(raw, j, mode);
    } else {
      ImplicitStands(raw, i, |raw|);
      b := |raw| + |Implicit(raw, i)|;
      var all := Implicit(raw, |raw|);
      assert (Implicit(raw, i) + ImplicitOf(raw, i))[|Implicit(raw, i)|] == all[|Implicit(raw, i)|];
    }
  }

  lemma PlanFits(raw: seq<seq<Node>>, b: nat)
    requires b < |Plans(raw)|
    ensures Plans(raw)[b].mode != SlaveOp && ModeFits(Plans(raw)[b].path, Plans(raw)[b].mode)
  {
    var j := PlanSource(raw, b);
  }

  // ---------- Exactly one operation ----------

  /** The node graph of a process. */
  lemma GraphIsOk(bs: seq<Lowering.Block>, first: int, cfg: map<int, Node>)
    requires ProcessGraph(bs, first, cfg)
    ensures GraphOk(cfg)
  {
    hide ProcessGraph, Numbered, StmtOk;
    forall x | x in cfg
      ensures cfg[x].id == x && Numbered(cfg[x]) && (cfg[x].stmt.Some? ==> StmtOk(cfg[x].stmt.value))
      ensures forall y :: y in cfg[x].succ ==> y in cfg
    {
      NodeAt(bs, first, cfg, x);
      NodeFacts(bs, first, cfg, cfg[x]);
    }
  }

  lemma NodeAt(bs: seq<Lowering.Block>, first: int, cfg: map<int, Node>, x: int)
    requires ProcessGraph(bs, first, cfg) && x in cfg
    ensures cfg[x].id == x && forall y :: y in cfg[x].succ ==> y in cfg
  {
    hide Lowering.Content, Lowering.BlocksOk, Lowering.Structured, Lowering.BlocksTyped, Lowering.Lowered, Lowering.Before;
    KeyInRange(bs, first, cfg, x);
    var k, i := Locate(bs, |bs|, x - first);
    assert x == Lowering.NodeId(bs, first, k, i);
    Lowering.LoweredAt(bs, first, cfg, k, i);
    forall y | y in cfg[x].succ ensures y in cfg {
      if i + 1 < |Lowering.Content(bs[k])| {
        Lowering.LoweredAt(bs, first, cfg, k, i + 1);
      } else {
        Lowering.SuccExact(bs, first, k, y);
        var t :| 0 <= t < |bs| && bs[t].id in bs[k].succ && y == Lowering.NodeId(bs, first, t, 0);
        Lowering.LoweredAt(bs, first, cfg, t, 0);
      }
    }
  }

  lemma KeyInRange(bs: seq<Lowering.Block>, first: int, cfg: map<int, Node>, x: int)
    requires ProcessGraph(bs, first, cfg) && x in cfg
    ensures first <= x < first + Lowering.Before(bs, |bs|)
  {
    hide Lowering.Content, Lowering.NodeOf, Lowering.BlocksOk, Lowering.BlocksTyped, Lowering.Structured, Lowering.Before;
  }

  /** Every path from s to a state with none between was found. */
  ghost predicate Covered(cfg: map<int, Node>, states: seq<Node>, raw: seq<seq<Node>>, s: Node) {
    forall p: seq<Node> :: p != [] && p[0] == s && Route(cfg, p) && FindOperations.Between(p, states, s) ==> p in raw
  }

  /** The process leaves s and reaches a state again, or it waits in s. */
  ghost predicate GoesOn(cfg: map<int, Node>, states: seq<Node>, raw: seq<seq<Node>>, s: Node, env: Env, n: nat)
    requires GraphOk(cfg) && InGraph(cfg, s)
  {
    if ModeOf(s, env) == WaitOp then exists i :: 0 <= i < |raw| && raw[i] != [] && raw[i][0] == s
    else Arrives(cfg, states, s, env, n)
  }

  ghost function EndRun(cfg: map<int, Node>, s: Node, env: Env, n: nat): Run
    requires GraphOk(cfg) && InGraph(cfg, s)
  {
    if ModeOf(s, env) == WaitOp then Run(env, None) else Arrived(cfg, s, env, n)
  }

  /** A plan of s that the process takes is of the kind the partner allows. */
  lemma TakesMode(raw: seq<seq<Node>>, b: nat, env: Env)
    requires b < |Plans(raw)| && Plans(raw)[b].path != [] && OnGraph(Plans(raw)[b].path)
    requires Takes(Plans(raw)[b].path, Plans(raw)[b].mode, env)
    ensures Plans(raw)[b].mode == ModeOf(Plans(raw)[b].path[0], env)
  {
    hide OnGraph, Follows;
    PlanFits(raw, b);
  }

  /** The process takes one plan of s and no other. */
  lemma OneTaken(bs: seq<Lowering.Block>, first: int, cfg: map<int, Node>, states: seq<Node>, raw: seq<seq<Node>>, s: Node,
                 env: Env, n: nat) returns (a: nat)
    requires ProcessGraph(bs, first, cfg) && GraphOk(cfg) && PathsBetween(cfg, states, raw) && StatesCover(cfg, states)
    requires InGraph(cfg, s) && Covered(cfg, states, raw, s) && GoesOn(cfg, states, raw, s, env, n)
    ensures a < |Plans(raw)| && Plans(raw)[a].path != [] && Plans(raw)[a].path[0] == s && Plans(raw)[a].mode == ModeOf(s, env)
    ensures ModeOf(s, env) != WaitOp ==> Plans(raw)[a].path == Walked(cfg, s, env, n)
    ensures forall b :: 0 <= b < |Plans(raw)| ==>
      var x := Plans(raw)[b]; x.path != [] && OnGraph(x.path) && (x.path[0] == s ==> (Takes(x.path, x.mode, env) <==> b == a))
  {
    hide ProcessGraph, GraphOk, OnGraph, Route, FindOperations.Between, Plans, ModeOf, Takes, Walked;
    var mode := ModeOf(s, env);
    forall b | 0 <= b < |Plans(raw)| ensures Plans(raw)[b].path != [] && OnGraph(Plans(raw)[b].path) {
      var j := PlanSource(raw, b);
      RouteOnGraph(bs, first, cfg, states, raw[j]);
    }
    if mode == WaitOp {
      a := WaitPlan(raw, s, env);
    } else {
      a := WalkedPlan(bs, first, cfg, states, raw, s, env, n);
    }
    forall b | 0 <= b < |Plans(raw)| && Plans(raw)[b].path[0] == s
      ensures Takes(Plans(raw)[b].path, Plans(raw)[b].mode, env) <==> b == a
    {
      if Takes(Plans(raw)[b].path, Plans(raw)[b].mode, env) {
        TakesMode(raw, b, env);
        if mode != WaitOp { SameWalk(cfg, states, raw, s, env, n, b); }
        OnePlan(raw, a, b);
      }
    }
  }

  lemma WaitPlan(raw: seq<seq<Node>>, s: Node, env: Env) returns (a: nat)
    requires ModeOf(s, env) == WaitOp && exists i :: 0 <= i < |raw| && raw[i] != [] && raw[i][0] == s
    requires forall b :: 0 <= b < |Plans(raw)| ==> OnGraph(Plans(raw)[b].path)
    ensures a < |Plans(raw)| && Plans(raw)[a].path != [] && Plans(raw)[a].path[0] == s && Plans(raw)[a].mode == WaitOp
    ensures Takes(Plans(raw)[a].path, WaitOp, env)
  {
    hide Plans, OnGraph;
    var i :| 0 <= i < |raw| && raw[i] != [] && raw[i][0] == s;
    a := PlanFor(raw, i, WaitOp);
    FollowsNone(Plans(raw)[a].path, WaitOp, env);
  }

  lemma WalkedPlan(bs: seq<Lowering.Block>, first: int, cfg: map<int, Node>, states: seq<Node>, raw: seq<seq<Node>>, s: Node,
                   env: Env, n: nat) returns (a: nat)
    requires ProcessGraph(bs, first, cfg) && GraphOk(cfg) && PathsBetween(cfg, states, raw) && StatesCover(cfg, states)
    requires InGraph(cfg, s) && Covered(cfg, states, raw, s) && Arrives(cfg, states, s, env, n) && ModeOf(s, env) != WaitOp
    ensures a < |Plans(raw)| && Plans(raw)[a].path == Walked(cfg, s, env, n) && Plans(raw)[a].mode == ModeOf(s, env)
    ensures OnGraph(Plans(raw)[a].path) && Plans(raw)[a].path[0] == s && Takes(Plans(raw)[a].path, Plans(raw)[a].mode, env)
  {
    hide ProcessGraph, GraphOk, OnGraph, Route, FindOperations.Between, Plans, Walked, Follows;
    var p := Walked(cfg, s, env, n);
    ArrivesUndisturbed(cfg, states, s, env, n);
    WalkedRoute(cfg, s, env, n);
    WalkedBetween(cfg, states, s, env, n);
    RouteOnGraph(bs, first, cfg, states, p);
    WalkedFollows(cfg, s, env, n, n);
    var i :| 0 <= i < |raw| && raw[i] == p;
    a := PlanFor(raw, i, ModeOf(s, env));
  }

  lemma SameWalk(cfg: map<int, Node>, states: seq<Node>, raw: seq<seq<Node>>, s: Node, env: Env, n: nat, b: nat)
    requires GraphOk(cfg) && InGraph(cfg, s) && PathsBetween(cfg, states, raw) && Arrives(cfg, states, s, env, n)
    requires StatesCover(cfg, states)
    requires b < |Plans(raw)| && Plans(raw)[b].path != [] && Plans(raw)[b].path[0] == s && OnGraph(Plans(raw)[b].path)
    requires ModeOf(s, env) == Plans(raw)[b].mode != WaitOp && Takes(Plans(raw)[b].path, Plans(raw)[b].mode, env)
    ensures Plans(raw)[b].path == Walked(cfg, s, env, n)
  {
    hide GraphOk, OnGraph, Route, FindOperations.Between, Plans, Walked, Follows, Arrives;
    var j := PlanSource(raw, b);
    OnlyWalked(cfg, states, raw[j], env, n);
  }

  /** Running the path of the walk ends as the process arrives. */
  lemma WalkedEnd(cfg: map<int, Node>, s: Node, env: Env, n: nat)
    requires GraphOk(cfg) && InGraph(cfg, s) && n > 0 && OnGraph(Walked(cfg, s, env, n)) && Undisturbed(cfg, s, env, n)
    ensures PathRun(Walked(cfg, s, env, n), n + 1, ModeOf(s, env), env) == Arrived(cfg, s, env, n)
  {
    var p := Walked(cfg, s, env, n);
    assert RawPath(p);
    hide GraphOk, OnGraph, Walked, ModeOf, FirstRun, Moves, PathRun;
    WalkedRoute(cfg, s, env, n);
    WalkedFollows(cfg, s, env, n, n);
    FollowsMoves(cfg, p, env, n);
    LastRun(p, n, ModeOf(s, env), env);
  }

  lemma LastRun(p: seq<Node>, n: nat, mode: Mode, env: Env)
    requires RawPath(p) && n < |p|
    ensures PathRun(p, n + 1, mode, env) == NodeRun(PathRun(p, n, mode, env), p, n, mode)
  {
  }

  /** Of the operations of s, the one at a is taken from these values and no other, and it ends there. */
  ghost predicate OnlyTaken(ops: seq<Built>, s: Node, env: Env, a: nat, end: Run) {
    && a < |ops| && ops[a].plan.path != [] && ops[a].plan.path[0] == s
    && (forall b :: 0 <= b < |ops| && ops[b].plan.path != [] && ops[b].plan.path[0] == s ==>
          StmtsOk(ops[b].stmts) && (Taken(Run(env, None), ops[b].stmts, ops[b].plan.mode == WaitOp) <==> b == a))
    && Exec(Run(env, None), ops[a].stmts, ops[a].plan.mode == WaitOp) == end
  }

  /**
   * Operations are complete. Take the paths of a process graph between its states, and whatever values and partners the
   * process finds in a state: if it waits there or reaches a state again, the conditions of exactly one operation of that
   * state are met, and its statements end as the process does.
   */
  lemma OperationsComplete(bs: seq<Lowering.Block>, first: int, cfg: map<int, Node>, states: seq<Node>, raw: seq<seq<Node>>,
                           s: Node, start: bool, env: Env, n: nat) returns (a: nat)
    requires ProcessGraph(bs, first, cfg) && GraphOk(cfg) && PathsBetween(cfg, states, raw) && StatesCover(cfg, states)
    requires InGraph(cfg, s) && StartsInState([s]) && Covered(cfg, states, raw, s) && GoesOn(cfg, states, raw, s, env, n)
    ensures OnlyTaken(BuiltOf(Plans(raw), start), s, env, a, EndRun(cfg, s, env, n))
  {
    hide EndRun, BuiltOf, Plans, ProcessGraph, GraphOk, PathsBetween, StatesCover, Covered, GoesOn, Taken, Exec,
         Takes, OperationRun, ModeOf, Walked, OnGraph, StartsInState;
    a := OneTaken(bs, first, cfg, states, raw, s, env, n);
    var ops, r := BuiltOf(Plans(raw), start), Run(env, None);
    forall b | 0 <= b < |ops| && ops[b].plan.path != [] && ops[b].plan.path[0] == s
      ensures StmtsOk(ops[b].stmts) && (Taken(r, ops[b].stmts, ops[b].plan.mode == WaitOp) <==> b == a)
    {
      BuiltAt(Plans(raw), start, b);
      EntryMeans(raw, b, start, env);
    }
    EntryMeans(raw, a, start, env);
    EndsAlike(cfg, states, raw, s, env, n, Plans(raw)[a]);
  }

  lemma EntryMeans(raw: seq<seq<Node>>, b: nat, start: bool, env: Env)
    requires b < |Plans(raw)| && Plans(raw)[b].path != [] && OnGraph(Plans(raw)[b].path)
    requires StartsInState([Plans(raw)[b].path[0]])
    ensures var op, r := BuiltOf(Plans(raw), start)[b], Run(env, None);
      && op.plan == Plans(raw)[b] && StmtsOk(op.stmts)
      && (Taken(r, op.stmts, op.plan.mode == WaitOp) <==> Takes(op.plan.path, op.plan.mode, env))
      && (Taken(r, op.stmts, op.plan.mode == WaitOp) ==>
            Exec(r, op.stmts, op.plan.mode == WaitOp) == OperationRun(op.plan.path, op.plan.mode, env))
  {
    hide OnGraph, Taken, Exec, Takes, OperationRun, StatementsOf, Plans, BuiltOf, ModeFits;
    PlanFits(raw, b);
    assert StartsInState(Plans(raw)[b].path);
    BuiltAt(Plans(raw), start, b);
    StatementsMean(Plans(raw)[b].path, FlagAfterAll(Plans(raw)[..b], start), Plans(raw)[b].mode, env);
  }

  lemma EndsAlike(cfg: map<int, Node>, states: seq<Node>, raw: seq<seq<Node>>, s: Node, env: Env, n: nat, x: Plan)
    requires GraphOk(cfg) && InGraph(cfg, s) && GoesOn(cfg, states, raw, s, env, n) && StatesCover(cfg, states)
    requires OnGraph(x.path) && x.path[0] == s && x.mode == ModeOf(s, env)
    requires ModeOf(s, env) != WaitOp ==> x.path == Walked(cfg, s, env, n)
    ensures OperationRun(x.path, x.mode, env) == EndRun(cfg, s, env, n)
  {
    hide GraphOk, OnGraph, Walked, Arrived, PathRun;
    if x.mode == WaitOp {
      WaitRun(x.path, env);
    } else {
      ArrivesUndisturbed(cfg, states, s, env, n);
      WalkedEnd(cfg, s, env, n);
    }
  }

  lemma WaitRun(p: seq<Node>, env: Env)
    requires OnGraph(p) && ModeOf(p[0], env) == WaitOp
    ensures PathRun(p, 1, WaitOp, env) == Run(env, None)
  {
  }

  // ---------- The process as blocks ----------

  /** Where control is in the blocks, and what was done on the way there. */
  datatype At = At(place: Lowering.Place, run: Run)

  /** The process after n steps from a place of its blocks: one statement after the other, then on to the next block. */
  ghost function BlockMoves(bs: seq<Lowering.Block>, p: Lowering.Place, env: Env, n: nat): (c: At)
    requires Lowering.ProcessBlocks(bs) && Lowering.PlaceOk(bs, p)
    ensures Lowering.PlaceOk(bs, c.place)
  {
    if n == 0 then At(p, Run(env, None))
    else
      var c := BlockMoves(bs, p, env, n - 1);
      var s := Lowering.StmtAt(bs[c.place.block], c.place.at);
      if Manner(s, c.run.env) == WaitOp then c
      else
        PlaceTyped(bs, c.place);
        At(Lowering.NextPlace(bs, c.place, c.run.env), Passed(s, c.run, n == 1))
  }

  lemma PlaceTyped(bs: seq<Lowering.Block>, p: Lowering.Place)
    requires Lowering.ProcessBlocks(bs) && Lowering.PlaceOk(bs, p)
    ensures var s := Lowering.StmtAt(bs[p.block], p.at); Lowering.StructuredAt(bs, p.block) && (s.Some? ==> StmtOk(s.value))
    ensures forall env: Env :: Lowering.PlaceOk(bs, Lowering.NextPlace(bs, p, env))
  {
    hide StmtOk;
    Lowering.PlaceTyped(bs, p.block, p.at);
  }

  /** The node graph moves as the blocks do. */
  lemma {:induction false} MovesLowered(bs: seq<Lowering.Block>, first: int, cfg: map<int, Node>, p: Lowering.Place, env: Env, n: nat)
    requires ProcessGraph(bs, first, cfg) && GraphOk(cfg) && Lowering.PlaceOk(bs, p)
    ensures Lowering.IdAt(bs, first, p) in cfg && InGraph(cfg, cfg[Lowering.IdAt(bs, first, p)])
    ensures var c, d := BlockMoves(bs, p, env, n), Moves(cfg, cfg[Lowering.IdAt(bs, first, p)], env, n);
      && d.run == c.run && Lowering.IdAt(bs, first, c.place) in cfg && d.node == cfg[Lowering.IdAt(bs, first, c.place)]
      && d.node.stmt == Lowering.StmtAt(bs[c.place.block], c.place.at)
    decreases n
  {
    hide Lowering.BlocksOk, Lowering.Structured, Lowering.BlocksTyped, Lowering.Lowered, Lowering.NextPlace,
         Lowering.IdAt, Passed, Lowering.PlaceOk;
    Lowering.PlaceNode(bs, first, cfg, p, env);
    if n > 0 {
      MovesLowered(bs, first, cfg, p, env, n - 1);
      var c := BlockMoves(bs, p, env, n - 1);
      Lowering.PlaceNode(bs, first, cfg, c.place, c.run.env);
      Lowering.PlaceNode(bs, first, cfg, Lowering.NextPlace(bs, c.place, c.run.env), env);
    }
  }

  /** The node of a place. */
  ghost function NodeAtPlace(bs: seq<Lowering.Block>, first: int, cfg: map<int, Node>, p: Lowering.Place): Node
    requires ProcessGraph(bs, first, cfg) && Lowering.PlaceOk(bs, p)
  {
    Lowering.PlaceNode(bs, first, cfg, p, Env(map[], {}, LogicalNot));
    cfg[Lowering.IdAt(bs, first, p)]
  }

  /** After n steps, and not before, the process is in the place of a state again. */
  ghost predicate BlockArrives(bs: seq<Lowering.Block>, first: int, cfg: map<int, Node>, states: seq<Node>, p: Lowering.Place,
                               env: Env, n: nat)
    requires ProcessGraph(bs, first, cfg) && Lowering.PlaceOk(bs, p)
  {
    && n > 0 && NodeAtPlace(bs, first, cfg, BlockMoves(bs, p, env, n).place) in states
    && forall i :: 0 < i < n ==> NodeAtPlace(bs, first, cfg, BlockMoves(bs, p, env, i).place) !in states
  }

  /** Where the process is then: where it waits nothing has changed; the write of the state reached is offered already. */
  ghost function BlockEnd(bs: seq<Lowering.Block>, p: Lowering.Place, env: Env, n: nat): Run
    requires Lowering.ProcessBlocks(bs) && Lowering.PlaceOk(bs, p)
  {
    if Manner(Lowering.StmtAt(bs[p.block], p.at), env) == WaitOp then Run(env, None)
    else
      var c := BlockMoves(bs, p, env, n);
      var s := Lowering.StmtAt(bs[c.place.block], c.place.at);
      PlaceTyped(bs, c.place);
      if s.Some? && !s.value.Read? then Step(c.run, s.value, false) else c.run
  }

  /** The process goes on from the place: it waits there, and some path starts there, or it is in a state again after n steps. */
  ghost predicate BlockGoesOn(bs: seq<Lowering.Block>, first: int, cfg: map<int, Node>, states: seq<Node>, raw: seq<seq<Node>>,
                              p: Lowering.Place, env: Env, n: nat)
    requires ProcessGraph(bs, first, cfg) && Lowering.PlaceOk(bs, p)
  {
    if Manner(Lowering.StmtAt(bs[p.block], p.at), env) == WaitOp then
      exists i :: 0 <= i < |raw| && raw[i] != [] && raw[i][0] == NodeAtPlace(bs, first, cfg, p)
    else BlockArrives(bs, first, cfg, states, p, env, n)
  }

  /**
   * The same, said of the blocks of the process: from the place of a state, run statement by statement and block by block,
   * exactly one operation is taken, and it ends as the process does.
   */
  lemma BlocksComplete(bs: seq<Lowering.Block>, first: int, cfg: map<int, Node>, states: seq<Node>, raw: seq<seq<Node>>,
                       p: Lowering.Place, start: bool, env: Env, n: nat) returns (a: nat)
    requires ProcessGraph(bs, first, cfg) && Lowering.ProcessBlocks(bs) && PathsBetween(cfg, states, raw) && StatesCover(cfg, states)
    requires Lowering.PlaceOk(bs, p) && BlockGoesOn(bs, first, cfg, states, raw, p, env, n)
    requires var s := NodeAtPlace(bs, first, cfg, p); StartsInState([s]) && Covered(cfg, states, raw, s)
    ensures OnlyTaken(BuiltOf(Plans(raw), start), NodeAtPlace(bs, first, cfg, p), env, a, BlockEnd(bs, p, env, n))
  {
    hide *;
    var s := NodeAtPlace(bs, first, cfg, p);
    GraphIsOk(bs, first, cfg);
    forall i: nat ensures Alike(bs, first, cfg, p, env, i) { MovesAlike(bs, first, cfg, p, env, i); }
    GoesOnAlike(bs, first, cfg, states, raw, p, env, n);
    a := OperationsComplete(bs, first, cfg, states, raw, s, start, env, n);
  }

  /** The blocks and the node graph are at the same place after the same steps, and have done the same. */
  ghost predicate Alike(bs: seq<Lowering.Block>, first: int, cfg: map<int, Node>, p: Lowering.Place, env: Env, n: nat)
    requires ProcessGraph(bs, first, cfg) && Lowering.ProcessBlocks(bs) && GraphOk(cfg) && Lowering.PlaceOk(bs, p)
  {
    var s, c := NodeAtPlace(bs, first, cfg, p), BlockMoves(bs, p, env, n);
    && InGraph(cfg, s)
    && var d := Moves(cfg, s, env, n);
    && d.run == c.run && d.node == NodeAtPlace(bs, first, cfg, c.place) && d.node.stmt == Lowering.StmtAt(bs[c.place.block], c.place.at)
  }

  lemma MovesAlike(bs: seq<Lowering.Block>, first: int, cfg: map<int, Node>, p: Lowering.Place, env: Env, n: nat)
    requires ProcessGraph(bs, first, cfg) && Lowering.ProcessBlocks(bs) && GraphOk(cfg) && Lowering.PlaceOk(bs, p)
    ensures Alike(bs, first, cfg, p, env, n)
  {
    hide Moves, BlockMoves, Lowering.IdAt, Lowering.Lowered, Lowering.ProcessBlocks, Lowering.PlaceOk, GraphOk;
    MovesLowered(bs, first, cfg, p, env, n);
  }

  lemma GoesOnAlike(bs: seq<Lowering.Block>, first: int, cfg: map<int, Node>, states: seq<Node>, raw: seq<seq<Node>>,
                    p: Lowering.Place, env: Env, n: nat)
    requires ProcessGraph(bs, first, cfg) && Lowering.ProcessBlocks(bs) && GraphOk(cfg) && Lowering.PlaceOk(bs, p)
    requires forall i: nat :: Alike(bs, first, cfg, p, env, i)
    requires BlockGoesOn(bs, first, cfg, states, raw, p, env, n)
    ensures InGraph(cfg, NodeAtPlace(bs, first, cfg, p))
    ensures GoesOn(cfg, states, raw, NodeAtPlace(bs, first, cfg, p), env, n)
    ensures EndRun(cfg, NodeAtPlace(bs, first, cfg, p), env, n) == BlockEnd(bs, p, env, n)
  {
    hide Moves, BlockMoves, NodeAtPlace, ProcessGraph, Lowering.ProcessBlocks, Lowering.PlaceOk, GraphOk,
         Lowering.StmtAt, Step, Manner;
    assert Alike(bs, first, cfg, p, env, n);
    StartsAlike(bs, first, cfg, p, env);
    forall i | 0 < i < n && NodeAtPlace(bs, first, cfg, BlockMoves(bs, p, env, i).place) !in states
      ensures Moves(cfg, NodeAtPlace(bs, first, cfg, p), env, i).node !in states
    {
      assert Alike(bs, first, cfg, p, env, i);
    }
  }

  lemma StartsAlike(bs: seq<Lowering.Block>, first: int, cfg: map<int, Node>, p: Lowering.Place, env: Env)
    requires ProcessGraph(bs, first, cfg) && Lowering.ProcessBlocks(bs) && GraphOk(cfg) && Lowering.PlaceOk(bs, p)
    requires Alike(bs, first, cfg, p, env, 0)
    ensures NodeAtPlace(bs, first, cfg, p).stmt == Lowering.StmtAt(bs[p.block], p.at)
  {
    hide NodeAtPlace, ProcessGraph, Lowering.ProcessBlocks, Lowering.PlaceOk, GraphOk, Lowering.StmtAt;
  }

  /** From the place of every state, exactly one of the operations is taken, and it ends as the process does. */
  ghost predicate CoversProcess(bs: seq<Lowering.Block>, first: int, cfg: map<int, Node>, states: seq<Node>, raw: seq<seq<Node>>,
                                ops: seq<Built>)
    requires ProcessGraph(bs, first, cfg)
  {
    forall p: Lowering.Place, env: Env, n: nat ::
      && Lowering.PlaceOk(bs, p) && BlockGoesOn(bs, first, cfg, states, raw, p, env, n)
      && StartsInState([NodeAtPlace(bs, first, cfg, p)]) && Covered(cfg, states, raw, NodeAtPlace(bs, first, cfg, p)) ==>
        exists a: nat :: OnlyTaken(ops, NodeAtPlace(bs, first, cfg, p), env, a, BlockEnd(bs, p, env, n))
  }

  lemma ListComplete(bs: seq<Lowering.Block>, first: int, cfg: map<int, Node>, states: seq<Node>, raw: seq<seq<Node>>, start: bool)
    requires ProcessGraph(bs, first, cfg) && PathsBetween(cfg, states, raw) && StatesCover(cfg, states)
    ensures CoversProcess(bs, first, cfg, states, raw, BuiltOf(Plans(raw), start))
  {
    hide PathsBetween, StatesCover, OnlyTaken, BuiltOf, Plans, Covered, StartsInState, BlockGoesOn, BlockEnd,
         NodeAtPlace, Lowering.PlaceOk;
    hide Lowering.Lowered, Lowering.ProcessBlocks;
    forall p: Lowering.Place, env: Env, n: nat |
      && Lowering.PlaceOk(bs, p) && BlockGoesOn(bs, first, cfg, states, raw, p, env, n)
      && StartsInState([NodeAtPlace(bs, first, cfg, p)]) && Covered(cfg, states, raw, NodeAtPlace(bs, first, cfg, p))
      ensures exists a: nat :: OnlyTaken(BuiltOf(Plans(raw), start), NodeAtPlace(bs, first, cfg, p), env, a, BlockEnd(bs, p, env, n))
    {
      var a := BlocksComplete(bs, first, cfg, states, raw, p, start, env, n);
    }
  }

  /**
   * Builds the operations of a process. If no node on its paths holds a return they are all built, and they cover the
   * process; otherwise it throws.
   */
  method CompleteOperations(ghost bs: seq<Lowering.Block>, ghost first: int, ghost cfg: map<int, Node>, ghost states: seq<Node>,
                            raw: seq<seq<Node>>)
      returns (err: Option<Error>, ops: seq<Built>)
    requires ProcessGraph(bs, first, cfg) && PathsBetween(cfg, states, raw) && StatesCover(cfg, states)
    ensures err.None? <==> forall i :: 0 <= i < |raw| ==> ReturnFree(raw[i])
    ensures err.None? ==> CoversProcess(bs, first, cfg, states, raw, ops)
  {
    hide *;
    RoutesPart(bs, first, cfg, states, raw);
    PartRaw(raw);
    var builder := new Builder();
    ListComplete(bs, first, cfg, states, raw, builder.condition);
    err := builder.Create(raw);
    ops := builder.operationsList;
  }

  lemma PartRaw(raw: seq<seq<Node>>)
    requires PathsPart(raw)
    ensures forall i :: 0 <= i < |raw| ==> RawPath(raw[i])
  {
  }
}
