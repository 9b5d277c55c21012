/** What the expanded paths mean: one of them is taken, and it does what the slave reads do. */
module SlaveMeaning {
  import opened Ir
  import opened Statements
  import opened Operations
  import opened SlaveExpansion

  // ---------- The reference: slave reads with status ----------

  /** With data available it is taken, which uses it up, and the read succeeds; otherwise only the failure is noted. */
  function SlaveRead(r: Run, s: Stmt): Run
    requires s.Read? && StmtOk(s)
  {
    if s.port.name in r.env.sync then
      var env := SetAll(r.env, s.into.Leaves(), EvalAll(OperandsOf(s.port.Signal().Leaves()), r.env));
      var rest := env.(sync := env.sync - {s.port.name});
      r.(env := if s.status.Some? then rest.Set(s.status.value, Flag(true)) else rest)
    else
      r.(env := if s.status.Some? then r.env.Set(s.status.value, Flag(false)) else r.env)
  }

  /**
   * A path of a slave module between two states: states are no communication, slave reads do not block, and every
   * branch has several successors.
   */
  predicate SlavePath(p: seq<Node>) {
    && RawPath(p) && Accepted(p, SlaveOp)
    && !p[|p| - 1].stmt.value.If?
    && forall i :: 0 <= i < |p| && p[i].stmt.Some? ==>
      && (IsSlaveRead(p[i]) ==> p[i].stmt.value.nonBlocking)
      && (p[i].stmt.value.If? ==> |p[i].succ| > 1)
  }

  /** The path run from r as the process runs it. */
  ghost function SlaveRun(r: Run, p: seq<Node>, n: nat): Run
    requires RawPath(p) && n <= |p|
  {
    if n == 0 then r
    else
      var m := SlaveRun(r, p, n - 1);
      if p[n - 1].stmt.None? then m
      else if IsSlaveRead(p[n - 1]) then SlaveRead(m, p[n - 1].stmt.value)
      else Step(m, p[n - 1].stmt.value, false)
  }

  /** Every branch before node n goes on along the path. */
  ghost predicate SlaveTaken(r: Run, p: seq<Node>, n: nat)
    requires RawPath(p) && n <= |p|
  {
    n > 0 ==> SlaveTaken(r, p, n - 1) && BranchTaken(SlaveRun(r, p, n - 1), p, n - 1)
  }

  // ---------- The same with what the ports offer at the start ----------

  /** The run with other offers. */
  function Offering(r: Run, sync: set<string>): Run {
    r.(env := r.env.(sync := sync))
  }

  function FixedRead(r: Run, s: Stmt): Run
    requires s.Read? && StmtOk(s)
  {
    Offering(SlaveRead(r, s), r.env.sync)
  }

  /** An operation sees the offers at its start: no read uses any up. */
  ghost function FixedRun(r: Run, p: seq<Node>, n: nat): Run
    requires RawPath(p) && n <= |p|
  {
    if n == 0 then r else NodeRun(FixedRun(r, p, n - 1), p, n - 1)
  }

  ghost function NodeRun(r: Run, p: seq<Node>, i: nat): Run
    requires RawPath(p) && i < |p|
  {
    if p[i].stmt.None? then r
    else if IsSlaveRead(p[i]) then FixedRead(r, p[i].stmt.value)
    else Step(r, p[i].stmt.value, false)
  }

  ghost predicate FixedTaken(r: Run, p: seq<Node>, n: nat)
    requires RawPath(p) && n <= |p|
  {
    n > 0 ==> FixedTaken(r, p, n - 1) && BranchTaken(FixedRun(r, p, n - 1), p, n - 1)
  }

  /** A condition with the next numbered node after it is met, with any other it is not. */
  ghost predicate BranchTaken(r: Run, p: seq<Node>, i: nat)
    requires RawPath(p) && i < |p|
  {
    p[i].stmt.Some? && p[i].stmt.value.If? && i + 1 < |p| ==>
      (Holds(p[i].stmt.value.cond, r.env) <==> p[i + 1].id == p[i].id + 1)
  }

  /** The choice agrees with what the ports offer, up to node n. */
  ghost predicate Matches(p: seq<Node>, n: nat, absent: set<Node>, sync: set<string>)
    requires n <= |p|
  {
    forall i :: 0 <= i < n && IsSlaveRead(p[i]) ==> (p[i] in absent <==> p[i].stmt.value.port.name !in sync)
  }

  // ---------- Expanded paths are raw paths ----------

  ghost predicate Fresh(ids: map<Node, int>, p: seq<Node>) {
    Covers(ids, p) && forall n :: n in ids ==> ids[n] != n.id + 1
  }

  lemma {:induction false} ExpandPrefix(p: seq<Node>, i: nat, n: nat, ids: map<Node, int>, absent: set<Node>)
    requires i <= n <= |p| && Covers(ids, p)
    ensures Expand(p, i, ids, absent) <= Expand(p, n, ids, absent)
    ensures |Expand(p, i, ids, absent)| + (n - i) <= |Expand(p, n, ids, absent)|
    decreases n
  {
    hide Replace;
    if i < n {
      ReplaceLength(p[n - 1], ids, absent);
      ExpandPrefix(p, i, n - 1, ids, absent);
    }
  }

  lemma ReplaceLength(n: Node, ids: map<Node, int>, absent: set<Node>)
    requires IsSlaveRead(n) ==> n in ids
    ensures |Replace(n, ids, absent)| == if IsSlaveRead(n) then 2 else 1
  {
  }

  /** The replacement of node i stands in the expansion where the expansion of the nodes before it ends. */
  lemma ExpandAt(p: seq<Node>, i: nat, ids: map<Node, int>, absent: set<Node>)
    requires i < |p| && Covers(ids, p)
    ensures var e, before, r := Expand(p, |p|, ids, absent), Expand(p, i, ids, absent), Replace(p[i], ids, absent);
      && before + r == Expand(p, i + 1, ids, absent) <= e && i <= |before| && (i == 0 ==> before == [])
      && (|before + r| == |e| <==> i + 1 == |p|)
  {
    hide Replace;
    ExpandPrefix(p, 0, i, ids, absent);
    ExpandPrefix(p, i + 1, |p|, ids, absent);
  }

  lemma IdAfter(p: seq<Node>, i: nat, ids: map<Node, int>, absent: set<Node>)
    requires i + 1 < |p| && Covers(ids, p)
    ensures var e, l := Expand(p, |p|, ids, absent), |Expand(p, i + 1, ids, absent)|;
      l < |e| && e[l].id == p[i + 1].id
  {
    hide Replace;
    FirstReplaced(p[i + 1], ids, absent);
    ExpandAt(p, i + 1, ids, absent);
    var next := Replace(p[i + 1], ids, absent);
    assert next[0] == (Expand(p, i + 1, ids, absent) + next)[|Expand(p, i + 1, ids, absent)|];
  }

  lemma FirstReplaced(n: Node, ids: map<Node, int>, absent: set<Node>)
    requires IsSlaveRead(n) ==> n in ids
    ensures Replace(n, ids, absent) != [] && Replace(n, ids, absent)[0].id == n.id
  {
  }

  lemma AcceptedAt(p: seq<Node>, i: nat)
    requires SlavePath(p) && i < |p| && p[i].stmt.Some?
    ensures StmtOk(p[i].stmt.value) && !Refused(p[i].stmt.value, PositionOf(p, i), SlaveOp)
  {
    AcceptedStays(p, i + 1, |p|, SlaveOp);
  }

  lemma LastKept(p: seq<Node>)
    requires SlavePath(p)
    ensures |p| >= 2 && p[|p| - 1].stmt.Some? && !p[|p| - 1].stmt.value.If? && !IsSlaveRead(p[|p| - 1])
  {
    AcceptedAt(p, |p| - 1);
  }

  ghost predicate NodesOk(e: seq<Node>) {
    forall i :: 0 <= i < |e| && e[i].stmt.Some? ==> StmtOk(e[i].stmt.value)
  }

  lemma ReplaceOk(n: Node, ids: map<Node, int>, absent: set<Node>)
    requires (n.stmt.Some? ==> StmtOk(n.stmt.value)) && (IsSlaveRead(n) ==> n in ids)
    ensures NodesOk(Replace(n, ids, absent))
  {
    if IsSlaveRead(n) {
      var status := n.stmt.value.status;
      assert WellTyped(SyncOf(n)) && TypeOf(SyncOf(n)) == TBool;
      if status.Some? { assert StmtOk(Assign(status.value, SyncOf(n))); }
    }
  }

  lemma {:induction false} ExpandOk(p: seq<Node>, n: nat, ids: map<Node, int>, absent: set<Node>)
    requires RawPath(p) && n <= |p| && Covers(ids, p)
    ensures NodesOk(Expand(p, n, ids, absent))
    decreases n
  {
    hide Replace, StmtOk;
    if n > 0 {
      ExpandOk(p, n - 1, ids, absent);
      ReplaceOk(p[n - 1], ids, absent);
    }
  }

  /** The expansion of a slave path is again a raw path. */
  lemma ExpandRaw(p: seq<Node>, ids: map<Node, int>, absent: set<Node>)
    requires SlavePath(p) && Covers(ids, p)
    ensures RawPath(Expand(p, |p|, ids, absent))
  {
    LastKept(p);
    ExpandOk(p, |p|, ids, absent);
    ExpandPrefix(p, 0, |p|, ids, absent);
    ExpandAt(p, |p| - 1, ids, absent);
    hide SlavePath, StmtOk;
  }

  // ---------- One node ----------

  /** Position l of the expansion holds what node i of the path became. */
  ghost predicate Stands(p: seq<Node>, i: nat, e: seq<Node>, l: nat, ids: map<Node, int>, absent: set<Node>)
    requires i < |p| && Covers(ids, p)
  {
    var r := Replace(p[i], ids, absent);
    && RawPath(e) && l + |r| <= |e| && (l == 0 <==> i == 0) && (l + |r| == |e| <==> i + 1 == |p|)
    && (forall j :: 0 <= j < |r| ==> e[l + j] == r[j])
    && (i + 1 < |p| ==> e[l + |r|].id == p[i + 1].id)
  }

  lemma OtherNode(p: seq<Node>, i: nat, e: seq<Node>, l: nat, ids: map<Node, int>, absent: set<Node>, start: bool, r: Run)
    requires SlavePath(p) && Covers(ids, p) && i < |p| && !IsSlaveRead(p[i]) && Stands(p, i, e, l, ids, absent)
    ensures StmtsOk(EmitAt(e, l, start, SlaveOp))
    ensures Taken(r, EmitAt(e, l, start, SlaveOp), false) <==> BranchTaken(r, p, i)
    ensures Exec(r, EmitAt(e, l, start, SlaveOp), false) == NodeRun(r, p, i)
  {
    hide Taken, Exec, Step, Accepted, StmtOk, EmitFirst;
    assert e[l + 0] == Replace(p[i], ids, absent)[0] == p[i];
    if p[i].stmt.None? {
      NoneRun(r, false);
    } else {
      LastKept(p);
      AcceptedAt(p, i);
      OneStatement(p[i].stmt.value, FlagAt(e, l, start), PositionOf(e, l), r);
    }
  }

  lemma OneStatement(s: Stmt, flag: bool, pos: Position, r: Run)
    requires StmtOk(s) && (s.Read? || s.Write? ==> pos == Middle)
    ensures StmtsOk(Emit(s, pos, flag, SlaveOp))
    ensures Taken(r, Emit(s, pos, flag, SlaveOp), false) <==> (s.If? ==> (Holds(s.cond, r.env) <==> flag))
    ensures Exec(r, Emit(s, pos, flag, SlaveOp), false) == Step(r, s, false)
  {
    hide Taken, Exec, EmitFirst;
    EmitOk(s, pos, flag, SlaveOp);
    OneRun(r, s, false);
    NoneRun(r, false);
    if s.If? {
      EvalFits(s.cond, r.env);
      OneGuard(r, s.cond, false);
      OneGuard(r, UnaryExpr(Not, s.cond), false);
    }
  }

  /** What a chosen branch of a slave read adds. */
  function Branch(s: Stmt, absent: bool): seq<Stmt>
    requires s.Read?
  {
    var sync := SyncSignal(s.port.name);
    if absent then [If(UnaryExpr(Not, sync))] + StatusFromSync(s.port, s.status) else [If(sync), s]
  }

  lemma SlaveNode(p: seq<Node>, i: nat, e: seq<Node>, l: nat, ids: map<Node, int>, absent: set<Node>, start: bool)
    requires SlavePath(p) && Fresh(ids, p) && i < |p| && IsSlaveRead(p[i]) && Stands(p, i, e, l, ids, absent)
    ensures EmitAt(e, l, start, SlaveOp) + EmitAt(e, l + 1, start, SlaveOp) == Branch(p[i].stmt.value, p[i] in absent)
  {
    hide Accepted, StmtOk, EmitFirst;
    LastKept(p);
    var n := p[i];
    assert e[l + 0] == Replace(n, ids, absent)[0] && e[l + 1] == Replace(n, ids, absent)[1];
    assert e[l] == SyncNode(n, ids[n]);
    assert FlagAt(e, l, start) <==> n !in absent;
    assert PositionOf(e, l + 1) == Middle;
  }

  lemma BranchRun(s: Stmt, absent: bool, r: Run)
    requires s.Read? && StmtOk(s) && s.nonBlocking
    ensures StmtsOk(Branch(s, absent))
    ensures Taken(r, Branch(s, absent), false) <==> (absent <==> s.port.name !in r.env.sync)
    ensures (absent <==> s.port.name !in r.env.sync) ==> Exec(r, Branch(s, absent), false) == FixedRead(r, s)
  {
    hide Taken, Exec, SetAll;
    var sync := SyncSignal(s.port.name);
    assert WellTyped(sync) && TypeOf(sync) == TBool;
    var guard, rest := [if absent then If(UnaryExpr(Not, sync)) else If(sync)], if absent then StatusFromSync(s.port, s.status) else [s];
    assert Branch(s, absent) == guard + rest;
    OneGuard(r, sync, false);
    OneGuard(r, UnaryExpr(Not, sync), false);
    if s.status.Some? { OneRun(r, Assign(s.status.value, sync), false); }
    OneRun(r, s, false);
    NoneRun(r, false);
    assert StmtsOk(guard) && StmtsOk(rest);
    ExecConcat(r, guard, rest, false);
    ReadKeepsSync(r, s);
  }

  lemma {:induction false} FixedRunSync(r: Run, p: seq<Node>, n: nat)
    requires RawPath(p) && n <= |p|
    ensures FixedRun(r, p, n).env.sync == r.env.sync
    decreases n
  {
    hide Step, StmtOk, SetAll;
    if n > 0 {
      FixedRunSync(r, p, n - 1);
      if p[n - 1].stmt.Some? {
        StepSync(FixedRun(r, p, n - 1), p[n - 1].stmt.value);
        if p[n - 1].stmt.value.Read? { ReadKeepsSync(FixedRun(r, p, n - 1), p[n - 1].stmt.value); }
      }
    }
  }

  // ---------- The whole path ----------

  lemma StandsAt(p: seq<Node>, i: nat, ids: map<Node, int>, absent: set<Node>)
    requires SlavePath(p) && Covers(ids, p) && i < |p|
    ensures Stands(p, i, Expand(p, |p|, ids, absent), |Expand(p, i, ids, absent)|, ids, absent)
  {
    hide Replace, SlavePath, RawPath;
    var e, before, r := Expand(p, |p|, ids, absent), Expand(p, i, ids, absent), Replace(p[i], ids, absent);
    ExpandRaw(p, ids, absent);
    ExpandAt(p, i, ids, absent);
    forall j | 0 <= j < |r| ensures e[|before| + j] == r[j] { assert (before + r)[|before| + j] == r[j]; }
    if i + 1 < |p| { IdAfter(p, i, ids, absent); }
  }

  lemma SlavePathRaw(p: seq<Node>)
    requires SlavePath(p)
    ensures RawPath(p)
  {
  }

  lemma FreshCovers(ids: map<Node, int>, p: seq<Node>)
    requires Fresh(ids, p)
    ensures Covers(ids, p)
  {
  }

  lemma NextLength(p: seq<Node>, i: nat, ids: map<Node, int>, absent: set<Node>)
    requires Covers(ids, p) && i < |p|
    ensures var l, k := |Expand(p, i, ids, absent)|, |Expand(p, i + 1, ids, absent)|;
      k == l + (if IsSlaveRead(p[i]) then 2 else 1) && k <= |Expand(p, |p|, ids, absent)|
  {
    ExpandAt(p, i, ids, absent);
    hide IsSlaveRead, Expand;
  }

  lemma EmitOneMore(p: seq<Node>, i: nat, ids: map<Node, int>, absent: set<Node>, start: bool)
    requires SlavePath(p) && Fresh(ids, p) && i < |p|
    ensures var e, l, k := Expand(p, |p|, ids, absent), |Expand(p, i, ids, absent)|, |Expand(p, i + 1, ids, absent)|;
      && l < k <= |e|
      && EmitUpTo(e, k, start, SlaveOp) == EmitUpTo(e, l, start, SlaveOp)
           + if IsSlaveRead(p[i]) then Branch(p[i].stmt.value, p[i] in absent) else EmitAt(e, l, start, SlaveOp)
  {
    var e, l, k := Expand(p, |p|, ids, absent), |Expand(p, i, ids, absent)|, |Expand(p, i + 1, ids, absent)|;
    hide *;
    FreshCovers(ids, p);
    NextLength(p, i, ids, absent);
    if IsSlaveRead(p[i]) {
      StandsAt(p, i, ids, absent);
      SlaveNode(p, i, e, l, ids, absent, start);
      TwoMore(e, l, start);
    } else {
      OneMore(e, l, start);
    }
  }

  lemma OneMore(e: seq<Node>, l: nat, start: bool)
    requires l < |e|
    ensures EmitUpTo(e, l + 1, start, SlaveOp) == EmitUpTo(e, l, start, SlaveOp) + EmitAt(e, l, start, SlaveOp)
  {
  }

  lemma TwoMore(e: seq<Node>, l: nat, start: bool)
    requires l + 2 <= |e|
    ensures EmitUpTo(e, l + 2, start, SlaveOp)
      == EmitUpTo(e, l, start, SlaveOp) + (EmitAt(e, l, start, SlaveOp) + EmitAt(e, l + 1, start, SlaveOp))
  {
    hide EmitAt;
    assert EmitUpTo(e, l + 2, start, SlaveOp) == EmitUpTo(e, l + 1, start, SlaveOp) + EmitAt(e, l + 1, start, SlaveOp);
  }

  ghost function Upto(p: seq<Node>, n: nat, ids: map<Node, int>, absent: set<Node>, start: bool): seq<Stmt>
    requires n <= |p| && Covers(ids, p)
  {
    ExpandPrefix(p, n, |p|, ids, absent);
    EmitUpTo(Expand(p, |p|, ids, absent), |Expand(p, n, ids, absent)|, start, SlaveOp)
  }

  /** What node i adds to the list, whether it is replaced or not. */
  lemma NodeMeaning(p: seq<Node>, i: nat, ids: map<Node, int>, absent: set<Node>, start: bool, r: Run) returns (g: seq<Stmt>)
    requires SlavePath(p) && Fresh(ids, p) && i < |p|
    ensures Upto(p, i + 1, ids, absent, start) == Upto(p, i, ids, absent, start) + g && StmtsOk(g)
    ensures Taken(r, g, false) <==>
      BranchTaken(r, p, i) && (IsSlaveRead(p[i]) ==> (p[i] in absent <==> p[i].stmt.value.port.name !in r.env.sync))
    ensures Taken(r, g, false) ==> Exec(r, g, false) == NodeRun(r, p, i)
  {
    hide Taken, Exec, EmitAt, EmitUpTo, Accepted, Refused, Replace, Stands, StmtOk, Branch;
    var e, l := Expand(p, |p|, ids, absent), |Expand(p, i, ids, absent)|;
    StandsAt(p, i, ids, absent);
    EmitOneMore(p, i, ids, absent, start);
    if IsSlaveRead(p[i]) {
      g := Branch(p[i].stmt.value, p[i] in absent);
      BranchRun(p[i].stmt.value, p[i] in absent, r);
    } else {
      g := EmitAt(e, l, start, SlaveOp);
      OtherNode(p, i, e, l, ids, absent, start, r);
    }
  }

  lemma UptoOk(p: seq<Node>, n: nat, ids: map<Node, int>, absent: set<Node>, start: bool)
    requires SlavePath(p) && n <= |p| && Covers(ids, p)
    ensures StmtsOk(Upto(p, n, ids, absent, start))
  {
    ExpandRaw(p, ids, absent);
    ExpandPrefix(p, n, |p|, ids, absent);
    EmitUpToOk(Expand(p, |p|, ids, absent), |Expand(p, n, ids, absent)|, start, SlaveOp);
  }

  /** Running on after the first i nodes. */
  lemma OneNodeOn(p: seq<Node>, i: nat, absent: set<Node>, r: Run, before: seq<Stmt>, g: seq<Stmt>)
    requires RawPath(p) && i < |p| && StmtsOk(before) && StmtsOk(g)
    requires Taken(r, before, false) <==> FixedTaken(r, p, i) && Matches(p, i, absent, r.env.sync)
    requires Taken(r, before, false) ==> Exec(r, before, false) == FixedRun(r, p, i)
    requires var m := Exec(r, before, false);
      && (Taken(m, g, false) <==>
            BranchTaken(m, p, i) && (IsSlaveRead(p[i]) ==> (p[i] in absent <==> p[i].stmt.value.port.name !in m.env.sync)))
      && (Taken(m, g, false) ==> Exec(m, g, false) == NodeRun(m, p, i))
    ensures StmtsOk(before + g)
    ensures Taken(r, before + g, false) <==> FixedTaken(r, p, i + 1) && Matches(p, i + 1, absent, r.env.sync)
    ensures Taken(r, before + g, false) ==> Exec(r, before + g, false) == FixedRun(r, p, i + 1)
  {
    FixedRunSync(r, p, i);
    ExecConcat(r, before, g, false);
    hide Taken, Exec, RawPath, BranchTaken, NodeRun, StmtsOk, IsSlaveRead;
  }

  /**
   * The conditions of an expanded path are met exactly when the branches go along the path and each slave read takes
   * the branch its port offers; then the statements do what the reads do.
   */
  lemma {:induction false} ExpansionMeaning(p: seq<Node>, n: nat, ids: map<Node, int>, absent: set<Node>, start: bool, r: Run)
    requires SlavePath(p) && Fresh(ids, p) && n <= |p|
    ensures StmtsOk(Upto(p, n, ids, absent, start))
    ensures Taken(r, Upto(p, n, ids, absent, start), false) <==> FixedTaken(r, p, n) && Matches(p, n, absent, r.env.sync)
    ensures Taken(r, Upto(p, n, ids, absent, start), false) ==>
      Exec(r, Upto(p, n, ids, absent, start), false) == FixedRun(r, p, n)
    decreases n
  {
    hide *;
    FreshCovers(ids, p);
    SlavePathRaw(p);
    if n == 0 {
      UptoNone(p, ids, absent, start, r);
    } else {
      var i := n - 1;
      UptoOk(p, i, ids, absent, start);
      var before := Upto(p, i, ids, absent, start);
      ExpansionMeaning(p, i, ids, absent, start, r);
      var g := NodeMeaning(p, i, ids, absent, start, Exec(r, before, false));
      OneNodeOn(p, i, absent, r, before, g);
    }
  }

  lemma UptoNone(p: seq<Node>, ids: map<Node, int>, absent: set<Node>, start: bool, r: Run)
    requires RawPath(p) && Covers(ids, p)
    ensures var es := Upto(p, 0, ids, absent, start);
      StmtsOk(es) && Taken(r, es, false) && Exec(r, es, false) == r
    ensures FixedTaken(r, p, 0) && Matches(p, 0, absent, r.env.sync) && FixedRun(r, p, 0) == r
  {
  }

  lemma UptoAll(p: seq<Node>, ids: map<Node, int>, absent: set<Node>, start: bool)
    requires SlavePath(p) && Covers(ids, p)
    ensures Upto(p, |p|, ids, absent, start) == StatementsOf(Expand(p, |p|, ids, absent), start, SlaveOp)
  {
  }

  /** The reads whose port offers nothing. */
  function Unavailable(p: seq<Node>, sync: set<string>): set<Node> {
    set x | x in p && IsSlaveRead(x) && x.stmt.value.port.name !in sync
  }

  lemma MatchesExactly(p: seq<Node>, m: nat, sync: set<string>)
    ensures Matches(p, |p|, AbsentOf(Distinct(p, |p|), m), sync) <==> AbsentOf(Distinct(p, |p|), m) == Unavailable(p, sync)
  {
    hide IsSlaveRead, AbsentOf, Distinct;
    var d := Distinct(p, |p|);
    DistinctFacts(p, |p|);
    AbsentWithin(d, m);
    assert p[..|p|] == p;
    if Matches(p, |p|, AbsentOf(d, m), sync) {
      forall x ensures x in AbsentOf(d, m) <==> x in Unavailable(p, sync) {}
    }
  }

  lemma ExpansionTaken(p: seq<Node>, ids: map<Node, int>, j: nat, start: bool, env: Env)
    requires SlavePath(p) && Fresh(ids, p)
    ensures var stmts, r := StatementsOf(Expansion(p, ids, j), start, SlaveOp), Run(env, None);
      && StmtsOk(stmts)
      && (Taken(r, stmts, false) <==>
            FixedTaken(r, p, |p|) && AbsentOf(Distinct(p, |p|), j) == Unavailable(p, env.sync))
      && (Taken(r, stmts, false) ==> Exec(r, stmts, false) == FixedRun(r, p, |p|))
  {
    hide Taken, Exec, StatementsOf, Upto, SlavePath, AbsentOf, Distinct, Unavailable;
    var absent := AbsentOf(Distinct(p, |p|), j);
    UptoAll(p, ids, absent, start);
    ExpansionMeaning(p, |p|, ids, absent, start, Run(env, None));
    MatchesExactly(p, j, env.sync);
  }

  // ---------- Reads that use up what they take ----------

  /** The ports an expression looks at. */
  function Peeks(e: Expr): set<string> {
    match e
    case SyncSignal(p) => {p}
    case UnaryExpr(_, s) => Peeks(s)
    case Cast(_, s) => Peeks(s)
    case Arithmetic(_, l, r) => Peeks(l) + Peeks(r)
    case Bitwise(_, l, r) => Peeks(l) + Peeks(r)
    case Logical(_, l, r) => Peeks(l) + Peeks(r)
    case Relational(_, l, r) => Peeks(l) + Peeks(r)
    case Ternary(c, t, f) => Peeks(c) + Peeks(t) + Peeks(f)
    case _ => {}
  }

  /** The statement does not look at whether these ports offer something. */
  predicate Blind(s: Stmt, ports: set<string>) {
    match s
    case Assign(_, e) => Peeks(e) !! ports
    case If(c) => Peeks(c) !! ports
    case Return(e) => Peeks(e) !! ports
    case Read(p, _, nb, status) => nb && status.Some? ==> p.name !in ports
    case Write(p, values, nb, status) =>
      && (nb && status.Some? ==> p.name !in ports)
      && forall i :: 0 <= i < |values| ==> Peeks(values[i]) !! ports
    case _ => true
  }

  /** The slave-in ports read by the first n nodes. */
  function ReadPorts(p: seq<Node>, n: nat): set<string>
    requires n <= |p|
  {
    set i | 0 <= i < n && IsSlaveRead(p[i]) :: p[i].stmt.value.port.name
  }

  /** Each slave-in port is read at most once. */
  predicate OnceEach(p: seq<Node>) {
    forall i, j :: 0 <= i < j < |p| && IsSlaveRead(p[i]) && IsSlaveRead(p[j]) ==>
      p[i].stmt.value.port.name != p[j].stmt.value.port.name
  }

  /** And it is looked at by nothing else: a slave port has no peek. */
  predicate ReadsOnce(p: seq<Node>) {
    && OnceEach(p)
    && forall i :: 0 <= i < |p| && p[i].stmt.Some? && !IsSlaveRead(p[i]) ==> Blind(p[i].stmt.value, ReadPorts(p, |p|))
  }

  /** Both sets of offers agree but for these ports. */
  ghost predicate AgreeOutside(a: set<string>, b: set<string>, ports: set<string>) {
    forall x :: x !in ports ==> (x in a <==> x in b)
  }

  lemma {:induction false} EvalOffering(e: Expr, env: Env, sync: set<string>, ports: set<string>)
    requires Peeks(e) !! ports && AgreeOutside(env.sync, sync, ports)
    ensures Eval(e, env.(sync := sync)) == Eval(e, env)
  {
    hide ArithWord, BitWord, RelFlag, LogicFlag, UnaryValue;
    match e
    case UnaryExpr(_, s) => EvalOffering(s, env, sync, ports);
    case Cast(_, s) => EvalOffering(s, env, sync, ports);
    case Arithmetic(_, l, r) => EvalOffering(l, env, sync, ports); EvalOffering(r, env, sync, ports);
    case Bitwise(_, l, r) => EvalOffering(l, env, sync, ports); EvalOffering(r, env, sync, ports);
    case Logical(_, l, r) => EvalOffering(l, env, sync, ports); EvalOffering(r, env, sync, ports);
    case Relational(_, l, r) => EvalOffering(l, env, sync, ports); EvalOffering(r, env, sync, ports);
    case Ternary(c, t, f) => EvalOffering(c, env, sync, ports); EvalOffering(t, env, sync, ports); EvalOffering(f, env, sync, ports);
    case _ =>
  }

  lemma {:induction false} SetFirstOffering(env: Env, sync: set<string>, vs: seq<Var>, xs: seq<Value>, n: nat)
    requires |vs| == |xs| && n <= |vs|
    ensures SetFirst(env.(sync := sync), vs, xs, n) == SetFirst(env, vs, xs, n).(sync := sync)
    decreases n
  {
    if n > 0 { SetFirstOffering(env, sync, vs, xs, n - 1); }
  }

  lemma {:induction false} CopyFirstOffering(env: Env, sync: set<string>, t: Object, o: Object, n: nat)
    requires t.shape == o.shape && n <= |t.shape|
    ensures CopyFirst(env.(sync := sync), t, o, n) == CopyFirst(env, t, o, n).(sync := sync)
    decreases n
  {
    if n > 0 { CopyFirstOffering(env, sync, t, o, n - 1); }
  }

  lemma AllOffering(es: seq<Expr>, env: Env, sync: set<string>, ports: set<string>)
    requires (forall i :: 0 <= i < |es| ==> Peeks(es[i]) !! ports) && AgreeOutside(env.sync, sync, ports)
    ensures EvalAll(es, env.(sync := sync)) == EvalAll(es, env)
  {
    hide Eval, Peeks, AgreeOutside;
    forall i | 0 <= i < |es| ensures Eval(es[i], env.(sync := sync)) == Eval(es[i], env) {
      EvalOffering(es[i], env, sync, ports);
    }
  }

  /** A statement that does not look at the ports does the same whatever they offer. */
  lemma StepOffering(r: Run, s: Stmt, sync: set<string>, ports: set<string>)
    requires StmtOk(s) && Blind(s, ports) && AgreeOutside(r.env.sync, sync, ports)
    ensures Step(Offering(r, sync), s, false) == Offering(Step(r, s, false), sync)
    ensures Step(r, s, false).env.sync == r.env.sync
  {
    hide WellTyped, TypeOf, Eval, Peeks;
    StepSync(r, s);
    match s
    case Assign(_, e) => EvalOffering(e, r.env, sync, ports);
    case Return(e) => EvalOffering(e, r.env, sync, ports);
    case AssignCompound(t, CopyOf(o)) => CopyFirstOffering(r.env, sync, t, o, |t.shape|);
    case AssignCompound(t, Constants(xs)) => ConstantsOffering(r.env, sync, t, xs);
    case Read(p, o, _, _) => ReadOffering(r.env, sync, p, o);
    case Write(p, xs, _, _) =>
      AllOffering(xs, r.env, sync, ports);
      SetFirstOffering(r.env, sync, p.Signal().Leaves(), EvalAll(xs, r.env), |xs|);
    case _ =>
  }

  lemma ConstantsOffering(env: Env, sync: set<string>, t: Object, xs: seq<Expr>)
    requires |xs| == |t.shape| && forall i :: 0 <= i < |xs| ==> IsLiteral(xs[i])
    ensures var e := env.(sync := sync);
      SetAll(e, t.Leaves(), EvalAll(xs, e)) == SetAll(env, t.Leaves(), EvalAll(xs, env)).(sync := sync)
  {
    var e := env.(sync := sync);
    assert EvalAll(xs, e) == EvalAll(xs, env);
    SetFirstOffering(env, sync, t.Leaves(), EvalAll(xs, env), |xs|);
  }

  lemma ReadOffering(env: Env, sync: set<string>, p: Port, o: Object)
    requires o.shape == p.shape
    ensures var e, from := env.(sync := sync), OperandsOf(p.Signal().Leaves());
      SetAll(e, o.Leaves(), EvalAll(from, e)) == SetAll(env, o.Leaves(), EvalAll(from, env)).(sync := sync)
  {
    var e, from := env.(sync := sync), OperandsOf(p.Signal().Leaves());
    assert EvalAll(from, e) == EvalAll(from, env);
    SetFirstOffering(env, sync, o.Leaves(), EvalAll(from, env), |o.shape|);
  }

  /** A slave read does the same wherever its own port offers the same, and uses that up. */
  lemma SlaveReadOffering(r: Run, s: Stmt, sync: set<string>)
    requires s.Read? && StmtOk(s) && (s.port.name in r.env.sync <==> s.port.name in sync)
    ensures FixedRead(Offering(r, sync), s) == Offering(SlaveRead(r, s), sync)
    ensures SlaveRead(r, s).env.sync == r.env.sync - {s.port.name}
  {
    hide SetAll;
    ReadOffering(r.env, sync, s.port, s.into);
    ReadKeepsSync(r, s);
  }

  /** The reads so far have used up what their ports offered, and nothing else differs. */
  lemma {:induction false} UsedUp(p: seq<Node>, n: nat, r: Run)
    requires RawPath(p) && ReadsOnce(p) && n <= |p|
    ensures SlaveRun(r, p, n).env.sync == r.env.sync - ReadPorts(p, n)
    ensures FixedRun(r, p, n) == Offering(SlaveRun(r, p, n), r.env.sync)
    ensures FixedTaken(r, p, n) <==> SlaveTaken(r, p, n)
    decreases n
  {
    if n > 0 {
      var i := n - 1;
      UsedUp(p, i, r);
      var m := SlaveRun(r, p, i);
      assert ReadPorts(p, n) == ReadPorts(p, i) + (if IsSlaveRead(p[i]) then {p[i].stmt.value.port.name} else {});
      assert AgreeOutside(m.env.sync, r.env.sync, ReadPorts(p, |p|));
      hide Step, SlaveRead, StmtOk, Holds, Blind;
      if p[i].stmt.Some? {
        if IsSlaveRead(p[i]) {
          SlaveReadOffering(m, p[i].stmt.value, r.env.sync);
        } else {
          StepOffering(m, p[i].stmt.value, r.env.sync, ReadPorts(p, |p|));
        }
        BranchOffering(m, p, i, r.env.sync);
      }
    }
  }

  lemma BranchOffering(m: Run, p: seq<Node>, i: nat, sync: set<string>)
    requires RawPath(p) && ReadsOnce(p) && i < |p| && AgreeOutside(m.env.sync, sync, ReadPorts(p, |p|))
    ensures BranchTaken(Offering(m, sync), p, i) <==> BranchTaken(m, p, i)
  {
    hide Eval, Peeks, AgreeOutside, StmtOk;
    if p[i].stmt.Some? && p[i].stmt.value.If? { EvalOffering(p[i].stmt.value.cond, m.env, sync, ReadPorts(p, |p|)); }
  }

  function TwiceRead(id: int, status: string): Node {
    Node(id, Some(Read(Port("s", Slave, In, []), Object(Variable, "x", []), true, Some(Var(Variable, status, "", TBool)))), [id + 1])
  }

  function TwicePath(): seq<Node> {
    [Node(0, Some(Wait), [1]), TwiceRead(1, "a"), TwiceRead(2, "b"), Node(3, Some(Wait), [0])]
  }

  /** A port read twice on a path: the process finds nothing the second time, an operation still sees the offer. */
  lemma TwiceReads(env: Env)
    requires "s" in env.sync
    ensures var p, r, b := TwicePath(), Run(env, None), Var(Variable, "b", "", TBool);
      && SlavePath(p) && !ReadsOnce(p)
      && SlaveRun(r, p, 3).env.Get(b) == Flag(false) && FixedRun(r, p, 3).env.Get(b) == Flag(true)
  {
    TwicePathOk();
    hide SlavePath, StmtOk, ReadsOnce;
    var p, r := TwicePath(), Run(env, None);
    assert SlaveRun(r, p, 1) == SlaveRun(r, p, 0) == r && FixedRun(r, p, 1) == FixedRun(r, p, 0) == r;
    assert SlaveRun(r, p, 2) == SlaveRead(r, p[1].stmt.value) && SlaveRun(r, p, 2).env.sync == env.sync - {"s"};
    assert FixedRun(r, p, 2) == FixedRead(r, p[1].stmt.value) && FixedRun(r, p, 2).env.sync == env.sync;
  }

  lemma TwiceTyped()
    ensures forall i :: 0 <= i < 4 ==> StmtOk(TwicePath()[i].stmt.value)
  {
  }

  lemma TwicePathOk()
    ensures var p := TwicePath(); SlavePath(p) && RawPath(p) && !ReadsOnce(p)
  {
    hide StmtOk;
    var p := TwicePath();
    TwiceTyped();
    assert IsSlaveRead(p[1]) && IsSlaveRead(p[2]);
    assert AcceptedUpTo(p, 1, SlaveOp) && AcceptedUpTo(p, 2, SlaveOp) && AcceptedUpTo(p, 3, SlaveOp) && AcceptedUpTo(p, 4, SlaveOp);
  }

  /**
   * Slave expansion is complete: whatever the ports offer, one expanded path and no other has its conditions met when
   * the process takes this path, and its statements leave what running the slave reads leaves. What the reads used up is
   * what the ports read on the path had offered.
   */
  lemma ExpansionComplete(p: seq<Node>, ids: map<Node, int>, start: bool, env: Env) returns (m: nat)
    requires SlavePath(p) && ReadsOnce(p) && Fresh(ids, p)
    ensures m < |Expansions(p, ids)| == Pow2(|Distinct(p, |p|)|)
    ensures forall j :: 0 <= j < |Expansions(p, ids)| ==>
      && StmtsOk(StatementsOf(Expansions(p, ids)[j], start, SlaveOp))
      && (Taken(Run(env, None), StatementsOf(Expansions(p, ids)[j], start, SlaveOp), false) <==>
            j == m && SlaveTaken(Run(env, None), p, |p|))
    ensures SlaveTaken(Run(env, None), p, |p|) ==>
      Exec(Run(env, None), StatementsOf(Expansions(p, ids)[m], start, SlaveOp), false)
        == Offering(SlaveRun(Run(env, None), p, |p|), env.sync)
    ensures SlaveRun(Run(env, None), p, |p|).env.sync == env.sync - ReadPorts(p, |p|)
  {
    assert RawPath(p);
    hide Taken, Exec, StatementsOf, SlavePath, FixedTaken, FixedRun, SlaveTaken, SlaveRun, Fresh, RawPath, ReadsOnce;
    UsedUp(p, |p|, Run(env, None));
    m := FixedComplete(p, ids, start, env);
  }

  lemma FixedComplete(p: seq<Node>, ids: map<Node, int>, start: bool, env: Env) returns (m: nat)
    requires SlavePath(p) && Fresh(ids, p)
    ensures m < |Expansions(p, ids)| == Pow2(|Distinct(p, |p|)|)
    ensures forall j :: 0 <= j < |Expansions(p, ids)| ==>
      && StmtsOk(StatementsOf(Expansions(p, ids)[j], start, SlaveOp))
      && (Taken(Run(env, None), StatementsOf(Expansions(p, ids)[j], start, SlaveOp), false) <==>
            j == m && FixedTaken(Run(env, None), p, |p|))
    ensures FixedTaken(Run(env, None), p, |p|) ==>
      Exec(Run(env, None), StatementsOf(Expansions(p, ids)[m], start, SlaveOp), false) == FixedRun(Run(env, None), p, |p|)
  {
    assert RawPath(p) && Covers(ids, p);
    hide Taken, Exec, StatementsOf, SlavePath, AbsentOf, FixedTaken, FixedRun, Fresh, RawPath, Covers;
    var d := Distinct(p, |p|);
    DistinctFacts(p, |p|);
    assert p[..|p|] == p;
    m := CombinationNumber(d, Unavailable(p, env.sync));
    ExpansionTaken(p, ids, m, start, env);
    forall j | 0 <= j < |Expansions(p, ids)|
      ensures StmtsOk(StatementsOf(Expansions(p, ids)[j], start, SlaveOp))
      ensures Taken(Run(env, None), StatementsOf(Expansions(p, ids)[j], start, SlaveOp), false) <==>
        j == m && FixedTaken(Run(env, None), p, |p|)
    {
      ExpansionTaken(p, ids, j, start, env);
      if AbsentOf(d, j) == AbsentOf(d, m) { NumberUnique(d, j, m); }
    }
  }

  // ---------- Determinism ----------

  lemma {:induction false} SamePrefix(p: seq<Node>, q: seq<Node>, n: nat, r: Run)
    requires RawPath(p) && RawPath(q) && n <= |p| && n <= |q| && p[..n] == q[..n]
    ensures FixedRun(r, p, n) == FixedRun(r, q, n)
    decreases n
  {
    hide Step, SlaveRead, StmtOk;
    if n > 0 {
      assert p[..n - 1] == p[..n][..n - 1] && q[..n - 1] == q[..n][..n - 1];
      assert p[n - 1] == p[..n][n - 1] && q[n - 1] == q[..n][n - 1];
      SamePrefix(p, q, n - 1, r);
    }
  }

  lemma {:induction false} TakenAt(r: Run, p: seq<Node>, i: nat, n: nat)
    requires RawPath(p) && i < n <= |p| && FixedTaken(r, p, n)
    ensures BranchTaken(FixedRun(r, p, i), p, i)
    decreases n
  {
    hide FixedRun, BranchTaken, RawPath;
    if i < n - 1 { TakenAt(r, p, i, n - 1); }
  }

  lemma PartingNotBoth(r: Run, p: seq<Node>, q: seq<Node>, k: nat)
    requires RawPath(p) && RawPath(q) && DivergeAt(p, q, k)
    ensures !(FixedTaken(r, p, |p|) && FixedTaken(r, q, |q|))
  {
    hide FixedRun, FixedTaken;
    assert p[..k - 1] == p[..k][..k - 1] && q[..k - 1] == q[..k][..k - 1];
    assert p[k - 1] == p[..k][k - 1] && q[k - 1] == q[..k][k - 1];
    SamePrefix(p, q, k - 1, r);
    if FixedTaken(r, p, |p|) && FixedTaken(r, q, |q|) {
      TakenAt(r, p, k - 1, |p|);
      TakenAt(r, q, k - 1, |q|);
    }
  }

  /** Two expanded paths exclude each other: they come from paths that part, or choose differently on the same path. */
  lemma ExpansionsExclude(
    p: seq<Node>, ids: map<Node, int>, j: nat, start: bool, q: seq<Node>, ids': map<Node, int>, j': nat, start': bool, env: Env)
    requires SlavePath(p) && Fresh(ids, p) && SlavePath(q) && Fresh(ids', q)
    requires j < |Expansions(p, ids)| && j' < |Expansions(q, ids')|
    requires (p == q && j != j') || exists k: nat :: DivergeAt(p, q, k)
    ensures !(Enabled(StatementsOf(Expansions(p, ids)[j], start, SlaveOp), SlaveOp, env)
           && Enabled(StatementsOf(Expansions(q, ids')[j'], start', SlaveOp), SlaveOp, env))
  {
    hide Taken, Exec, StatementsOf, Enabled, AbsentOf, FixedTaken, DivergeAt, FixedRun;
    var es, es', r := StatementsOf(Expansion(p, ids, j), start, SlaveOp), StatementsOf(Expansion(q, ids', j'), start', SlaveOp),
      Run(env, None);
    if Enabled(es, SlaveOp, env) && Enabled(es', SlaveOp, env) {
      EnabledTaken(es, SlaveOp, env);
      EnabledTaken(es', SlaveOp, env);
      ExpansionTaken(p, ids, j, start, env);
      ExpansionTaken(q, ids', j', start', env);
      if p == q && j != j' {
        DistinctFacts(p, |p|);
        NumberUnique(Distinct(p, |p|), j, j');
      } else {
        var k: nat :| DivergeAt(p, q, k);
        PartingNotBoth(r, p, q, k);
      }
    }
  }
}
