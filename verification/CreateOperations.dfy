/** Builds all operations of a module without slave ports, in the imperative form of the tool. */
module CreateOperations {
  import opened Ir
  import opened Statements
  import opened Operations

  // ---------- Which operations there are ----------

  /** Some earlier path already gave the wait operation of this start node. */
  ghost predicate Waited(raw: seq<seq<Node>>, n: nat)
    requires n < |raw| && raw[n] != []
  {
    exists j :: 0 <= j < n && BlockingStart(raw[j]) && !raw[j][0].stmt.value.nonBlocking && raw[j][0] == raw[n][0]
  }

  /** The implicit operation of path n, if it has one. */
  ghost function ImplicitOf(raw: seq<seq<Node>>, n: nat): seq<Plan>
    requires n < |raw|
  {
    if !BlockingStart(raw[n]) then []
    else if raw[n][0].stmt.value.nonBlocking then [Plan(raw[n], NotSync)]
    else if Waited(raw, n) then [] else [Plan(raw[n], WaitOp)]
  }

  ghost function Implicit(raw: seq<seq<Node>>, n: nat): seq<Plan>
    requires n <= |raw|
  {
    if n == 0 then [] else Implicit(raw, n - 1) + ImplicitOf(raw, n - 1)
  }

  function Explicits(raw: seq<seq<Node>>): seq<Plan> {
    seq(|raw|, i requires 0 <= i < |raw| => Plan(raw[i], Explicit))
  }

  ghost function Plans(raw: seq<seq<Node>>): seq<Plan> { Explicits(raw) + Implicit(raw, |raw|) }

  lemma {:induction false} ImplicitSource(raw: seq<seq<Node>>, n: nat, a: nat) returns (j: nat)
    requires n <= |raw| && a < |Implicit(raw, n)|
    ensures j < n && ImplicitOf(raw, j) == [Implicit(raw, n)[a]] && a == |Implicit(raw, j)|
    decreases n
  {
    if a < |Implicit(raw, n - 1)| { j := ImplicitSource(raw, n - 1, a); } else { j := n - 1; }
  }

  lemma {:induction false} ImplicitGrows(raw: seq<seq<Node>>, i: nat, j: nat)
    requires i <= j <= |raw|
    ensures |Implicit(raw, i)| <= |Implicit(raw, j)|
    decreases j
  {
    if i < j { ImplicitGrows(raw, i, j - 1); }
  }

  lemma SameModeExclusive(raw: seq<seq<Node>>, i: nat, j: nat, mode: Mode)
    requires PathsPart(raw) && i < j < |raw| && raw[i][0] == raw[j][0] && mode != WaitOp
    ensures Exclusive(Plan(raw[i], mode), Plan(raw[j], mode))
  {
    hide Enabled;
    var k: nat :| DivergeAt(raw[i], raw[j], k);
    forall start: bool, start': bool, env: Env
      ensures !(Enabled(StatementsOf(raw[i], start, mode), mode, env) && Enabled(StatementsOf(raw[j], start', mode), mode, env))
    {
      DivergingExclude(raw[i], raw[j], k, start, start', mode, env);
    }
  }

  lemma ExplicitImplicitExclusive(raw: seq<seq<Node>>, i: nat, j: nat)
    requires PathsPart(raw) && i < |raw| && j < |raw| && raw[i][0] == raw[j][0] && |ImplicitOf(raw, j)| == 1
    ensures Exclusive(Plan(raw[i], Explicit), ImplicitOf(raw, j)[0])
  {
    hide Enabled;
    var mode := ImplicitOf(raw, j)[0].mode;
    forall start: bool, start': bool, env: Env
      ensures !(Enabled(StatementsOf(raw[i], start, Explicit), Explicit, env) && Enabled(StatementsOf(raw[j], start', mode), mode, env))
    {
      SyncExcludes(raw[i], raw[j], start, start', mode, env);
    }
  }

  /** Operations are deterministic: two different operations of one state are never enabled together. */
  lemma OperationsDeterministic(raw: seq<seq<Node>>, a: nat, b: nat)
    requires PathsPart(raw) && a < b < |Plans(raw)|
    requires SameState(Plans(raw)[a], Plans(raw)[b])
    ensures Exclusive(Plans(raw)[a], Plans(raw)[b])
  {
    var n := |raw|;
    if b < n {
      SameModeExclusive(raw, a, b, Explicit);
    } else {
      var j := ImplicitSource(raw, n, b - n);
      if a < n {
        ExplicitImplicitExclusive(raw, a, j);
      } else {
        var i := ImplicitSource(raw, n, a - n);
        if j <= i { ImplicitGrows(raw, j, i); }
        assert !raw[i][0].stmt.value.nonBlocking ==> Waited(raw, j);
        SameModeExclusive(raw, i, j, NotSync);
      }
    }
  }

  lemma ListDeterministic(raw: seq<seq<Node>>, start: bool)
    requires PathsPart(raw)
    ensures Deterministic(BuiltOf(Plans(raw), start))
  {
    hide PathsPart, Exclusive, SameState, BuiltOf;
    var plans := Plans(raw);
    forall a, b | 0 <= a < b < |plans| && SameState(plans[a], plans[b]) ensures Exclusive(plans[a], plans[b]) {
      OperationsDeterministic(raw, a, b);
    }
    BuiltDeterministic(plans, start);
  }

  // ---------- The builder ----------

  class Builder {
    var firstStatement: bool
    var lastStatement: bool
    var condition: bool
    var waitOp: bool
    var notSyncOp: bool
    var newExpr: Option<Expr>
    var statementsList: seq<Stmt>
    var nodeWaitList: seq<Node>
    var operationsList: seq<Built>

    constructor ()
      ensures Idle() && statementsList == [] && nodeWaitList == [] && operationsList == []
    {
      firstStatement, lastStatement, condition, waitOp, notSyncOp := false, false, false, false, false;
      newExpr, statementsList, nodeWaitList, operationsList := None, [], [], [];
    }

    ghost predicate Idle()
      reads this`firstStatement, this`lastStatement, this`waitOp, this`notSyncOp
    {
      !firstStatement && !lastStatement && !waitOp && !notSyncOp
    }

    ghost function CurrentMode(): Mode
      reads this
    {
      if waitOp then WaitOp else if notSyncOp then NotSync else Explicit
    }

    ghost function CurrentPosition(): Position
      reads this
    {
      if firstStatement then First else if lastStatement then Last else Middle
    }

    method Push(s: Stmt)
      modifies this`statementsList
      ensures statementsList == old(statementsList) + [s]
    {
      statementsList := statementsList + [s];
    }

    method VisitSync(p: Port)
      modifies this`statementsList, this`newExpr
      ensures statementsList == old(statementsList) + [SyncGuard(p, CurrentMode())]
      ensures newExpr == Some(SyncSignal(p.name))
    {
      if waitOp || notSyncOp {
        Push(If(UnaryExpr(Not, SyncSignal(p.name))));
      } else {
        Push(If(SyncSignal(p.name)));
      }
      newExpr := Some(SyncSignal(p.name));
    }

    method VisitRead(s: Stmt)
      requires s.Read? && !(waitOp && notSyncOp)
      modifies this`statementsList, this`newExpr
      ensures statementsList == old(statementsList) + Emit(s, CurrentPosition(), condition, CurrentMode())
    {
      if firstStatement {
        if s.port.iface == Blocking { VisitSync(s.port); } else { newExpr := None; }
        if s.port.iface == Blocking && s.nonBlocking {
          if !notSyncOp {
            Push(s);
          } else if s.status.Some? {
            Push(Assign(s.status.value, newExpr.value));
          }
        } else if !s.nonBlocking && !waitOp {
          Push(s);
        }
      } else if lastStatement {
        newExpr := None;
      } else {
        newExpr := None;
        Push(s);
      }
    }

    method VisitWrite(s: Stmt)
      requires s.Write? && !(waitOp && notSyncOp)
      modifies this`statementsList, this`newExpr
      ensures statementsList == old(statementsList) + Emit(s, CurrentPosition(), condition, CurrentMode())
    {
      if firstStatement {
        if s.port.iface == Blocking {
          VisitSync(s.port);
          if s.nonBlocking && s.status.Some? {
            Push(Assign(s.status.value, newExpr.value));
          }
        } else {
          newExpr := None;
        }
        if !s.nonBlocking && waitOp {
          Push(s);
        }
      } else {
        newExpr := None;
        Push(s);
      }
    }

    method Visit(s: Stmt) returns (err: Option<Error>)
      requires !(waitOp && notSyncOp)
      modifies this`statementsList, this`newExpr
      ensures err.Some? <==> Refused(s, CurrentPosition(), CurrentMode())
      ensures err.None? ==> statementsList == old(statementsList) + Emit(s, CurrentPosition(), condition, CurrentMode())
    {
      err := None;
      match s {
        case If(c) => Push(if condition then s else If(UnaryExpr(Not, c)));
        case Read(_, _, _, _) => VisitRead(s);
        case Write(_, _, _, _) => VisitWrite(s);
        case While =>
        case Wait =>
        case Return(_) => return Some(NotAllowed);
        case _ => Push(s);
      }
    }

    /** For a wait operation only the first statement matters. */
    method AddWaitStatement(p: seq<Node>) returns (err: Option<Error>)
      requires RawPath(p) && !firstStatement && !lastStatement && waitOp && !notSyncOp && BlockingStart(p)
      modifies this`statementsList, this`newExpr, this`firstStatement
      ensures !firstStatement && err.None?
      ensures statementsList == StatementsOf(p, condition, WaitOp) && Accepted(p, WaitOp)
    {
      statementsList := [];
      firstStatement := true;
      err := Visit(p[0].stmt.value);
      firstStatement := false;
      assert EmitUpTo(p, 1, condition, WaitOp) == EmitUpTo(p, 0, condition, WaitOp) + EmitAt(p, 0, condition, WaitOp);
    }

    /** Fills statementsList for one path; on a statement it cannot translate it throws. */
    method AddStatementsList(p: seq<Node>) returns (err: Option<Error>)
      requires RawPath(p) && !firstStatement && !lastStatement
      requires !(waitOp && notSyncOp) && (waitOp ==> BlockingStart(p))
      modifies this`statementsList, this`newExpr, this`firstStatement, this`lastStatement, this`condition
      ensures err.None? ==> !firstStatement && !lastStatement
      ensures err.None? ==> statementsList == StatementsOf(p, old(condition), CurrentMode())
      ensures err.None? ==> condition == FlagAfter(Plan(p, CurrentMode()), old(condition))
      ensures err.None? <==> Accepted(p, CurrentMode())
      ensures !waitOp ==> (err.None? <==> ReturnFree(p))
    {
      hide Emit, Refused, BlockingStart;
      if waitOp {
        err := AddWaitStatement(p);
        return;
      }
      AcceptedExact(p, CurrentMode());
      statementsList := [];
      ghost var start, mode := condition, CurrentMode();
      firstStatement := true;
      for i := 0 to |p| - 1
        invariant CurrentMode() == mode && firstStatement == (i == 0) && !lastStatement
        invariant statementsList == EmitUpTo(p, i, start, mode) && AcceptedUpTo(p, i, mode)
        invariant condition == if i == 0 then start else FlagAt(p, i - 1, start)
      {
        err := VisitNode(p, i, start);
        if err.Some? {
          if AcceptedUpTo(p, |p|, mode) { AcceptedStays(p, i + 1, |p|, mode); }
          return;
        }
        firstStatement := false;
      }
      lastStatement := true;
      err := Visit(p[|p| - 1].stmt.value);
      lastStatement := false;
    }

    /** One node before the last: sets the condition flag at a branching node, then visits the statement. */
    method VisitNode(p: seq<Node>, i: nat, ghost start: bool) returns (err: Option<Error>)
      requires i + 1 < |p| && !(waitOp && notSyncOp) && firstStatement == (i == 0) && !lastStatement
      requires statementsList == EmitUpTo(p, i, start, CurrentMode()) && AcceptedUpTo(p, i, CurrentMode())
      requires condition == if i == 0 then start else FlagAt(p, i - 1, start)
      modifies this`statementsList, this`newExpr, this`condition
      ensures condition == FlagAt(p, i, start)
      ensures err.None? ==> statementsList == EmitUpTo(p, i + 1, start, CurrentMode())
      ensures err.None? <==> AcceptedUpTo(p, i + 1, CurrentMode())
    {
      hide Emit, Refused;
      err := None;
      if p[i].stmt.Some? {
        if |p[i].succ| > 1 {
          condition := p[i + 1].id == p[i].id + 1;
        }
        err := Visit(p[i].stmt.value);
      } else {
        assert statementsList == statementsList + [];
      }
    }

    /** The list holds the planned operations, each built with the flag the ones before it left. */
    ghost predicate ListOk(plans: seq<Plan>, start: bool)
      reads this`operationsList, this`condition
    {
      operationsList == BuiltOf(plans, start) && condition == FlagAfterAll(plans, start)
    }

    method AddOperation(p: seq<Node>, mode: Mode, ghost plans: seq<Plan>, ghost start: bool) returns (err: Option<Error>)
      requires RawPath(p) && Idle() && mode != SlaveOp && (mode == WaitOp ==> BlockingStart(p)) && ListOk(plans, start)
      modifies this`statementsList, this`newExpr, this`firstStatement, this`lastStatement, this`condition
      modifies this`waitOp, this`notSyncOp, this`operationsList
      ensures err.None? ==> Idle() && ListOk(plans + [Plan(p, mode)], start)
      ensures err.None? <==> Accepted(p, mode)
    {
      hide StatementsOf, FlagAfter;
      BuiltMore(plans, Plan(p, mode), start);
      waitOp, notSyncOp := mode == WaitOp, mode == NotSync;
      err := AddStatementsList(p);
      waitOp, notSyncOp := false, false;
      if err.None? {
        operationsList := operationsList + [Built(Plan(p, mode), statementsList)];
      }
    }

    /** The nodes that got a wait operation: the blocking starts of the first n paths. */
    static ghost predicate WaitListed(list: seq<Node>, raw: seq<seq<Node>>, n: nat)
      requires n <= |raw|
    {
      forall x :: x in list <==>
        exists j :: 0 <= j < n && BlockingStart(raw[j]) && !raw[j][0].stmt.value.nonBlocking && raw[j][0] == x
    }

    static lemma WaitListedNext(list: seq<Node>, raw: seq<seq<Node>>, i: nat)
      requires i < |raw| && RawPath(raw[i]) && WaitListed(list, raw, i)
      ensures raw[i] != []
      ensures BlockingStart(raw[i]) <==>
        var n := raw[i][0];
        n.stmt.Some? && (n.stmt.value.Read? || n.stmt.value.Write?) && n.stmt.value.port.iface == Blocking
      ensures ImplicitOf(raw, i) ==
        if !BlockingStart(raw[i]) then []
        else if raw[i][0].stmt.value.nonBlocking then [Plan(raw[i], NotSync)]
        else if raw[i][0] in list then [] else [Plan(raw[i], WaitOp)]
      ensures WaitListed(
        if BlockingStart(raw[i]) && !raw[i][0].stmt.value.nonBlocking && raw[i][0] !in list then list + [raw[i][0]] else list,
        raw, i + 1)
    {
    }

    static lemma AcceptedInAll(p: seq<Node>)
      requires RawPath(p) && Accepted(p, Explicit)
      ensures Accepted(p, WaitOp) && Accepted(p, NotSync)
    {
      AcceptedAnyMode(p, |p|, WaitOp);
      AcceptedAnyMode(p, |p|, NotSync);
    }

    /** The wait or not-synced operation of path i, a wait operation only once for each start node. */
    method AddImplicit(raw: seq<seq<Node>>, i: nat, ghost plans: seq<Plan>, ghost start: bool)
      requires i < |raw| && RawPath(raw[i]) && Accepted(raw[i], Explicit)
      requires Idle() && ListOk(plans, start) && WaitListed(nodeWaitList, raw, i)
      modifies this
      ensures Idle() && ListOk(plans + ImplicitOf(raw, i), start) && WaitListed(nodeWaitList, raw, i + 1)
    {
      hide *;
      WaitListedNext(nodeWaitList, raw, i);
      AcceptedInAll(raw[i]);
      assert plans + [] == plans;
      var node := raw[i][0];
      if node.stmt.Some? && (node.stmt.value.Read? || node.stmt.value.Write?) && node.stmt.value.port.iface == Blocking {
        if !node.stmt.value.nonBlocking {
          if node !in nodeWaitList {
            var _ := AddOperation(raw[i], WaitOp, plans, start);
            nodeWaitList := nodeWaitList + [node];
          }
        } else {
          var _ := AddOperation(raw[i], NotSync, plans, start);
        }
      }
    }

    method AddExplicits(raw: seq<seq<Node>>) returns (err: Option<Error>)
      requires forall i :: 0 <= i < |raw| ==> RawPath(raw[i])
      requires Idle() && operationsList == []
      modifies this
      ensures nodeWaitList == old(nodeWaitList)
      ensures err.None? ==> Idle() && ListOk(Explicits(raw), old(condition))
      ensures err.None? <==> forall i :: 0 <= i < |raw| ==> Accepted(raw[i], Explicit)
    {
      hide *;
      StartsEmpty(raw, condition);
      for i := 0 to |raw|
        invariant Idle() && nodeWaitList == old(nodeWaitList) && ListOk(Explicits(raw)[..i], old(condition))
        invariant forall j :: 0 <= j < i ==> Accepted(raw[j], Explicit)
      {
        err := AddOperation(raw[i], Explicit, Explicits(raw)[..i], old(condition));
        if err.Some? {
          return;
        }
        ExplicitsNext(raw, i);
      }
      assert Explicits(raw)[..|raw|] == Explicits(raw);
      err := None;
    }

    lemma StartsEmpty(raw: seq<seq<Node>>, start: bool)
      requires operationsList == [] && condition == start
      ensures ListOk(Explicits(raw)[..0], start) && |Explicits(raw)| == |raw|
    {
    }

    static lemma ExplicitsNext(raw: seq<seq<Node>>, i: nat)
      requires i < |raw|
      ensures Explicits(raw)[..i + 1] == Explicits(raw)[..i] + [Plan(raw[i], Explicit)]
    {
    }

    /**
     * All operations: the explicit one of each path, then one wait operation per blocking start and the not-synced ones.
     * If the paths part at branches, at most one of them is enabled at a time in each state.
     */
    method Create(raw: seq<seq<Node>>) returns (err: Option<Error>)
      requires forall i :: 0 <= i < |raw| ==> RawPath(raw[i])
      requires Idle() && nodeWaitList == [] && operationsList == []
      modifies this
      ensures err.None? ==> operationsList == BuiltOf(Plans(raw), old(condition))
      ensures err.None? && PathsPart(raw) ==> Deterministic(operationsList)
      ensures err.None? <==> forall i :: 0 <= i < |raw| ==> ReturnFree(raw[i])
    {
      forall i | 0 <= i < |raw| ensures Accepted(raw[i], Explicit) <==> ReturnFree(raw[i]) { AcceptedExact(raw[i], Explicit); }
      hide ReturnFree, PathsPart, Deterministic, BuiltOf, FlagAfterAll, Accepted;
      assert BuiltOf([], condition) == [] && FlagAfterAll([], condition) == condition by { NoneBuilt(condition); }
      err := AddExplicits(raw);
      if err.Some? {
        return;
      }
      AddImplicits(raw, old(condition));
      if PathsPart(raw) { ListDeterministic(raw, old(condition)); }
    }

    static lemma NoneBuilt(start: bool)
      ensures BuiltOf([], start) == [] && FlagAfterAll([], start) == start
    {
    }

    method AddImplicits(raw: seq<seq<Node>>, ghost start: bool)
      requires forall i :: 0 <= i < |raw| ==> RawPath(raw[i]) && Accepted(raw[i], Explicit)
      requires Idle() && nodeWaitList == [] && ListOk(Explicits(raw), start)
      modifies this
      ensures ListOk(Plans(raw), start)
    {
      hide ListOk, Accepted, RawPath, ImplicitOf;
      assert Explicits(raw) + Implicit(raw, 0) == Explicits(raw);
      for i := 0 to |raw|
        invariant Idle() && WaitListed(nodeWaitList, raw, i) && ListOk(Explicits(raw) + Implicit(raw, i), start)
      {
        assert Explicits(raw) + Implicit(raw, i + 1) == Explicits(raw) + Implicit(raw, i) + ImplicitOf(raw, i);
        AddImplicit(raw, i, Explicits(raw) + Implicit(raw, i), start);
      }
    }
  }
}
