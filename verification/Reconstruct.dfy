/** The visitor that executes a statement list symbolically, in the imperative form of the tool. */
module Reconstruct {
  import opened Ir
  import opened Statements
  import opened SymbolicExecution

  datatype Operation = Operation(assumptions: seq<Expr>, commitments: Bindings)

  class ReconstructOperations {
    var variableAssignmentMap: Bindings   // current expression of each variable
    var variableMap: set<Var>             // every variable ever seen, mapped to its own operand; kept between operations
    var newExpr: Expr
    var assumptionsList: seq<Expr>
    var isStateVar: bool
    var isWaitOperation: bool
    var returnValue: Option<Expr>
    const dpSignals: set<Var>
    ghost var seen: set<Var>              // the variables known when the operation started

    constructor (dpSignals: set<Var>)
      ensures State() == START && variableMap == {} && !isWaitOperation && this.dpSignals == dpSignals
      ensures Valid()
    {
      variableAssignmentMap, variableMap, newExpr := map[], {}, BoolValue(true);
      assumptionsList, isStateVar, isWaitOperation, returnValue := [], false, false, None;
      this.dpSignals := dpSignals;
      seen := {};
    }

    /** The part of the fields that symbolic execution is about. */
    ghost function State(): Sym
      reads this
    {
      Sym(variableAssignmentMap, assumptionsList, returnValue)
    }

    ghost predicate Valid()
      reads this`variableAssignmentMap, this`variableMap, this`seen
    {
      variableMap == seen + variableAssignmentMap.Keys
    }

    method FindOrAddVariable(v: Var) returns (e: Expr)
      requires Valid()
      modifies this`variableAssignmentMap, this`variableMap
      ensures Valid()
      ensures variableAssignmentMap == Touch(old(variableAssignmentMap), {v})
      ensures e == Lookup(old(variableAssignmentMap), v)
    {
      if v !in variableAssignmentMap {
        variableMap := variableMap + {v};
        variableAssignmentMap := variableAssignmentMap[v := Operand(v)];
      }
      e := variableAssignmentMap[v];
    }

    /** Rewrites e into newExpr and records the variables met. */
    method VisitExpr(e: Expr)
      requires Valid()
      modifies this`variableAssignmentMap, this`variableMap, this`newExpr
      ensures Valid()
      ensures newExpr == Subst(old(variableAssignmentMap), e)
      ensures variableAssignmentMap == Touch(old(variableAssignmentMap), OperandVars(e))
      decreases e, 1
    {
      hide Touch, Valid;
      TouchNone(variableAssignmentMap);
      match e {
        case Operand(v) =>
          if v.kind == Constant {
            newExpr := e;
          } else {
            newExpr := FindOrAddVariable(v);
          }
        case UnaryExpr(op, s) =>
          VisitExpr(s);
          if op == Neg {
            newExpr := Arithmetic(Mul, newExpr, MinusOne(TypeOf(s)));
          } else {
            newExpr := UnaryExpr(op, newExpr);
          }
        case Arithmetic(op, l, r) =>
          var lhs, rhs := VisitBoth(e, l, r);
          newExpr := Arithmetic(op, lhs, rhs);
        case Bitwise(op, l, r) =>
          var lhs, rhs := VisitBoth(e, l, r);
          newExpr := Bitwise(op, lhs, rhs);
        case Logical(op, l, r) =>
          var lhs, rhs := VisitBoth(e, l, r);
          newExpr := Logical(op, lhs, rhs);
        case Relational(op, l, r) =>
          var lhs, rhs := VisitBoth(e, l, r);
          newExpr := Relational(op, lhs, rhs);
        case Cast(t, s) =>
          VisitExpr(s);
          newExpr := Cast(t, newExpr);
        case Ternary(_, _, _) =>
          VisitTernary(e);
        case _ =>
          newExpr := e;
      }
    }

    method VisitBoth(ghost e: Expr, l: Expr, r: Expr) returns (lhs: Expr, rhs: Expr)
      requires Valid() && l < e && r < e
      modifies this`variableAssignmentMap, this`variableMap, this`newExpr
      ensures Valid()
      ensures lhs == Subst(old(variableAssignmentMap), l) && rhs == Subst(old(variableAssignmentMap), r)
      ensures variableAssignmentMap == Touch(old(variableAssignmentMap), OperandVars(l) + OperandVars(r))
      decreases e, 0
    {
      hide Touch, Valid;
      ghost var m := variableAssignmentMap;
      VisitExpr(l);
      lhs := newExpr;
      VisitExpr(r);
      rhs := newExpr;
      SubstTouch(m, OperandVars(l), r);
      TouchTouch(m, OperandVars(l), OperandVars(r));
    }

    method VisitTernary(e: Expr)
      requires Valid() && e.Ternary?
      modifies this`variableAssignmentMap, this`variableMap, this`newExpr
      ensures Valid()
      ensures newExpr == Subst(old(variableAssignmentMap), e)
      ensures variableAssignmentMap == Touch(old(variableAssignmentMap), OperandVars(e))
      decreases e, 0
    {
      hide Touch, Valid;
      ghost var m := variableAssignmentMap;
      VisitExpr(e.cond);
      var cond := newExpr;
      VisitExpr(e.thn);
      var thn := newExpr;
      VisitExpr(e.els);
      newExpr := Ternary(cond, thn, newExpr);
      SubstTouch(m, OperandVars(e.cond), e.thn);
      TouchTouch(m, OperandVars(e.cond), OperandVars(e.thn));
      SubstTouch(m, OperandVars(e.cond) + OperandVars(e.thn), e.els);
      TouchTouch(m, OperandVars(e.cond) + OperandVars(e.thn), OperandVars(e.els));
    }

    /** Gives each target, recorded first, its expression. */
    method BindLeaves(targets: seq<Var>, es: seq<Expr>)
      requires Valid() && |targets| == |es|
      modifies this`variableAssignmentMap, this`variableMap
      ensures Valid()
      ensures variableAssignmentMap == BindAll(old(variableAssignmentMap), targets, es)
    {
      hide Touch, Valid;
      for i := 0 to |targets|
        invariant Valid()
        invariant variableAssignmentMap == BindFirst(old(variableAssignmentMap), targets, es, i)
      {
        Bind(targets[i], es[i]);
      }
    }

    method Bind(v: Var, e: Expr)
      requires Valid()
      modifies this`variableAssignmentMap, this`variableMap
      ensures Valid()
      ensures variableAssignmentMap == old(variableAssignmentMap)[v := e]
    {
      var _ := FindOrAddVariable(v);
      variableAssignmentMap := variableAssignmentMap[v := e];
    }

    method TouchLeaves(o: Object)
      requires Valid()
      modifies this`variableAssignmentMap, this`variableMap
      ensures Valid()
      ensures variableAssignmentMap == Touch(old(variableAssignmentMap), LeafSet(o))
    {
      hide Touch, Valid;
      ghost var m := variableAssignmentMap;
      TouchNone(m);
      for i := 0 to |o.shape|
        invariant Valid()
        invariant variableAssignmentMap == Touch(m, LeavesFirst(o, i))
      {
        var _ := FindOrAddVariable(o.Leaf(i));
        TouchTouch(m, LeavesFirst(o, i), {o.Leaf(i)});
      }
    }

    method CopyLeaves(target: Object, source: Object)
      requires Valid() && target.shape == source.shape
      modifies this`variableAssignmentMap, this`variableMap
      ensures Valid()
      ensures variableAssignmentMap == BindCopy(old(variableAssignmentMap), target, source, |target.shape|)
    {
      hide Touch, Valid;
      for i := 0 to |target.shape|
        invariant Valid()
        invariant variableAssignmentMap == BindCopy(old(variableAssignmentMap), target, source, i)
      {
        var e := FindOrAddVariable(source.Leaf(i));
        Bind(target.Leaf(i), e);
      }
    }

    method SetStatusFlag(p: Port, nonBlocking: bool, status: Option<Var>)
      requires Valid()
      modifies this`variableAssignmentMap, this`variableMap
      ensures Valid()
      ensures variableAssignmentMap == BindStatus(old(variableAssignmentMap), p, nonBlocking, status)
    {
      hide Touch, Valid;
      if nonBlocking && status.Some? {
        Bind(status.value, SyncSignal(p.name));
      }
    }

    /** A compound assignment: by field from another variable or from a value, and nothing else. */
    method VisitAssignCompound(t: Object, rhs: CompoundRhs) returns (err: Option<Error>)
      requires Valid() && StmtOk(AssignCompound(t, rhs))
      modifies this`variableAssignmentMap, this`variableMap
      ensures Outcome(old(State()), AssignCompound(t, rhs), err)
      ensures err.None? ==> Valid()
    {
      hide Touch, Valid;
      TouchNone(variableAssignmentMap);
      TouchLeaves(t);
      if t.shape == [] {
        assert LeafSet(t) == {};
        return None;
      }
      match rhs {
        case CopyOf(o) => CopyLeaves(t, o);
        case Constants(vs) => BindLeaves(t.Leaves(), vs);
        case Computed => return Some(NotAllowed);
      }
      err := None;
    }

    method VisitWrite(p: Port, values: seq<Expr>, nonBlocking: bool, status: Option<Var>)
      requires Valid() && StmtOk(Write(p, values, nonBlocking, status))
      modifies this`variableAssignmentMap, this`variableMap, this`newExpr
      ensures Outcome(old(State()), Write(p, values, nonBlocking, status), None)
      ensures Valid()
    {
      hide Touch, Valid;
      if isWaitOperation {
        TouchLeaves(p.Signal());
        return;
      }
      ghost var m := variableAssignmentMap;
      var es: seq<Expr> := [];
      TouchNone(m);
      for i := 0 to |values|
        invariant Valid() && |es| == i
        invariant es == SubstAll(m, values)[..i]
        invariant variableAssignmentMap == Touch(m, OperandVarsFirst(values, i))
      {
        VisitExpr(values[i]);
        SubstTouch(m, OperandVarsFirst(values, i), values[i]);
        TouchTouch(m, OperandVarsFirst(values, i), OperandVars(values[i]));
        es := es + [newExpr];
      }
      assert es == SubstAll(m, values);
      BindLeaves(p.Signal().Leaves(), es);
      SetStatusFlag(p, nonBlocking, status);
    }

    /** What one visit owes the specification: the next state, or its error. */
    ghost predicate Outcome(before: Sym, s: Stmt, err: Option<Error>)
      requires StmtOk(s)
      reads this
    {
      SymStep(before, s, isWaitOperation) == if err.Some? then Err(err.value) else Ok(State())
    }

    method Visit(s: Stmt) returns (err: Option<Error>)
      requires Valid() && StmtOk(s)
      modifies this`variableAssignmentMap, this`variableMap, this`newExpr, this`assumptionsList, this`returnValue
      ensures Outcome(old(State()), s, err)
      ensures err.None? ==> Valid()
    {
      hide Touch, Valid;
      err := None;
      match s {
        case Assign(v, e) =>
          var _ := FindOrAddVariable(v);
          VisitExpr(e);
          SubstTouch(old(variableAssignmentMap), {v}, e);
          TouchTouch(old(variableAssignmentMap), {v}, OperandVars(e));
          Bind(v, newExpr);
        case AssignCompound(t, rhs) =>
          err := VisitAssignCompound(t, rhs);
        case If(c) =>
          VisitExpr(c);
          assumptionsList := assumptionsList + [newExpr];
        case Read(p, o, nb, status) =>
          BindLeaves(o.Leaves(), OperandsOf(p.Signal().Leaves()));
          SetStatusFlag(p, nb, status);
        case Write(p, vs, nb, status) =>
          VisitWrite(p, vs, nb, status);
        case Return(e) =>
          VisitExpr(e);
          if returnValue.Some? {
            return Some(TwoReturns);
          }
          returnValue := Some(newExpr);
        case _ =>
      }
    }

    method VisitAll(stmts: seq<Stmt>) returns (err: Option<Error>)
      requires Valid() && StmtsOk(stmts)
      modifies this`variableAssignmentMap, this`variableMap, this`newExpr, this`assumptionsList, this`returnValue
      ensures SymRun(old(State()), stmts, isWaitOperation) == if err.Some? then Err(err.value) else Ok(State())
      ensures err.None? ==> Valid()
    {
      hide Touch, Valid;
      for i := 0 to |stmts|
        invariant Valid()
        invariant SymRun(old(State()), stmts, isWaitOperation) == SymRun(State(), stmts[i..], isWaitOperation)
      {
        assert stmts[i..][0] == stmts[i] && stmts[i..][1..] == stmts[i + 1..];
        err := Visit(stmts[i]);
        if err.Some? {
          return;
        }
      }
      err := None;
    }

    /**
     * Reconstructs one operation. Variables seen in earlier operations and not in this one are committed to keep their
     * value, except port signals.
     */
    method SortOperation(stmts: seq<Stmt>, isWait: bool) returns (r: Result<Operation>)
      requires Valid() && StmtsOk(stmts)
      modifies this
      ensures match SymRun(Sym(map[], [], old(returnValue)), stmts, isWait)
        case Err(e) => r == Err(e)
        case Ok(st) =>
          && r.Ok? && Valid()
          && r.value.assumptions == st.assumptions
          && r.value.commitments == Commitments(st.assign, old(variableMap), dpSignals)
          && variableMap == old(variableMap) + st.assign.Keys
      ensures r.Ok? ==> forall v :: v in r.value.commitments <==> IsCommitted(stmts, isWait, old(variableMap), dpSignals, v)
      ensures r.Ok? <==> Executable(stmts) && Returns(stmts) + (if old(returnValue).Some? then 1 else 0) <= 1
    {
      SymRunOk(Sym(map[], [], returnValue), stmts, isWait);
      if SymRun(Sym(map[], [], returnValue), stmts, isWait).Ok? {
        forall v
          ensures v in Commitments(SymRun(Sym(map[], [], returnValue), stmts, isWait).value.assign, variableMap, dpSignals) <==>
            IsCommitted(stmts, isWait, variableMap, dpSignals, v)
        {
          CommitmentsExact(returnValue, stmts, isWait, variableMap, dpSignals, v);
        }
      }
      hide IsCommitted;
      assumptionsList := [];
      variableAssignmentMap := map[];
      seen := variableMap;
      isWaitOperation := isWait;
      var err := VisitAll(stmts);
      isWaitOperation := false;
      if err.Some? {
        return Err(err.value);
      }
      var commitments := map v | v in variableMap && (v in variableAssignmentMap || v !in dpSignals) ::
        if v in variableAssignmentMap then variableAssignmentMap[v] else Operand(v);
      r := Ok(Operation(assumptionsList, commitments));
    }
  }

  /** The commitments of an operation, given the variables seen before it. */
  ghost function Commitments(assign: Bindings, seen: set<Var>, dpSignals: set<Var>): Bindings {
    map v | v in assign.Keys + (seen - dpSignals) :: Lookup(assign, v)
  }

  /**
   * A reconstructed operation says exactly what its path does: its assumptions select the path, each commitment read at
   * the start is the value at the end, and whatever changes is committed.
   */
  lemma OperationExact(stmts: seq<Stmt>, isWait: bool, seen: set<Var>, dpSignals: set<Var>, start: Env)
    requires StmtsOk(stmts) && SymRun(START, stmts, isWait).Ok?
    ensures var st, end := SymRun(START, stmts, isWait).value, Exec(Run(start, None), stmts, isWait).env;
      var c := Commitments(st.assign, seen, dpSignals);
      && (AllHold(st.assumptions, start) <==> Taken(Run(start, None), stmts, isWait))
      && (forall v :: v in c ==> Eval(c[v], start) == end.Get(v))
      && (forall v :: v !in c ==> start.Get(v) == end.Get(v))
      && (forall v :: v in seen && v !in dpSignals ==> v in c)
  {
    SymbolicExecutionExact(stmts, isWait, start);
  }

  lemma TouchNone(m: Bindings)
    ensures Touch(m, {}) == m
  {
  }

  lemma TouchTouch(m: Bindings, a: set<Var>, b: set<Var>)
    ensures Touch(Touch(m, a), b) == Touch(m, a + b)
  {
  }

  /** Identity entries do not change what an expression is rewritten to. */
  lemma {:induction false} SubstTouch(m: Bindings, vs: set<Var>, e: Expr)
    ensures Subst(Touch(m, vs), e) == Subst(m, e)
  {
    match e
    case Operand(v) =>
    case UnaryExpr(_, s) => SubstTouch(m, vs, s);
    case Arithmetic(_, l, r) => SubstTouch(m, vs, l); SubstTouch(m, vs, r);
    case Bitwise(_, l, r) => SubstTouch(m, vs, l); SubstTouch(m, vs, r);
    case Logical(_, l, r) => SubstTouch(m, vs, l); SubstTouch(m, vs, r);
    case Relational(_, l, r) => SubstTouch(m, vs, l); SubstTouch(m, vs, r);
    case Cast(_, s) => SubstTouch(m, vs, s);
    case Ternary(c, t, f) => SubstTouch(m, vs, c); SubstTouch(m, vs, t); SubstTouch(m, vs, f);
    case _ =>
  }

  // ---------- Which variables are committed ----------

  /** The expression reads v, which is no constant. */
  predicate Occurs(v: Var, e: Expr) {
    match e
    case Operand(u) => u == v && v.kind != Constant
    case UnaryExpr(_, s) => Occurs(v, s)
    case Cast(_, s) => Occurs(v, s)
    case Arithmetic(_, l, r) => Occurs(v, l) || Occurs(v, r)
    case Bitwise(_, l, r) => Occurs(v, l) || Occurs(v, r)
    case Logical(_, l, r) => Occurs(v, l) || Occurs(v, r)
    case Relational(_, l, r) => Occurs(v, l) || Occurs(v, r)
    case Ternary(c, t, f) => Occurs(v, c) || Occurs(v, t) || Occurs(v, f)
    case _ => false
  }

  /** v is the object or one of its fields. */
  predicate IsLeaf(v: Var, o: Object) {
    exists i :: 0 <= i < |o.shape| && v == o.Leaf(i)
  }

  predicate IsStatus(v: Var, nonBlocking: bool, status: Option<Var>) {
    nonBlocking && status == Some(v)
  }

  /** The statement reads or assigns v. A write of an operation that waits only names its port. */
  predicate Mentions(s: Stmt, v: Var, waiting: bool) {
    match s
    case Assign(u, e) => v == u || Occurs(v, e)
    case AssignCompound(t, rhs) => IsLeaf(v, t) || (rhs.CopyOf? && IsLeaf(v, rhs.source))
    case If(c) => Occurs(v, c)
    case Read(_, o, nb, status) => IsLeaf(v, o) || IsStatus(v, nb, status)
    case Write(p, vs, nb, status) =>
      IsLeaf(v, p.Signal()) || (!waiting && ((exists i :: 0 <= i < |vs| && Occurs(v, vs[i])) || IsStatus(v, nb, status)))
    case Return(e) => Occurs(v, e)
    case _ => false
  }

  lemma {:induction false} OccursExact(v: Var, e: Expr)
    ensures v in OperandVars(e) <==> Occurs(v, e)
  {
    match e
    case UnaryExpr(_, s) => OccursExact(v, s);
    case Cast(_, s) => OccursExact(v, s);
    case Arithmetic(_, l, r) => OccursExact(v, l); OccursExact(v, r);
    case Bitwise(_, l, r) => OccursExact(v, l); OccursExact(v, r);
    case Logical(_, l, r) => OccursExact(v, l); OccursExact(v, r);
    case Relational(_, l, r) => OccursExact(v, l); OccursExact(v, r);
    case Ternary(c, t, f) => OccursExact(v, c); OccursExact(v, t); OccursExact(v, f);
    case _ =>
  }

  lemma {:induction false} OccursFirst(v: Var, es: seq<Expr>, n: nat)
    requires n <= |es|
    ensures v in OperandVarsFirst(es, n) <==> exists i :: 0 <= i < n && Occurs(v, es[i])
    decreases n
  {
    hide OperandVars, Occurs;
    if n > 0 {
      OccursFirst(v, es, n - 1);
      OccursExact(v, es[n - 1]);
    }
  }

  lemma {:induction false} LeavesExact(v: Var, o: Object, n: nat)
    requires n <= |o.shape|
    ensures v in LeavesFirst(o, n) <==> exists i :: 0 <= i < n && v == o.Leaf(i)
    decreases n
  {
    if n > 0 { LeavesExact(v, o, n - 1); }
  }

  lemma {:induction false} BindKeys(m: Bindings, targets: seq<Var>, es: seq<Expr>, n: nat, v: Var)
    requires |targets| == |es| && n <= |targets|
    ensures v in BindFirst(m, targets, es, n) <==> v in m || exists i :: 0 <= i < n && v == targets[i]
    decreases n
  {
    if n > 0 { BindKeys(m, targets, es, n - 1, v); }
  }

  lemma {:induction false} CopyKeys(m: Bindings, t: Object, o: Object, n: nat, v: Var)
    requires t.shape == o.shape && n <= |t.shape|
    ensures v in BindCopy(m, t, o, n) <==> v in m || exists i :: 0 <= i < n && (v == t.Leaf(i) || v == o.Leaf(i))
    decreases n
  {
    if n > 0 { CopyKeys(m, t, o, n - 1, v); }
  }

  /** Binding the fields of an object makes exactly these known. */
  lemma BindLeafKeys(m: Bindings, o: Object, es: seq<Expr>, v: Var)
    requires |es| == |o.shape|
    ensures v in BindAll(m, o.Leaves(), es) <==> v in m || IsLeaf(v, o)
  {
    BindKeys(m, o.Leaves(), es, |es|, v);
    hide BindFirst;
    if IsLeaf(v, o) {
      var i :| 0 <= i < |o.shape| && v == o.Leaf(i);
      assert o.Leaves()[i] == v;
    }
  }

  lemma CopyLeafKeys(m: Bindings, t: Object, o: Object, v: Var)
    requires t.shape == o.shape
    ensures v in BindCopy(m, t, o, |t.shape|) <==> v in m || IsLeaf(v, t) || IsLeaf(v, o)
  {
    CopyKeys(m, t, o, |t.shape|, v);
  }

  ghost predicate IsCommitted(stmts: seq<Stmt>, isWait: bool, seen: set<Var>, dpSignals: set<Var>, v: Var) {
    (exists i :: 0 <= i < |stmts| && Mentions(stmts[i], v, isWait)) || (v in seen && v !in dpSignals)
  }

  /** One statement makes exactly the variables known that it mentions. */
  lemma StepKeys(st: Sym, s: Stmt, waiting: bool, v: Var)
    requires StmtOk(s) && SymStep(st, s, waiting).Ok?
    ensures v in SymStep(st, s, waiting).value.assign <==> v in st.assign || Mentions(s, v, waiting)
  {
    hide WellTyped, TypeOf, OperandVars, Occurs, Subst, BindFirst, BindCopy, LeavesFirst, OperandVarsFirst, BindAll;
    match s
    case Assign(_, e) => OccursExact(v, e);
    case If(c) => OccursExact(v, c);
    case Return(e) => OccursExact(v, e);
    case AssignCompound(t, rhs) =>
      LeavesExact(v, t, |t.shape|);
      CompoundKeys(st.assign, t, rhs, v);
    case Read(p, o, _, _) => BindLeafKeys(st.assign, o, OperandsOf(p.Signal().Leaves()), v);
    case Write(p, vs, _, _) =>
      LeavesExact(v, p.Signal(), |p.shape|);
      OccursFirst(v, vs, |vs|);
      BindLeafKeys(Touch(st.assign, OperandVarsAll(vs)), p.Signal(), SubstAll(st.assign, vs), v);
    case _ =>
  }

  lemma CompoundKeys(m: Bindings, t: Object, rhs: CompoundRhs, v: Var)
    requires StmtOk(AssignCompound(t, rhs))
    ensures rhs.CopyOf? ==> (v in BindCopy(Touch(m, LeafSet(t)), t, rhs.source, |t.shape|) <==>
      v in Touch(m, LeafSet(t)) || IsLeaf(v, t) || IsLeaf(v, rhs.source))
    ensures rhs.Constants? ==> (v in BindAll(Touch(m, LeafSet(t)), t.Leaves(), rhs.values) <==> v in Touch(m, LeafSet(t)) || IsLeaf(v, t))
  {
    if rhs.CopyOf? { CopyLeafKeys(Touch(m, LeafSet(t)), t, rhs.source, v); }
    if rhs.Constants? { BindLeafKeys(Touch(m, LeafSet(t)), t, rhs.values, v); }
  }

  lemma {:induction false} RunKeys(st: Sym, stmts: seq<Stmt>, waiting: bool, v: Var)
    requires StmtsOk(stmts) && SymRun(st, stmts, waiting).Ok?
    ensures v in SymRun(st, stmts, waiting).value.assign <==>
      v in st.assign || exists i :: 0 <= i < |stmts| && Mentions(stmts[i], v, waiting)
    decreases |stmts|
  {
    hide SymStep, Mentions, StmtOk;
    if stmts != [] {
      StepKeys(st, stmts[0], waiting, v);
      RunKeys(SymStep(st, stmts[0], waiting).value, stmts[1..], waiting, v);
      assert forall i :: 0 < i < |stmts| ==> stmts[i] == stmts[1..][i - 1];
      if exists i :: 0 <= i < |stmts[1..]| && Mentions(stmts[1..][i], v, waiting) {
        var i :| 0 <= i < |stmts[1..]| && Mentions(stmts[1..][i], v, waiting);
        assert stmts[i + 1] == stmts[1..][i];
      }
    }
  }

  /**
   * The commitments of an operation: a variable is committed exactly when a statement reads or assigns it, or when it was
   * seen before and is no port signal.
   */
  lemma CommitmentsExact(ret: Option<Expr>, stmts: seq<Stmt>, isWait: bool, seen: set<Var>, dpSignals: set<Var>, v: Var)
    requires StmtsOk(stmts) && SymRun(Sym(map[], [], ret), stmts, isWait).Ok?
    ensures v in Commitments(SymRun(Sym(map[], [], ret), stmts, isWait).value.assign, seen, dpSignals) <==>
      IsCommitted(stmts, isWait, seen, dpSignals, v)
  {
    RunKeys(Sym(map[], [], ret), stmts, isWait, v);
    hide SymRun, Mentions;
  }

  // ---------- What an operation depends on ----------

  /** The environments differ in v at most. */
  ghost predicate SameBut(v: Var, a: Env, b: Env) {
    && a.sync == b.sync && a.wordNot == b.wordNot
    && forall u: Var :: u != v ==> a.Get(u) == b.Get(u)
  }

  /** The statement takes v from its port: a signal coming in is read and not committed. */
  predicate TakesIn(s: Stmt, v: Var) {
    s.Read? && IsLeaf(v, s.port.Signal())
  }

  lemma {:induction false} EvalBut(v: Var, e: Expr, a: Env, b: Env)
    requires SameBut(v, a, b) && v.kind != Constant && !Occurs(v, e)
    ensures Eval(e, a) == Eval(e, b)
  {
    hide ArithWord, BitWord, RelFlag, LogicFlag, UnaryValue;
    match e
    case UnaryExpr(_, s) => EvalBut(v, s, a, b);
    case Cast(_, s) => EvalBut(v, s, a, b);
    case Arithmetic(_, l, r) => EvalBut(v, l, a, b); EvalBut(v, r, a, b);
    case Bitwise(_, l, r) => EvalBut(v, l, a, b); EvalBut(v, r, a, b);
    case Logical(_, l, r) => EvalBut(v, l, a, b); EvalBut(v, r, a, b);
    case Relational(_, l, r) => EvalBut(v, l, a, b); EvalBut(v, r, a, b);
    case Ternary(c, t, f) => EvalBut(v, c, a, b); EvalBut(v, t, a, b); EvalBut(v, f, a, b);
    case _ =>
  }

  lemma EvalAllBut(v: Var, es: seq<Expr>, a: Env, b: Env)
    requires SameBut(v, a, b) && v.kind != Constant && forall i :: 0 <= i < |es| ==> !Occurs(v, es[i])
    ensures EvalAll(es, a) == EvalAll(es, b)
  {
    hide Eval, SameBut, Occurs;
    forall i | 0 <= i < |es| ensures Eval(es[i], a) == Eval(es[i], b) { EvalBut(v, es[i], a, b); }
  }

  lemma SetBut(v: Var, u: Var, x: Value, a: Env, b: Env)
    requires SameBut(v, a, b)
    ensures SameBut(v, a.Set(u, x), b.Set(u, x)) && (u != v ==> a.Set(u, x).Get(v) == a.Get(v))
  {
    forall w: Var | w != v ensures a.Set(u, x).Get(w) == b.Set(u, x).Get(w) {
      assert a.Get(w) == b.Get(w);
    }
  }

  lemma {:induction false} SetFirstBut(v: Var, us: seq<Var>, xs: seq<Value>, n: nat, a: Env, b: Env)
    requires SameBut(v, a, b) && |us| == |xs| && n <= |us| && forall i :: 0 <= i < |us| ==> us[i] != v
    ensures SameBut(v, SetFirst(a, us, xs, n), SetFirst(b, us, xs, n)) && SetFirst(a, us, xs, n).Get(v) == a.Get(v)
    decreases n
  {
    hide SameBut;
    if n > 0 {
      SetFirstBut(v, us, xs, n - 1, a, b);
      SetBut(v, us[n - 1], xs[n - 1], SetFirst(a, us, xs, n - 1), SetFirst(b, us, xs, n - 1));
    }
  }

  lemma {:induction false} CopyFirstBut(v: Var, t: Object, o: Object, n: nat, a: Env, b: Env)
    requires SameBut(v, a, b) && t.shape == o.shape && n <= |t.shape| && !IsLeaf(v, t) && !IsLeaf(v, o)
    ensures SameBut(v, CopyFirst(a, t, o, n), CopyFirst(b, t, o, n)) && CopyFirst(a, t, o, n).Get(v) == a.Get(v)
    decreases n
  {
    if n > 0 {
      CopyFirstBut(v, t, o, n - 1, a, b);
      var x, y := CopyFirst(a, t, o, n - 1), CopyFirst(b, t, o, n - 1);
      assert o.Leaf(n - 1) != v && t.Leaf(n - 1) != v && x.Get(o.Leaf(n - 1)) == y.Get(o.Leaf(n - 1));
      hide SameBut;
      SetBut(v, t.Leaf(n - 1), x.Get(o.Leaf(n - 1)), x, y);
    }
  }

  /** The fields of an object that v is none of. */
  lemma LeavesBut(v: Var, o: Object, xs: seq<Value>, a: Env, b: Env)
    requires SameBut(v, a, b) && |xs| == |o.shape| && !IsLeaf(v, o)
    ensures SameBut(v, SetAll(a, o.Leaves(), xs), SetAll(b, o.Leaves(), xs)) && SetAll(a, o.Leaves(), xs).Get(v) == a.Get(v)
  {
    hide SameBut;
    SetFirstBut(v, o.Leaves(), xs, |xs|, a, b);
  }

  lemma StatusBut(v: Var, p: Port, nb: bool, status: Option<Var>, a: Env, b: Env)
    requires SameBut(v, a, b) && !IsStatus(v, nb, status)
    ensures SameBut(v, SetStatus(a, p, nb, status), SetStatus(b, p, nb, status)) && SetStatus(a, p, nb, status).Get(v) == a.Get(v)
  {
    if nb && status.Some? { SetBut(v, status.value, Flag(p.name in a.sync), a, b); }
    hide SameBut;
  }

  ghost predicate RunsBut(v: Var, p: Run, q: Run) {
    SameBut(v, p.env, q.env) && p.ret == q.ret
  }

  /** A statement that does not mention v does the same whatever v is, and leaves v alone. */
  lemma StepBut(v: Var, s: Stmt, waiting: bool, p: Run, q: Run)
    requires StmtOk(s) && v.kind != Constant && RunsBut(v, p, q) && !Mentions(s, v, waiting) && !TakesIn(s, v)
    ensures RunsBut(v, Step(p, s, waiting), Step(q, s, waiting)) && Step(p, s, waiting).env.Get(v) == p.env.Get(v)
    ensures s.If? ==> (Holds(s.cond, p.env) <==> Holds(s.cond, q.env))
  {
    hide SameBut, Occurs, Eval, WellTyped, TypeOf, IsLeaf, SetAll, SetStatus;
    var a, b := p.env, q.env;
    match s
    case Assign(u, e) => EvalBut(v, e, a, b); SetBut(v, u, Eval(e, a), a, b);
    case If(c) => EvalBut(v, c, a, b);
    case Return(e) => EvalBut(v, e, a, b);
    case AssignCompound(t, CopyOf(o)) => CopyFirstBut(v, t, o, |t.shape|, a, b);
    case AssignCompound(t, Constants(xs)) =>
      ConstantsBut(v, xs, a, b);
      LeavesBut(v, t, EvalAll(xs, a), a, b);
    case Read(port, o, nb, status) =>
      SignalBut(v, port, a, b);
      var xs := EvalAll(OperandsOf(port.Signal().Leaves()), a);
      LeavesBut(v, o, xs, a, b);
      StatusBut(v, port, nb, status, SetAll(a, o.Leaves(), xs), SetAll(b, o.Leaves(), xs));
    case Write(port, xs, nb, status) =>
      if !waiting {
        EvalAllBut(v, xs, a, b);
        LeavesBut(v, port.Signal(), EvalAll(xs, a), a, b);
        var us := port.Signal().Leaves();
        StatusBut(v, port, nb, status, SetAll(a, us, EvalAll(xs, a)), SetAll(b, us, EvalAll(xs, a)));
      }
    case _ =>
  }

  lemma ConstantsBut(v: Var, xs: seq<Expr>, a: Env, b: Env)
    requires SameBut(v, a, b) && forall i :: 0 <= i < |xs| ==> IsLiteral(xs[i])
    ensures EvalAll(xs, a) == EvalAll(xs, b)
  {
  }

  lemma SignalBut(v: Var, port: Port, a: Env, b: Env)
    requires SameBut(v, a, b) && !IsLeaf(v, port.Signal())
    ensures var es := OperandsOf(port.Signal().Leaves()); EvalAll(es, a) == EvalAll(es, b)
  {
    var es := OperandsOf(port.Signal().Leaves());
    forall i | 0 <= i < |es| ensures Eval(es[i], a) == Eval(es[i], b) {
      assert port.Signal().Leaf(i) != v;
    }
  }

  lemma {:induction false} ExecBut(v: Var, stmts: seq<Stmt>, waiting: bool, p: Run, q: Run)
    requires StmtsOk(stmts) && v.kind != Constant && RunsBut(v, p, q)
    requires forall i :: 0 <= i < |stmts| ==> !Mentions(stmts[i], v, waiting) && !TakesIn(stmts[i], v)
    ensures Taken(p, stmts, waiting) <==> Taken(q, stmts, waiting)
    ensures RunsBut(v, Exec(p, stmts, waiting), Exec(q, stmts, waiting)) && Exec(p, stmts, waiting).env.Get(v) == p.env.Get(v)
    decreases |stmts|
  {
    hide RunsBut, Mentions, TakesIn, Step, StmtOk, Holds;
    if stmts != [] {
      StepBut(v, stmts[0], waiting, p, q);
      ExecBut(v, stmts[1..], waiting, Step(p, stmts[0], waiting), Step(q, stmts[0], waiting));
    }
  }

  /**
   * No dependence is missed: if what an operation does depends on the value of v at its start, then v is committed, or it is a
   * signal that a port brings in, or a constant.
   */
  lemma DependenceCommitted(stmts: seq<Stmt>, isWait: bool, seen: set<Var>, dpSignals: set<Var>, v: Var, a: Env, b: Env)
    requires StmtsOk(stmts) && SymRun(START, stmts, isWait).Ok? && SameBut(v, a, b)
    requires var p, q := Run(a, None), Run(b, None);
      || Taken(p, stmts, isWait) != Taken(q, stmts, isWait)
      || Exec(p, stmts, isWait).ret != Exec(q, stmts, isWait).ret
      || exists u: Var :: u != v && Exec(p, stmts, isWait).env.Get(u) != Exec(q, stmts, isWait).env.Get(u)
    ensures || v in Commitments(SymRun(START, stmts, isWait).value.assign, seen, dpSignals)
            || v.kind == Constant || exists i :: 0 <= i < |stmts| && TakesIn(stmts[i], v)
  {
    CommitmentsExact(None, stmts, isWait, seen, dpSignals, v);
    var p, q := Run(a, None), Run(b, None);
    hide Taken, Exec, SymRun, Mentions, TakesIn, Commitments;
    if v.kind != Constant && forall i :: 0 <= i < |stmts| ==> !Mentions(stmts[i], v, isWait) && !TakesIn(stmts[i], v) {
      ExecBut(v, stmts, isWait, p, q);
    }
  }
}
