/** What symbolic execution of a path computes, and that it is exact. */
module SymbolicExecution {
  import opened Ir
  import opened Statements

  type Bindings = map<Var, Expr>

  /** The conditions met on the way, the current expression of every variable seen, the returned expression. */
  datatype Sym = Sym(assign: Bindings, assumptions: seq<Expr>, ret: Option<Expr>)

  const START := Sym(map[], [], None)

  // ---------- Rewriting an expression in terms of the start values ----------

  function Lookup(m: Bindings, v: Var): Expr {
    if v in m then m[v] else Operand(v)
  }

  /** m with an identity entry for every variable of vs it lacks. */
  function Touch(m: Bindings, vs: set<Var>): (r: Bindings)
    ensures r.Keys == m.Keys + vs
  {
    map v | v in m.Keys + vs :: if v in m then m[v] else Operand(v)
  }

  function OperandVars(e: Expr): set<Var> {
    match e
    case Operand(v) => if v.kind == Constant then {} else {v}
    case UnaryExpr(_, s) => OperandVars(s)
    case Arithmetic(_, l, r) => OperandVars(l) + OperandVars(r)
    case Bitwise(_, l, r) => OperandVars(l) + OperandVars(r)
    case Logical(_, l, r) => OperandVars(l) + OperandVars(r)
    case Relational(_, l, r) => OperandVars(l) + OperandVars(r)
    case Cast(_, s) => OperandVars(s)
    case Ternary(c, t, f) => OperandVars(c) + OperandVars(t) + OperandVars(f)
    case _ => {}
  }

  function MinusOne(t: Type): Expr {
    if t == TUnsigned then UnsignedValue(0xFFFF_FFFF) else IntegerValue(0xFFFF_FFFF)
  }

  function Subst(m: Bindings, e: Expr): Expr {
    match e
    case Operand(v) => if v.kind == Constant then e else Lookup(m, v)
    case UnaryExpr(Neg, s) => Arithmetic(Mul, Subst(m, s), MinusOne(TypeOf(s)))
    case UnaryExpr(op, s) => UnaryExpr(op, Subst(m, s))
    case Arithmetic(op, l, r) => Arithmetic(op, Subst(m, l), Subst(m, r))
    case Bitwise(op, l, r) => Bitwise(op, Subst(m, l), Subst(m, r))
    case Logical(op, l, r) => Logical(op, Subst(m, l), Subst(m, r))
    case Relational(op, l, r) => Relational(op, Subst(m, l), Subst(m, r))
    case Cast(t, s) => Cast(t, Subst(m, s))
    case Ternary(c, t, f) => Ternary(Subst(m, c), Subst(m, t), Subst(m, f))
    case _ => e
  }

  function SubstAll(m: Bindings, es: seq<Expr>): (rs: seq<Expr>)
    ensures |rs| == |es|
  {
    seq(|es|, i requires 0 <= i < |es| => Subst(m, es[i]))
  }

  function OperandVarsFirst(es: seq<Expr>, n: nat): set<Var>
    requires n <= |es|
  {
    if n == 0 then {} else OperandVarsFirst(es, n - 1) + OperandVars(es[n - 1])
  }

  function OperandVarsAll(es: seq<Expr>): set<Var> { OperandVarsFirst(es, |es|) }

  // ---------- Statements ----------

  /** The first n targets bound to the first n expressions, in order. */
  function BindFirst(m: Bindings, targets: seq<Var>, es: seq<Expr>, n: nat): Bindings
    requires |targets| == |es| && n <= |targets|
  {
    if n == 0 then m else BindFirst(m, targets, es, n - 1)[targets[n - 1] := es[n - 1]]
  }

  function BindAll(m: Bindings, targets: seq<Var>, es: seq<Expr>): Bindings
    requires |targets| == |es|
  {
    BindFirst(m, targets, es, |targets|)
  }

  function BindCopy(m: Bindings, target: Object, source: Object, n: nat): Bindings
    requires target.shape == source.shape && n <= |target.shape|
  {
    if n == 0 then m
    else
      var before, v := BindCopy(m, target, source, n - 1), source.Leaf(n - 1);
      Touch(before, {v})[target.Leaf(n - 1) := Lookup(before, v)]
  }

  function BindStatus(m: Bindings, p: Port, nonBlocking: bool, status: Option<Var>): Bindings {
    if nonBlocking && status.Some? then m[status.value := SyncSignal(p.name)] else m
  }

  function LeavesFirst(o: Object, n: nat): set<Var>
    requires n <= |o.shape|
  {
    if n == 0 then {} else LeavesFirst(o, n - 1) + {o.Leaf(n - 1)}
  }

  function LeafSet(o: Object): set<Var> { LeavesFirst(o, |o.shape|) }

  function SymStep(st: Sym, s: Stmt, waiting: bool): Result<Sym>
    requires StmtOk(s)
  {
    match s
    case Assign(v, e) =>
      Ok(st.(assign := Touch(st.assign, {v} + OperandVars(e))[v := Subst(st.assign, e)]))
    case AssignCompound(t, rhs) =>
      var m := Touch(st.assign, LeafSet(t));
      if t.shape == [] then Ok(st)
      else (match rhs
        case CopyOf(o) => Ok(st.(assign := BindCopy(m, t, o, |t.shape|)))
        case Constants(vs) => Ok(st.(assign := BindAll(m, t.Leaves(), vs)))
        case Computed => Err(NotAllowed))
    case AssignSection(_) => Ok(st)
    case If(c) => Ok(st.(assign := Touch(st.assign, OperandVars(c)), assumptions := st.assumptions + [Subst(st.assign, c)]))
    case Read(p, o, nb, status) =>
      var m := BindAll(st.assign, o.Leaves(), OperandsOf(p.Signal().Leaves()));
      Ok(st.(assign := BindStatus(m, p, nb, status)))
    case Write(p, vs, nb, status) =>
      if waiting then Ok(st.(assign := Touch(st.assign, LeafSet(p.Signal()))))
      else
        var m := BindAll(Touch(st.assign, OperandVarsAll(vs)), p.Signal().Leaves(), SubstAll(st.assign, vs));
        Ok(st.(assign := BindStatus(m, p, nb, status)))
    case Return(e) =>
      if st.ret.Some? then Err(TwoReturns)
      else Ok(st.(assign := Touch(st.assign, OperandVars(e)), ret := Some(Subst(st.assign, e))))
    case While => Ok(st)
    case Wait => Ok(st)
  }

  function SymRun(st: Sym, stmts: seq<Stmt>, waiting: bool): Result<Sym>
    requires StmtsOk(stmts)
    decreases |stmts|
  {
    if stmts == [] then Ok(st)
    else match SymStep(st, stmts[0], waiting)
      case Err(e) => Err(e)
      case Ok(next) => SymRun(next, stmts[1..], waiting)
  }

  // ---------- When it succeeds ----------

  /** Compounds are assigned in the supported ways only. */
  predicate Executable(p: seq<Stmt>) {
    forall i :: 0 <= i < |p| && p[i].AssignCompound? && p[i].target.shape != [] ==> !p[i].value.Computed?
  }

  function Returns(p: seq<Stmt>): nat {
    if p == [] then 0 else (if p[0].Return? then 1 else 0) + Returns(p[1..])
  }

  /** Symbolic execution throws exactly for an unsupported compound assignment and for a second return. */
  lemma {:induction false} SymRunOk(st: Sym, p: seq<Stmt>, waiting: bool)
    requires StmtsOk(p)
    ensures var n := Returns(p) + if st.ret.Some? then 1 else 0;
      && (SymRun(st, p, waiting).Ok? <==> Executable(p) && n <= 1)
      && (SymRun(st, p, waiting).Ok? ==> (SymRun(st, p, waiting).value.ret.Some? <==> n == 1))
    decreases |p|
  {
    if p != [] {
      ExecutableTail(p);
      var head := SymStep(st, p[0], waiting);
      if head.Ok? { SymRunOk(head.value, p[1..], waiting); }
    }
  }

  lemma ExecutableTail(p: seq<Stmt>)
    requires p != []
    ensures Executable(p) <==> Executable(p[..1]) && Executable(p[1..])
    ensures Executable(p[..1]) <==> (p[0].AssignCompound? && p[0].target.shape != [] ==> !p[0].value.Computed?)
  {
    assert forall i :: 0 < i < |p| ==> p[i] == p[1..][i - 1];
    if Executable(p) {
      forall i | 0 <= i < |p[1..]| && p[1..][i].AssignCompound? && p[1..][i].target.shape != []
        ensures !p[1..][i].value.Computed?
      {
        assert p[1..][i] == p[i + 1];
      }
    }
    assert p[..1][0] == p[0];
  }

  // ---------- Exactness ----------

  /** Every entry has the type of its variable, and constants and inputs stand for themselves. */
  ghost predicate Typed(m: Bindings) {
    forall v :: v in m ==>
      && WellTyped(m[v]) && TypeOf(m[v]) == v.typ
      && (v.kind == InSignal || v.kind == Constant ==> m[v] == Operand(v))
  }

  /** Read in the start environment, the bindings give the current value of every variable. */
  ghost predicate Agree(m: Bindings, start: Env, now: Env) {
    && Typed(m)
    && now.sync == start.sync && now.wordNot == start.wordNot
    && forall v :: Eval(Lookup(m, v), start) == now.Get(v)
  }

  ghost predicate Agrees(st: Sym, start: Env, r: Run) {
    && Agree(st.assign, start, r.env)
    && (r.ret.Some? <==> st.ret.Some?)
    && (st.ret.Some? ==> r.ret.value == Eval(st.ret.value, start))
  }

  lemma {:induction false} SubstTyped(m: Bindings, e: Expr)
    requires Typed(m) && WellTyped(e)
    ensures WellTyped(Subst(m, e)) && TypeOf(Subst(m, e)) == TypeOf(e)
  {
    match e
    case UnaryExpr(_, s) => SubstTyped(m, s);
    case Arithmetic(_, l, r) => SubstTyped(m, l); SubstTyped(m, r);
    case Bitwise(_, l, r) => SubstTyped(m, l); SubstTyped(m, r);
    case Logical(_, l, r) => SubstTyped(m, l); SubstTyped(m, r);
    case Relational(_, l, r) => SubstTyped(m, l); SubstTyped(m, r);
    case Cast(_, s) => SubstTyped(m, s);
    case Ternary(c, t, f) => SubstTyped(m, c); SubstTyped(m, t); SubstTyped(m, f);
    case _ =>
  }

  lemma TimesMinusOne(w: bv32, signed: bool)
    ensures ArithWord(Mul, signed, w, 0xFFFF_FFFF) == Negate(w)
  {
  }

  lemma LeafExact(m: Bindings, start: Env, now: Env, v: Var)
    requires Agree(m, start, now)
    ensures Typed(m) && WellTyped(Lookup(m, v)) && TypeOf(Lookup(m, v)) == v.typ
    ensures Eval(Lookup(m, v), start) == now.Get(v)
    ensures v.kind == Constant ==> Lookup(m, v) == Operand(v)
    ensures now.sync == start.sync && now.wordNot == start.wordNot
  {
  }

  lemma NegExact(m: Bindings, s: Expr, start: Env, now: Env)
    requires TypeOf(Subst(m, s)) == TypeOf(s) && Eval(s, now).Word? && Eval(Subst(m, s), start) == Eval(s, now)
    ensures Eval(Subst(m, UnaryExpr(Neg, s)), start) == Eval(UnaryExpr(Neg, s), now)
  {
    hide ArithWord, Negate;
    TimesMinusOne(Eval(s, now).w, TypeOf(s) == TInt);
  }

  lemma BinaryExact(m: Bindings, e: Expr, start: Env, now: Env)
    requires Agree(m, start, now) && WellTyped(e) && (e.Arithmetic? || e.Bitwise? || e.Relational?)
    requires Eval(Subst(m, e.lhs), start) == Eval(e.lhs, now) && Eval(Subst(m, e.rhs), start) == Eval(e.rhs, now)
    ensures Eval(Subst(m, e), start) == Eval(e, now)
  {
    assert Typed(m);
    hide ArithWord, BitWord, RelFlag, Agree, Typed, Fits;
    SubstTyped(m, e.lhs);
  }

  lemma UnaryExact(m: Bindings, op: UnaryOp, s: Expr, start: Env, now: Env)
    requires Typed(m) && now.wordNot == start.wordNot
    requires WellTyped(UnaryExpr(op, s)) && Eval(Subst(m, s), start) == Eval(s, now)
    ensures Eval(Subst(m, UnaryExpr(op, s)), start) == Eval(UnaryExpr(op, s), now)
  {
    hide ArithWord, UnaryValue, Typed, Lookup;
    if op == Neg {
      SubstTyped(m, s);
      WordOf(s, now);
      NegExact(m, s, start, now);
    }
  }

  /** The rewritten expression has, at the start, the value the expression has now. */
  lemma {:induction false} SubstExact(m: Bindings, e: Expr, start: Env, now: Env)
    requires Agree(m, start, now) && WellTyped(e)
    ensures Eval(Subst(m, e), start) == Eval(e, now)
  {
    LeafExact(m, start, now, if e.Operand? then e.v else Var(Variable, "", "", TBool));
    hide Eval, Subst, Agree, Typed, Lookup, Fits;
    match e
    case UnaryExpr(op, s) => SubstExact(m, s, start, now); UnaryExact(m, op, s, start, now);
    case Arithmetic(_, l, r) => SubstExact(m, l, start, now); SubstExact(m, r, start, now); BinaryExact(m, e, start, now);
    case Bitwise(_, l, r) => SubstExact(m, l, start, now); SubstExact(m, r, start, now); BinaryExact(m, e, start, now);
    case Relational(_, l, r) => SubstExact(m, l, start, now); SubstExact(m, r, start, now); BinaryExact(m, e, start, now);
    case Logical(_, l, r) => SubstExact(m, l, start, now); SubstExact(m, r, start, now); PartsExact(m, e, start, now);
    case Cast(_, s) => SubstExact(m, s, start, now); PartsExact(m, e, start, now);
    case Ternary(c, t, f) =>
      SubstExact(m, c, start, now); SubstExact(m, t, start, now); SubstExact(m, f, start, now);
      PartsExact(m, e, start, now);
    case _ => PartsExact(m, e, start, now);
  }

  /** The nodes whose value needs no type, and the leaves. */
  lemma PartsExact(m: Bindings, e: Expr, start: Env, now: Env)
    requires !e.UnaryExpr? && !e.Arithmetic? && !e.Bitwise? && !e.Relational? && now.sync == start.sync
    requires e.Operand? ==> Eval(Lookup(m, e.v), start) == now.Get(e.v) && (e.v.kind == Constant ==> Lookup(m, e.v) == e)
    requires e.Logical? ==> Eval(Subst(m, e.lhs), start) == Eval(e.lhs, now) && Eval(Subst(m, e.rhs), start) == Eval(e.rhs, now)
    requires e.Cast? ==> Eval(Subst(m, e.sub), start) == Eval(e.sub, now)
    requires e.Ternary? ==>
      && Eval(Subst(m, e.cond), start) == Eval(e.cond, now)
      && Eval(Subst(m, e.thn), start) == Eval(e.thn, now)
      && Eval(Subst(m, e.els), start) == Eval(e.els, now)
    ensures Eval(Subst(m, e), start) == Eval(e, now)
  {
    hide LogicFlag, Lookup;
  }

  lemma TouchAgree(m: Bindings, vs: set<Var>, start: Env, now: Env)
    requires Agree(m, start, now)
    ensures Agree(Touch(m, vs), start, now)
  {
    forall v ensures Lookup(Touch(m, vs), v) == Lookup(m, v) {}
  }

  lemma BindAgree(m: Bindings, v: Var, e: Expr, start: Env, now: Env)
    requires Agree(m, start, now) && WellTyped(e) && TypeOf(e) == v.typ
    requires v.kind != Constant && v.kind != InSignal
    ensures Agree(m[v := e], start, now.Set(v, Eval(e, start)))
  {
    EvalFits(e, start);
    forall u ensures Eval(Lookup(m[v := e], u), start) == now.Set(v, Eval(e, start)).Get(u) {
      if u != v {
        assert Lookup(m[v := e], u) == Lookup(m, u);
        assert now.Set(v, Eval(e, start)).Get(u) == now.Get(u);
      }
    }
  }

  lemma {:induction false} BindFirstAgree(
      m: Bindings, targets: seq<Var>, es: seq<Expr>, vals: seq<Value>, n: nat, start: Env, now: Env)
    requires Agree(m, start, now) && n <= |targets| == |es| == |vals|
    requires forall i :: 0 <= i < |es| ==>
      && WellTyped(es[i]) && TypeOf(es[i]) == targets[i].typ && vals[i] == Eval(es[i], start)
      && targets[i].kind != Constant && targets[i].kind != InSignal
    ensures Agree(BindFirst(m, targets, es, n), start, SetFirst(now, targets, vals, n))
  {
    hide Agree, Eval;
    if n > 0 {
      BindFirstAgree(m, targets, es, vals, n - 1, start, now);
      BindAgree(BindFirst(m, targets, es, n - 1), targets[n - 1], es[n - 1], start, SetFirst(now, targets, vals, n - 1));
    }
  }

  lemma {:induction false} BindCopyAgree(m: Bindings, t: Object, o: Object, n: nat, start: Env, now: Env)
    requires Agree(m, start, now) && t.shape == o.shape && n <= |t.shape|
    requires t.kind == Variable || t.kind == Parameter
    ensures Agree(BindCopy(m, t, o, n), start, CopyFirst(now, t, o, n))
  {
    hide Agree, Eval, Touch, Lookup;
    if n > 0 {
      BindCopyAgree(m, t, o, n - 1, start, now);
      var before, env, v := BindCopy(m, t, o, n - 1), CopyFirst(now, t, o, n - 1), o.Leaf(n - 1);
      TouchAgree(before, {v}, start, env);
      LeafExact(before, start, env, v);
      BindAgree(Touch(before, {v}), t.Leaf(n - 1), Lookup(before, v), start, env);
    }
  }

  lemma BindStatusAgree(m: Bindings, p: Port, nb: bool, status: Option<Var>, start: Env, now: Env)
    requires Agree(m, start, now) && StatusOk(status)
    ensures Agree(BindStatus(m, p, nb, status), start, SetStatus(now, p, nb, status))
  {
    if nb && status.Some? {
      BindAgree(m, status.value, SyncSignal(p.name), start, now);
    }
  }

  lemma ReadAgree(st: Sym, p: Port, o: Object, nb: bool, status: Option<Var>, start: Env, r: Run)
    requires Agrees(st, start, r) && StmtOk(Read(p, o, nb, status))
    ensures Agrees(SymStep(st, Read(p, o, nb, status), false).value, start, Step(r, Read(p, o, nb, status), false))
  {
    var es := OperandsOf(p.Signal().Leaves());
    forall i | 0 <= i < |es| ensures EvalAll(es, r.env)[i] == Eval(es[i], start) {
      assert Lookup(st.assign, p.Signal().Leaf(i)) == Operand(p.Signal().Leaf(i));
      assert Eval(Lookup(st.assign, p.Signal().Leaf(i)), start) == r.env.Get(p.Signal().Leaf(i));
    }
    BindFirstAgree(st.assign, o.Leaves(), es, EvalAll(es, r.env), |es|, start, r.env);
    BindStatusAgree(BindAll(st.assign, o.Leaves(), es), p, nb, status, start, SetAll(r.env, o.Leaves(), EvalAll(es, r.env)));
  }

  lemma WriteAgree(st: Sym, p: Port, vs: seq<Expr>, nb: bool, status: Option<Var>, waiting: bool, start: Env, r: Run)
    requires Agrees(st, start, r) && StmtOk(Write(p, vs, nb, status))
    ensures Agrees(SymStep(st, Write(p, vs, nb, status), waiting).value, start, Step(r, Write(p, vs, nb, status), waiting))
  {
    if waiting {
      TouchAgree(st.assign, LeafSet(p.Signal()), start, r.env);
    } else {
      forall i | 0 <= i < |vs|
        ensures Eval(Subst(st.assign, vs[i]), start) == Eval(vs[i], r.env)
        ensures WellTyped(Subst(st.assign, vs[i])) && TypeOf(Subst(st.assign, vs[i])) == TypeOf(vs[i])
      {
        SubstExact(st.assign, vs[i], start, r.env);
        SubstTyped(st.assign, vs[i]);
      }
      var m := Touch(st.assign, OperandVarsAll(vs));
      TouchAgree(st.assign, OperandVarsAll(vs), start, r.env);
      var leaves, es, vals := p.Signal().Leaves(), SubstAll(st.assign, vs), EvalAll(vs, r.env);
      BindFirstAgree(m, leaves, es, vals, |es|, start, r.env);
      BindStatusAgree(BindAll(m, leaves, es), p, nb, status, start, SetAll(r.env, leaves, vals));
    }
  }

  lemma ConstantsAgree(m: Bindings, t: Object, vs: seq<Expr>, start: Env, now: Env)
    requires Agree(m, start, now) && StmtOk(AssignCompound(t, Constants(vs)))
    ensures Agree(BindAll(m, t.Leaves(), vs), start, SetAll(now, t.Leaves(), EvalAll(vs, now)))
  {
    hide Agree;
    BindFirstAgree(m, t.Leaves(), vs, EvalAll(vs, now), |vs|, start, now);
  }

  lemma CompoundAgree(st: Sym, t: Object, rhs: CompoundRhs, waiting: bool, start: Env, r: Run)
    requires Agrees(st, start, r) && StmtOk(AssignCompound(t, rhs)) && SymStep(st, AssignCompound(t, rhs), waiting).Ok?
    ensures Agrees(SymStep(st, AssignCompound(t, rhs), waiting).value, start, Step(r, AssignCompound(t, rhs), waiting))
  {
    hide Agree, Eval;
    var m := Touch(st.assign, LeafSet(t));
    TouchAgree(st.assign, LeafSet(t), start, r.env);
    match rhs
    case CopyOf(o) => BindCopyAgree(m, t, o, |t.shape|, start, r.env);
    case Constants(vs) => ConstantsAgree(m, t, vs, start, r.env);
    case Computed =>
  }

  /** One statement keeps the agreement. */
  lemma StepAgree(st: Sym, s: Stmt, waiting: bool, start: Env, r: Run)
    requires Agrees(st, start, r) && StmtOk(s) && SymStep(st, s, waiting).Ok?
    ensures Agrees(SymStep(st, s, waiting).value, start, Step(r, s, waiting))
  {
    match s
    case Assign(v, e) =>
      TouchAgree(st.assign, {v} + OperandVars(e), start, r.env);
      SubstExact(st.assign, e, start, r.env);
      SubstTyped(st.assign, e);
      BindAgree(Touch(st.assign, {v} + OperandVars(e)), v, Subst(st.assign, e), start, r.env);
    case AssignCompound(t, rhs) => CompoundAgree(st, t, rhs, waiting, start, r);
    case If(c) => TouchAgree(st.assign, OperandVars(c), start, r.env);
    case Read(p, o, nb, status) => ReadAgree(st, p, o, nb, status, start, r);
    case Write(p, vs, nb, status) => WriteAgree(st, p, vs, nb, status, waiting, start, r);
    case Return(e) =>
      TouchAgree(st.assign, OperandVars(e), start, r.env);
      SubstExact(st.assign, e, start, r.env);
    case _ =>
  }

  ghost predicate AllHold(es: seq<Expr>, env: Env) {
    forall i :: 0 <= i < |es| ==> Holds(es[i], env)
  }

  lemma {:induction false} RunExact(st: Sym, stmts: seq<Stmt>, waiting: bool, start: Env, r: Run)
    requires StmtsOk(stmts) && Agrees(st, start, r) && SymRun(st, stmts, waiting).Ok?
    ensures Agrees(SymRun(st, stmts, waiting).value, start, Exec(r, stmts, waiting))
    ensures AllHold(SymRun(st, stmts, waiting).value.assumptions, start) <==>
              AllHold(st.assumptions, start) && Taken(r, stmts, waiting)
    decreases |stmts|
  {
    if stmts != [] {
      var s, next := stmts[0], SymStep(st, stmts[0], waiting).value;
      StepAgree(st, s, waiting, start, r);
      RunExact(next, stmts[1..], waiting, start, Step(r, s, waiting));
      if s.If? {
        SubstExact(st.assign, s.cond, start, r.env);
        assert next.assumptions[|st.assumptions|] == Subst(st.assign, s.cond);
        assert next.assumptions[..|st.assumptions|] == st.assumptions;
        assert AllHold(next.assumptions, start) <==> AllHold(st.assumptions, start) && Holds(s.cond, r.env) by {
          if AllHold(next.assumptions, start) {
            assert Holds(next.assumptions[|st.assumptions|], start);
            forall i | 0 <= i < |st.assumptions| ensures Holds(st.assumptions[i], start) {
              assert st.assumptions[i] == next.assumptions[i];
            }
          }
        }
      } else {
        assert next.assumptions == st.assumptions;
      }
    }
  }

  /**
   * Symbolic execution is exact. From any start environment, the assumptions all hold at the start exactly when running
   * the path meets all its conditions, every binding read at the start is its variable's value at the end, and the
   * variables without a binding are unchanged.
   */
  lemma SymbolicExecutionExact(stmts: seq<Stmt>, waiting: bool, start: Env)
    requires StmtsOk(stmts) && SymRun(START, stmts, waiting).Ok?
    ensures var st, end := SymRun(START, stmts, waiting).value, Exec(Run(start, None), stmts, waiting);
      && (AllHold(st.assumptions, start) <==> Taken(Run(start, None), stmts, waiting))
      && (forall v :: v in st.assign ==> Eval(st.assign[v], start) == end.env.Get(v))
      && (forall v :: v !in st.assign ==> start.Get(v) == end.env.Get(v))
      && (end.ret == if st.ret.Some? then Some(Eval(st.ret.value, start)) else None)
  {
    assert Agree(START.assign, start, start) by {
      forall v ensures Eval(Lookup(START.assign, v), start) == start.Get(v) {}
    }
    RunExact(START, stmts, waiting, start, Run(start, None));
    var st, end := SymRun(START, stmts, waiting).value, Exec(Run(start, None), stmts, waiting);
    forall v ensures Eval(Lookup(st.assign, v), start) == end.env.Get(v) {}
    forall v | v in st.assign ensures Lookup(st.assign, v) == st.assign[v] {}
  }
}
