/** Straight-line statements, as they stand in a path, and what running them does to an environment. */
module Statements {
  import opened Ir

  type Shape = seq<(string, Type)>

  datatype Iface = Blocking | Master | Slave | Shared
  datatype Direction = In | Out

  /** A port. Its data signal has one leaf per field: none for void and one, with the empty field name, for a scalar. */
  datatype Port = Port(name: string, iface: Iface, dir: Direction, shape: Shape) {
    function Signal(): Object {
      Object(if dir == In then InSignal else OutSignal, name, shape)
    }
  }

  /** A variable or data signal as a whole, scalar or compound. */
  datatype Object = Object(kind: Kind, base: string, shape: Shape) {
    function Leaf(i: nat): Var
      requires i < |shape|
    {
      Var(kind, base, shape[i].0, shape[i].1)
    }
    function Leaves(): seq<Var> {
      seq(|shape|, i requires 0 <= i < |shape| => Leaf(i))
    }
  }

  datatype CompoundRhs =
    | CopyOf(source: Object)             // another compound variable
    | Constants(values: seq<Expr>)       // a compound value
    | Computed                           // anything else

  datatype Stmt =
    | Assign(lhs: Var, rhs: Expr)
    | AssignCompound(target: Object, value: CompoundRhs)
    | AssignSection(rhs: Expr)           // the section variable, which is not data
    | If(cond: Expr)
    | Read(port: Port, into: Object, nonBlocking: bool, status: Option<Var>)
    | Write(port: Port, values: seq<Expr>, nonBlocking: bool, status: Option<Var>)
    | Return(result: Expr)
    | While
    | Wait

  predicate Assignable(v: Var) {
    v.kind == Variable || v.kind == Parameter
  }

  predicate StatusOk(status: Option<Var>) {
    status.Some? ==> Assignable(status.value) && status.value.typ == TBool
  }

  /** What the statement constructors insist on, and that inputs are only read and outputs only written. */
  predicate StmtOk(s: Stmt) {
    match s
    case Assign(v, e) => Assignable(v) && WellTyped(e) && TypeOf(e) == v.typ
    case AssignCompound(t, rhs) =>
      && (t.kind == Variable || t.kind == Parameter)
      && (rhs.CopyOf? ==> rhs.source.shape == t.shape)
      && (rhs.Constants? ==>
            |rhs.values| == |t.shape|
            && forall i :: 0 <= i < |t.shape| ==> IsLiteral(rhs.values[i]) && TypeOf(rhs.values[i]) == t.shape[i].1)
    case AssignSection(e) => WellTyped(e)
    case If(c) => WellTyped(c) && TypeOf(c) == TBool
    case Read(p, o, _, status) =>
      p.dir == In && (o.kind == Variable || o.kind == Parameter) && o.shape == p.shape && StatusOk(status)
    case Write(p, values, _, status) =>
      && p.dir == Out && |values| == |p.shape| && StatusOk(status)
      && forall i :: 0 <= i < |values| ==> WellTyped(values[i]) && TypeOf(values[i]) == p.shape[i].1
    case Return(e) => WellTyped(e)
    case While => true
    case Wait => true
  }

  predicate StmtsOk(stmts: seq<Stmt>) {
    forall i :: 0 <= i < |stmts| ==> StmtOk(stmts[i])
  }

  // ---------- Running ----------

  /** The environment reached, and the value of the first return statement passed. */
  datatype Run = Run(env: Env, ret: Option<Value>)

  /** The first n targets set to the first n values, in order. */
  function SetFirst(env: Env, targets: seq<Var>, values: seq<Value>, n: nat): Env
    requires |targets| == |values| && n <= |targets|
  {
    if n == 0 then env else SetFirst(env, targets, values, n - 1).Set(targets[n - 1], values[n - 1])
  }

  function SetAll(env: Env, targets: seq<Var>, values: seq<Value>): Env
    requires |targets| == |values|
  {
    SetFirst(env, targets, values, |targets|)
  }

  function EvalAll(es: seq<Expr>, env: Env): (vs: seq<Value>)
    ensures |vs| == |es|
  {
    seq(|es|, i requires 0 <= i < |es| => Eval(es[i], env))
  }

  function OperandsOf(vs: seq<Var>): (es: seq<Expr>)
    ensures |es| == |vs|
  {
    seq(|vs|, i requires 0 <= i < |vs| => Operand(vs[i]))
  }

  /** Member by member copy of the first n fields. */
  function CopyFirst(env: Env, target: Object, source: Object, n: nat): Env
    requires target.shape == source.shape && n <= |target.shape|
  {
    if n == 0 then env
    else
      var before := CopyFirst(env, target, source, n - 1);
      before.Set(target.Leaf(n - 1), before.Get(source.Leaf(n - 1)))
  }

  function SetStatus(env: Env, p: Port, nonBlocking: bool, status: Option<Var>): Env {
    if nonBlocking && status.Some? then env.Set(status.value, Flag(p.name in env.sync)) else env
  }

  /** One statement. While an operation waits, its write does not happen: the signal keeps its value. */
  function Step(r: Run, s: Stmt, waiting: bool): Run
    requires StmtOk(s)
  {
    match s
    case Assign(v, e) => r.(env := r.env.Set(v, Eval(e, r.env)))
    case AssignCompound(t, CopyOf(o)) => r.(env := CopyFirst(r.env, t, o, |t.shape|))
    case AssignCompound(t, Constants(vs)) => r.(env := SetAll(r.env, t.Leaves(), EvalAll(vs, r.env)))
    case AssignCompound(_, Computed) => r
    case Read(p, o, nb, status) =>
      var env := SetAll(r.env, o.Leaves(), EvalAll(OperandsOf(p.Signal().Leaves()), r.env));
      r.(env := SetStatus(env, p, nb, status))
    case Write(p, vs, nb, status) =>
      if waiting then r
      else r.(env := SetStatus(SetAll(r.env, p.Signal().Leaves(), EvalAll(vs, r.env)), p, nb, status))
    case Return(e) => if r.ret.Some? then r else r.(ret := Some(Eval(e, r.env)))
    case _ => r
  }

  function Exec(r: Run, stmts: seq<Stmt>, waiting: bool): Run
    requires StmtsOk(stmts)
    decreases |stmts|
  {
    if stmts == [] then r else Exec(Step(r, stmts[0], waiting), stmts[1..], waiting)
  }

  /** Running the list from r, every condition on it is met when it is reached. */
  predicate Taken(r: Run, stmts: seq<Stmt>, waiting: bool)
    requires StmtsOk(stmts)
    decreases |stmts|
  {
    stmts != [] ==>
      && (stmts[0].If? ==> Holds(stmts[0].cond, r.env))
      && Taken(Step(r, stmts[0], waiting), stmts[1..], waiting)
  }

  lemma {:induction false} ExecConcat(r: Run, a: seq<Stmt>, b: seq<Stmt>, waiting: bool)
    requires StmtsOk(a) && StmtsOk(b)
    ensures StmtsOk(a + b)
    ensures Exec(r, a + b, waiting) == Exec(Exec(r, a, waiting), b, waiting)
    ensures Taken(r, a + b, waiting) <==> Taken(r, a, waiting) && Taken(Exec(r, a, waiting), b, waiting)
    decreases |a|
  {
    if a == [] {
      assert a + b == b;
    } else {
      assert (a + b)[1..] == a[1..] + b;
      assert (a + b)[0] == a[0];
      ExecConcat(Step(r, a[0], waiting), a[1..], b, waiting);
    }
  }

  /** A condition on its own is taken when it holds, and changes nothing. */
  lemma OneGuard(r: Run, c: Expr, waiting: bool)
    requires StmtOk(If(c))
    ensures Exec(r, [If(c)], waiting) == r && (Taken(r, [If(c)], waiting) <==> Holds(c, r.env))
  {
    var s := [If(c)];
    assert s[1..] == [];
    assert s[0].If? && s[0].cond == c;
  }

  /** A list without a leading condition is taken. */
  lemma {:induction false} NoGuardTaken(r: Run, s: seq<Stmt>, waiting: bool)
    requires StmtsOk(s) && forall i :: 0 <= i < |s| ==> !s[i].If?
    ensures Taken(r, s, waiting)
    decreases |s|
  {
    if s != [] { NoGuardTaken(Step(r, s[0], waiting), s[1..], waiting); }
  }

  lemma NoneRun(r: Run, waiting: bool)
    ensures Taken(r, [], waiting) && Exec(r, [], waiting) == r
  {
  }

  lemma OneRun(r: Run, s: Stmt, waiting: bool)
    requires StmtOk(s)
    ensures Exec(r, [s], waiting) == Step(r, s, waiting)
    ensures !s.If? ==> Taken(r, [s], waiting)
  {
    assert [s][1..] == [];
    if !s.If? { NoGuardTaken(r, [s], waiting); }
  }

  lemma ReadKeepsSync(r: Run, s: Stmt)
    requires s.Read? && StmtOk(s)
    ensures SetAll(r.env, s.into.Leaves(), EvalAll(OperandsOf(s.port.Signal().Leaves()), r.env)).sync == r.env.sync
  {
    var vs, xs := s.into.Leaves(), EvalAll(OperandsOf(s.port.Signal().Leaves()), r.env);
    SetFirstSync(r.env, vs, xs, |vs|);
  }

  lemma {:induction false} SetFirstSync(env: Env, vs: seq<Var>, xs: seq<Value>, n: nat)
    requires |vs| == |xs| && n <= |vs|
    ensures SetFirst(env, vs, xs, n).sync == env.sync
    decreases n
  {
    if n > 0 { SetFirstSync(env, vs, xs, n - 1); }
  }

  lemma {:induction false} CopyFirstSync(env: Env, t: Object, o: Object, n: nat)
    requires t.shape == o.shape && n <= |t.shape|
    ensures CopyFirst(env, t, o, n).sync == env.sync
    decreases n
  {
    if n > 0 { CopyFirstSync(env, t, o, n - 1); }
  }

  /** No statement changes which partners are present. */
  lemma StepSync(r: Run, s: Stmt)
    requires StmtOk(s)
    ensures Step(r, s, false).env.sync == r.env.sync
  {
    hide WellTyped, TypeOf, Eval;
    match s
    case AssignCompound(t, CopyOf(o)) => CopyFirstSync(r.env, t, o, |t.shape|);
    case AssignCompound(t, Constants(xs)) => SetFirstSync(r.env, t.Leaves(), EvalAll(xs, r.env), |t.shape|);
    case Read(_, _, _, _) => ReadKeepsSync(r, s);
    case Write(port, xs, _, _) => SetFirstSync(r.env, port.Signal().Leaves(), EvalAll(xs, r.env), |xs|);
    case _ =>
  }
}
