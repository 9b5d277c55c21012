/** Expressions and statements shared by every stage, with their types and their 32-bit meaning. */
module Ir {

  datatype Option<+T> = None | Some(value: T)

  datatype Result<+T> = Ok(value: T) | Err(error: Error)

  datatype Error =
    | NotImplemented           // a visit that only throws
    | UndefinedFold            // a constant fold whose C++ operation has no defined value
    | MissedOptimization       // "Potential optimization case found"
    | TwoReturns               // a path with two return statements
    | NoReturn                 // a path without a return statement
    | NotAllowed               // a statement the stage refuses
    | InvalidPath              // no statement left to colour

  // ---------- Types, values, variables ----------

  datatype Type = TInt | TUnsigned | TBool

  datatype Value = Word(w: bv32) | Flag(b: bool)

  function TypeDefault(t: Type): Value {
    if t == TBool then Flag(false) else Word(0)
  }

  predicate Fits(v: Value, t: Type) {
    v.Flag? <==> t == TBool
  }

  datatype Kind = Variable | Constant | Parameter | InSignal | OutSignal

  /** A scalar variable, parameter or port signal. A sub-variable carries its field name and a scalar the empty one. */
  datatype Var = Var(kind: Kind, base: string, field: string, typ: Type)

  // ---------- Expressions ----------

  datatype UnaryOp = Not | Neg | Compl
  datatype ArithOp = Add | Sub | Mul | Div | Rem
  datatype BitOp = BitAnd | BitOr | BitXor | Shl | Shr
  datatype LogicOp = And | Nand | Or | Nor | Xor | Xnor
  datatype RelOp = Eq | Ne | Lt | Le | Gt | Ge

  datatype Expr =
    | IntegerValue(int32: bv32)
    | UnsignedValue(uint32: bv32)
    | BoolValue(flag: bool)
    | Operand(v: Var)
    | SyncSignal(port: string)
    | UnaryExpr(uop: UnaryOp, sub: Expr)
    | Arithmetic(aop: ArithOp, lhs: Expr, rhs: Expr)
    | Bitwise(bop: BitOp, lhs: Expr, rhs: Expr)
    | Logical(lop: LogicOp, lhs: Expr, rhs: Expr)
    | Relational(rop: RelOp, lhs: Expr, rhs: Expr)
    | Cast(to: Type, sub: Expr)
    | Ternary(cond: Expr, thn: Expr, els: Expr)

  predicate IsLiteral(e: Expr) {
    e.IntegerValue? || e.UnsignedValue? || e.BoolValue?
  }

  function TypeOf(e: Expr): Type {
    match e
    case IntegerValue(_) => TInt
    case UnsignedValue(_) => TUnsigned
    case BoolValue(_) => TBool
    case Operand(v) => v.typ
    case SyncSignal(_) => TBool
    case UnaryExpr(_, s) => TypeOf(s)
    case Arithmetic(_, l, _) => TypeOf(l)
    case Bitwise(_, l, _) => TypeOf(l)
    case Logical(_, _, _) => TBool
    case Relational(_, _, _) => TBool
    case Cast(t, _) => t
    case Ternary(_, t, _) => TypeOf(t)
  }

  /** What the expression constructors insist on; every other expression cannot be built. */
  predicate WellTyped(e: Expr) {
    match e
    case UnaryExpr(op, s) => WellTyped(s) && (op != Not ==> TypeOf(s) != TBool)
    case Arithmetic(_, l, r) => WellTyped(l) && WellTyped(r) && TypeOf(l) == TypeOf(r) != TBool
    case Bitwise(_, l, r) => WellTyped(l) && WellTyped(r) && TypeOf(l) == TypeOf(r) != TBool
    case Logical(_, l, r) => WellTyped(l) && WellTyped(r) && TypeOf(l) == TypeOf(r) == TBool
    case Relational(op, l, r) =>
      WellTyped(l) && WellTyped(r) && TypeOf(l) == TypeOf(r) && (op != Eq && op != Ne ==> TypeOf(l) != TBool)
    case Cast(t, s) => WellTyped(s) && t != TBool && TypeOf(s) != TBool && TypeOf(s) != t
    case Ternary(c, t, f) => WellTyped(c) && WellTyped(t) && WellTyped(f) && TypeOf(c) == TBool && TypeOf(t) == TypeOf(f)
    case _ => true
  }

  // ---------- Meaning ----------

  /** How "not" reads on a number: the C++ "!", or the complement that the property printers and VHDL use. */
  datatype WordNot = LogicalNot | ComplementNot

  /** The start values of an operation: variables and data signals, asserted sync signals. */
  datatype Env = Env(store: map<Var, Value>, sync: set<string>, wordNot: WordNot) {
    function Get(v: Var): Value {
      if v in store && Fits(store[v], v.typ) then store[v] else TypeDefault(v.typ)
    }
    function Set(v: Var, x: Value): Env {
      this.(store := store[v := x])
    }
  }

  function Negative(a: bv32): bool { a & 0x8000_0000 != 0 }

  function Negate(a: bv32): bv32 { 0 - a }

  function Magnitude(a: bv32): bv32 { if Negative(a) then Negate(a) else a }

  // Division by zero gives what the SMT-LIB theory of bit vectors gives.
  function UDiv(a: bv32, b: bv32): bv32 { if b == 0 then 0xFFFF_FFFF else a / b }
  function URem(a: bv32, b: bv32): bv32 { if b == 0 then a else a % b }
  function SDiv(a: bv32, b: bv32): bv32 {
    var q := UDiv(Magnitude(a), Magnitude(b));
    if Negative(a) == Negative(b) then q else Negate(q)
  }
  function SRem(a: bv32, b: bv32): bv32 {
    var r := URem(Magnitude(a), Magnitude(b));
    if Negative(a) then Negate(r) else r
  }

  function ArithWord(op: ArithOp, signed: bool, a: bv32, b: bv32): bv32 {
    match op
    case Add => a + b
    case Sub => a - b
    case Mul => a * b
    case Div => if signed then SDiv(a, b) else UDiv(a, b)
    case Rem => if signed then SRem(a, b) else URem(a, b)
  }

  function BitWord(op: BitOp, signed: bool, a: bv32, b: bv32): bv32 {
    match op
    case BitAnd => a & b
    case BitOr => a | b
    case BitXor => a ^ b
    case Shl => if b < 32 then a << b else 0
    case Shr =>
      if signed && Negative(a) then (if b < 32 then !(!a >> b) else 0xFFFF_FFFF)
      else (if b < 32 then a >> b else 0)
  }

  function LogicFlag(op: LogicOp, a: bool, b: bool): bool {
    match op
    case And => a && b
    case Nand => !(a && b)
    case Or => a || b
    case Nor => !(a || b)
    case Xor => a != b
    case Xnor => a == b
  }

  function LessWord(signed: bool, a: bv32, b: bv32): bool {
    if signed then a ^ 0x8000_0000 < b ^ 0x8000_0000 else a < b
  }

  function RelFlag(op: RelOp, signed: bool, a: Value, b: Value): bool {
    match op
    case Eq => a == b
    case Ne => a != b
    case Lt => a.Word? && b.Word? && LessWord(signed, a.w, b.w)
    case Gt => a.Word? && b.Word? && LessWord(signed, b.w, a.w)
    case Le => a.Word? && b.Word? && !LessWord(signed, b.w, a.w)
    case Ge => a.Word? && b.Word? && !LessWord(signed, a.w, b.w)
  }

  function UnaryValue(op: UnaryOp, how: WordNot, x: Value): Value {
    match (op, x)
    case (Not, Flag(b)) => Flag(!b)
    case (Not, Word(w)) => if how == ComplementNot then Word(!w) else Word(if w == 0 then 1 else 0)
    case (Neg, Word(w)) => Word(Negate(w))
    case (Compl, Word(w)) => Word(!w)
    case (_, Flag(b)) => Flag(b)
  }

  function Eval(e: Expr, env: Env): Value
    decreases e, 0
  {
    match e
    case IntegerValue(w) => Word(w)
    case UnsignedValue(w) => Word(w)
    case BoolValue(b) => Flag(b)
    case Operand(v) => env.Get(v)
    case SyncSignal(p) => Flag(p in env.sync)
    case UnaryExpr(op, s) => UnaryValue(op, env.wordNot, Eval(s, env))
    case Arithmetic(op, l, r) =>
      var a, b := Eval(l, env), Eval(r, env);
      if a.Word? && b.Word? then Word(ArithWord(op, TypeOf(l) == TInt, a.w, b.w)) else a
    case Bitwise(op, l, r) =>
      var a, b := Eval(l, env), Eval(r, env);
      if a.Word? && b.Word? then Word(BitWord(op, TypeOf(l) == TInt, a.w, b.w)) else a
    case Logical(op, l, r) => Flag(LogicFlag(op, Holds(l, env), Holds(r, env)))
    case Relational(op, l, r) => Flag(RelFlag(op, TypeOf(l) == TInt, Eval(l, env), Eval(r, env)))
    case Cast(_, s) => Eval(s, env)
    case Ternary(c, t, f) => if Holds(c, env) then Eval(t, env) else Eval(f, env)
  }

  /** A condition is met when it evaluates to true. */
  predicate Holds(e: Expr, env: Env)
    decreases e, 1
  {
    Eval(e, env) == Flag(true)
  }

  /** A well-typed expression evaluates to a value of its type in every environment. */
  lemma {:induction false} EvalFits(e: Expr, env: Env)
    requires WellTyped(e)
    ensures Fits(Eval(e, env), TypeOf(e))
  {
    match e
    case UnaryExpr(_, s) => EvalFits(s, env);
    case Cast(_, s) => EvalFits(s, env);
    case Arithmetic(_, l, r) => EvalFits(l, env); EvalFits(r, env);
    case Bitwise(_, l, r) => EvalFits(l, env); EvalFits(r, env);
    case Logical(_, l, r) => EvalFits(l, env); EvalFits(r, env);
    case Relational(_, l, r) => EvalFits(l, env); EvalFits(r, env);
    case Ternary(c, t, f) => EvalFits(c, env); EvalFits(t, env); EvalFits(f, env);
    case _ =>
  }

  /** A well-typed number evaluates to a word. */
  lemma WordOf(e: Expr, env: Env)
    requires WellTyped(e) && TypeOf(e) != TBool
    ensures Eval(e, env).Word?
  {
    EvalFits(e, env);
  }
}
