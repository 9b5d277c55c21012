/** The rewrite rules of the simplifier, and that each keeps type and value and makes the expression smaller. */
module SimplifyRules {
  import opened Ir
  import opened ExprEquality

  // ---------- The rules, on simplified operands ----------

  predicate IsZero(e: Expr) {
    e == UnsignedValue(0) || e == IntegerValue(0)
  }

  predicate IsNot(e: Expr) {
    e.UnaryExpr? && e.uop == Not
  }

  /** No variable, signal or ternary inside. */
  predicate ConstVal(e: Expr) {
    match e
    case IntegerValue(_) => true
    case UnsignedValue(_) => true
    case BoolValue(_) => true
    case UnaryExpr(_, s) => ConstVal(s)
    case Cast(_, s) => ConstVal(s)
    case Arithmetic(_, l, r) => ConstVal(l) && ConstVal(r)
    case Bitwise(_, l, r) => ConstVal(l) && ConstVal(r)
    case Logical(_, l, r) => ConstVal(l) && ConstVal(r)
    case Relational(_, l, r) => ConstVal(l) && ConstVal(r)
    case _ => false
  }

  function UnaryRule(op: UnaryOp, s: Expr): Option<Expr> {
    if op == Neg && s == UnsignedValue(0) then Some(UnsignedValue(0))
    else if op == Neg && IsNeg(s) then Some(s.sub)
    else if op == Not && IsNot(s) then Some(s.sub)
    else None
  }

  function AddRule(l: Expr, r: Expr): Option<Expr> {
    if IsZero(l) then Some(r)
    else if IsZero(r) then Some(l)
    else if !IsNeg(l) && IsNeg(r) then Some(Arithmetic(Sub, l, r.sub))
    else if IsNeg(l) && !IsNeg(r) then Some(Arithmetic(Sub, r, l.sub))
    else if IsNeg(l) && IsNeg(r) then Some(Arithmetic(Sub, l, r.sub))
    else None
  }

  function MulRule(l: Expr, r: Expr): Option<Expr> {
    if l == UnsignedValue(0) || r == UnsignedValue(0) then Some(UnsignedValue(0))
    else if IsNeg(l) && IsNeg(r) then Some(Arithmetic(Mul, l.sub, r.sub))
    else if l == UnsignedValue(0xFFFF_FFFF) then Some(if IsNeg(r) then r.sub else UnaryExpr(Neg, r))
    else if r == UnsignedValue(0xFFFF_FFFF) then Some(if IsNeg(l) then l.sub else UnaryExpr(Neg, l))
    else None
  }

  /** The C++ operation on two literals has a value. Overflow is taken to wrap around. */
  predicate ArithFolds(op: ArithOp, signed: bool, a: bv32, b: bv32) {
    op == Div || op == Rem ==> b != 0 && !(signed && a == 0x8000_0000 && b == 0xFFFF_FFFF)
  }

  predicate BitFolds(op: BitOp, b: bv32) {
    op == Shl || op == Shr ==> b < 32
  }

  /** The rewritten expression, none when no rule fits, or the exception. */
  function ArithRule(op: ArithOp, l: Expr, r: Expr): Result<Option<Expr>> {
    if l.UnsignedValue? && r.UnsignedValue? then
      if ArithFolds(op, false, l.uint32, r.uint32) then Ok(Some(UnsignedValue(ArithWord(op, false, l.uint32, r.uint32))))
      else Err(UndefinedFold)
    else if l.IntegerValue? && r.IntegerValue? then
      if ArithFolds(op, true, l.int32, r.int32) then Ok(Some(IntegerValue(ArithWord(op, true, l.int32, r.int32))))
      else Err(UndefinedFold)
    else
      var rule := if IsLiteral(l) && IsLiteral(r) then None
                  else if op == Add then AddRule(l, r)
                  else if op == Mul then MulRule(l, r)
                  else None;
      if rule.None? && ConstVal(l) && ConstVal(r) then Err(MissedOptimization) else Ok(rule)
  }

  function BitRule(op: BitOp, l: Expr, r: Expr): Result<Option<Expr>> {
    if l.UnsignedValue? && r.UnsignedValue? then
      if BitFolds(op, r.uint32) then Ok(Some(UnsignedValue(BitWord(op, false, l.uint32, r.uint32)))) else Err(UndefinedFold)
    else if l.IntegerValue? && r.IntegerValue? then
      if BitFolds(op, r.int32) then Ok(Some(IntegerValue(BitWord(op, true, l.int32, r.int32)))) else Err(UndefinedFold)
    else if (op == Shl || op == Shr) && !(IsLiteral(l) && IsLiteral(r)) && !IsZero(l) && !IsZero(r)
      && r.IntegerValue? && Negative(r.int32) then Err(MissedOptimization)
    else
      var rule := if IsLiteral(l) && IsLiteral(r) then None
                  else if op == Shl || op == Shr then (if IsZero(l) || IsZero(r) then Some(l) else None)
                  else if (op == BitOr || op == BitAnd) && IsNot(l) && IsNot(r) then
                    Some(UnaryExpr(Not, Bitwise(Flip(op), l.sub, r.sub)))
                  else None;
      if rule.None? && ConstVal(l) && ConstVal(r) then Err(MissedOptimization) else Ok(rule)
  }

  function CastRule(t: Type, s: Expr): Option<Expr> {
    if t == TUnsigned && s.IntegerValue? then Some(UnsignedValue(s.int32))
    else if t == TInt && s.UnsignedValue? then Some(IntegerValue(s.uint32))
    else if s.Cast? && TypeOf(s.sub) == t then Some(s.sub)
    else None
  }

  /** Nothing is left to rewrite, and no visit throws. */
  predicate Stable(e: Expr) {
    match e
    case UnaryExpr(op, s) => Stable(s) && UnaryRule(op, s).None?
    case Arithmetic(op, l, r) => Stable(l) && Stable(r) && ArithRule(op, l, r) == Ok(None)
    case Bitwise(op, l, r) => Stable(l) && Stable(r) && BitRule(op, l, r) == Ok(None)
    case Cast(t, s) => Stable(s) && CastRule(t, s).None?
    case Operand(v) => v.kind != Parameter
    case _ => true
  }

  /** Constants are the expressions of literals alone. */
  lemma {:induction false} ConstExact(e: Expr)
    ensures ConstVal(e) <==> forall x :: Within(x, e) ==> !x.Operand? && !x.SyncSignal? && !x.Ternary?
  {
    match e
    case UnaryExpr(_, s) => ConstExact(s);
    case Cast(_, s) => ConstExact(s);
    case Arithmetic(_, l, r) => ConstExact(l); ConstExact(r);
    case Bitwise(_, l, r) => ConstExact(l); ConstExact(r);
    case Logical(_, l, r) => ConstExact(l); ConstExact(r);
    case Relational(_, l, r) => ConstExact(l); ConstExact(r);
    case _ => assert Within(e, e);
  }

  // ---------- The normal form ----------

  /** x is a part of e that the simplifier comes to: it does not look into comparisons, logical operators and ternaries. */
  predicate Visited(x: Expr, e: Expr) {
    || x == e
    || match e
       case UnaryExpr(_, s) => Visited(x, s)
       case Cast(_, s) => Visited(x, s)
       case Arithmetic(_, l, r) => Visited(x, l) || Visited(x, r)
       case Bitwise(_, l, r) => Visited(x, l) || Visited(x, r)
       case _ => false
  }

  /** What a simplified expression holds nowhere, by its shape alone. */
  predicate Redundant(x: Expr) {
    match x
    case UnaryExpr(Neg, s) => s == UnsignedValue(0) || (s.UnaryExpr? && s.uop == Neg)
    case UnaryExpr(Not, s) => s.UnaryExpr? && s.uop == Not
    case Cast(TUnsigned, IntegerValue(_)) => true
    case Cast(TInt, UnsignedValue(_)) => true
    case Cast(t, Cast(_, y)) => TypeOf(y) == t
    case Arithmetic(op, l, r) =>
      || (ConstVal(l) && ConstVal(r))
      || (op == Add && (Vanishes(l) || Vanishes(r)))
      || (op == Mul && (UnsignedUnit(l) || UnsignedUnit(r) || (IsNeg(l) && IsNeg(r))))
    case Bitwise(op, l, r) =>
      || (ConstVal(l) && ConstVal(r))
      || (op in {Shl, Shr} && (l in {UnsignedValue(0), IntegerValue(0)} || r in {UnsignedValue(0), IntegerValue(0)}))
      || (op in {Shl, Shr} && r.IntegerValue? && r.int32 >= 0x8000_0000)
      || (op in {BitAnd, BitOr} && l.UnaryExpr? && l.uop == Not && r.UnaryExpr? && r.uop == Not)
    case Operand(v) => v.kind == Parameter
    case _ => false
  }

  /** A zero, or a minus sign. */
  predicate Vanishes(e: Expr) {
    e in {UnsignedValue(0), IntegerValue(0)} || (e.UnaryExpr? && e.uop == Neg)
  }

  predicate UnsignedUnit(e: Expr) {
    e in {UnsignedValue(0), UnsignedValue(0xFFFF_FFFF)}
  }

  lemma ShapeStable(e: Expr)
    ensures !Redundant(e) <==>
      match e
      case UnaryExpr(op, s) => UnaryRule(op, s).None?
      case Arithmetic(op, l, r) => ArithRule(op, l, r) == Ok(None)
      case Bitwise(op, l, r) => BitRule(op, l, r) == Ok(None)
      case Cast(t, s) => CastRule(t, s).None?
      case Operand(v) => v.kind != Parameter
      case _ => true
  {
    hide ArithWord, BitWord, ArithFolds, BitFolds;
  }

  /** No rule applies and nothing throws exactly when no visited part is redundant by its shape. */
  lemma {:induction false} StableExact(e: Expr)
    ensures Stable(e) <==> forall x :: Visited(x, e) ==> !Redundant(x)
  {
    ShapeStable(e);
    hide UnaryRule, ArithRule, BitRule, CastRule, Redundant;
    assert Visited(e, e);
    match e
    case UnaryExpr(_, s) => StableExact(s);
    case Cast(_, s) => StableExact(s);
    case Arithmetic(_, l, r) => StableExact(l); StableExact(r);
    case Bitwise(_, l, r) => StableExact(l); StableExact(r);
    case _ =>
  }

  // ---------- What a rewrite must keep ----------

  /** "not" on numbers reads as the complement, or there is none. */
  predicate Reads(env: Env, e: Expr) {
    env.wordNot == ComplementNot || BoolNots(e)
  }

  /** e' may stand for e: it has the same type, and the same value in every environment. */
  ghost predicate Refines(e: Expr, e': Expr) {
    && WellTyped(e') && TypeOf(e') == TypeOf(e) && (BoolNots(e) ==> BoolNots(e'))
    && forall env: Env :: Reads(env, e) ==> Eval(e', env) == Eval(e, env)
  }

  lemma RefinesItself(e: Expr)
    requires WellTyped(e)
    ensures Refines(e, e)
  {
  }

  lemma RefinesOn(e: Expr, m: Expr, e': Expr)
    requires Refines(e, m) && Refines(m, e')
    ensures Refines(e, e')
  {
    hide Eval, WellTyped, TypeOf, BoolNots;
  }

  lemma EqualRefines(e: Expr, e': Expr)
    requires WellTyped(e) && Equal(e, e')
    ensures Refines(e, e') && Size(e) == Size(e')
  {
    hide Eval, Equal;
    EqualTyped(e, e');
    forall env: Env ensures Eval(e', env) == Eval(e, env) { EqualEval(e, e', env); }
  }

  lemma UnaryRefines(op: UnaryOp, s: Expr, s': Expr)
    requires WellTyped(UnaryExpr(op, s)) && Refines(s, s')
    ensures Refines(UnaryExpr(op, s), UnaryExpr(op, s'))
  {
    hide UnaryValue;
    forall env: Env | Reads(env, UnaryExpr(op, s)) ensures Eval(UnaryExpr(op, s'), env) == Eval(UnaryExpr(op, s), env) {
      assert Reads(env, s);
    }
  }

  lemma CastRefines(t: Type, s: Expr, s': Expr)
    requires WellTyped(Cast(t, s)) && Refines(s, s')
    ensures Refines(Cast(t, s), Cast(t, s'))
  {
  }

  lemma BinaryRefines(e: Expr, l: Expr, r: Expr)
    requires (e.Arithmetic? || e.Bitwise?) && WellTyped(e) && Refines(e.lhs, l) && Refines(e.rhs, r)
    ensures Refines(e, WithOperands(e, l, r))
  {
    hide ArithWord, BitWord;
    forall env: Env | Reads(env, e) ensures Eval(WithOperands(e, l, r), env) == Eval(e, env) {
      assert Reads(env, e.lhs) && Reads(env, e.rhs);
      SameOperands(WithOperands(e, l, r), e, env);
    }
  }

  // ---------- Each rule keeps it ----------

  lemma NegateTwice(a: bv32)
    ensures Negate(Negate(a)) == a && Negate(0) == 0
  {
  }

  lemma ComplementTwice(a: bv32)
    ensures !!a == a
  {
  }

  lemma NegNeg(x: Expr, env: Env)
    requires WellTyped(UnaryExpr(Neg, UnaryExpr(Neg, x)))
    ensures Eval(UnaryExpr(Neg, UnaryExpr(Neg, x)), env) == Eval(x, env)
  {
    hide Negate;
    WordOf(x, env);
    NegateTwice(Eval(x, env).w);
  }

  lemma NotNot(x: Expr, env: Env)
    requires WellTyped(x) && (env.wordNot == ComplementNot || TypeOf(x) == TBool)
    ensures Eval(UnaryExpr(Not, UnaryExpr(Not, x)), env) == Eval(x, env)
  {
    EvalFits(x, env);
    if Eval(x, env).Word? { ComplementTwice(Eval(x, env).w); }
  }

  /** Negations of either kind cancel, and minus zero is zero. */
  lemma UnaryRuleRefines(op: UnaryOp, s: Expr)
    requires WellTyped(UnaryExpr(op, s)) && UnaryRule(op, s).Some?
    ensures var e := UnaryRule(op, s).value; Refines(UnaryExpr(op, s), e) && Size(e) < Size(UnaryExpr(op, s))
  {
    var e, e' := UnaryExpr(op, s), UnaryRule(op, s).value;
    assert (BoolNots(e) ==> BoolNots(s)) && WellTyped(s) && TypeOf(e) == TypeOf(s) && Size(e) == 1 + Size(s);
    if s.UnaryExpr? { assert BoolNots(s) ==> BoolNots(s.sub); }
    if s == UnsignedValue(0) { NegateTwice(0); }
    hide Negate;
    forall env: Env | Reads(env, e) ensures Eval(e', env) == Eval(e, env) {
      if IsNeg(s) && op == Neg { NegNeg(s.sub, env); }
      if IsNot(s) && op == Not { NotNot(s.sub, env); }
    }
  }

  lemma CastRuleRefines(t: Type, s: Expr)
    requires WellTyped(Cast(t, s)) && CastRule(t, s).Some?
    ensures var e := CastRule(t, s).value; Refines(Cast(t, s), e) && Size(e) < Size(Cast(t, s))
  {
    assert BoolNots(Cast(t, s)) == BoolNots(s);
    if s.Cast? { assert BoolNots(s) == BoolNots(s.sub); }
  }

  lemma AddZeroMinus(signed: bool, a: bv32, b: bv32)
    ensures ArithWord(Add, signed, a, 0 - b) == ArithWord(Sub, signed, a, b)
    ensures ArithWord(Add, signed, 0 - b, a) == ArithWord(Sub, signed, a, b)
  {
  }

  lemma AddZero(signed: bool, a: bv32)
    ensures ArithWord(Add, signed, 0, a) == a && ArithWord(Add, signed, a, 0) == a
  {
  }

  lemma AddWords(signed: bool, a: bv32, b: bv32)
    ensures ArithWord(Add, signed, a, Negate(b)) == ArithWord(Sub, signed, a, b)
    ensures ArithWord(Add, signed, Negate(b), a) == ArithWord(Sub, signed, a, b)
  {
    hide ArithWord;
    AddZeroMinus(signed, a, b);
  }

  lemma ZeroTimes(signed: bool, a: bv32)
    ensures ArithWord(Mul, signed, 0, a) == 0 && ArithWord(Mul, signed, a, 0) == 0
  {
  }

  lemma MinusOneTimes(signed: bool, a: bv32)
    ensures ArithWord(Mul, signed, 0xFFFF_FFFF, a) == Negate(a) && ArithWord(Mul, signed, a, 0xFFFF_FFFF) == Negate(a)
  {
  }

  lemma ZeroMinusFactors(signed: bool, a: bv32, b: bv32)
    ensures ArithWord(Mul, signed, 0 - a, 0 - b) == ArithWord(Mul, signed, a, b)
  {
  }

  lemma MulWords(signed: bool, a: bv32, b: bv32)
    ensures ArithWord(Mul, signed, Negate(a), Negate(b)) == ArithWord(Mul, signed, a, b)
    ensures ArithWord(Mul, signed, 0xFFFF_FFFF, Negate(b)) == b && ArithWord(Mul, signed, Negate(b), 0xFFFF_FFFF) == b
  {
    hide ArithWord;
    ZeroMinusFactors(signed, a, b);
    MinusOneTimes(signed, Negate(b));
    NegateTwice(b);
  }

  lemma ShiftWords(op: BitOp, signed: bool, a: bv32)
    requires op == Shl || op == Shr
    ensures BitWord(op, signed, 0, a) == 0 && BitWord(op, signed, a, 0) == a
  {
  }

  lemma DeMorganRaw(a: bv32, b: bv32)
    ensures !a | !b == !(a & b) && !a & !b == !(a | b)
  {
  }

  lemma AndOrWord(signed: bool, a: bv32, b: bv32)
    ensures BitWord(BitOr, signed, a, b) == a | b && BitWord(BitAnd, signed, a, b) == a & b
  {
  }

  /** The complement of a word. */
  function Complement(a: bv32): bv32 { !a }

  function Flip(op: BitOp): BitOp {
    if op == BitOr then BitAnd else BitOr
  }

  lemma DeMorganOr(signed: bool, a: bv32, b: bv32)
    ensures BitWord(BitOr, signed, Complement(a), Complement(b)) == Complement(BitWord(BitAnd, signed, a, b))
  {
    hide BitWord;
    DeMorganRaw(a, b);
    AndOrWord(signed, a, b);
    AndOrWord(signed, !a, !b);
  }

  lemma DeMorganAnd(signed: bool, a: bv32, b: bv32)
    ensures BitWord(BitAnd, signed, Complement(a), Complement(b)) == Complement(BitWord(BitOr, signed, a, b))
  {
    hide BitWord;
    DeMorganRaw(a, b);
    AndOrWord(signed, a, b);
    AndOrWord(signed, !a, !b);
  }

  lemma DeMorganWords(op: BitOp, signed: bool, a: bv32, b: bv32)
    requires op == BitOr || op == BitAnd
    ensures BitWord(op, signed, Complement(a), Complement(b)) == Complement(BitWord(Flip(op), signed, a, b))
  {
    hide BitWord, Complement;
    DeMorganOr(signed, a, b);
    DeMorganAnd(signed, a, b);
  }

  // ---------- The same on values ----------

  function ArithValue(op: ArithOp, signed: bool, a: Value, b: Value): Value {
    if a.Word? && b.Word? then Word(ArithWord(op, signed, a.w, b.w)) else a
  }

  function BitValue(op: BitOp, signed: bool, a: Value, b: Value): Value {
    if a.Word? && b.Word? then Word(BitWord(op, signed, a.w, b.w)) else a
  }

  function NegValue(a: Value): Value { UnaryValue(Neg, ComplementNot, a) }

  function ComplementValue(a: Value): Value { UnaryValue(Not, ComplementNot, a) }

  lemma AddNegValues(signed: bool, a: Value, b: Value)
    requires a.Word? && b.Word?
    ensures ArithValue(Add, signed, a, NegValue(b)) == ArithValue(Sub, signed, a, b)
    ensures ArithValue(Add, signed, NegValue(b), a) == ArithValue(Sub, signed, a, b)
  {
    AddWords(signed, a.w, b.w);
    hide ArithWord, Negate;
  }

  lemma AddZeroValues(signed: bool, a: Value)
    requires a.Word?
    ensures ArithValue(Add, signed, Word(0), a) == a && ArithValue(Add, signed, a, Word(0)) == a
  {
    AddZero(signed, a.w);
    hide ArithWord;
  }

  lemma MulZeroValues(signed: bool, a: Value)
    requires a.Word?
    ensures ArithValue(Mul, signed, Word(0), a) == Word(0) && ArithValue(Mul, signed, a, Word(0)) == Word(0)
  {
    ZeroTimes(signed, a.w);
    hide ArithWord;
  }

  lemma MulNegValues(signed: bool, a: Value, b: Value)
    requires a.Word? && b.Word?
    ensures ArithValue(Mul, signed, NegValue(a), NegValue(b)) == ArithValue(Mul, signed, a, b)
    ensures ArithValue(Mul, signed, Word(0xFFFF_FFFF), NegValue(b)) == b
    ensures ArithValue(Mul, signed, NegValue(b), Word(0xFFFF_FFFF)) == b
  {
    MulWords(signed, a.w, b.w);
    hide ArithWord, Negate;
  }

  lemma MulMinusOneValues(signed: bool, a: Value)
    requires a.Word?
    ensures ArithValue(Mul, signed, Word(0xFFFF_FFFF), a) == NegValue(a)
    ensures ArithValue(Mul, signed, a, Word(0xFFFF_FFFF)) == NegValue(a)
  {
    MinusOneTimes(signed, a.w);
    hide ArithWord, Negate;
  }

  lemma ShiftValues(op: BitOp, signed: bool, a: Value)
    requires a.Word? && (op == Shl || op == Shr)
    ensures BitValue(op, signed, Word(0), a) == Word(0) && BitValue(op, signed, a, Word(0)) == a
  {
    ShiftWords(op, signed, a.w);
    hide BitWord;
  }

  lemma ComplementOf(a: Value)
    requires a.Word?
    ensures ComplementValue(a) == Word(Complement(a.w))
  {
  }

  lemma DeMorganValues(op: BitOp, signed: bool, a: Value, b: Value)
    requires a.Word? && b.Word? && (op == BitOr || op == BitAnd)
    ensures BitValue(op, signed, ComplementValue(a), ComplementValue(b)) == ComplementValue(BitValue(Flip(op), signed, a, b))
  {
    hide BitWord, Complement, ComplementValue;
    ComplementOf(a);
    ComplementOf(b);
    ComplementOf(BitValue(Flip(op), signed, a, b));
    DeMorganWords(op, signed, a.w, b.w);
  }

  lemma ArithEval(op: ArithOp, l: Expr, r: Expr, env: Env)
    requires WellTyped(Arithmetic(op, l, r))
    ensures Eval(l, env).Word? && Eval(r, env).Word?
    ensures Eval(Arithmetic(op, l, r), env) == ArithValue(op, TypeOf(l) == TInt, Eval(l, env), Eval(r, env))
  {
    hide ArithWord;
    WordOf(l, env);
    WordOf(r, env);
  }

  lemma BitEval(op: BitOp, l: Expr, r: Expr, env: Env)
    requires WellTyped(Bitwise(op, l, r))
    ensures Eval(l, env).Word? && Eval(r, env).Word?
    ensures Eval(Bitwise(op, l, r), env) == BitValue(op, TypeOf(l) == TInt, Eval(l, env), Eval(r, env))
  {
    hide BitWord;
    WordOf(l, env);
    WordOf(r, env);
  }

  lemma NegEval(e: Expr, env: Env)
    requires IsNeg(e) && WellTyped(e)
    ensures WellTyped(e.sub) && TypeOf(e.sub) == TypeOf(e) && TypeOf(e) != TBool
    ensures Eval(e.sub, env).Word? && Eval(e, env) == NegValue(Eval(e.sub, env))
  {
    hide Negate;
    WordOf(e.sub, env);
  }

  lemma ZeroEval(e: Expr, env: Env)
    requires IsZero(e)
    ensures Eval(e, env) == Word(0)
  {
  }

  lemma AddNegEval(l: Expr, r: Expr, env: Env)
    requires IsNeg(r) && WellTyped(l) && WellTyped(r) && TypeOf(l) == TypeOf(r) != TBool
    ensures Eval(Arithmetic(Sub, l, r.sub), env) == Eval(Arithmetic(Add, l, r), env)
    ensures Eval(Arithmetic(Sub, l, r.sub), env) == Eval(Arithmetic(Add, r, l), env)
  {
    NegPart(l, r);
    ArithEval(Add, l, r, env);
    ArithEval(Add, r, l, env);
    ArithEval(Sub, l, r.sub, env);
    NegEval(r, env);
    hide Eval, WellTyped, ArithValue, NegValue;
    AddNegValues(TypeOf(l) == TInt, Eval(l, env), Eval(r.sub, env));
  }

  lemma AddZeroEval(l: Expr, r: Expr, env: Env)
    requires WellTyped(Arithmetic(Add, l, r))
    ensures IsZero(l) ==> Eval(r, env) == Eval(Arithmetic(Add, l, r), env)
    ensures IsZero(r) ==> Eval(l, env) == Eval(Arithmetic(Add, l, r), env)
  {
    ArithEval(Add, l, r, env);
    hide ArithValue;
    AddZeroValues(TypeOf(l) == TInt, Eval(l, env));
    AddZeroValues(TypeOf(l) == TInt, Eval(r, env));
  }

  lemma AddRuleEval(l: Expr, r: Expr, env: Env)
    requires WellTyped(Arithmetic(Add, l, r)) && AddRule(l, r).Some?
    ensures Eval(AddRule(l, r).value, env) == Eval(Arithmetic(Add, l, r), env)
  {
    assert WellTyped(l) && WellTyped(r) && TypeOf(l) == TypeOf(r) != TBool;
    hide Eval, WellTyped;
    AddZeroEval(l, r, env);
    if IsNeg(l) { AddNegEval(r, l, env); }
    if IsNeg(r) { AddNegEval(l, r, env); }
  }

  /** Taking a minus sign off one operand leaves a well-typed subtraction. */
  lemma NegPart(l: Expr, r: Expr)
    requires IsNeg(r) && WellTyped(l) && WellTyped(r) && TypeOf(l) == TypeOf(r)
    ensures WellTyped(Arithmetic(Sub, l, r.sub)) && TypeOf(r.sub) == TypeOf(l)
    ensures Size(Arithmetic(Sub, l, r.sub)) < Size(Arithmetic(Add, l, r)) && Size(r.sub) < Size(r)
    ensures BoolNots(r) <==> BoolNots(r.sub)
  {
    NegFacts(r);
  }

  lemma AddRuleTyped(l: Expr, r: Expr)
    requires WellTyped(Arithmetic(Add, l, r)) && AddRule(l, r).Some?
    ensures var e, e' := Arithmetic(Add, l, r), AddRule(l, r).value;
      WellTyped(e') && TypeOf(e') == TypeOf(e) && (BoolNots(e) ==> BoolNots(e')) && Size(e') < Size(e)
  {
    if IsNeg(l) { NegPart(r, l); }
    if IsNeg(r) { NegPart(l, r); }
  }

  lemma MulRuleEval(l: Expr, r: Expr, env: Env)
    requires WellTyped(Arithmetic(Mul, l, r)) && MulRule(l, r).Some? && WellTyped(MulRule(l, r).value)
    ensures Eval(MulRule(l, r).value, env) == Eval(Arithmetic(Mul, l, r), env)
  {
    ArithEval(Mul, l, r, env);
    var signed, a, b := TypeOf(l) == TInt, Eval(l, env), Eval(r, env);
    assert WellTyped(l) && WellTyped(r) && Eval(UnsignedValue(0), env) == Word(0);
    assert Eval(UnsignedValue(0xFFFF_FFFF), env) == Word(0xFFFF_FFFF);
    hide ArithValue, NegValue;
    MulZeroValues(signed, a);
    MulZeroValues(signed, b);
    MulMinusOneValues(signed, a);
    MulMinusOneValues(signed, b);
    if IsNeg(l) { NegEval(l, env); }
    if IsNeg(r) { NegEval(r, env); }
    if IsNeg(l) && IsNeg(r) {
      MulNegEval(l, r, env);
    } else {
      if IsNeg(l) { MulNegValues(signed, a, Eval(l.sub, env)); }
      if IsNeg(r) { MulNegValues(signed, b, Eval(r.sub, env)); }
      NegatedEval(l, env);
      NegatedEval(r, env);
    }
  }

  lemma NegatedEval(e: Expr, env: Env)
    requires WellTyped(e) && TypeOf(e) != TBool
    ensures Eval(UnaryExpr(Neg, e), env) == NegValue(Eval(e, env))
  {
    hide Negate;
    WordOf(e, env);
  }

  lemma MulNegEval(l: Expr, r: Expr, env: Env)
    requires IsNeg(l) && IsNeg(r) && WellTyped(Arithmetic(Mul, l, r))
    ensures Eval(Arithmetic(Mul, l.sub, r.sub), env) == Eval(Arithmetic(Mul, l, r), env)
  {
    ArithEval(Mul, l, r, env);
    NegEval(l, env);
    NegEval(r, env);
    ArithEval(Mul, l.sub, r.sub, env);
    hide ArithValue, NegValue, Eval;
    MulNegValues(TypeOf(l) == TInt, Eval(l.sub, env), Eval(r.sub, env));
  }

  lemma MulRuleTyped(l: Expr, r: Expr)
    requires WellTyped(Arithmetic(Mul, l, r)) && MulRule(l, r).Some?
    ensures var e, e' := Arithmetic(Mul, l, r), MulRule(l, r).value;
      WellTyped(e') && TypeOf(e') == TypeOf(e) && (BoolNots(e) ==> BoolNots(e')) && Size(e') < Size(e)
  {
    if IsNeg(l) { NegFacts(l); }
    if IsNeg(r) { NegFacts(r); }
  }

  /** Constant folding, sums with minus signs or zero, and products with minus signs, zero or minus one. */
  lemma ArithRuleRefines(op: ArithOp, l: Expr, r: Expr)
    requires WellTyped(Arithmetic(op, l, r)) && ArithRule(op, l, r).Ok? && ArithRule(op, l, r).value.Some?
    ensures var e, e' := Arithmetic(op, l, r), ArithRule(op, l, r).value.value; Refines(e, e') && Size(e') < Size(e)
  {
    hide ArithWord, AddRule, MulRule;
    var e, e' := Arithmetic(op, l, r), ArithRule(op, l, r).value.value;
    if IsLiteral(l) && IsLiteral(r) {
      assert Size(e) == 1 + Size(l) + Size(r);
      forall env: Env ensures Eval(e', env) == Eval(e, env) { ArithEval(op, l, r, env); }
    } else if op == Add {
      AddRuleTyped(l, r);
      forall env: Env ensures Eval(e', env) == Eval(e, env) { AddRuleEval(l, r, env); }
    } else {
      MulRuleTyped(l, r);
      forall env: Env ensures Eval(e', env) == Eval(e, env) { MulRuleEval(l, r, env); }
    }
  }

  lemma NotEval(e: Expr, env: Env)
    requires IsNot(e) && WellTyped(e) && TypeOf(e) != TBool && env.wordNot == ComplementNot
    ensures Eval(e.sub, env).Word? && Eval(e, env) == ComplementValue(Eval(e.sub, env))
  {
    WordOf(e.sub, env);
  }

  lemma NotFacts(e: Expr)
    requires IsNot(e)
    ensures Size(e) == 1 + Size(e.sub) && TypeOf(e) == TypeOf(e.sub) && (WellTyped(e) ==> WellTyped(e.sub))
    ensures BoolNots(e) <==> BoolNots(e.sub) && TypeOf(e.sub) == TBool
  {
  }

  function DeMorgan(op: BitOp, l: Expr, r: Expr): Expr
    requires IsNot(l) && IsNot(r)
  {
    UnaryExpr(Not, Bitwise(Flip(op), l.sub, r.sub))
  }

  lemma DeMorganEval(op: BitOp, l: Expr, r: Expr, env: Env)
    requires (op == BitOr || op == BitAnd) && IsNot(l) && IsNot(r) && WellTyped(Bitwise(op, l, r)) && env.wordNot == ComplementNot
    ensures WellTyped(DeMorgan(op, l, r)) && Eval(DeMorgan(op, l, r), env) == Eval(Bitwise(op, l, r), env)
  {
    DeMorganTyped(op, l, r);
    hide BitValue, ComplementValue, WellTyped, Eval, Flip, BoolNots, Size;
    NotEval(l, env);
    NotEval(r, env);
    BitEval(op, l, r, env);
    BitEval(Flip(op), l.sub, r.sub, env);
    NotEval(DeMorgan(op, l, r), env);
    DeMorganValues(op, TypeOf(l) == TInt, Eval(l.sub, env), Eval(r.sub, env));
  }

  lemma DeMorganTyped(op: BitOp, l: Expr, r: Expr)
    requires IsNot(l) && IsNot(r) && WellTyped(Bitwise(op, l, r))
    ensures var e, e' := Bitwise(op, l, r), DeMorgan(op, l, r);
      && WellTyped(e') && WellTyped(e'.sub) && WellTyped(l) && WellTyped(r) && TypeOf(l) == TypeOf(l.sub)
      && TypeOf(e') == TypeOf(e) == TypeOf(l) == TypeOf(r) != TBool && !BoolNots(e) && Size(e') < Size(e)
  {
    NotFacts(l);
    NotFacts(r);
    NotFacts(DeMorgan(op, l, r));
  }

  /** Constant folding, shifts of or by zero, and De Morgan's rule on complements. */
  lemma BitRuleRefines(op: BitOp, l: Expr, r: Expr)
    requires WellTyped(Bitwise(op, l, r)) && BitRule(op, l, r).Ok? && BitRule(op, l, r).value.Some?
    ensures var e, e' := Bitwise(op, l, r), BitRule(op, l, r).value.value; Refines(e, e') && Size(e') < Size(e)
  {
    var e, e' := Bitwise(op, l, r), BitRule(op, l, r).value.value;
    assert Size(e) == 1 + Size(l) + Size(r) && (BoolNots(e) ==> BoolNots(l));
    hide BitWord;
    if IsLiteral(l) && IsLiteral(r) {
      forall env: Env ensures Eval(e', env) == Eval(e, env) { BitEval(op, l, r, env); }
    } else if op == Shl || op == Shr {
      forall env: Env ensures Eval(e', env) == Eval(e, env) { ShiftRuleEval(op, l, r, env); }
    } else {
      DeMorganTyped(op, l, r);
      forall env: Env | Reads(env, e) ensures Eval(e', env) == Eval(e, env) {
        DeMorganEval(op, l, r, env);
      }
    }
  }

  lemma ShiftRuleEval(op: BitOp, l: Expr, r: Expr, env: Env)
    requires (op == Shl || op == Shr) && WellTyped(Bitwise(op, l, r)) && (IsZero(l) || IsZero(r))
    ensures Eval(l, env) == Eval(Bitwise(op, l, r), env)
  {
    hide BitWord;
    BitEval(op, l, r, env);
    if IsZero(l) { ZeroEval(l, env); } else { ZeroEval(r, env); }
    hide BitValue;
    ShiftValues(op, TypeOf(l) == TInt, if IsZero(l) then Eval(r, env) else Eval(l, env));
  }

  // ---------- "not" on numbers as the C++ "!" ----------

  function Bang(a: bv32): bv32 { if a == 0 then 1 else 0 }

  lemma BangEval(e: Expr, env: Env)
    requires WellTyped(e) && TypeOf(e) != TBool && env.wordNot == LogicalNot
    ensures Eval(e, env).Word? && Eval(UnaryExpr(Not, e), env) == Word(Bang(Eval(e, env).w))
  {
    WordOf(e, env);
  }

  /** Read as "!", removing a double "not" is right exactly for zero and one. */
  lemma DoubleNotExact(e: Expr, env: Env)
    requires WellTyped(e) && TypeOf(e) != TBool && env.wordNot == LogicalNot
    ensures UnaryRule(Not, UnaryExpr(Not, e)) == Some(e)
    ensures Eval(UnaryExpr(Not, UnaryExpr(Not, e)), env) == Eval(e, env) <==> Eval(e, env) in {Word(0), Word(1)}
  {
    BangEval(e, env);
    BangEval(UnaryExpr(Not, e), env);
  }

  lemma BangWords(a: bv32, b: bv32)
    ensures Bang(a) | Bang(b) == Bang(a & b) <==> (a & b == 0 ==> a == 0 || b == 0)
    ensures Bang(a) & Bang(b) == Bang(a | b)
  {
  }

  lemma BangBits(signed: bool, a: bv32, b: bv32)
    ensures BitWord(BitOr, signed, Bang(a), Bang(b)) == Bang(BitWord(BitAnd, signed, a, b)) <==>
      (BitWord(BitAnd, signed, a, b) == 0 ==> a == 0 || b == 0)
    ensures BitWord(BitAnd, signed, Bang(a), Bang(b)) == Bang(BitWord(BitOr, signed, a, b))
  {
    hide BitWord, Bang;
    BangWords(a, b);
    AndOrWord(signed, a, b);
    AndOrWord(signed, Bang(a), Bang(b));
  }

  function BangValue(a: Value): Value {
    if a.Word? then Word(Bang(a.w)) else a
  }

  lemma BangValues(signed: bool, a: Value, b: Value)
    requires a.Word? && b.Word?
    ensures BitValue(BitOr, signed, BangValue(a), BangValue(b)) == BangValue(BitValue(BitAnd, signed, a, b)) <==>
      (BitValue(BitAnd, signed, a, b) == Word(0) ==> a == Word(0) || b == Word(0))
    ensures BitValue(BitAnd, signed, BangValue(a), BangValue(b)) == BangValue(BitValue(BitOr, signed, a, b))
  {
    hide BitWord, Bang;
    BangBits(signed, a.w, b.w);
  }

  /**
   * Read as "!", De Morgan's rule is right for "&", and for "|" exactly when the operands share a bit or one is zero.
   */
  lemma DeMorganExact(l: Expr, r: Expr, env: Env)
    requires WellTyped(Bitwise(BitOr, l, r)) && env.wordNot == LogicalNot
    ensures var nl, nr := UnaryExpr(Not, l), UnaryExpr(Not, r);
      && Eval(UnaryExpr(Not, Bitwise(BitOr, l, r)), env) == Eval(Bitwise(BitAnd, nl, nr), env)
      && (Eval(UnaryExpr(Not, Bitwise(BitAnd, l, r)), env) == Eval(Bitwise(BitOr, nl, nr), env) <==>
            (Eval(Bitwise(BitAnd, l, r), env) == Word(0) ==> Eval(l, env) == Word(0) || Eval(r, env) == Word(0)))
  {
    var nl, nr := UnaryExpr(Not, l), UnaryExpr(Not, r);
    assert WellTyped(nl) && WellTyped(nr) && TypeOf(nl) == TypeOf(l) && TypeOf(nr) == TypeOf(r);
    assert WellTyped(Bitwise(BitAnd, l, r)) && WellTyped(Bitwise(BitOr, nl, nr)) && WellTyped(Bitwise(BitAnd, nl, nr));
    assert TypeOf(Bitwise(BitAnd, l, r)) == TypeOf(Bitwise(BitOr, l, r)) == TypeOf(l) == TypeOf(r) != TBool;
    hide BitValue, Bang, Eval, WellTyped, TypeOf, BangValue;
    BangOf(l, env);
    BangOf(r, env);
    BangOf(Bitwise(BitAnd, l, r), env);
    BangOf(Bitwise(BitOr, l, r), env);
    BitEval(BitOr, l, r, env);
    BitEval(BitAnd, l, r, env);
    BitEval(BitOr, nl, nr, env);
    BitEval(BitAnd, nl, nr, env);
    BangValues(TypeOf(l) == TInt, Eval(l, env), Eval(r, env));
  }

  lemma BangOf(e: Expr, env: Env)
    requires WellTyped(e) && TypeOf(e) != TBool && env.wordNot == LogicalNot
    ensures Eval(UnaryExpr(Not, e), env) == BangValue(Eval(e, env))
  {
    hide Bang;
    BangEval(e, env);
  }

  /** not not 2 is not 2, and not 1 | not 2 is not what De Morgan's rule makes of it. */
  lemma NotOnNumbers()
    ensures var env, one, two := Env(map[], {}, LogicalNot), UnsignedValue(1), UnsignedValue(2);
      && Eval(UnaryExpr(Not, UnaryExpr(Not, two)), env) != Eval(two, env)
      && Eval(UnaryExpr(Not, Bitwise(BitAnd, one, two)), env)
           != Eval(Bitwise(BitOr, UnaryExpr(Not, one), UnaryExpr(Not, two)), env)
  {
    hide Eval, BitValue;
    var env, one, two := Env(map[], {}, LogicalNot), UnsignedValue(1), UnsignedValue(2);
    LiteralEval(1, env);
    LiteralEval(2, env);
    OneAndTwo();
    DoubleNotExact(two, env);
    DeMorganExact(one, two, env);
    BitEval(BitAnd, one, two, env);
  }

  lemma LiteralEval(w: bv32, env: Env)
    ensures Eval(UnsignedValue(w), env) == Word(w)
  {
  }

  lemma OneAndTwo()
    ensures BitValue(BitAnd, false, Word(1), Word(2)) == Word(0) && Word(1) != Word(0) && Word(2) !in {Word(0), Word(1)}
  {
  }
}
