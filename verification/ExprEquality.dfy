/** The equality of expression nodes, which the node table shares by: structure up to operand order. */
module ExprEquality {
  import opened Ir

  /** Operators whose operands may be exchanged. */
  predicate Commutes(e: Expr) {
    match e
    case Arithmetic(op, _, _) => op == Add || op == Mul
    case Bitwise(op, _, _) => op == BitAnd || op == BitOr || op == BitXor
    case Relational(op, _, _) => op == Eq || op == Ne
    case Logical(_, _, _) => true
    case _ => false
  }

  predicate IsNeg(e: Expr) {
    e.UnaryExpr? && e.uop == Neg
  }

  predicate Binary(e: Expr) {
    e.Arithmetic? || e.Bitwise? || e.Logical? || e.Relational?
  }

  /** The same kind of binary node with the same operator. */
  predicate SameOperator(a: Expr, b: Expr)
    requires Binary(a)
  {
    match a
    case Arithmetic(op, _, _) => b.Arithmetic? && b.aop == op
    case Bitwise(op, _, _) => b.Bitwise? && b.bop == op
    case Logical(op, _, _) => b.Logical? && b.lop == op
    case Relational(op, _, _) => b.Relational? && b.rop == op
  }

  /** Node equality: exchanged operands are equal for commuting operators, and -a-b equals -b-a. */
  predicate Equal(a: Expr, b: Expr)
    decreases a
  {
    match a
    case UnaryExpr(op, s) => b.UnaryExpr? && b.uop == op && Equal(s, b.sub)
    case Cast(t, s) => b.Cast? && b.to == t && Equal(s, b.sub)
    case Ternary(c, t, f) => b.Ternary? && Equal(c, b.cond) && Equal(t, b.thn) && Equal(f, b.els)
    case Arithmetic(_, _, _) => BinaryEqual(a, b)
    case Bitwise(_, _, _) => BinaryEqual(a, b)
    case Logical(_, _, _) => BinaryEqual(a, b)
    case Relational(_, _, _) => BinaryEqual(a, b)
    case _ => a == b
  }

  predicate BinaryEqual(a: Expr, b: Expr)
    requires Binary(a)
    decreases a, 0
  {
    && SameOperator(a, b)
    && (|| (Equal(a.lhs, b.lhs) && Equal(a.rhs, b.rhs))
        || (Commutes(a) && Equal(a.lhs, b.rhs) && Equal(a.rhs, b.lhs))
        || (a.Arithmetic? && a.aop == Sub && IsNeg(a.lhs) && IsNeg(b.lhs)
            && Equal(a.lhs.sub, b.rhs) && Equal(a.rhs, b.lhs.sub)))
  }

  function Size(e: Expr): (n: nat)
    ensures n > 0
  {
    match e
    case UnaryExpr(_, s) => 1 + Size(s)
    case Arithmetic(_, l, r) => 1 + Size(l) + Size(r)
    case Bitwise(_, l, r) => 1 + Size(l) + Size(r)
    case Logical(_, l, r) => 1 + Size(l) + Size(r)
    case Relational(_, l, r) => 1 + Size(l) + Size(r)
    case Cast(_, s) => 1 + Size(s)
    case Ternary(c, t, f) => 1 + Size(c) + Size(t) + Size(f)
    case _ => 1
  }

  /** x is e or a part of it. */
  predicate Within(x: Expr, e: Expr) {
    || x == e
    || match e
       case UnaryExpr(_, s) => Within(x, s)
       case Cast(_, s) => Within(x, s)
       case Arithmetic(_, l, r) => Within(x, l) || Within(x, r)
       case Bitwise(_, l, r) => Within(x, l) || Within(x, r)
       case Logical(_, l, r) => Within(x, l) || Within(x, r)
       case Relational(_, l, r) => Within(x, l) || Within(x, r)
       case Ternary(c, t, f) => Within(x, c) || Within(x, t) || Within(x, f)
       case _ => false
  }

  lemma {:induction false} EqualReflexive(a: Expr)
    ensures Equal(a, a)
  {
    match a
    case UnaryExpr(_, s) => EqualReflexive(s);
    case Cast(_, s) => EqualReflexive(s);
    case Ternary(c, t, f) => EqualReflexive(c); EqualReflexive(t); EqualReflexive(f);
    case Arithmetic(_, l, r) => EqualReflexive(l); EqualReflexive(r);
    case Bitwise(_, l, r) => EqualReflexive(l); EqualReflexive(r);
    case Logical(_, l, r) => EqualReflexive(l); EqualReflexive(r);
    case Relational(_, l, r) => EqualReflexive(l); EqualReflexive(r);
    case _ =>
  }

  lemma {:induction false} EqualSymmetric(a: Expr, b: Expr)
    requires Equal(a, b)
    ensures Equal(b, a)
    decreases a
  {
    match a
    case UnaryExpr(_, s) => EqualSymmetric(s, b.sub);
    case Cast(_, s) => EqualSymmetric(s, b.sub);
    case Ternary(c, t, f) => EqualSymmetric(c, b.cond); EqualSymmetric(t, b.thn); EqualSymmetric(f, b.els);
    case Arithmetic(_, _, _) => BinarySymmetric(a, b);
    case Bitwise(_, _, _) => BinarySymmetric(a, b);
    case Logical(_, _, _) => BinarySymmetric(a, b);
    case Relational(_, _, _) => BinarySymmetric(a, b);
    case _ =>
  }

  lemma {:induction false} BinarySymmetric(a: Expr, b: Expr)
    requires Binary(a) && BinaryEqual(a, b)
    ensures BinaryEqual(b, a)
    decreases a, 0
  {
    hide Equal;
    if Equal(a.lhs, b.lhs) && Equal(a.rhs, b.rhs) {
      EqualSymmetric(a.lhs, b.lhs);
      EqualSymmetric(a.rhs, b.rhs);
    } else if Commutes(a) {
      EqualSymmetric(a.lhs, b.rhs);
      EqualSymmetric(a.rhs, b.lhs);
    } else {
      EqualSymmetric(a.lhs.sub, b.rhs);
      EqualSymmetric(a.rhs, b.lhs.sub);
    }
  }

  lemma {:induction false} EqualTransitive(a: Expr, b: Expr, c: Expr)
    requires Equal(a, b) && Equal(b, c)
    ensures Equal(a, c)
    decreases a, 2
  {
    match a
    case UnaryExpr(_, s) => EqualTransitive(s, b.sub, c.sub);
    case Cast(_, s) => EqualTransitive(s, b.sub, c.sub);
    case Ternary(_, _, _) =>
      EqualTransitive(a.cond, b.cond, c.cond);
      EqualTransitive(a.thn, b.thn, c.thn);
      EqualTransitive(a.els, b.els, c.els);
    case Arithmetic(_, _, _) => BinaryTransitive(a, b, c);
    case Bitwise(_, _, _) => BinaryTransitive(a, b, c);
    case Logical(_, _, _) => BinaryTransitive(a, b, c);
    case Relational(_, _, _) => BinaryTransitive(a, b, c);
    case _ =>
  }

  lemma {:induction false} BinaryTransitive(a: Expr, b: Expr, c: Expr)
    requires Binary(a) && BinaryEqual(a, b) && BinaryEqual(b, c)
    ensures BinaryEqual(a, c)
    decreases a, 1
  {
    NegStays(a.lhs, b.lhs);
    NegStays(b.lhs, c.lhs);
    hide Equal;
    Chain(a.lhs, b.lhs, c.lhs, c.rhs);
    Chain(a.lhs, b.rhs, c.lhs, c.rhs);
    Chain(a.rhs, b.lhs, c.lhs, c.rhs);
    Chain(a.rhs, b.rhs, c.lhs, c.rhs);
    if IsNeg(a.lhs) && IsNeg(b.lhs) && IsNeg(c.lhs) {
      Chain(a.rhs, b.rhs, c.lhs.sub, c.rhs);
      Chain(a.lhs.sub, b.rhs, c.lhs.sub, c.rhs);
      Chain(a.rhs, b.lhs.sub, c.lhs.sub, c.rhs);
      Chain(a.lhs.sub, b.lhs.sub, c.lhs.sub, c.rhs);
    }
  }

  lemma NegStays(a: Expr, b: Expr)
    ensures Equal(a, b) ==> (IsNeg(a) <==> IsNeg(b))
    ensures IsNeg(a) && IsNeg(b) ==> (Equal(a, b) <==> Equal(a.sub, b.sub))
  {
    if Equal(a, b) && Binary(a) {
      assert BinaryEqual(a, b);
    }
  }

  lemma {:induction false} Chain(a: Expr, b: Expr, c: Expr, d: Expr)
    ensures Equal(a, b) && Equal(b, c) ==> Equal(a, c)
    ensures Equal(a, b) && Equal(b, d) ==> Equal(a, d)
    decreases a, 3
  {
    hide Equal;
    if Equal(a, b) && Equal(b, c) { EqualTransitive(a, b, c); }
    if Equal(a, b) && Equal(b, d) { EqualTransitive(a, b, d); }
  }

  // ---------- What equal expressions share ----------

  /** No condition is negated but a boolean one: numbers are complemented with "~". */
  predicate BoolNots(e: Expr) {
    match e
    case UnaryExpr(op, s) => BoolNots(s) && (op == Not ==> TypeOf(s) == TBool)
    case Arithmetic(_, l, r) => BoolNots(l) && BoolNots(r)
    case Bitwise(_, l, r) => BoolNots(l) && BoolNots(r)
    case Logical(_, l, r) => BoolNots(l) && BoolNots(r)
    case Relational(_, l, r) => BoolNots(l) && BoolNots(r)
    case Cast(_, s) => BoolNots(s)
    case Ternary(c, t, f) => BoolNots(c) && BoolNots(t) && BoolNots(f)
    case _ => true
  }

  /** Equal expressions have one size, and when one is well typed they have one type. */
  lemma {:induction false} EqualTyped(a: Expr, b: Expr)
    requires Equal(a, b)
    ensures Alike(a, b)
    decreases a
  {
    match a
    case UnaryExpr(_, s) => EqualTyped(s, b.sub);
    case Cast(_, s) => EqualTyped(s, b.sub);
    case Ternary(c, t, f) => EqualTyped(c, b.cond); EqualTyped(t, b.thn); EqualTyped(f, b.els);
    case Arithmetic(_, _, _) => BinaryTyped(a, b);
    case Bitwise(_, _, _) => BinaryTyped(a, b);
    case Logical(_, _, _) => BinaryTyped(a, b);
    case Relational(_, _, _) => BinaryTyped(a, b);
    case _ =>
  }

  predicate Alike(a: Expr, b: Expr) {
    && Size(a) == Size(b)
    && (WellTyped(a) ==> WellTyped(b) && TypeOf(b) == TypeOf(a) && (BoolNots(a) ==> BoolNots(b)))
  }

  lemma NegFacts(a: Expr)
    requires IsNeg(a)
    ensures Size(a) == 1 + Size(a.sub) && TypeOf(a) == TypeOf(a.sub)
    ensures (WellTyped(a) <==> WellTyped(a.sub) && TypeOf(a.sub) != TBool) && (BoolNots(a) <==> BoolNots(a.sub))
  {
  }

  lemma {:induction false} BinaryTyped(a: Expr, b: Expr)
    requires Binary(a) && BinaryEqual(a, b)
    ensures Alike(a, b)
    decreases a, 0
  {
    hide Equal;
    if Equal(a.lhs, b.lhs) && Equal(a.rhs, b.rhs) {
      EqualTyped(a.lhs, b.lhs);
      EqualTyped(a.rhs, b.rhs);
    } else if Commutes(a) {
      EqualTyped(a.lhs, b.rhs);
      EqualTyped(a.rhs, b.lhs);
    } else {
      EqualTyped(a.lhs.sub, b.rhs);
      EqualTyped(a.rhs, b.lhs.sub);
      NegFacts(a.lhs);
      NegFacts(b.lhs);
    }
  }

  // ---------- The same value ----------

  lemma WordsCommute(a: bv32, b: bv32)
    ensures a + b == b + a && a & b == b & a && a | b == b | a && a ^ b == b ^ a
  {
  }

  lemma ProductCommutes(a: bv32, b: bv32)
    ensures a * b == b * a
  {
  }

  lemma DifferenceOfNegated(a: bv32, b: bv32)
    ensures (0 - a) - b == 0 - (a + b)
  {
  }

  lemma ZeroMinus(a: bv32)
    ensures Negate(a) == 0 - a
  {
  }

  lemma SumCommutes(a: bv32, b: bv32)
    ensures a + b == b + a
  {
  }

  lemma NegatedDifference(a: bv32, b: bv32)
    ensures Negate(a) - b == Negate(b) - a
  {
    ZeroMinus(a);
    ZeroMinus(b);
    hide Negate;
    DifferenceOfNegated(a, b);
    DifferenceOfNegated(b, a);
    SumCommutes(a, b);
  }

  lemma ArithCommutes(op: ArithOp, signed: bool, a: bv32, b: bv32)
    requires op == Add || op == Mul
    ensures ArithWord(op, signed, a, b) == ArithWord(op, signed, b, a)
  {
    if op == Add { WordsCommute(a, b); } else { ProductCommutes(a, b); }
  }

  lemma BitCommutes(op: BitOp, signed: bool, a: bv32, b: bv32)
    requires op == BitAnd || op == BitOr || op == BitXor
    ensures BitWord(op, signed, a, b) == BitWord(op, signed, b, a)
  {
    WordsCommute(a, b);
  }

  lemma SubCrosses(signed: bool, a: bv32, b: bv32)
    ensures ArithWord(Sub, signed, Negate(a), b) == ArithWord(Sub, signed, Negate(b), a)
  {
    NegatedDifference(a, b);
  }

  /** Operands exchanged. */
  function Swap(a: Expr): Expr
    requires Binary(a)
  {
    match a
    case Arithmetic(op, l, r) => Arithmetic(op, r, l)
    case Bitwise(op, l, r) => Bitwise(op, r, l)
    case Logical(op, l, r) => Logical(op, r, l)
    case Relational(op, l, r) => Relational(op, r, l)
  }

  lemma SwapEval(a: Expr, env: Env)
    requires Binary(a) && Commutes(a) && WellTyped(a)
    ensures Eval(Swap(a), env) == Eval(a, env)
  {
    hide ArithWord, BitWord;
    var x, y := Eval(a.lhs, env), Eval(a.rhs, env);
    EvalFits(a.lhs, env);
    EvalFits(a.rhs, env);
    if a.Arithmetic? { ArithCommutes(a.aop, TypeOf(a.lhs) == TInt, x.w, y.w); }
    if a.Bitwise? { BitCommutes(a.bop, TypeOf(a.lhs) == TInt, x.w, y.w); }
  }

  lemma CrossEval(a: Expr, b: Expr, env: Env)
    requires WellTyped(Arithmetic(Sub, UnaryExpr(Neg, a), b))
    ensures Eval(Arithmetic(Sub, UnaryExpr(Neg, a), b), env) == Eval(Arithmetic(Sub, UnaryExpr(Neg, b), a), env)
  {
    hide ArithWord, Negate;
    EvalFits(a, env);
    EvalFits(b, env);
    SubCrosses(TypeOf(a) == TInt, Eval(a, env).w, Eval(b, env).w);
  }

  /** Binary nodes of one operator over operands with the same values have the same value. */
  lemma SameOperands(a: Expr, b: Expr, env: Env)
    requires Binary(a) && SameOperator(a, b)
    requires Eval(a.lhs, env) == Eval(b.lhs, env) && Eval(a.rhs, env) == Eval(b.rhs, env) && TypeOf(a.lhs) == TypeOf(b.lhs)
    ensures Eval(a, env) == Eval(b, env)
  {
    hide ArithWord, BitWord;
  }

  /** Equal expressions evaluate alike in every environment. */
  lemma {:induction false} EqualEval(a: Expr, b: Expr, env: Env)
    requires Equal(a, b) && WellTyped(a)
    ensures Eval(a, env) == Eval(b, env)
    decreases a
  {
    hide ArithWord, BitWord, UnaryValue, RelFlag, LogicFlag;
    match a
    case UnaryExpr(_, s) => EqualEval(s, b.sub, env);
    case Cast(_, s) => EqualEval(s, b.sub, env);
    case Ternary(c, t, f) => EqualEval(c, b.cond, env); EqualEval(t, b.thn, env); EqualEval(f, b.els, env);
    case Arithmetic(_, _, _) => BinaryEval(a, b, env);
    case Bitwise(_, _, _) => BinaryEval(a, b, env);
    case Logical(_, _, _) => BinaryEval(a, b, env);
    case Relational(_, _, _) => BinaryEval(a, b, env);
    case _ =>
  }

  lemma {:induction false} BinaryEval(a: Expr, b: Expr, env: Env)
    requires Binary(a) && BinaryEqual(a, b) && WellTyped(a)
    ensures Eval(a, env) == Eval(b, env)
    decreases a, 0
  {
    hide Eval, TypeOf;
    if Equal(a.lhs, b.lhs) && Equal(a.rhs, b.rhs) {
      EqualEval(a.lhs, b.lhs, env);
      EqualEval(a.rhs, b.rhs, env);
      EqualTyped(a.lhs, b.lhs);
      SameOperands(a, b, env);
    } else if Commutes(a) {
      EqualEval(a.lhs, b.rhs, env);
      EqualEval(a.rhs, b.lhs, env);
      EqualTyped(a.rhs, b.lhs);
      SwapEval(a, env);
      SameOperands(Swap(a), b, env);
    } else {
      EqualEval(a.lhs.sub, b.rhs, env);
      EqualEval(a.rhs, b.lhs.sub, env);
      EqualTyped(a.rhs, b.lhs.sub);
      CrossEval(a.lhs.sub, a.rhs, env);
      CrossOperands(a.rhs, b.lhs.sub, env);
      SameOperands(Arithmetic(Sub, UnaryExpr(Neg, a.rhs), a.lhs.sub), b, env);
    }
  }

  lemma CrossOperands(x: Expr, y: Expr, env: Env)
    requires Eval(x, env) == Eval(y, env) && TypeOf(x) == TypeOf(y)
    ensures Eval(UnaryExpr(Neg, x), env) == Eval(UnaryExpr(Neg, y), env)
    ensures TypeOf(UnaryExpr(Neg, x)) == TypeOf(UnaryExpr(Neg, y))
  {
  }

  // ---------- When equality is structural ----------

  /** Exchanging operands anywhere gives the same expression back. */
  predicate Rigid(e: Expr) {
    match e
    case UnaryExpr(_, s) => Rigid(s)
    case Cast(_, s) => Rigid(s)
    case Ternary(c, t, f) => Rigid(c) && Rigid(t) && Rigid(f)
    case Arithmetic(op, l, r) =>
      Rigid(l) && Rigid(r) && (Commutes(e) ==> l == r) && (op == Sub && IsNeg(l) ==> l.sub == r)
    case Bitwise(_, l, r) => Rigid(l) && Rigid(r) && (Commutes(e) ==> l == r)
    case Relational(_, l, r) => Rigid(l) && Rigid(r) && (Commutes(e) ==> l == r)
    case Logical(_, l, r) => Rigid(l) && Rigid(r) && l == r
    case _ => true
  }

  lemma {:induction false} RigidAlone(e: Expr, x: Expr)
    requires Rigid(e) && Equal(e, x)
    ensures x == e
    decreases e
  {
    match e
    case UnaryExpr(_, s) => RigidAlone(s, x.sub);
    case Cast(_, s) => RigidAlone(s, x.sub);
    case Ternary(c, t, f) => RigidAlone(c, x.cond); RigidAlone(t, x.thn); RigidAlone(f, x.els);
    case Arithmetic(_, _, _) => BinaryAlone(e, x);
    case Bitwise(_, _, _) => BinaryAlone(e, x);
    case Logical(_, _, _) => BinaryAlone(e, x);
    case Relational(_, _, _) => BinaryAlone(e, x);
    case _ =>
  }

  lemma {:induction false} BinaryAlone(e: Expr, x: Expr)
    requires Binary(e) && Rigid(e) && BinaryEqual(e, x)
    ensures x == e
    decreases e, 0
  {
    NegStays(e.lhs, x.lhs);
    hide Equal;
    RigidAlone(e.lhs, x.lhs);
    RigidAlone(e.rhs, x.rhs);
  }

  /** An equal expression that is not the same, for an expression that is not rigid. */
  lemma {:induction false} Variant(e: Expr) returns (x: Expr)
    requires !Rigid(e)
    ensures Equal(e, x) && x != e
    decreases e
  {
    match e {
      case UnaryExpr(op, s) => var y := Variant(s); x := UnaryExpr(op, y);
      case Cast(t, s) => var y := Variant(s); x := Cast(t, y);
      case Ternary(c, t, f) => x := TernaryVariant(c, t, f);
      case Arithmetic(_, _, _) => x := BinaryVariant(e);
      case Bitwise(_, _, _) => x := BinaryVariant(e);
      case Logical(_, _, _) => x := BinaryVariant(e);
      case Relational(_, _, _) => x := BinaryVariant(e);
    }
  }

  lemma {:induction false} TernaryVariant(c: Expr, t: Expr, f: Expr) returns (x: Expr)
    requires !Rigid(Ternary(c, t, f))
    ensures Equal(Ternary(c, t, f), x) && x != Ternary(c, t, f)
    decreases Ternary(c, t, f), 0
  {
    EqualReflexive(c);
    EqualReflexive(t);
    EqualReflexive(f);
    if !Rigid(c) {
      var y := Variant(c);
      x := Ternary(y, t, f);
    } else if !Rigid(t) {
      var y := Variant(t);
      x := Ternary(c, y, f);
    } else {
      var y := Variant(f);
      x := Ternary(c, t, y);
    }
  }

  function WithOperands(a: Expr, l: Expr, r: Expr): Expr
    requires Binary(a)
  {
    match a
    case Arithmetic(op, _, _) => Arithmetic(op, l, r)
    case Bitwise(op, _, _) => Bitwise(op, l, r)
    case Logical(op, _, _) => Logical(op, l, r)
    case Relational(op, _, _) => Relational(op, l, r)
  }

  lemma {:induction false} BinaryVariant(e: Expr) returns (x: Expr)
    requires Binary(e) && !Rigid(e)
    ensures Equal(e, x) && x != e
    decreases e, 0
  {
    EqualReflexive(e.lhs);
    EqualReflexive(e.rhs);
    if !Rigid(e.lhs) {
      var y := Variant(e.lhs);
      x := WithOperands(e, y, e.rhs);
    } else if !Rigid(e.rhs) {
      var y := Variant(e.rhs);
      x := WithOperands(e, e.lhs, y);
    } else if Commutes(e) {
      x := Swap(e);
    } else {
      EqualReflexive(e.lhs.sub);
      x := Arithmetic(Sub, UnaryExpr(Neg, e.rhs), e.lhs.sub);
    }
  }

  lemma NotAlone(e: Expr, x: Expr)
    requires Equal(e, x) && x != e
    ensures exists y: Expr :: Equal(e, y) && y != e
  {
    hide Equal;
  }

  /** A request with exchanged operands asks for the same node for these operators, and else only when the operands are equal. */
  lemma ExchangedExact(e: Expr)
    requires Binary(e)
    ensures Equal(e, WithOperands(e, e.rhs, e.lhs)) <==>
      || e.Logical?
      || (e.Arithmetic? && e.aop in {Add, Mul})
      || (e.Bitwise? && e.bop in {BitAnd, BitOr, BitXor})
      || (e.Relational? && e.rop in {Eq, Ne})
      || Equal(e.lhs, e.rhs)
  {
    var x := WithOperands(e, e.rhs, e.lhs);
    assert Equal(e, x) == BinaryEqual(e, x);
    EqualReflexive(e.lhs);
    EqualReflexive(e.rhs);
    if Equal(e.lhs, e.rhs) { EqualSymmetric(e.lhs, e.rhs); }
    if IsNeg(e.lhs) && Equal(e.lhs.sub, x.rhs) { EqualTyped(e.lhs.sub, x.rhs); }
    hide Equal;
  }

  /** Node equality is the same structure exactly for the expressions without operands to exchange. */
  lemma StructuralExactly(e: Expr)
    ensures (exists x: Expr :: Equal(e, x) && x != e) <==> !Rigid(e)
  {
    if Rigid(e) {
      forall x: Expr | Equal(e, x) ensures x == e { RigidAlone(e, x); }
    } else {
      var x := Variant(e);
      NotAlone(e, x);
    }
  }
}
