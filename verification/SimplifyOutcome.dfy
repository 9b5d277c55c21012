/** When the simplifier throws: what happens to an expression depends on its constant parts alone. */
module SimplifyOutcome {
  import opened Ir
  import opened ExprEquality
  import opened NodeTable
  import opened SimplifyRules

  /** A literal under unary operators and casts: what is left of a constant once it is simplified. */
  predicate Chain(e: Expr) {
    IsLiteral(e) || ((e.UnaryExpr? || e.Cast?) && Chain(e.sub))
  }

  // ---------- What a constant becomes ----------

  /** The result is smaller, and no ternary comes in. */
  predicate Shrinks(l: Expr, r: Expr, z: Expr) {
    Size(z) < 1 + Size(l) + Size(r) && (!HasTernary(l) && !HasTernary(r) ==> !HasTernary(z))
  }

  lemma AddRuleShrinks(l: Expr, r: Expr)
    ensures AddRule(l, r).Some? ==> Shrinks(l, r, AddRule(l, r).value)
  {
  }

  lemma MulRuleShrinks(l: Expr, r: Expr)
    ensures MulRule(l, r).Some? ==> Shrinks(l, r, MulRule(l, r).value)
  {
  }

  lemma ArithRuleShrinks(op: ArithOp, l: Expr, r: Expr)
    requires ArithRule(op, l, r).Ok? && ArithRule(op, l, r).value.Some?
    ensures Shrinks(l, r, ArithRule(op, l, r).value.value)
  {
    AddRuleShrinks(l, r);
    MulRuleShrinks(l, r);
    hide ArithWord, ArithFolds, AddRule, MulRule;
  }

  lemma BitRuleShrinks(op: BitOp, l: Expr, r: Expr)
    requires BitRule(op, l, r).Ok? && BitRule(op, l, r).value.Some?
    ensures Shrinks(l, r, BitRule(op, l, r).value.value)
  {
    if IsNot(l) && IsNot(r) { MorganShrinks(op, l, r); }
    hide BitWord, BitFolds, Negative;
  }

  lemma MorganShrinks(op: BitOp, l: Expr, r: Expr)
    requires IsNot(l) && IsNot(r)
    ensures Shrinks(l, r, DeMorgan(op, l, r))
  {
    var e := Bitwise(Flip(op), l.sub, r.sub);
    assert HasTernary(DeMorgan(op, l, r)) == HasTernary(e) && Size(DeMorgan(op, l, r)) == 1 + Size(e);
  }

  /**
   * What simplifying gives: the literal, under operators that cannot be folded, of a constant, none for an expression that
   * keeps a variable or signal, or the exception.
   */
  function Form(e: Expr): (f: Result<Option<Expr>>)
    ensures f.Ok? && f.value.Some? ==> Size(f.value.value) <= Size(e)
    decreases Size(e), 1
  {
    match e
    case Operand(v) => if v.kind == Parameter then Err(NotImplemented) else Ok(None)
    case UnaryExpr(op, s) =>
      var f := Form(s);
      if f.Err? || f.value.None? then f
      else Ok(Some(if UnaryRule(op, f.value.value).Some? then UnaryRule(op, f.value.value).value else UnaryExpr(op, f.value.value)))
    case Cast(t, s) =>
      var f := Form(s);
      if f.Err? || f.value.None? then f
      else Ok(Some(if CastRule(t, f.value.value).Some? then CastRule(t, f.value.value).value else Cast(t, f.value.value)))
    case Arithmetic(op, l, r) =>
      var f := Form(l);
      if f.Err? then f else
        var g := Form(r);
        if g.Err? then g else ArithForm(op, f.value, g.value)
    case Bitwise(op, l, r) =>
      var f := Form(l);
      if f.Err? then f else
        var g := Form(r);
        if g.Err? then g else BitForm(op, f.value, g.value)
    case _ => Ok(if IsLiteral(e) then Some(e) else None)
  }

  function SizeOf(f: Option<Expr>): nat {
    if f.Some? then Size(f.value) else 1
  }

  /** A variable remains, but for a product with zero. */
  function ArithForm(op: ArithOp, f: Option<Expr>, g: Option<Expr>): (h: Result<Option<Expr>>)
    ensures h.Ok? && h.value.Some? ==> Size(h.value.value) <= 1 + SizeOf(f) + SizeOf(g)
    decreases 1 + SizeOf(f) + SizeOf(g), 0
  {
    if f.Some? && g.Some? then
      var rule := ArithRule(op, f.value, g.value);
      if rule.Ok? && rule.value.Some? then
        ArithRuleShrinks(op, f.value, g.value);
        Form(rule.value.value)
      else rule
    else if op == Mul && (f == Some(UnsignedValue(0)) || g == Some(UnsignedValue(0))) then Ok(Some(UnsignedValue(0)))
    else Ok(None)
  }

  /** A variable remains, but for zero shifted. */
  function BitForm(op: BitOp, f: Option<Expr>, g: Option<Expr>): (h: Result<Option<Expr>>)
    ensures h.Ok? && h.value.Some? ==> Size(h.value.value) <= 1 + SizeOf(f) + SizeOf(g)
    decreases 1 + SizeOf(f) + SizeOf(g), 0
  {
    if f.Some? && g.Some? then
      var rule := BitRule(op, f.value, g.value);
      if rule.Ok? && rule.value.Some? then
        BitRuleShrinks(op, f.value, g.value);
        Form(rule.value.value)
      else rule
    else if op != Shl && op != Shr then Ok(None)
    else if f.Some? && IsZero(f.value) then Ok(f)
    else if g.Some? && g.value.IntegerValue? && Negative(g.value.int32) then Err(MissedOptimization)
    else Ok(None)
  }

  // ---------- The exception of one visit ----------

  function ErrorOf<T>(f: Result<T>): Option<Error> {
    if f.Err? then Some(f.error) else None
  }

  function ArithError(op: ArithOp, f: Option<Expr>, g: Option<Expr>): Option<Error> {
    if f.Some? && g.Some? then ErrorOf(ArithRule(op, f.value, g.value)) else None
  }

  function BitError(op: BitOp, f: Option<Expr>, g: Option<Expr>): Option<Error> {
    if f.Some? && g.Some? then ErrorOf(BitRule(op, f.value, g.value))
    else if (op == Shl || op == Shr) && !(f.Some? && IsZero(f.value)) && g.Some? && g.value.IntegerValue? && Negative(g.value.int32)
    then Some(MissedOptimization)
    else None
  }

  /** What a visit of the node throws: what simplifying its operands throws, or what no rule handles. */
  function VisitError(e: Expr): Option<Error> {
    match e
    case Operand(v) => if v.kind == Parameter then Some(NotImplemented) else None
    case UnaryExpr(_, s) => ErrorOf(Form(s))
    case Cast(_, s) => ErrorOf(Form(s))
    case Arithmetic(op, l, r) =>
      if Form(l).Err? || Form(r).Err? then ErrorOf(if Form(l).Err? then Form(l) else Form(r))
      else ArithError(op, Form(l).value, Form(r).value)
    case Bitwise(op, l, r) =>
      if Form(l).Err? || Form(r).Err? then ErrorOf(if Form(l).Err? then Form(l) else Form(r))
      else BitError(op, Form(l).value, Form(r).value)
    case _ => None
  }

  /** An expression that one visit throws on is one that simplifying throws on. */
  lemma VisitErrorForm(e: Expr)
    requires VisitError(e).Some?
    ensures Form(e) == Err(VisitError(e).value)
  {
    hide ArithRule, BitRule, Negative;
  }

  lemma FormOver(e: Expr, f: Option<Expr>, g: Option<Expr>)
    requires (e.Arithmetic? || e.Bitwise?) && Form(e.lhs) == Ok(f) && Form(e.rhs) == Ok(g)
    ensures Form(e) == if e.Arithmetic? then ArithForm(e.aop, f, g) else BitForm(e.bop, f, g)
    ensures VisitError(e) == if e.Arithmetic? then ArithError(e.aop, f, g) else BitError(e.bop, f, g)
  {
    hide ArithForm, BitForm, ArithError, BitError;
  }

  // ---------- Simplified expressions ----------

  lemma NoArithRule(op: ArithOp, l: Expr, r: Expr)
    requires ArithRule(op, l, r) == Ok(None)
    ensures !(ConstVal(l) && ConstVal(r)) && (op == Mul ==> l != UnsignedValue(0) && r != UnsignedValue(0))
  {
    hide ArithWord, ArithFolds;
  }

  lemma NoBitRule(op: BitOp, l: Expr, r: Expr)
    requires BitRule(op, l, r) == Ok(None)
    ensures !(ConstVal(l) && ConstVal(r))
    ensures op == Shl || op == Shr ==> !IsZero(l) && !IsZero(r) && !(r.IntegerValue? && Negative(r.int32))
  {
    hide BitWord, BitFolds, Negative;
  }

  lemma {:induction false} ChainConst(e: Expr)
    requires Chain(e)
    ensures ConstVal(e) && Rigid(e) && !HasTernary(e)
  {
    if !IsLiteral(e) { ChainConst(e.sub); }
  }

  function Known(e: Expr): Option<Expr> {
    if Chain(e) then Some(e) else None
  }

  /** A simplified expression is its own form, and a simplified number without variables is a chain. */
  lemma {:induction false} StableForm(e: Expr)
    requires WellTyped(e) && Stable(e)
    ensures Form(e) == Ok(Known(e)) && (TypeOf(e) != TBool ==> (ConstVal(e) <==> Chain(e)))
    decreases e
  {
    hide ArithRule, BitRule, UnaryRule, CastRule, Negative;
    match e
    case UnaryExpr(_, s) => StableForm(s);
    case Cast(_, s) => StableForm(s);
    case Arithmetic(op, l, r) =>
      StableForm(l);
      StableForm(r);
      NoArithRule(op, l, r);
    case Bitwise(op, l, r) =>
      StableForm(l);
      StableForm(r);
      NoBitRule(op, l, r);
    case _ =>
  }

  /** Whatever equal node the table gives for a simplified expression, its form is the same. */
  lemma {:induction false} StableEqual(e: Expr, x: Expr)
    requires WellTyped(e) && Stable(e) && Equal(e, x)
    ensures Form(x) == Form(e)
    decreases e
  {
    hide ArithRule, BitRule, UnaryRule, CastRule, Negative;
    StableForm(e);
    if Chain(e) {
      ChainConst(e);
      RigidAlone(e, x);
    } else {
      match e
      case UnaryExpr(_, s) => StableEqual(s, x.sub);
      case Cast(_, s) => StableEqual(s, x.sub);
      case Arithmetic(op, l, r) => ArithStableEqual(e, x);
      case Bitwise(op, l, r) => BitStableEqual(e, x);
      case Logical(_, _, _) => assert BinaryEqual(e, x);
      case Relational(_, _, _) => assert BinaryEqual(e, x);
      case _ =>
    }
  }

  lemma {:induction false} ArithStableEqual(e: Expr, x: Expr)
    requires e.Arithmetic? && WellTyped(e) && Stable(e) && BinaryEqual(e, x)
    ensures Form(x) == Form(e)
    decreases e, 0
  {
    hide ArithRule, UnaryRule, Equal;
    var l, r := e.lhs, e.rhs;
    StableForm(l);
    StableForm(r);
    NoArithRule(e.aop, l, r);
    if Equal(l, x.lhs) && Equal(r, x.rhs) {
      StableEqual(l, x.lhs);
      StableEqual(r, x.rhs);
    } else if Commutes(e) {
      StableEqual(l, x.rhs);
      StableEqual(r, x.lhs);
    } else {
      StableForm(l.sub);
      StableEqual(l.sub, x.rhs);
      StableEqual(r, x.lhs.sub);
    }
  }

  lemma {:induction false} BitStableEqual(e: Expr, x: Expr)
    requires e.Bitwise? && WellTyped(e) && Stable(e) && BinaryEqual(e, x)
    ensures Form(x) == Form(e)
    decreases e, 0
  {
    hide BitRule, Equal, Negative;
    var l, r := e.lhs, e.rhs;
    StableForm(l);
    StableForm(r);
    NoBitRule(e.bop, l, r);
    if Equal(l, x.lhs) && Equal(r, x.rhs) {
      StableEqual(l, x.lhs);
      StableEqual(r, x.rhs);
    } else {
      StableEqual(l, x.rhs);
      StableEqual(r, x.lhs);
    }
  }

  // ---------- Rewritten expressions ----------

  /** An operand in a rewritten expression: simplified, without a minus sign or "not" to take off, and not zero. */
  predicate Bare(e: Expr) {
    WellTyped(e) && Stable(e) && !IsNeg(e) && e != UnsignedValue(0)
  }

  lemma NegSubBare(e: Expr)
    requires WellTyped(e) && Stable(e) && IsNeg(e)
    ensures Bare(e.sub)
  {
  }

  lemma SwappedProduct(a: Expr, b: Expr)
    requires !IsNeg(a) && !IsNeg(b)
    ensures ArithRule(Mul, a, b) == ArithRule(Mul, b, a)
  {
    if a.UnsignedValue? && b.UnsignedValue? { ArithCommutes(Mul, false, a.uint32, b.uint32); }
    if a.IntegerValue? && b.IntegerValue? { ArithCommutes(Mul, true, a.int32, b.int32); }
    hide ArithWord;
  }

  lemma SwappedBits(op: BitOp, a: Expr, b: Expr)
    requires (op == BitAnd || op == BitOr) && !IsNot(a) && !IsNot(b)
    ensures BitRule(op, a, b) == BitRule(op, b, a)
  {
    if a.UnsignedValue? && b.UnsignedValue? { BitCommutes(op, false, a.uint32, b.uint32); }
    if a.IntegerValue? && b.IntegerValue? { BitCommutes(op, true, a.int32, b.int32); }
    hide BitWord;
  }

  lemma ProductForm(a: Expr, b: Expr, x: Expr)
    requires Bare(a) && Bare(b) && Equal(Arithmetic(Mul, a, b), x)
    ensures Form(x) == Form(Arithmetic(Mul, a, b))
    ensures !(Chain(a) && Chain(b)) ==> Form(x) == Ok(None)
  {
    assert BinaryEqual(Arithmetic(Mul, a, b), x);
    hide Equal, ArithRule, Stable, Form, WellTyped, TypeOf, Chain, ConstVal;
    StableForm(a);
    StableForm(b);
    FormOver(Arithmetic(Mul, a, b), Known(a), Known(b));
    if Equal(a, x.lhs) && Equal(b, x.rhs) {
      StableEqual(a, x.lhs);
      StableEqual(b, x.rhs);
      FormOver(x, Known(a), Known(b));
    } else {
      StableEqual(a, x.rhs);
      StableEqual(b, x.lhs);
      FormOver(x, Known(b), Known(a));
      SwappedProduct(a, b);
    }
  }

  /** Two constants of which one is no literal are not subtracted. */
  lemma MissedDifference(a: Expr, b: Expr)
    requires IsNeg(a) && Chain(a) && Chain(b)
    ensures ArithRule(Sub, a, b) == Err(MissedOptimization)
  {
    ChainConst(a);
    ChainConst(b);
  }

  lemma DifferenceForm(a: Expr, b: Expr, x: Expr)
    requires WellTyped(a) && Stable(a) && Bare(b) && Equal(Arithmetic(Sub, a, b), x)
    ensures Form(x) == Form(Arithmetic(Sub, a, b))
    ensures !(Chain(a) && Chain(b)) ==> Form(x) == Ok(None)
  {
    var e := Arithmetic(Sub, a, b);
    assert BinaryEqual(e, x);
    hide Equal, ArithRule, Form;
    StableForm(a);
    StableForm(b);
    FormOver(e, Known(a), Known(b));
    if Equal(a, x.lhs) && Equal(b, x.rhs) {
      StableEqual(a, x.lhs);
      StableEqual(b, x.rhs);
      FormOver(x, Known(a), Known(b));
    } else {
      StableForm(a.sub);
      StableEqual(a.sub, x.rhs);
      StableEqual(b, x.lhs.sub);
      MinusBare(b, x.lhs);
      FormOver(x, Known(UnaryExpr(Neg, b)), Known(a.sub));
      if Chain(a.sub) && Chain(b) {
        MissedDifference(a, b);
        MissedDifference(UnaryExpr(Neg, b), a.sub);
      }
    }
  }

  lemma MinusBare(b: Expr, x: Expr)
    requires Bare(b) && IsNeg(x) && Form(x.sub) == Ok(Known(b))
    ensures Form(x) == Ok(Known(UnaryExpr(Neg, b)))
  {
    hide Stable;
  }

  /** Simplified operands l and r, of the node Arithmetic(op, l, r). */
  predicate OperandsReady(l: Expr, r: Expr) {
    WellTyped(l) && WellTyped(r) && TypeOf(l) == TypeOf(r) != TBool && Stable(l) && Stable(r)
  }

  lemma ArithmeticForm(op: ArithOp, l: Expr, r: Expr)
    requires OperandsReady(l, r)
    ensures Form(Arithmetic(op, l, r)) == ArithForm(op, Known(l), Known(r))
    ensures ArithRule(op, l, r) == Ok(None) ==> Form(Arithmetic(op, l, r)) == Ok(None)
    ensures VisitError(Arithmetic(op, l, r)) == ErrorOf(ArithRule(op, l, r))
  {
    hide *;
    BothStable(l, r);
    FormOver(Arithmetic(op, l, r), Known(l), Known(r));
    ArithKnown(op, l, r);
  }

  lemma BothStable(l: Expr, r: Expr)
    requires OperandsReady(l, r)
    ensures Form(l) == Ok(Known(l)) && Form(r) == Ok(Known(r)) && (ConstVal(l) <==> Chain(l)) && (ConstVal(r) <==> Chain(r))
  {
    hide Form, ConstVal, Chain, Stable, WellTyped;
    StableForm(l);
    StableForm(r);
  }

  lemma ArithKnown(op: ArithOp, l: Expr, r: Expr)
    requires (ConstVal(l) <==> Chain(l)) && (ConstVal(r) <==> Chain(r))
    ensures ArithError(op, Known(l), Known(r)) == ErrorOf(ArithRule(op, l, r))
    ensures ArithRule(op, l, r) == Ok(None) ==> ArithForm(op, Known(l), Known(r)) == Ok(None)
  {
    if ArithRule(op, l, r).Err? { ErrConst(op, l, r); }
    if ArithRule(op, l, r) == Ok(None) { NoArithRule(op, l, r); }
    hide ArithRule, Form, ConstVal;
  }

  lemma ErrConst(op: ArithOp, l: Expr, r: Expr)
    requires ArithRule(op, l, r).Err?
    ensures ConstVal(l) && ConstVal(r)
  {
    hide ArithWord, ArithFolds;
  }

  /** A minus sign taken off the second operand. */
  lemma TakenOff(a: Expr, b: Expr, x: Expr)
    requires WellTyped(a) && WellTyped(b) && Stable(a) && Stable(b) && IsNeg(b) && Equal(Arithmetic(Sub, a, b.sub), x)
    ensures Form(x) == Form(Arithmetic(Sub, a, b.sub))
    ensures !(Chain(a) && Chain(b)) ==> Form(x) == Ok(None)
  {
    NegSubBare(b);
    hide Equal, Form, Stable, WellTyped, ConstVal, Bare;
    DifferenceForm(a, b.sub, x);
  }

  lemma AddRuleForm(l: Expr, r: Expr, x: Expr)
    requires OperandsReady(l, r) && AddRule(l, r).Some? && Equal(AddRule(l, r).value, x)
    ensures Form(x) == Form(AddRule(l, r).value)
    ensures !(Chain(l) && Chain(r)) ==> Form(x) == Ok(None)
  {
    hide Equal, Form, Stable, WellTyped, ConstVal;
    if IsZero(l) {
      StableForm(r);
      StableEqual(r, x);
    } else if IsZero(r) {
      StableForm(l);
      StableEqual(l, x);
    } else if IsNeg(r) {
      TakenOff(l, r, x);
    } else {
      TakenOff(r, l, x);
    }
  }

  lemma MulRuleForm(l: Expr, r: Expr, x: Expr)
    requires OperandsReady(l, r) && MulRule(l, r).Some? && Equal(MulRule(l, r).value, x)
    ensures Form(x) == Form(MulRule(l, r).value)
    ensures !(Chain(l) && Chain(r)) ==>
      Form(x) == if l == UnsignedValue(0) || r == UnsignedValue(0) then Ok(Some(UnsignedValue(0))) else Ok(None)
  {
    var z := MulRule(l, r).value;
    if IsNeg(l) { NegSubBare(l); }
    if IsNeg(r) { NegSubBare(r); }
    if l == UnsignedValue(0) || r == UnsignedValue(0) {
    } else if IsNeg(l) && IsNeg(r) {
      hide Equal, Form, Stable;
      ProductForm(l.sub, r.sub, x);
    } else {
      MinusForm(l, r);
      hide Equal, Form, Stable;
      StableForm(z);
      StableEqual(z, x);
    }
  }

  /** Minus one times an operand is simplified. */
  lemma MinusForm(l: Expr, r: Expr)
    requires OperandsReady(l, r) && MulRule(l, r).Some? && !(IsNeg(l) && IsNeg(r))
    requires l != UnsignedValue(0) && r != UnsignedValue(0)
    ensures var z := MulRule(l, r).value; WellTyped(z) && Stable(z) && (Chain(z) ==> Chain(l) && Chain(r))
  {
  }

  /** A rewritten product or sum, or any node equal to it, has the form of the original. */
  lemma ArithRuleForm(op: ArithOp, l: Expr, r: Expr, x: Expr)
    requires OperandsReady(l, r) && ArithRule(op, l, r).Ok? && ArithRule(op, l, r).value.Some?
    requires Equal(ArithRule(op, l, r).value.value, x)
    ensures Form(x) == Form(Arithmetic(op, l, r))
  {
    var z := ArithRule(op, l, r).value.value;
    ArithmeticForm(op, l, r);
    if !(IsLiteral(l) && IsLiteral(r)) {
      hide Form, Equal, ArithWord, AddRule, MulRule, Stable;
      if op == Add { AddRuleForm(l, r, x); } else { MulRuleForm(l, r, x); }
    }
  }

  predicate NegativeShift(op: BitOp, l: Expr, r: Expr) {
    (op == Shl || op == Shr) && !IsZero(l) && r.IntegerValue? && Negative(r.int32)
  }

  lemma BitErr(op: BitOp, l: Expr, r: Expr)
    requires !(ConstVal(l) && ConstVal(r))
    ensures ErrorOf(BitRule(op, l, r)) == if NegativeShift(op, l, r) then Some(MissedOptimization) else None
  {
    assert !Negative(0);
    hide BitWord, BitFolds, Negative;
  }

  lemma BitwiseForm(op: BitOp, l: Expr, r: Expr)
    requires OperandsReady(l, r)
    ensures Form(Bitwise(op, l, r)) == BitForm(op, Known(l), Known(r))
    ensures BitRule(op, l, r) == Ok(None) ==> Form(Bitwise(op, l, r)) == Ok(None)
    ensures VisitError(Bitwise(op, l, r)) == ErrorOf(BitRule(op, l, r))
  {
    hide *;
    BothStable(l, r);
    FormOver(Bitwise(op, l, r), Known(l), Known(r));
    BitKnown(op, l, r);
    if BitRule(op, l, r) == Ok(None) { BitKept(op, l, r); }
  }

  lemma BitKnown(op: BitOp, l: Expr, r: Expr)
    requires (ConstVal(l) <==> Chain(l)) && (ConstVal(r) <==> Chain(r))
    ensures BitError(op, Known(l), Known(r)) == ErrorOf(BitRule(op, l, r))
  {
    hide BitRule, ConstVal, Negative;
    if !(ConstVal(l) && ConstVal(r)) {
      BitErr(op, l, r);
      ZeroChain(l);
      ZeroChain(r);
    }
  }

  lemma ZeroChain(e: Expr)
    ensures IsLiteral(e) ==> Chain(e)
  {
  }

  lemma BitKept(op: BitOp, l: Expr, r: Expr)
    requires (ConstVal(l) <==> Chain(l)) && (ConstVal(r) <==> Chain(r)) && BitRule(op, l, r) == Ok(None)
    ensures BitForm(op, Known(l), Known(r)) == Ok(None)
  {
    NoBitRule(op, l, r);
    hide BitRule, Form, ConstVal, Negative;
  }

  /** Exchanging the operands of "&" and "|". */
  lemma BitsForm(op: BitOp, a: Expr, b: Expr, y: Expr)
    requires (op == BitAnd || op == BitOr) && OperandsReady(a, b) && !IsNot(a) && !IsNot(b)
    requires BinaryEqual(Bitwise(op, a, b), y)
    ensures Form(y) == Form(Bitwise(op, a, b))
    ensures !(Chain(a) && Chain(b)) ==> Form(y) == Ok(None)
  {
    hide Equal, BitRule, Stable, Form;
    StableForm(a);
    StableForm(b);
    FormOver(Bitwise(op, a, b), Known(a), Known(b));
    if Equal(a, y.lhs) && Equal(b, y.rhs) {
      StableEqual(a, y.lhs);
      StableEqual(b, y.rhs);
      FormOver(y, Known(a), Known(b));
    } else {
      StableEqual(a, y.rhs);
      StableEqual(b, y.lhs);
      FormOver(y, Known(b), Known(a));
      SwappedBits(op, a, b);
    }
  }

  lemma MorganForm(op: BitOp, a: Expr, b: Expr, x: Expr)
    requires (op == BitAnd || op == BitOr) && OperandsReady(a, b) && !IsNot(a) && !IsNot(b)
    requires Equal(UnaryExpr(Not, Bitwise(op, a, b)), x)
    ensures Form(x) == Form(UnaryExpr(Not, Bitwise(op, a, b)))
    ensures !(Chain(a) && Chain(b)) ==> Form(x) == Ok(None)
  {
    assert BinaryEqual(Bitwise(op, a, b), x.sub);
    hide Equal, BinaryEqual, BitRule, Stable, BitForm, WellTyped;
    BitsForm(op, a, b, x.sub);
  }

  /** A rewritten bitwise expression, or any node equal to it, has the form of the original. */
  lemma BitRuleForm(op: BitOp, l: Expr, r: Expr, x: Expr)
    requires OperandsReady(l, r) && BitRule(op, l, r).Ok? && BitRule(op, l, r).value.Some?
    requires Equal(BitRule(op, l, r).value.value, x)
    ensures Form(x) == Form(Bitwise(op, l, r))
  {
    var z := BitRule(op, l, r).value.value;
    BitwiseForm(op, l, r);
    StableForm(l);
    if IsLiteral(l) && IsLiteral(r) {
      hide BitWord, BitFolds, Negative;
    } else if op == Shl || op == Shr {
      hide Negative, Equal, Stable;
      StableEqual(l, x);
    } else {
      NotParts(l, r);
      hide Equal, Stable;
      MorganForm(Flip(op), l.sub, r.sub, x);
    }
  }

  lemma NotParts(l: Expr, r: Expr)
    requires OperandsReady(l, r) && IsNot(l) && IsNot(r)
    ensures OperandsReady(l.sub, r.sub) && !IsNot(l.sub) && !IsNot(r.sub)
  {
  }

  lemma UnaryRuleForm(op: UnaryOp, s: Expr, x: Expr)
    requires WellTyped(UnaryExpr(op, s)) && Stable(s)
    requires Equal(if UnaryRule(op, s).Some? then UnaryRule(op, s).value else UnaryExpr(op, s), x)
    ensures Form(x) == Form(UnaryExpr(op, s))
  {
    var z := if UnaryRule(op, s).Some? then UnaryRule(op, s).value else UnaryExpr(op, s);
    StableForm(s);
    assert WellTyped(z) && Stable(z);
    StableForm(z);
    hide Equal, Stable;
    StableEqual(z, x);
  }

  lemma CastRuleForm(t: Type, s: Expr, x: Expr)
    requires WellTyped(Cast(t, s)) && Stable(s)
    requires Equal(if CastRule(t, s).Some? then CastRule(t, s).value else Cast(t, s), x)
    ensures Form(x) == Form(Cast(t, s))
  {
    var z := if CastRule(t, s).Some? then CastRule(t, s).value else Cast(t, s);
    StableForm(s);
    assert WellTyped(z) && Stable(z);
    StableForm(z);
    hide Equal, Stable;
    StableEqual(z, x);
  }

  // ---------- A visit over simplified operands ----------

  /** e was simplified to e'. */
  predicate Simplified(e: Expr, e': Expr) {
    WellTyped(e') && Stable(e') && !HasTernary(e') && Form(e) == Ok(Known(e'))
  }

  /** x is equal to what the rules make of the operands, or to the node over them. */
  predicate Follows(rule: Option<Expr>, e: Expr, x: Expr) {
    Equal(if rule.Some? then rule.value else e, x)
  }

  lemma OverOperands(e: Expr, l: Expr, r: Expr)
    requires (e.Arithmetic? || e.Bitwise?) && Simplified(e.lhs, l) && Simplified(e.rhs, r)
    ensures Form(e) == Form(WithOperands(e, l, r)) && VisitError(e) == VisitError(WithOperands(e, l, r))
  {
    hide Form, VisitError, Stable, WellTyped, HasTernary, Chain, ArithForm, BitForm, ArithError, BitError;
    StableForm(l);
    StableForm(r);
    FormOver(e, Known(l), Known(r));
    FormOver(WithOperands(e, l, r), Known(l), Known(r));
  }

  lemma ArithmeticOutcome(op: ArithOp, e: Expr, l: Expr, r: Expr, x: Expr)
    requires e.Arithmetic? && e.aop == op && Simplified(e.lhs, l) && Simplified(e.rhs, r) && OperandsReady(l, r)
    ensures VisitError(e) == ErrorOf(ArithRule(op, l, r))
    ensures ArithRule(op, l, r).Ok? && Follows(ArithRule(op, l, r).value, Arithmetic(op, l, r), x) ==>
      !HasTernary(x) && Form(x) == Form(e)
  {
    OverOperands(e, l, r);
    ArithmeticForm(op, l, r);
    var mid, rule := Arithmetic(op, l, r), ArithRule(op, l, r);
    if rule.Ok? && Follows(rule.value, mid, x) {
      if rule.value.Some? {
        hide Form, Equal, Stable, WellTyped, ArithRule, HasTernary, VisitError;
        ArithRuleForm(op, l, r, x);
        ArithRuleShrinks(op, l, r);
        EqualTernary(rule.value.value, x);
      } else {
        assert Stable(mid) && WellTyped(mid) && !HasTernary(mid);
        hide Form, Equal, Stable, WellTyped, ArithRule, HasTernary, VisitError;
        StableEqual(mid, x);
        EqualTernary(mid, x);
      }
    }
  }

  lemma BitwiseOutcome(op: BitOp, e: Expr, l: Expr, r: Expr, x: Expr)
    requires e.Bitwise? && e.bop == op && Simplified(e.lhs, l) && Simplified(e.rhs, r) && OperandsReady(l, r)
    ensures VisitError(e) == ErrorOf(BitRule(op, l, r))
    ensures BitRule(op, l, r).Ok? && Follows(BitRule(op, l, r).value, Bitwise(op, l, r), x) ==>
      !HasTernary(x) && Form(x) == Form(e)
  {
    OverOperands(e, l, r);
    BitwiseForm(op, l, r);
    var mid, rule := Bitwise(op, l, r), BitRule(op, l, r);
    if rule.Ok? && Follows(rule.value, mid, x) {
      if rule.value.Some? {
        hide Form, Equal, Stable, WellTyped, BitRule, HasTernary, VisitError;
        BitRuleForm(op, l, r, x);
        BitRuleShrinks(op, l, r);
        EqualTernary(rule.value.value, x);
      } else {
        assert Stable(mid) && WellTyped(mid) && !HasTernary(mid);
        hide Form, Equal, Stable, WellTyped, BitRule, HasTernary, VisitError;
        StableEqual(mid, x);
        EqualTernary(mid, x);
      }
    }
  }

  lemma UnaryOutcome(e: Expr, s: Expr, x: Expr)
    requires e.UnaryExpr? && Simplified(e.sub, s) && WellTyped(UnaryExpr(e.uop, s))
    requires Follows(UnaryRule(e.uop, s), UnaryExpr(e.uop, s), x)
    ensures VisitError(e) == None && !HasTernary(x) && Form(x) == Form(e)
  {
    StableForm(s);
    assert Form(e) == Form(UnaryExpr(e.uop, s));
    UnaryRuleForm(e.uop, s, x);
    EqualTernary(if UnaryRule(e.uop, s).Some? then UnaryRule(e.uop, s).value else UnaryExpr(e.uop, s), x);
  }

  lemma CastOutcome(e: Expr, s: Expr, x: Expr)
    requires e.Cast? && Simplified(e.sub, s) && WellTyped(Cast(e.to, s))
    requires Follows(CastRule(e.to, s), Cast(e.to, s), x)
    ensures VisitError(e) == None && !HasTernary(x) && Form(x) == Form(e)
  {
    StableForm(s);
    assert Form(e) == Form(Cast(e.to, s));
    CastRuleForm(e.to, s, x);
    EqualTernary(if CastRule(e.to, s).Some? then CastRule(e.to, s).value else Cast(e.to, s), x);
  }

  // ---------- Expressions that are simplified without an exception ----------

  /** No parameter is visited, no constant has an operator with two operands, no literal is zero, no shift is by a negative. */
  predicate Plain(e: Expr) {
    match e
    case Operand(v) => v.kind != Parameter
    case UnaryExpr(_, s) => Plain(s)
    case Cast(_, s) => Plain(s)
    case Arithmetic(_, l, r) => Plain(l) && Plain(r) && !(ConstVal(l) && ConstVal(r))
    case Bitwise(op, l, r) =>
      && Plain(l) && Plain(r) && !(ConstVal(l) && ConstVal(r))
      && (op == Shl || op == Shr ==> ConstVal(r) ==> IsLiteral(r) && !(r.IntegerValue? && Negative(r.int32)))
    case _ => !IsZero(e)
  }

  lemma {:induction false} PlainForm(e: Expr)
    requires Plain(e)
    ensures Form(e).Ok? && (Form(e).value.Some? ==> ConstVal(e) && Plain(Form(e).value.value))
    ensures IsLiteral(e) ==> Form(e) == Ok(Some(e))
    decreases e
  {
    hide ArithRule, BitRule, Negative, Form;
    match e
    case UnaryExpr(op, s) => PlainForm(s); PlainStep(e);
    case Cast(t, s) => PlainForm(s); PlainStep(e);
    case Arithmetic(op, l, r) => PlainForm(l); PlainForm(r); FormOver(e, Form(l).value, Form(r).value);
    case Bitwise(op, l, r) => PlainForm(l); PlainForm(r); FormOver(e, Form(l).value, Form(r).value);
    case _ => PlainStep(e);
  }

  lemma PlainStep(e: Expr)
    requires Plain(e) && !e.Arithmetic? && !e.Bitwise?
    requires e.UnaryExpr? || e.Cast? ==>
      Form(e.sub).Ok? && (Form(e.sub).value.Some? ==> ConstVal(e.sub) && Plain(Form(e.sub).value.value))
    ensures Form(e).Ok? && (Form(e).value.Some? ==> ConstVal(e) && Plain(Form(e).value.value))
    ensures IsLiteral(e) ==> Form(e) == Ok(Some(e))
  {
    hide ArithForm, BitForm;
  }

  // ---------- Constants that are left ----------

  predicate AllOnes(e: Expr) {
    e == UnsignedValue(0xFFFF_FFFF)
  }

  lemma ArithErr(op: ArithOp, l: Expr, r: Expr)
    requires !(IsLiteral(l) && IsLiteral(r))
    ensures ErrorOf(ArithRule(op, l, r)) ==
      if ConstVal(l) && ConstVal(r) && (op == Add ==> AddRule(l, r).None?) && (op == Mul ==> MulRule(l, r).None?)
      then Some(MissedOptimization) else None
  {
    hide AddRule, MulRule, ConstVal;
  }

  lemma NoSumRule(l: Expr, r: Expr)
    ensures AddRule(l, r).None? <==> !IsZero(l) && !IsZero(r) && !IsNeg(l) && !IsNeg(r)
  {
  }

  lemma NoProductRule(l: Expr, r: Expr)
    ensures MulRule(l, r).None? <==>
      !(IsNeg(l) && IsNeg(r)) && l != UnsignedValue(0) && r != UnsignedValue(0) && !AllOnes(l) && !AllOnes(r)
  {
  }

  lemma LiteralFold(op: ArithOp, l: Expr, r: Expr)
    requires OperandsReady(l, r) && IsLiteral(l) && IsLiteral(r)
    ensures ArithRule(op, l, r).Err? <==>
      (op == Div || op == Rem) && (IsZero(r) || (l == IntegerValue(0x8000_0000) && r == IntegerValue(0xFFFF_FFFF)))
  {
    hide ArithWord, Stable;
  }

  /** Of two simplified numbers an arithmetic visit throws on an undefined fold, or a constant that is no literal and fits no rule. */
  lemma ArithThrows(op: ArithOp, l: Expr, r: Expr)
    requires OperandsReady(l, r)
    ensures ArithRule(op, l, r).Err? <==>
      if IsLiteral(l) && IsLiteral(r) then
        (op == Div || op == Rem) && (IsZero(r) || (l == IntegerValue(0x8000_0000) && r == IntegerValue(0xFFFF_FFFF)))
      else
        && Chain(l) && Chain(r)
        && (op == Add ==> !IsZero(l) && !IsZero(r) && !IsNeg(l) && !IsNeg(r))
        && (op == Mul ==> !(IsNeg(l) && IsNeg(r)) && l != UnsignedValue(0) && r != UnsignedValue(0) && !AllOnes(l) && !AllOnes(r))
  {
    hide ArithRule, AddRule, MulRule, Form, Stable, ConstVal, Chain, WellTyped;
    if IsLiteral(l) && IsLiteral(r) {
      LiteralFold(op, l, r);
    } else {
      StableForm(l);
      StableForm(r);
      ArithErr(op, l, r);
      NoSumRule(l, r);
      NoProductRule(l, r);
    }
  }

  /** A bitwise visit throws on an undefined shift, on a shift by a negative literal, or on a constant that fits no rule. */
  lemma BitThrows(op: BitOp, l: Expr, r: Expr)
    requires OperandsReady(l, r)
    ensures BitRule(op, l, r).Err? <==>
      if IsLiteral(l) && IsLiteral(r) then
        (op == Shl || op == Shr) && !ShortShift(r)
      else
        || NegativeShift(op, l, r)
        || (&& Chain(l) && Chain(r)
            && (op == Shl || op == Shr ==> !IsZero(l) && !IsZero(r))
            && (op == BitAnd || op == BitOr ==> !(IsNot(l) && IsNot(r))))
  {
    hide Form, BitRule, Stable, ConstVal, Chain, WellTyped, Negative;
    if IsLiteral(l) && IsLiteral(r) {
      LiteralShift(op, l, r);
    } else {
      StableForm(l);
      StableForm(r);
      if ConstVal(l) && ConstVal(r) { BitConstants(op, l, r); } else { BitErr(op, l, r); }
    }
  }

  lemma LiteralShift(op: BitOp, l: Expr, r: Expr)
    requires OperandsReady(l, r) && IsLiteral(l) && IsLiteral(r)
    ensures BitRule(op, l, r).Err? <==> (op == Shl || op == Shr) && !ShortShift(r)
  {
    hide BitWord, Stable, Negative;
  }

  lemma BitConstants(op: BitOp, l: Expr, r: Expr)
    requires ConstVal(l) && ConstVal(r) && !(IsLiteral(l) && IsLiteral(r))
    ensures BitRule(op, l, r).Err? <==>
      && (op == Shl || op == Shr ==> !IsZero(l) && !IsZero(r))
      && (op == BitAnd || op == BitOr ==> !(IsNot(l) && IsNot(r)))
    ensures NegativeShift(op, l, r) ==> !IsZero(r)
  {
    assert !Negative(0);
    hide BitWord, Negative, ConstVal;
  }

  predicate ShortShift(e: Expr) {
    (e.UnsignedValue? && e.uint32 < 32) || (e.IntegerValue? && e.int32 < 32)
  }

  /** An int -a and an int literal b, as in (-5) * 3 and (-5) - 3: only their sum is rewritten. */
  lemma NegatedConstant(op: ArithOp, a: bv32, b: bv32)
    requires op != Add
    ensures Form(Arithmetic(op, UnaryExpr(Neg, IntegerValue(a)), IntegerValue(b))) == Err(MissedOptimization)
  {
    hide Form, ArithRule, Stable, WellTyped, ConstVal, Chain;
    var l, r := UnaryExpr(Neg, IntegerValue(a)), IntegerValue(b);
    NegatedReady(a, b);
    ArithmeticForm(op, l, r);
    ArithThrows(op, l, r);
    ArithErr(op, l, r);
    VisitErrorForm(Arithmetic(op, l, r));
  }

  lemma NegatedReady(a: bv32, b: bv32)
    ensures OperandsReady(UnaryExpr(Neg, IntegerValue(a)), IntegerValue(b))
    ensures Chain(UnaryExpr(Neg, IntegerValue(a))) && Chain(IntegerValue(b))
  {
  }
}
