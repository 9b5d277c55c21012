/** The simplifying visitor: rewrites a node bottom-up until nothing changes. */
module Simplify {
  import opened Ir
  import opened ExprEquality
  import opened NodeTable
  import opened SimplifyRules
  import opened SimplifyOutcome

  class SimplifyVisitor {
    var nodePointer: ExprNode
    var nodeSimplified: bool
    const alloc: StmtNodeAlloc

    constructor (node: ExprNode, alloc: StmtNodeAlloc)
      ensures nodePointer == node && !nodeSimplified && this.alloc == alloc
    {
      nodePointer, nodeSimplified, this.alloc := node, false, alloc;
    }

    ghost predicate Ready()
      reads this, alloc
    {
      alloc.Valid() && Consistent(nodePointer) && WellTyped(nodePointer.shape)
    }

    /** Node r may stand for n, and is smaller if it is another node. */
    static ghost predicate Replaces(n: ExprNode, r: ExprNode) {
      Consistent(r) && Refines(n.shape, r.shape) && (r != n ==> Size(r.shape) < Size(n.shape))
    }

    /**
     * Without ternaries, which the node table refuses, whether and how simplifying ends depends on the expression alone: the
     * exception, if there is one, is that of its form, and what is left keeps the form.
     */
    static ghost predicate Outcome(e: Expr, err: Option<Error>, e': Expr) {
      !HasTernary(e) ==> if err.Some? then Form(e) == Err(err.value) else Simplified(e, e')
    }

    /** Visits the node until it no longer changes; this ends because every change makes it smaller. */
    method Run() returns (err: Option<Error>)
      requires Ready() && !nodeSimplified
      modifies this, alloc
      ensures alloc.Valid()
      ensures err.None? ==> Replaces(old(nodePointer), nodePointer) && Stable(nodePointer.shape)
      ensures err.None? ==> (nodeSimplified <==> nodePointer != old(nodePointer))
      ensures Stable(old(nodePointer).shape) ==> err.None? && nodePointer == old(nodePointer)
      ensures Outcome(old(nodePointer).shape, err, nodePointer.shape)
      decreases Size(nodePointer.shape), 4
    {
      hide Consistent, WellTyped, Refines, Stable, Size, HasTernary, Form, VisitError;
      var n := nodePointer;
      assert Replaces(n, n) by { RefinesItself(n.shape); }
      var more := true;
      while more
        invariant Ready() && Replaces(n, nodePointer) && (nodeSimplified <==> nodePointer != n)
        invariant !more ==> Stable(nodePointer.shape)
        invariant Stable(n.shape) ==> nodePointer == n
        invariant !HasTernary(n.shape) ==> !HasTernary(nodePointer.shape) && Form(nodePointer.shape) == Form(n.shape)
        decreases Size(nodePointer.shape), more
      {
        var temp := nodePointer;
        err := Visit();
        if err.Some? {
          if !HasTernary(temp.shape) { VisitErrorForm(temp.shape); }
          return;
        }
        ReplacesOn(n, temp, nodePointer);
        more := temp != nodePointer;
        if more {
          nodeSimplified := true;
        }
      }
      err := None;
      assert WellTyped(nodePointer.shape);
      StableForm(nodePointer.shape);
    }

    static lemma ReplacesOn(n: ExprNode, m: ExprNode, r: ExprNode)
      requires Replaces(n, m) && Replaces(m, r)
      ensures Replaces(n, r) && WellTyped(r.shape)
      ensures r != m ==> r != n
    {
      hide Consistent, Size;
      RefinesOn(n.shape, m.shape, r.shape);
      hide Refines;
    }

    // ---------- Results of a visit ----------

    /** What a visit leaves: the node itself, or a node equal to the wanted expression. */
    static ghost predicate Leaves(n: ExprNode, wanted: Option<Expr>, r: ExprNode) {
      if wanted.None? then r == n else Consistent(r) && Equal(r.shape, wanted.value)
    }

    static ghost function Wanted(rule: Option<Expr>, changed: bool, mid: Expr): Option<Expr> {
      if rule.Some? then rule else if changed then Some(mid) else None
    }

    /** mid is the node over its simplified operands, which changed or not; rule is what a rule made of it. */
    static lemma Finish(n: ExprNode, mid: Expr, rule: Option<Expr>, changed: bool, r: ExprNode)
      requires WellTyped(n.shape) && Consistent(n)
      requires Refines(n.shape, mid) && (if changed then Size(mid) < Size(n.shape) else mid == n.shape)
      requires rule.Some? ==> Refines(mid, rule.value) && Size(rule.value) < Size(mid)
      requires Leaves(n, Wanted(rule, changed, mid), r)
      ensures Replaces(n, r) && (r == n <==> !changed && rule.None?)
    {
      hide Consistent, Size, Equal;
      RefinesItself(n.shape);
      var e := if rule.Some? then rule.value else mid;
      if rule.Some? { RefinesOn(n.shape, mid, e); }
      if rule.Some? || changed {
        EqualSymmetric(r.shape, e);
        EqualRefines(e, r.shape);
        RefinesOn(n.shape, e, r.shape);
      }
      hide Refines;
    }

    /** Whatever node stands for the rewritten expression is equal to it. */
    static lemma Followed(n: ExprNode, mid: Expr, rule: Option<Expr>, changed: bool, r: ExprNode)
      requires Leaves(n, Wanted(rule, changed, mid), r) && (!changed ==> mid == n.shape)
      ensures Follows(rule, mid, r.shape)
    {
      EqualReflexive(n.shape);
      if rule.Some? || changed { EqualSymmetric(r.shape, Wanted(rule, changed, mid).value); }
    }

    /** Makes the node of an expression the result. */
    method Adopt(e: Expr) returns (err: Option<Error>)
      requires alloc.Valid()
      modifies this`nodePointer, alloc
      ensures alloc.Valid() && (err.None? ==> Leaves(old(nodePointer), Some(e), nodePointer))
      ensures err.None? <==> !HasTernary(e)
    {
      var x := alloc.Alloc(e);
      if x.Err? {
        return Some(x.error);
      }
      nodePointer := x.value;
      err := None;
    }

    static lemma Part(n: ExprNode, i: nat)
      requires Consistent(n) && WellTyped(n.shape) && i < |SubExprs(n.shape)|
      ensures |n.operands| == |SubExprs(n.shape)| && n.operands[i].shape == SubExprs(n.shape)[i]
      ensures Consistent(n.operands[i]) && WellTyped(n.operands[i].shape) && Size(n.operands[i].shape) < Size(n.shape)
      ensures Equal(n.operands[i].shape, SubExprs(n.shape)[i])
    {
      SubExprSmaller(n.shape, i);
      EqualReflexive(n.operands[i].shape);
    }

    /** The simplified operand at position i. */
    method SimplifyOperand(i: nat) returns (r: ExprNode, changed: bool, err: Option<Error>)
      requires Ready() && i < |SubExprs(nodePointer.shape)|
      modifies alloc
      ensures alloc.Valid() && |nodePointer.operands| == |SubExprs(nodePointer.shape)|
      ensures var c := nodePointer.operands[i];
        && c.shape == SubExprs(nodePointer.shape)[i]
        && (err.None? ==> Replaces(c, r) && Stable(r.shape) && (changed <==> r != c))
        && (Stable(c.shape) ==> err.None? && r == c)
        && Outcome(c.shape, err, r.shape)
      decreases Size(nodePointer.shape), 0
    {
      Part(nodePointer, i);
      hide Consistent, WellTyped, Size, Refines, Stable, Equal, HasTernary, Form;
      var visitor := new SimplifyVisitor(nodePointer.operands[i], alloc);
      err := visitor.Run();
      r, changed := visitor.nodePointer, visitor.nodeSimplified;
    }

    // ---------- The visits ----------

    /** Without ternaries a visit throws exactly what VisitError says, and otherwise keeps the form. */
    static ghost predicate VisitOutcome(e: Expr, err: Option<Error>, e': Expr) {
      !HasTernary(e) ==> err == VisitError(e) && (err.None? ==> !HasTernary(e') && Form(e') == Form(e))
    }

    method Visit() returns (err: Option<Error>)
      requires Ready()
      modifies this`nodePointer, alloc
      ensures alloc.Valid()
      ensures err.None? ==> Replaces(old(nodePointer), nodePointer)
      ensures err.None? ==> (nodePointer == old(nodePointer) <==> Stable(old(nodePointer).shape))
      ensures Stable(old(nodePointer).shape) ==> err.None?
      ensures VisitOutcome(old(nodePointer).shape, err, nodePointer.shape)
      decreases Size(nodePointer.shape), 3
    {
      assert Stable(nodePointer.shape) || nodePointer.shape.UnaryExpr? || nodePointer.shape.Arithmetic?
        || nodePointer.shape.Bitwise? || nodePointer.shape.Cast? || nodePointer.shape.Operand?;
      RefinesItself(nodePointer.shape);
      hide Consistent, WellTyped, Size, Refines;
      match nodePointer.shape {
        case UnaryExpr(op, _) => err := VisitUnary(op);
        case Arithmetic(op, _, _) => err := VisitArithmetic(op);
        case Bitwise(op, _, _) => err := VisitBitwise(op);
        case Cast(t, _) => err := VisitCast(t);
        case Operand(v) => err := if v.kind == Parameter then Some(NotImplemented) else None;
        case _ => err := None;
      }
    }

    method VisitUnary(op: UnaryOp) returns (err: Option<Error>)
      requires Ready() && nodePointer.shape.UnaryExpr? && nodePointer.shape.uop == op
      modifies this`nodePointer, alloc
      ensures alloc.Valid()
      ensures err.None? ==> Replaces(old(nodePointer), nodePointer)
      ensures err.None? ==> (nodePointer == old(nodePointer) <==> Stable(old(nodePointer).shape))
      ensures Stable(old(nodePointer).shape) ==> err.None?
      ensures VisitOutcome(old(nodePointer).shape, err, nodePointer.shape)
      decreases Size(nodePointer.shape), 1
    {
      hide Consistent, WellTyped, Refines, Equal;
      var n := nodePointer;
      var s, changed, err0 := SimplifyOperand(0);
      if err0.Some? {
        return err0;
      }
      UnaryDone(n, op, s);
      Rewritten(s);
      err := None;
      if op == Neg && s.shape == UnsignedValue(0) {
        err := Adopt(UnsignedValue(0));
      } else if op == Neg && IsNeg(s.shape) {
        nodePointer := s.operands[0];
      } else if op == Not && IsNot(s.shape) {
        nodePointer := s.operands[0];
      } else if changed {
        err := Adopt(UnaryExpr(op, s.shape));
      }
      if err.None? { Finish(n, UnaryExpr(op, s.shape), UnaryRule(op, s.shape), changed, nodePointer); }
      UnaryKeeps(n, op, s, changed, err, nodePointer);
    }

    /** The operand of a consistent unary or cast node. */
    static lemma Rewritten(s: ExprNode)
      requires Consistent(s) && WellTyped(s.shape)
      ensures s.shape.UnaryExpr? || s.shape.Cast? ==>
        |s.operands| == 1 && Consistent(s.operands[0]) && Equal(s.operands[0].shape, s.shape.sub)
    {
      if s.shape.UnaryExpr? || s.shape.Cast? { Part(s, 0); }
    }

    static lemma UnaryKeeps(n: ExprNode, op: UnaryOp, s: ExprNode, changed: bool, err: Option<Error>, r: ExprNode)
      requires n.shape.UnaryExpr? && n.shape.uop == op && WellTyped(UnaryExpr(op, s.shape))
      requires !HasTernary(n.shape) ==> Simplified(n.shape.sub, s.shape)
      requires !changed ==> UnaryExpr(op, s.shape) == n.shape
      requires err.Some? ==> HasTernary(s.shape)
      requires err.None? ==> Leaves(n, Wanted(UnaryRule(op, s.shape), changed, UnaryExpr(op, s.shape)), r)
      ensures VisitOutcome(n.shape, err, r.shape)
    {
      hide Equal, Form, Stable, HasTernary, WellTyped, UnaryRule, VisitError;
      if !HasTernary(n.shape) {
        Followed(n, UnaryExpr(op, s.shape), UnaryRule(op, s.shape), changed, r);
        UnaryOutcome(n.shape, s.shape, r.shape);
      }
    }

    static lemma UnaryDone(n: ExprNode, op: UnaryOp, s: ExprNode)
      requires Consistent(n) && WellTyped(n.shape) && n.shape.UnaryExpr? && n.shape.uop == op && |n.operands| == 1
      requires n.operands[0].shape == n.shape.sub && Replaces(n.operands[0], s) && Stable(s.shape)
      requires Stable(n.operands[0].shape) ==> s == n.operands[0]
      ensures Refines(n.shape, UnaryExpr(op, s.shape)) && WellTyped(s.shape) && WellTyped(UnaryExpr(op, s.shape))
      ensures if s != n.operands[0] then Size(UnaryExpr(op, s.shape)) < Size(n.shape) else UnaryExpr(op, s.shape) == n.shape
      ensures var rule := UnaryRule(op, s.shape);
        && (rule.Some? ==> Refines(UnaryExpr(op, s.shape), rule.value) && Size(rule.value) < Size(UnaryExpr(op, s.shape)))
        && (Stable(n.shape) <==> s == n.operands[0] && rule.None?)
    {
      UnaryRefines(op, n.shape.sub, s.shape);
      if UnaryRule(op, s.shape).Some? { UnaryRuleRefines(op, s.shape); }
      hide Refines, Consistent;
    }

    method VisitCast(t: Type) returns (err: Option<Error>)
      requires Ready() && nodePointer.shape.Cast? && nodePointer.shape.to == t
      modifies this`nodePointer, alloc
      ensures alloc.Valid()
      ensures err.None? ==> Replaces(old(nodePointer), nodePointer)
      ensures err.None? ==> (nodePointer == old(nodePointer) <==> Stable(old(nodePointer).shape))
      ensures Stable(old(nodePointer).shape) ==> err.None?
      ensures VisitOutcome(old(nodePointer).shape, err, nodePointer.shape)
      decreases Size(nodePointer.shape), 1
    {
      hide Consistent, WellTyped, Refines, Equal;
      var n := nodePointer;
      var s, changed, err0 := SimplifyOperand(0);
      if err0.Some? {
        return err0;
      }
      CastDone(n, t, s);
      Rewritten(s);
      err := None;
      if t == TUnsigned && s.shape.IntegerValue? {
        err := Adopt(UnsignedValue(s.shape.int32));
      } else if t == TInt && s.shape.UnsignedValue? {
        err := Adopt(IntegerValue(s.shape.uint32));
      } else if s.shape.Cast? && TypeOf(s.shape.sub) == t {
        nodePointer := s.operands[0];
      } else if changed {
        err := Adopt(Cast(t, s.shape));
      }
      if err.None? { Finish(n, Cast(t, s.shape), CastRule(t, s.shape), changed, nodePointer); }
      CastKeeps(n, t, s, changed, err, nodePointer);
    }

    static lemma CastKeeps(n: ExprNode, t: Type, s: ExprNode, changed: bool, err: Option<Error>, r: ExprNode)
      requires n.shape.Cast? && n.shape.to == t && WellTyped(Cast(t, s.shape))
      requires !HasTernary(n.shape) ==> Simplified(n.shape.sub, s.shape)
      requires !changed ==> Cast(t, s.shape) == n.shape
      requires err.Some? ==> HasTernary(s.shape)
      requires err.None? ==> Leaves(n, Wanted(CastRule(t, s.shape), changed, Cast(t, s.shape)), r)
      ensures VisitOutcome(n.shape, err, r.shape)
    {
      hide Equal, Form, Stable, HasTernary, WellTyped, CastRule, VisitError;
      if !HasTernary(n.shape) {
        Followed(n, Cast(t, s.shape), CastRule(t, s.shape), changed, r);
        CastOutcome(n.shape, s.shape, r.shape);
      }
    }

    static lemma CastDone(n: ExprNode, t: Type, s: ExprNode)
      requires Consistent(n) && WellTyped(n.shape) && n.shape.Cast? && n.shape.to == t && |n.operands| == 1
      requires n.operands[0].shape == n.shape.sub && Replaces(n.operands[0], s) && Stable(s.shape)
      requires Stable(n.operands[0].shape) ==> s == n.operands[0]
      ensures Refines(n.shape, Cast(t, s.shape)) && WellTyped(s.shape) && WellTyped(Cast(t, s.shape))
      ensures if s != n.operands[0] then Size(Cast(t, s.shape)) < Size(n.shape) else Cast(t, s.shape) == n.shape
      ensures var rule := CastRule(t, s.shape);
        && (rule.Some? ==> Refines(Cast(t, s.shape), rule.value) && Size(rule.value) < Size(Cast(t, s.shape)))
        && (Stable(n.shape) <==> s == n.operands[0] && rule.None?)
    {
      CastRefines(t, n.shape.sub, s.shape);
      if CastRule(t, s.shape).Some? { CastRuleRefines(t, s.shape); }
      hide Refines, Consistent;
    }

    // ---------- Arithmetic ----------

    /** Both operands were simplified. */
    static ghost predicate OperandsDone(n: ExprNode, l: ExprNode, r: ExprNode) {
      && Consistent(n) && WellTyped(n.shape) && Binary(n.shape) && |n.operands| == 2
      && n.operands[0].shape == n.shape.lhs && n.operands[1].shape == n.shape.rhs
      && Replaces(n.operands[0], l) && Replaces(n.operands[1], r) && Stable(l.shape) && Stable(r.shape)
      && (Stable(n.operands[0].shape) ==> l == n.operands[0]) && (Stable(n.operands[1].shape) ==> r == n.operands[1])
    }

    static predicate Changed(n: ExprNode, l: ExprNode, r: ExprNode)
      requires |n.operands| == 2
    {
      l != n.operands[0] || r != n.operands[1]
    }

    method SimplifyOperands() returns (l: ExprNode, r: ExprNode, changed: bool, err: Option<Error>)
      requires Ready() && (nodePointer.shape.Arithmetic? || nodePointer.shape.Bitwise?)
      modifies alloc
      ensures alloc.Valid()
      ensures err.None? ==> OperandsDone(nodePointer, l, r) && (changed <==> Changed(nodePointer, l, r))
      ensures !HasTernary(nodePointer.shape) ==>
        if err.Some? then VisitError(nodePointer.shape) == err
        else Simplified(nodePointer.shape.lhs, l.shape) && Simplified(nodePointer.shape.rhs, r.shape)
      ensures Stable(nodePointer.shape) ==> err.None?
      decreases Size(nodePointer.shape), 1
    {
      hide Consistent, WellTyped, Size, Refines;
      var lhsChanged, rhsChanged;
      l, lhsChanged, err := SimplifyOperand(0);
      r := l;
      changed := false;
      if err.Some? {
        return;
      }
      r, rhsChanged, err := SimplifyOperand(1);
      changed := lhsChanged || rhsChanged;
    }

    /** The rewritten sum is no operand. */
    static predicate NewSum(l: Expr, r: Expr) {
      !IsZero(l) && !IsZero(r)
    }

    /** The rewritten product is not what a minus sign was taken off. */
    static predicate NewProduct(l: Expr, r: Expr) {
      IsNeg(l) <==> IsNeg(r)
    }

    /** A sum of simplified operands that are not both literals. */
    method VisitSum(l: ExprNode, r: ExprNode) returns (done: bool, err: Option<Error>)
      requires alloc.Valid() && Consistent(l) && Consistent(r) && WellTyped(l.shape) && WellTyped(r.shape)
      modifies this`nodePointer, alloc
      ensures alloc.Valid() && (done <==> AddRule(l.shape, r.shape).Some?)
      ensures err.Some? <==> done && NewSum(l.shape, r.shape) && HasTernary(AddRule(l.shape, r.shape).value)
      ensures err.None? ==> Leaves(old(nodePointer), AddRule(l.shape, r.shape), nodePointer)
    {
      hide Consistent, WellTyped, Equal;
      EqualReflexive(l.shape);
      EqualReflexive(r.shape);
      done, err := true, None;
      if IsZero(l.shape) {
        nodePointer := r;
      } else if IsZero(r.shape) {
        nodePointer := l;
      } else if !IsNeg(l.shape) && IsNeg(r.shape) {
        err := Adopt(Arithmetic(Sub, l.shape, r.shape.sub));
      } else if IsNeg(l.shape) && !IsNeg(r.shape) {
        err := Adopt(Arithmetic(Sub, r.shape, l.shape.sub));
      } else if IsNeg(l.shape) && IsNeg(r.shape) {
        err := Adopt(Arithmetic(Sub, l.shape, r.shape.sub));
      } else {
        done := false;
      }
    }

    /** A product of simplified operands that are not both literals. */
    method VisitProduct(l: ExprNode, r: ExprNode) returns (done: bool, err: Option<Error>)
      requires alloc.Valid() && Consistent(l) && Consistent(r) && WellTyped(l.shape) && WellTyped(r.shape)
      modifies this`nodePointer, alloc
      ensures alloc.Valid() && (done <==> MulRule(l.shape, r.shape).Some?)
      ensures err.Some? <==> done && NewProduct(l.shape, r.shape) && HasTernary(MulRule(l.shape, r.shape).value)
      ensures err.None? ==> Leaves(old(nodePointer), MulRule(l.shape, r.shape), nodePointer)
    {
      Rewritten(l);
      Rewritten(r);
      hide Consistent, WellTyped, Equal;
      done, err := true, None;
      if l.shape == UnsignedValue(0) || r.shape == UnsignedValue(0) {
        err := Adopt(UnsignedValue(0));
      } else if IsNeg(l.shape) && IsNeg(r.shape) {
        err := Adopt(Arithmetic(Mul, l.shape.sub, r.shape.sub));
      } else if l.shape == UnsignedValue(0xFFFF_FFFF) {
        if IsNeg(r.shape) {
          nodePointer := r.operands[0];
        } else {
          err := Adopt(UnaryExpr(Neg, r.shape));
        }
      } else if r.shape == UnsignedValue(0xFFFF_FFFF) {
        if IsNeg(l.shape) {
          nodePointer := l.operands[0];
        } else {
          err := Adopt(UnaryExpr(Neg, l.shape));
        }
      } else {
        done := false;
      }
    }

    method VisitArithmetic(op: ArithOp) returns (err: Option<Error>)
      requires Ready() && nodePointer.shape.Arithmetic? && nodePointer.shape.aop == op
      modifies this`nodePointer, alloc
      ensures alloc.Valid()
      ensures err.None? ==> Replaces(old(nodePointer), nodePointer)
      ensures err.None? ==> (nodePointer == old(nodePointer) <==> Stable(old(nodePointer).shape))
      ensures Stable(old(nodePointer).shape) ==> err.None?
      ensures VisitOutcome(old(nodePointer).shape, err, nodePointer.shape)
      decreases Size(nodePointer.shape), 2
    {
      hide Consistent, WellTyped, Refines, Equal, Replaces, Size, Stable;
      var n := nodePointer;
      var l, r, changed, err0 := SimplifyOperands();
      if err0.Some? {
        return err0;
      }
      ArithmeticDone(n, op, l, r);
      err := ArithmeticRules(op, l, r, changed);
      if err.None? {
        Finish(n, Arithmetic(op, l.shape, r.shape), ArithRule(op, l.shape, r.shape).value, changed, nodePointer);
      }
      ArithmeticKeeps(n, op, l, r, err, nodePointer);
    }

    method ArithmeticRules(op: ArithOp, l: ExprNode, r: ExprNode, changed: bool) returns (err: Option<Error>)
      requires alloc.Valid() && Consistent(l) && Consistent(r) && WellTyped(l.shape) && WellTyped(r.shape)
      modifies this`nodePointer, alloc
      ensures alloc.Valid()
      ensures var rule, mid := ArithRule(op, l.shape, r.shape), Arithmetic(op, l.shape, r.shape);
        && (rule.Err? ==> err == Some(rule.error))
        && (err.Some? <==>
              || rule.Err?
              || (rule.value.None? && changed && HasTernary(mid))
              || (rule.value.Some? && HasTernary(rule.value.value)
                  && if op == Add then NewSum(l.shape, r.shape) else NewProduct(l.shape, r.shape)))
      ensures err.None? ==> Leaves(old(nodePointer),
        Wanted(ArithRule(op, l.shape, r.shape).value, changed, Arithmetic(op, l.shape, r.shape)), nodePointer)
      ensures ArithRule(op, l.shape, r.shape) == Ok(None) && !changed ==> err.None?
    {
      hide Consistent, WellTyped, Equal, ArithWord, AddRule, MulRule, ArithFolds;
      var done := false;
      err := None;
      if IsLiteral(l.shape) && IsLiteral(r.shape) {
        if l.shape.UnsignedValue? && r.shape.UnsignedValue? {
          if !ArithFolds(op, false, l.shape.uint32, r.shape.uint32) {
            return Some(UndefinedFold);
          }
          err := Adopt(UnsignedValue(ArithWord(op, false, l.shape.uint32, r.shape.uint32)));
          done := true;
        } else if l.shape.IntegerValue? && r.shape.IntegerValue? {
          if !ArithFolds(op, true, l.shape.int32, r.shape.int32) {
            return Some(UndefinedFold);
          }
          err := Adopt(IntegerValue(ArithWord(op, true, l.shape.int32, r.shape.int32)));
          done := true;
        }
      } else if op == Add {
        done, err := VisitSum(l, r);
      } else if op == Mul {
        done, err := VisitProduct(l, r);
      }
      if !done {
        if ConstVal(l.shape) && ConstVal(r.shape) {
          return Some(MissedOptimization);
        }
        if changed {
          err := Adopt(Arithmetic(op, l.shape, r.shape));
        }
      }
    }

    static lemma ArithmeticKeeps(n: ExprNode, op: ArithOp, l: ExprNode, r: ExprNode, err: Option<Error>, x: ExprNode)
      requires OperandsDone(n, l, r) && n.shape.Arithmetic? && n.shape.aop == op
      requires !HasTernary(n.shape) ==> Simplified(n.shape.lhs, l.shape) && Simplified(n.shape.rhs, r.shape)
      requires var rule, mid := ArithRule(op, l.shape, r.shape), Arithmetic(op, l.shape, r.shape);
        && (rule.Err? ==> err == Some(rule.error))
        && (rule.Ok? && err.Some? ==> HasTernary(if rule.value.Some? then rule.value.value else mid))
        && (err.None? ==> rule.Ok? && Leaves(n, Wanted(rule.value, Changed(n, l, r), mid), x))
      ensures VisitOutcome(n.shape, err, x.shape)
    {
      ArithmeticDone(n, op, l, r);
      var rule, mid := ArithRule(op, l.shape, r.shape), Arithmetic(op, l.shape, r.shape);
      assert HasTernary(mid) == (HasTernary(l.shape) || HasTernary(r.shape));
      assert OperandsReady(l.shape, r.shape);
      hide Equal, Form, Stable, HasTernary, WellTyped, ArithRule, VisitError, Consistent, Refines, Size;
      if !HasTernary(n.shape) {
        if rule.Ok? && rule.value.Some? { ArithRuleShrinks(op, l.shape, r.shape); }
        if err.None? { Followed(n, mid, rule.value, Changed(n, l, r), x); }
        ArithmeticOutcome(op, n.shape, l.shape, r.shape, x.shape);
      }
    }

    static lemma ArithmeticDone(n: ExprNode, op: ArithOp, l: ExprNode, r: ExprNode)
      requires OperandsDone(n, l, r) && n.shape.Arithmetic? && n.shape.aop == op
      ensures var mid, rule := Arithmetic(op, l.shape, r.shape), ArithRule(op, l.shape, r.shape);
        && Consistent(l) && Consistent(r) && WellTyped(l.shape) && WellTyped(r.shape) && Refines(n.shape, mid)
        && (if Changed(n, l, r) then Size(mid) < Size(n.shape) else mid == n.shape)
        && (rule.Ok? && rule.value.Some? ==> Refines(mid, rule.value.value) && Size(rule.value.value) < Size(mid))
        && (Stable(n.shape) <==> !Changed(n, l, r) && rule == Ok(None))
    {
      BinaryRefines(n.shape, l.shape, r.shape);
      var rule := ArithRule(op, l.shape, r.shape);
      if rule.Ok? && rule.value.Some? { ArithRuleRefines(op, l.shape, r.shape); }
      hide Consistent, ArithRule;
    }

    // ---------- Bitwise ----------

    method VisitBitwise(op: BitOp) returns (err: Option<Error>)
      requires Ready() && nodePointer.shape.Bitwise? && nodePointer.shape.bop == op
      modifies this`nodePointer, alloc
      ensures alloc.Valid()
      ensures err.None? ==> Replaces(old(nodePointer), nodePointer)
      ensures err.None? ==> (nodePointer == old(nodePointer) <==> Stable(old(nodePointer).shape))
      ensures Stable(old(nodePointer).shape) ==> err.None?
      ensures VisitOutcome(old(nodePointer).shape, err, nodePointer.shape)
      decreases Size(nodePointer.shape), 2
    {
      hide Consistent, WellTyped, Refines, Equal, Replaces, Size, Stable;
      var n := nodePointer;
      var l, r, changed, err0 := SimplifyOperands();
      if err0.Some? {
        return err0;
      }
      BitwiseDone(n, op, l, r);
      err := BitwiseRules(op, l, r, changed);
      if err.None? {
        Finish(n, Bitwise(op, l.shape, r.shape), BitRule(op, l.shape, r.shape).value, changed, nodePointer);
      }
      BitwiseKeeps(n, op, l, r, err, nodePointer);
    }

    method BitwiseRules(op: BitOp, l: ExprNode, r: ExprNode, changed: bool) returns (err: Option<Error>)
      requires alloc.Valid() && Consistent(l) && Consistent(r) && WellTyped(l.shape) && WellTyped(r.shape)
      modifies this`nodePointer, alloc
      ensures alloc.Valid()
      ensures var rule, mid := BitRule(op, l.shape, r.shape), Bitwise(op, l.shape, r.shape);
        && (rule.Err? ==> err == Some(rule.error))
        && (err.Some? <==>
              || rule.Err?
              || (rule.value.None? && changed && HasTernary(mid))
              || (rule.value.Some? && HasTernary(rule.value.value) && op != Shl && op != Shr))
      ensures err.None? ==> Leaves(old(nodePointer),
        Wanted(BitRule(op, l.shape, r.shape).value, changed, Bitwise(op, l.shape, r.shape)), nodePointer)
      ensures BitRule(op, l.shape, r.shape) == Ok(None) && !changed ==> err.None?
    {
      EqualReflexive(l.shape);
      hide Consistent, WellTyped, Equal, BitWord, BitFolds, Negative;
      var done := false;
      err := None;
      if IsLiteral(l.shape) && IsLiteral(r.shape) {
        done, err := FoldBits(op, l.shape, r.shape);
      } else if op == Shl || op == Shr {
        if IsZero(l.shape) || IsZero(r.shape) {
          nodePointer := l;
          done := true;
        } else if r.shape.IntegerValue? && Negative(r.shape.int32) {
          return Some(MissedOptimization);
        }
      } else if op == BitOr || op == BitAnd {
        if IsNot(l.shape) && IsNot(r.shape) {
          err := Adopt(UnaryExpr(Not, Bitwise(if op == BitOr then BitAnd else BitOr, l.shape.sub, r.shape.sub)));
          done := true;
        }
      }
      if !done {
        if ConstVal(l.shape) && ConstVal(r.shape) {
          return Some(MissedOptimization);
        }
        if changed {
          err := Adopt(Bitwise(op, l.shape, r.shape));
        }
      }
    }

    method FoldBits(op: BitOp, l: Expr, r: Expr) returns (done: bool, err: Option<Error>)
      requires alloc.Valid() && IsLiteral(l) && IsLiteral(r)
      modifies this`nodePointer, alloc
      ensures alloc.Valid() && (err.Some? <==> done && BitRule(op, l, r).Err?)
      ensures err.Some? ==> err == Some(BitRule(op, l, r).error)
      ensures done <==> BitRule(op, l, r) == Err(UndefinedFold) || (BitRule(op, l, r).Ok? && BitRule(op, l, r).value.Some?)
      ensures done && err.None? ==> BitRule(op, l, r).Ok? && Leaves(old(nodePointer), BitRule(op, l, r).value, nodePointer)
      ensures !done ==> nodePointer == old(nodePointer)
    {
      hide Consistent, WellTyped, Equal, BitWord, BitFolds, Negative;
      if l.UnsignedValue? && r.UnsignedValue? {
        if !BitFolds(op, r.uint32) {
          return true, Some(UndefinedFold);
        }
        done := true;
        err := Adopt(UnsignedValue(BitWord(op, false, l.uint32, r.uint32)));
      } else if l.IntegerValue? && r.IntegerValue? {
        if !BitFolds(op, r.int32) {
          return true, Some(UndefinedFold);
        }
        done := true;
        err := Adopt(IntegerValue(BitWord(op, true, l.int32, r.int32)));
      } else {
        done, err := false, None;
      }
    }

    static lemma BitwiseKeeps(n: ExprNode, op: BitOp, l: ExprNode, r: ExprNode, err: Option<Error>, x: ExprNode)
      requires OperandsDone(n, l, r) && n.shape.Bitwise? && n.shape.bop == op
      requires !HasTernary(n.shape) ==> Simplified(n.shape.lhs, l.shape) && Simplified(n.shape.rhs, r.shape)
      requires var rule, mid := BitRule(op, l.shape, r.shape), Bitwise(op, l.shape, r.shape);
        && (rule.Err? ==> err == Some(rule.error))
        && (rule.Ok? && err.Some? ==> HasTernary(if rule.value.Some? then rule.value.value else mid))
        && (err.None? ==> rule.Ok? && Leaves(n, Wanted(rule.value, Changed(n, l, r), mid), x))
      ensures VisitOutcome(n.shape, err, x.shape)
    {
      BitwiseDone(n, op, l, r);
      var rule, mid := BitRule(op, l.shape, r.shape), Bitwise(op, l.shape, r.shape);
      assert HasTernary(mid) == (HasTernary(l.shape) || HasTernary(r.shape));
      assert OperandsReady(l.shape, r.shape);
      hide Equal, Form, Stable, HasTernary, WellTyped, BitRule, VisitError, Consistent, Refines, Size;
      if !HasTernary(n.shape) {
        if rule.Ok? && rule.value.Some? { BitRuleShrinks(op, l.shape, r.shape); }
        if err.None? { Followed(n, mid, rule.value, Changed(n, l, r), x); }
        BitwiseOutcome(op, n.shape, l.shape, r.shape, x.shape);
      }
    }

    static lemma BitwiseDone(n: ExprNode, op: BitOp, l: ExprNode, r: ExprNode)
      requires OperandsDone(n, l, r) && n.shape.Bitwise? && n.shape.bop == op
      ensures var mid, rule := Bitwise(op, l.shape, r.shape), BitRule(op, l.shape, r.shape);
        && Consistent(l) && Consistent(r) && WellTyped(l.shape) && WellTyped(r.shape) && Refines(n.shape, mid)
        && (if Changed(n, l, r) then Size(mid) < Size(n.shape) else mid == n.shape)
        && (rule.Ok? && rule.value.Some? ==> Refines(mid, rule.value.value) && Size(rule.value.value) < Size(mid))
        && (Stable(n.shape) <==> !Changed(n, l, r) && rule == Ok(None))
    {
      BinaryRefines(n.shape, l.shape, r.shape);
      var rule := BitRule(op, l.shape, r.shape);
      if rule.Ok? && rule.value.Some? { BitRuleRefines(op, l.shape, r.shape); }
      hide Consistent, BitRule;
    }
  }

  /**
   * Simplifies a node. The result has the same type and value and is no larger, no rule applies to it any more, and
   * simplifying it again gives it back. It throws exactly when the form of the expression is an exception, so never on a
   * plain expression, and a constant becomes its form; no node of the table holds a ternary.
   */
  method SimplifyNode(node: ExprNode, alloc: StmtNodeAlloc) returns (r: Result<ExprNode>)
    requires alloc.Valid() && Consistent(node) && WellTyped(node.shape)
    modifies alloc
    ensures alloc.Valid()
    ensures r.Ok? ==> Consistent(r.value) && Refines(node.shape, r.value.shape) && Stable(r.value.shape)
    ensures r.Ok? ==> r.value == node || Size(r.value.shape) < Size(node.shape)
    ensures r.Ok? ==> forall x :: Visited(x, r.value.shape) ==> !Redundant(x)
    ensures Stable(node.shape) ==> r == Ok(node)
    ensures !HasTernary(node.shape) ==> (r.Err? <==> Form(node.shape).Err?)
    ensures !HasTernary(node.shape) && r.Err? ==> r.error == Form(node.shape).error
    ensures !HasTernary(node.shape) && r.Ok? ==> Form(node.shape) == Ok(Known(r.value.shape)) && !HasTernary(r.value.shape)
    ensures !HasTernary(node.shape) && Plain(node.shape) ==> r.Ok?
  {
    hide Consistent, WellTyped, Refines, Stable, Size, Form, Plain, HasTernary, Visited, Redundant;
    if Plain(node.shape) { PlainForm(node.shape); }
    var visitor := new SimplifyVisitor(node, alloc);
    var err := visitor.Run();
    StableExact(visitor.nodePointer.shape);
    r := if err.Some? then Err(err.value) else Ok(visitor.nodePointer);
  }

  /** One visit is not enough: of -(2^32-1) * -x it makes (2^32-1) * x, which the loop turns into -x. */
  lemma LoopNeeded()
    ensures var x, m := Operand(Var(Variable, "x", "", TUnsigned)), UnsignedValue(0xFFFF_FFFF);
      && Stable(UnaryExpr(Neg, m)) && Stable(UnaryExpr(Neg, x))
      && ArithRule(Mul, UnaryExpr(Neg, m), UnaryExpr(Neg, x)) == Ok(Some(Arithmetic(Mul, m, x)))
      && ArithRule(Mul, m, x) == Ok(Some(UnaryExpr(Neg, x)))
  {
    Distinct();
  }

  lemma Distinct()
    ensures var m: bv32 := 0xFFFF_FFFF; m != 0
  {
  }
}
