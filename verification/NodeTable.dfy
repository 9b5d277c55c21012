/** The hash-consing tables of expression nodes: one node for all equal expressions. */
module NodeTable {
  import opened Ir
  import opened ExprEquality

  /** An expression node. The operands are nodes themselves; shape is the whole expression they form. */
  class ExprNode {
    const shape: Expr
    const operands: seq<ExprNode>

    constructor (shape: Expr, operands: seq<ExprNode>)
      ensures this.shape == shape && this.operands == operands
    {
      this.shape, this.operands := shape, operands;
    }
  }

  function SubExprs(e: Expr): seq<Expr> {
    match e
    case UnaryExpr(_, s) => [s]
    case Cast(_, s) => [s]
    case Ternary(c, t, f) => [c, t, f]
    case Arithmetic(_, l, r) => [l, r]
    case Bitwise(_, l, r) => [l, r]
    case Logical(_, l, r) => [l, r]
    case Relational(_, l, r) => [l, r]
    case _ => []
  }

  lemma SubExprSmaller(e: Expr, i: nat)
    requires i < |SubExprs(e)|
    ensures SubExprs(e)[i] < e && Size(SubExprs(e)[i]) < Size(e)
  {
  }

  /** The operands form the shape, all the way down. */
  ghost predicate Consistent(n: ExprNode)
    decreases n.shape
  {
    && |n.operands| == |SubExprs(n.shape)|
    && forall i :: 0 <= i < |n.operands| ==>
         n.operands[i].shape == SubExprs(n.shape)[i] && (SubExprSmaller(n.shape, i); Consistent(n.operands[i]))
  }

  /** The node classes; each has a table of its own, but ternary expressions have none. */
  datatype Class = IntegerT | UnsignedT | BoolT | OperandT | SyncT | UnaryT | ArithmeticT | BitwiseT | LogicalT | RelationalT
    | CastT | TernaryT

  function ClassOf(e: Expr): Class {
    match e
    case IntegerValue(_) => IntegerT
    case UnsignedValue(_) => UnsignedT
    case BoolValue(_) => BoolT
    case Operand(_) => OperandT
    case SyncSignal(_) => SyncT
    case UnaryExpr(_, _) => UnaryT
    case Arithmetic(_, _, _) => ArithmeticT
    case Bitwise(_, _, _) => BitwiseT
    case Logical(_, _, _) => LogicalT
    case Relational(_, _, _) => RelationalT
    case Cast(_, _) => CastT
    case Ternary(_, _, _) => TernaryT
  }

  lemma EqualClass(a: Expr, b: Expr)
    requires Equal(a, b)
    ensures ClassOf(a) == ClassOf(b)
  {
    if Binary(a) { assert BinaryEqual(a, b); }
  }

  /** Some part of the expression is a ternary, for which the allocation throws. */
  predicate HasTernary(e: Expr) {
    match e
    case Ternary(_, _, _) => true
    case UnaryExpr(_, s) => HasTernary(s)
    case Cast(_, s) => HasTernary(s)
    case Arithmetic(_, l, r) => HasTernary(l) || HasTernary(r)
    case Bitwise(_, l, r) => HasTernary(l) || HasTernary(r)
    case Logical(_, l, r) => HasTernary(l) || HasTernary(r)
    case Relational(_, l, r) => HasTernary(l) || HasTernary(r)
    case _ => false
  }

  lemma {:induction false} EqualTernary(a: Expr, b: Expr)
    requires Equal(a, b)
    ensures HasTernary(a) <==> HasTernary(b)
    decreases a
  {
    match a
    case UnaryExpr(_, s) => EqualTernary(s, b.sub);
    case Cast(_, s) => EqualTernary(s, b.sub);
    case Arithmetic(_, _, _) => BinaryTernary(a, b);
    case Bitwise(_, _, _) => BinaryTernary(a, b);
    case Logical(_, _, _) => BinaryTernary(a, b);
    case Relational(_, _, _) => BinaryTernary(a, b);
    case _ =>
  }

  lemma {:induction false} BinaryTernary(a: Expr, b: Expr)
    requires Binary(a) && BinaryEqual(a, b)
    ensures HasTernary(a) <==> HasTernary(b)
    decreases a, 0
  {
    hide Equal;
    if Equal(a.lhs, b.lhs) && Equal(a.rhs, b.rhs) {
      EqualTernary(a.lhs, b.lhs);
      EqualTernary(a.rhs, b.rhs);
    } else if Commutes(a) {
      EqualTernary(a.lhs, b.rhs);
      EqualTernary(a.rhs, b.lhs);
    } else {
      EqualTernary(a.lhs.sub, b.rhs);
      EqualTernary(a.rhs, b.lhs.sub);
      assert HasTernary(a.lhs) == HasTernary(a.lhs.sub) && HasTernary(b.lhs) == HasTernary(b.lhs.sub);
    }
  }

  /** Rebuilding an expression over equal operands gives an equal expression. */
  lemma RebuiltEqual(e: Expr, s: Expr)
    requires ClassOf(s) == ClassOf(e) && SameHead(e, s) && |SubExprs(s)| == |SubExprs(e)|
    requires forall i :: 0 <= i < |SubExprs(e)| ==> Equal(SubExprs(e)[i], SubExprs(s)[i])
    ensures Equal(e, s)
  {
    if |SubExprs(e)| > 0 { assert Equal(SubExprs(e)[0], SubExprs(s)[0]); }
    if |SubExprs(e)| > 1 { assert Equal(SubExprs(e)[1], SubExprs(s)[1]); }
    if |SubExprs(e)| > 2 { assert Equal(SubExprs(e)[2], SubExprs(s)[2]); }
    if Binary(e) { assert BinaryEqual(e, s); }
  }

  /** The same node but for its operands. */
  predicate SameHead(e: Expr, s: Expr) {
    match e
    case UnaryExpr(op, _) => s.UnaryExpr? && s.uop == op
    case Cast(t, _) => s.Cast? && s.to == t
    case Ternary(_, _, _) => s.Ternary?
    case Arithmetic(_, _, _) => SameOperator(e, s)
    case Bitwise(_, _, _) => SameOperator(e, s)
    case Logical(_, _, _) => SameOperator(e, s)
    case Relational(_, _, _) => SameOperator(e, s)
    case _ => e == s
  }

  /** The expression with its operands replaced. */
  function Rebuild(e: Expr, subs: seq<Expr>): (s: Expr)
    requires |subs| == |SubExprs(e)|
    ensures SameHead(e, s) && ClassOf(s) == ClassOf(e) && SubExprs(s) == subs
  {
    match e
    case UnaryExpr(op, _) => UnaryExpr(op, subs[0])
    case Cast(t, _) => Cast(t, subs[0])
    case Ternary(_, _, _) => Ternary(subs[0], subs[1], subs[2])
    case Arithmetic(op, _, _) => Arithmetic(op, subs[0], subs[1])
    case Bitwise(op, _, _) => Bitwise(op, subs[0], subs[1])
    case Logical(op, _, _) => Logical(op, subs[0], subs[1])
    case Relational(op, _, _) => Relational(op, subs[0], subs[1])
    case _ => e
  }

  type Tables = map<Class, seq<ExprNode>>

  function Table(t: Tables, c: Class): seq<ExprNode> {
    if c in t then t[c] else []
  }

  /** No entry is equal to e. */
  ghost predicate Missing(t: Tables, e: Expr) {
    forall i :: 0 <= i < |Table(t, ClassOf(e))| ==> !Equal(Table(t, ClassOf(e))[i].shape, e)
  }

  ghost predicate Stored(t: Tables, n: ExprNode) {
    n in Table(t, ClassOf(n.shape))
  }

  ghost predicate EntryOk(t: Tables, c: Class, n: ExprNode) {
    && ClassOf(n.shape) == c && !HasTernary(n.shape) && Consistent(n)
    && forall i :: 0 <= i < |n.operands| ==> Stored(t, n.operands[i])
  }

  ghost predicate Distinct(s: seq<ExprNode>) {
    forall i, j :: 0 <= i < j < |s| ==> !Equal(s[i].shape, s[j].shape)
  }

  /** Every operand of an entry is an entry, and no two entries are equal. */
  ghost predicate TablesOk(t: Tables) {
    && (forall c: Class, i :: 0 <= i < |Table(t, c)| ==> EntryOk(t, c, Table(t, c)[i]))
    && forall c: Class :: Distinct(Table(t, c))
  }

  /** The tables only got longer, by entries of at most the given size. */
  ghost predicate Grown(t: Tables, t': Tables, size: nat) {
    && (forall c: Class :: Table(t, c) <= Table(t', c))
    && forall c: Class, i :: |Table(t, c)| <= i < |Table(t', c)| ==> Size(Table(t', c)[i].shape) <= size
  }

  lemma GrownStored(t: Tables, t': Tables, n: ExprNode)
    requires TablesOk(t) && TablesOk(t') && (exists size: nat :: Grown(t, t', size)) && Stored(t, n)
    ensures Stored(t', n)
  {
    hide EntryOk, Distinct;
    var s, s' := Table(t, ClassOf(n.shape)), Table(t', ClassOf(n.shape));
    var i :| 0 <= i < |s| && s[i] == n;
    assert s'[i] == n;
  }

  lemma GrownTransitive(t: Tables, t': Tables, t'': Tables, size: nat)
    requires TablesOk(t) && TablesOk(t') && TablesOk(t'') && Grown(t, t', size) && Grown(t', t'', size)
    ensures Grown(t, t'', size)
  {
    hide EntryOk, Distinct;
  }

  /** One more entry, equal to none and over stored operands, keeps the tables in order. */
  lemma PushOk(t: Tables, n: ExprNode)
    requires TablesOk(t) && EntryOk(t, ClassOf(n.shape), n)
    requires Missing(t, n.shape)
    ensures var t' := t[ClassOf(n.shape) := Table(t, ClassOf(n.shape)) + [n]];
      TablesOk(t') && Grown(t, t', Size(n.shape)) && Stored(t', n)
  {
    hide Equal, Consistent, HasTernary;
    var c0 := ClassOf(n.shape);
    var t' := t[c0 := Table(t, c0) + [n]];
    forall c: Class, i | 0 <= i < |Table(t', c)| ensures EntryOk(t', c, Table(t', c)[i]) {
      var x := Table(t', c)[i];
      if c == c0 && i == |Table(t, c0)| {
        assert x == n;
      } else {
        assert x == Table(t, c)[i] && EntryOk(t, c, x);
      }
      forall k | 0 <= k < |x.operands| ensures Stored(t', x.operands[k]) {
        assert Stored(t, x.operands[k]);
      }
    }
    forall c: Class ensures Distinct(Table(t', c)) {
      assert Distinct(Table(t, c));
    }
    assert Table(t', c0)[|Table(t, c0)|] == n;
  }

  class StmtNodeAlloc {
    var tables: Tables

    constructor ()
      ensures Valid() && forall c: Class :: Table(tables, c) == []
    {
      tables := map[];
    }

    ghost predicate Valid()
      reads this
    {
      TablesOk(tables)
    }

    /** The entry equal to e, if there is one. */
    method Find(e: Expr) returns (found: Option<ExprNode>)
      requires Valid()
      ensures found.Some? ==> Stored(tables, found.value) && Equal(found.value.shape, e)
      ensures found.None? ==> Missing(tables, e)
    {
      hide Equal, HasTernary, Consistent;
      var table := Table(tables, ClassOf(e));
      for i := 0 to |table|
        invariant forall j :: 0 <= j < i ==> !Equal(table[j].shape, e)
      {
        if Equal(table[i].shape, e) {
          assert EntryOk(tables, ClassOf(e), table[i]);
          return Some(table[i]);
        }
      }
      return None;
    }

    /** The one node equal to e: the entry there is, or a new one over the nodes of the operands. */
    method Alloc(e: Expr) returns (r: Result<ExprNode>)
      requires Valid()
      modifies this
      ensures Valid() && Grown(old(tables), tables, Size(e))
      ensures r.Ok? <==> !HasTernary(e)
      ensures r.Ok? ==> Stored(tables, r.value) && Consistent(r.value) && Equal(r.value.shape, e)
      decreases e
    {
      hide Equal, HasTernary, Consistent, EntryOk, Distinct, Size;
      var found := Find(e);
      if found.Some? {
        StoredOk(tables, found.value);
        EqualTernary(found.value.shape, e);
        return Ok(found.value);
      }
      if e.Ternary? {
        TernaryHas(e);
        return Err(NotImplemented);
      }
      var operands := AllocOperands(e);
      if operands.Err? {
        return Err(operands.error);
      }
      Unmatched(old(tables), tables, e);
      ghost var before := tables;
      var x := Push(e, operands.value);
      GrownTransitive(old(tables), before, tables, Size(e));
      r := Ok(x);
    }

    /** Any run of allocations: the requests that are equal, and only those, get the same node. */
    method AllocAll(es: seq<Expr>) returns (r: seq<ExprNode>)
      requires Valid() && forall i :: 0 <= i < |es| ==> !HasTernary(es[i])
      modifies this
      ensures Valid() && |r| == |es| && forall i :: 0 <= i < |es| ==> OperandOk(tables, es[i], r[i])
      ensures forall i, j :: 0 <= i < |es| && 0 <= j < |es| ==> (r[i] == r[j] <==> Equal(es[i], es[j]))
    {
      hide Equal, HasTernary, Consistent, Size, TablesOk, Stored;
      r := [];
      for k := 0 to |es|
        invariant Valid() && |r| == k && forall i :: 0 <= i < k ==> OperandOk(tables, es[i], r[i])
      {
        ghost var now := tables;
        var x := Alloc(es[k]);
        forall i | 0 <= i < k ensures OperandOk(tables, es[i], r[i]) { GrownStored(now, tables, r[i]); }
        r := r + [x.value];
      }
      forall i, j | 0 <= i < |es| && 0 <= j < |es| ensures r[i] == r[j] <==> Equal(es[i], es[j]) {
        SameRequest(tables, es[i], r[i], es[j], r[j]);
      }
    }

    /** The nodes of the operands, all of them smaller than e. */
    method AllocOperands(e: Expr) returns (r: Result<seq<ExprNode>>)
      requires Valid() && !e.Ternary?
      modifies this
      ensures Valid() && Grown(old(tables), tables, Size(e) - 1)
      ensures r.Ok? <==> !HasTernary(e)
      ensures r.Ok? ==> OperandsOk(tables, e, r.value)
      decreases e, 0
    {
      hide Equal, HasTernary, Consistent, EntryOk, Distinct, Size, TablesOk;
      var operands: seq<ExprNode> := [];
      for i := 0 to |SubExprs(e)|
        invariant Valid() && Grown(old(tables), tables, Size(e) - 1) && |operands| == i
        invariant forall j :: 0 <= j < i ==> !HasTernary(SubExprs(e)[j]) && OperandOk(tables, SubExprs(e)[j], operands[j])
      {
        SubExprSmaller(e, i);
        ghost var now := tables;
        var x := Alloc(SubExprs(e)[i]);
        Widen(now, tables, Size(SubExprs(e)[i]), Size(e) - 1);
        GrownTransitive(old(tables), now, tables, Size(e) - 1);
        if x.Err? {
          TernaryInside(e, i);
          return Err(x.error);
        }
        forall j | 0 <= j < i ensures OperandOk(tables, SubExprs(e)[j], operands[j]) { GrownStored(now, tables, operands[j]); }
        operands := operands + [x.value];
      }
      NoTernaryInside(e);
      r := Ok(operands);
    }

    /** Stores a new node over stored operands. */
    method Push(e: Expr, operands: seq<ExprNode>) returns (r: ExprNode)
      requires Valid() && !HasTernary(e) && OperandsOk(tables, e, operands)
      requires Missing(tables, e)
      modifies this
      ensures Valid() && Grown(old(tables), tables, Size(e))
      ensures Stored(tables, r) && Consistent(r) && Equal(r.shape, e)
    {
      hide Equal, HasTernary, Distinct, Size, TablesOk;
      var shapes := seq(|operands|, i requires 0 <= i < |operands| => operands[i].shape);
      var shape := Rebuild(e, shapes);
      r := new ExprNode(shape, operands);
      NewEntryOk(tables, e, r);
      PushOk(tables, r);
      tables := tables[ClassOf(shape) := Table(tables, ClassOf(shape)) + [r]];
    }
  }

  ghost predicate OperandOk(t: Tables, e: Expr, n: ExprNode) {
    Stored(t, n) && Consistent(n) && Equal(n.shape, e)
  }

  ghost predicate OperandsOk(t: Tables, e: Expr, operands: seq<ExprNode>) {
    |operands| == |SubExprs(e)| && forall i :: 0 <= i < |operands| ==> OperandOk(t, SubExprs(e)[i], operands[i])
  }

  lemma Widen(t: Tables, t': Tables, size: nat, size': nat)
    requires Grown(t, t', size) && size <= size'
    ensures Grown(t, t', size')
  {
  }

  /** Allocating the operands cannot have stored an expression equal to the whole. */
  lemma Unmatched(t: Tables, t': Tables, e: Expr)
    requires TablesOk(t) && TablesOk(t') && Size(e) > 0 && Grown(t, t', Size(e) - 1)
    requires Missing(t, e)
    ensures Missing(t', e)
  {
    hide EntryOk, Distinct, Size, Equal;
    var s, s' := Table(t, ClassOf(e)), Table(t', ClassOf(e));
    forall i | 0 <= i < |s'| ensures !Equal(s'[i].shape, e) {
      if i < |s| {
        assert s'[i] == s[i];
      } else if Equal(s'[i].shape, e) {
        EqualTyped(s'[i].shape, e);
      }
    }
  }

  lemma NewEntryOk(t: Tables, e: Expr, n: ExprNode)
    requires TablesOk(t) && !HasTernary(e) && OperandsOk(t, e, n.operands)
    requires Missing(t, e)
    requires n.shape == Rebuild(e, seq(|n.operands|, i requires 0 <= i < |n.operands| => n.operands[i].shape))
    ensures Equal(n.shape, e) && EntryOk(t, ClassOf(n.shape), n) && Size(n.shape) == Size(e) && ClassOf(n.shape) == ClassOf(e)
    ensures Missing(t, n.shape)
  {
    hide Equal, HasTernary, TablesOk, Size;
    forall i | 0 <= i < |SubExprs(e)| ensures Equal(SubExprs(e)[i], SubExprs(n.shape)[i]) {
      EqualSymmetric(n.operands[i].shape, SubExprs(e)[i]);
    }
    RebuiltEqual(e, n.shape);
    EqualSymmetric(e, n.shape);
    EqualTernary(n.shape, e);
    EqualTyped(n.shape, e);
    forall i | 0 <= i < |Table(t, ClassOf(n.shape))| ensures !Equal(Table(t, ClassOf(n.shape))[i].shape, n.shape) {
      if Equal(Table(t, ClassOf(n.shape))[i].shape, n.shape) { EqualTransitive(Table(t, ClassOf(n.shape))[i].shape, n.shape, e); }
    }
  }

  /** Two entries are one node exactly when they are equal. */
  lemma OneNode(t: Tables, m: ExprNode, n: ExprNode)
    requires TablesOk(t) && Stored(t, m) && Stored(t, n)
    ensures m == n <==> Equal(m.shape, n.shape)
  {
    hide Equal, EntryOk;
    if m == n { EqualReflexive(m.shape); }
    if Equal(m.shape, n.shape) {
      EqualClass(m.shape, n.shape);
      EqualSymmetric(m.shape, n.shape);
      var s := Table(t, ClassOf(m.shape));
      var i :| 0 <= i < |s| && s[i] == m;
      var j :| 0 <= j < |s| && s[j] == n;
      assert Distinct(s);
    }
  }

  /** Entries found for equal requests are one node, and for other requests they are two. */
  lemma SameRequest(t: Tables, d: Expr, m: ExprNode, e: Expr, n: ExprNode)
    requires TablesOk(t) && OperandOk(t, d, m) && OperandOk(t, e, n)
    ensures m == n <==> Equal(d, e)
  {
    hide Equal, TablesOk, Stored, Consistent;
    OneNode(t, m, n);
    EqualSymmetric(m.shape, d);
    EqualSymmetric(n.shape, e);
    if Equal(m.shape, n.shape) {
      EqualTransitive(d, m.shape, n.shape);
      EqualTransitive(d, n.shape, e);
    }
    if Equal(d, e) {
      EqualTransitive(m.shape, d, e);
      EqualTransitive(m.shape, e, n.shape);
    }
  }

  /** The node need not have the structure asked for: after x*y, a request for y*x gives the node of x*y. */
  lemma SharedUnlike()
    ensures var x, y := Operand(Var(Variable, "x", "", TInt)), Operand(Var(Variable, "y", "", TInt));
      Equal(Arithmetic(Mul, x, y), Arithmetic(Mul, y, x)) && Arithmetic(Mul, x, y) != Arithmetic(Mul, y, x)
  {
    var x, y := Operand(Var(Variable, "x", "", TInt)), Operand(Var(Variable, "y", "", TInt));
    assert BinaryEqual(Arithmetic(Mul, x, y), Arithmetic(Mul, y, x));
  }

  lemma {:induction false} TernaryExact(e: Expr)
    ensures HasTernary(e) <==> exists x :: Within(x, e) && x.Ternary?
  {
    match e
    case Ternary(_, _, _) => assert Within(e, e);
    case UnaryExpr(_, s) => TernaryExact(s);
    case Cast(_, s) => TernaryExact(s);
    case Arithmetic(_, l, r) => TernaryExact(l); TernaryExact(r);
    case Bitwise(_, l, r) => TernaryExact(l); TernaryExact(r);
    case Logical(_, l, r) => TernaryExact(l); TernaryExact(r);
    case Relational(_, l, r) => TernaryExact(l); TernaryExact(r);
    case _ =>
  }

  lemma StoredOk(t: Tables, n: ExprNode)
    requires TablesOk(t) && Stored(t, n)
    ensures EntryOk(t, ClassOf(n.shape), n) && Consistent(n) && !HasTernary(n.shape)
  {
    var s := Table(t, ClassOf(n.shape));
    var i :| 0 <= i < |s| && s[i] == n;
    assert EntryOk(t, ClassOf(n.shape), s[i]);
  }

  lemma TernaryHas(e: Expr)
    requires e.Ternary?
    ensures HasTernary(e)
  {
  }

  lemma TernaryInside(e: Expr, i: nat)
    requires i < |SubExprs(e)| && HasTernary(SubExprs(e)[i])
    ensures HasTernary(e)
  {
  }

  lemma NoTernaryInside(e: Expr)
    requires !e.Ternary? && forall i :: 0 <= i < |SubExprs(e)| ==> !HasTernary(SubExprs(e)[i])
    ensures !HasTernary(e)
  {
    if |SubExprs(e)| > 0 { assert !HasTernary(SubExprs(e)[0]); }
    if |SubExprs(e)| > 1 { assert !HasTernary(SubExprs(e)[1]); }
  }
}
