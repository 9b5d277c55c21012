/** Statement lists with nested branches, the form the flattened body of a function has. */
module NestedCode {
  import opened Ir
  import opened Statements

  datatype Code = Simple(stmt: Stmt) | ITE(cond: Expr, ifList: seq<Code>, elseList: seq<Code>)

  /** A branch is an ITE; a bare If statement only occurs in paths. */
  predicate CodeOk(c: Code)
    decreases c, 0
  {
    match c
    case Simple(s) => StmtOk(s) && !s.If?
    case ITE(cond, t, e) => StmtOk(If(cond)) && CodesOk(t) && CodesOk(e)
  }

  predicate CodesOk(cs: seq<Code>)
    decreases cs
  {
    cs != [] ==> CodeOk(cs[0]) && CodesOk(cs[1..])
  }

  function RunCode(r: Run, c: Code): Run
    requires CodeOk(c)
    decreases c, 0
  {
    match c
    case Simple(s) => Step(r, s, false)
    case ITE(cond, t, e) => if Holds(cond, r.env) then RunCodes(r, t) else RunCodes(r, e)
  }

  /** Running to the end of the list; the value of the first return is kept. */
  function RunCodes(r: Run, cs: seq<Code>): Run
    requires CodesOk(cs)
    decreases cs
  {
    if cs == [] then r else RunCodes(RunCode(r, cs[0]), cs[1..])
  }

  lemma {:induction false} CodesConcat(r: Run, a: seq<Code>, b: seq<Code>)
    ensures CodesOk(a + b) <==> CodesOk(a) && CodesOk(b)
    ensures CodesOk(a) && CodesOk(b) ==> RunCodes(r, a + b) == RunCodes(RunCodes(r, a), b)
    decreases a
  {
    if a == [] {
      assert a + b == b;
    } else {
      assert (a + b)[1..] == a[1..] + b;
      CodesConcat(if CodeOk(a[0]) then RunCode(r, a[0]) else r, a[1..], b);
    }
  }
}
