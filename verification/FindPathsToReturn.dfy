/** The path enumerating visitor, in the imperative form of the tool. */
module FindPathsToReturn {
  import opened Ir
  import opened Statements
  import opened NestedCode
  import opened Paths

  /** The guards built so far, one per condition, shared by all visitors. */
  class GuardCache {
    var trueMap: map<Expr, Stmt>
    var falseMap: map<Expr, Stmt>

    constructor ()
      ensures Valid()
    {
      trueMap, falseMap := map[], map[];
    }

    ghost predicate Valid()
      reads this
    {
      && (forall c :: c in trueMap ==> trueMap[c] == If(c))
      && (forall c :: c in falseMap ==> falseMap[c] == If(Negated(c)))
    }

    method FindOrAddTrue(cond: Expr) returns (s: Stmt)
      requires Valid()
      modifies this`trueMap
      ensures Valid() && s == If(cond)
    {
      if cond !in trueMap {
        trueMap := trueMap[cond := If(cond)];
      }
      s := trueMap[cond];
    }

    method FindOrAddFalse(cond: Expr) returns (s: Stmt)
      requires Valid()
      modifies this`falseMap
      ensures Valid() && s == If(Negated(cond))
    {
      if cond !in falseMap {
        falseMap := falseMap[cond := If(UnaryExpr(Not, cond))];
      }
      s := falseMap[cond];
    }
  }

  class PathVisitor {
    var pathList: seq<Path>

    constructor ()
      ensures pathList == []
    {
      pathList := [];
    }

    method VisitAll(cs: seq<Code>, guards: GuardCache)
      requires guards.Valid()
      modifies this, guards
      ensures guards.Valid() && pathList == ExtendAll(old(pathList), cs)
      decreases cs
    {
      if cs != [] {
        Visit(cs[0], guards);
        VisitAll(cs[1..], guards);
      }
    }

    method Visit(c: Code, guards: GuardCache)
      requires guards.Valid()
      modifies this, guards
      ensures guards.Valid() && pathList == Extend(old(pathList), c)
      decreases c, 1
    {
      match c
      case Simple(s) => AppendStmtToPaths(s);
      case ITE(cond, t, e) => VisitITE(c, guards);
    }

    /** Adds s to each path in place; the first statement of all starts the first path. */
    method AppendStmtToPaths(s: Stmt)
      modifies this
      ensures pathList == AppendStmt(old(pathList), s)
    {
      if pathList == [] {
        pathList := [[]];
      }
      var n := |pathList|;
      ghost var olds := pathList;
      for i := 0 to n
        invariant |pathList| == n == |olds|
        invariant forall k :: 0 <= k < n ==> pathList[k] == if k < i then olds[k] + [s] else olds[k]
      {
        pathList := pathList[i := pathList[i] + [s]];
      }
      assert pathList == AppendStmt(olds, s);
      assert olds[0][..0] + [s] == [s];
    }

    method VisitITE(c: Code, guards: GuardCache)
      requires c.ITE? && guards.Valid()
      modifies this, guards
      ensures guards.Valid() && pathList == Extend(old(pathList), c)
      decreases c, 0
    {
      if c.ifList == [] && c.elseList == [] {
        return;
      }
      var ifVisitor := new PathVisitor();
      var elseVisitor := new PathVisitor();
      ifVisitor.VisitAll(c.ifList, guards);
      elseVisitor.VisitAll(c.elseList, guards);
      if pathList == [] {
        pathList := [[]];
      }
      ghost var arms := Arms(c.cond, ifVisitor.pathList, elseVisitor.pathList);
      var news := CrossWithArms(pathList, c.cond, ifVisitor.pathList, elseVisitor.pathList, guards);
      CrossNotEmpty(pathList, arms);
      if news != [] {
        pathList := news;
      }
    }
  }

  /** Each old path with each way through the branch on cond. */
  method CrossWithArms(olds: seq<Path>, cond: Expr, ifPaths: seq<Path>, elsePaths: seq<Path>, guards: GuardCache)
      returns (news: seq<Path>)
    requires guards.Valid()
    modifies guards
    ensures guards.Valid() && news == Cross(olds, Arms(cond, ifPaths, elsePaths))
  {
    hide Prefixed, OrEmptyPath;
    ghost var arms := Arms(cond, ifPaths, elsePaths);
    news := [];
    for i := 0 to |olds|
      invariant guards.Valid() && news == Cross(olds[..i], arms)
    {
      var yes := guards.FindOrAddTrue(cond);
      news := AppendArm(news, olds[i], yes, ifPaths);
      var no := guards.FindOrAddFalse(cond);
      news := AppendArm(news, olds[i], no, elsePaths);
      CrossStep(olds, i, arms);
      PrefixedConcat(olds[i], Prefixed([yes], OrEmptyPath(ifPaths)), Prefixed([no], OrEmptyPath(elsePaths)));
    }
    assert olds[..|olds|] == olds;
  }

  /** Adds the old path with one arm: only the guard when the arm has no path, the guard and each path otherwise. */
  method AppendArm(news: seq<Path>, oldPath: Path, guard: Stmt, arm: seq<Path>) returns (r: seq<Path>)
    ensures r == news + Prefixed(oldPath, Prefixed([guard], OrEmptyPath(arm)))
  {
    r := news;
    if arm == [] {
      r := r + [oldPath + [guard]];
      assert [guard] + [] == [guard];
      return;
    }
    ghost var all := Prefixed(oldPath, Prefixed([guard], arm));
    for i := 0 to |arm|
      invariant r == news + all[..i]
    {
      var withGuard := oldPath + [guard];
      r := r + [withGuard + arm[i]];
      assert withGuard + arm[i] == oldPath + ([guard] + arm[i]) == all[i];
    }
    assert all[..|arm|] == all;
  }

  lemma PrefixedConcat(p: Path, a: seq<Path>, b: seq<Path>)
    ensures Prefixed(p, a + b) == Prefixed(p, a) + Prefixed(p, b)
  {
  }

  lemma CrossStep(olds: seq<Path>, i: nat, arms: seq<Path>)
    requires i < |olds|
    ensures Cross(olds[..i + 1], arms) == Cross(olds[..i], arms) + Prefixed(olds[i], arms)
  {
    assert olds[..i + 1][..i] == olds[..i];
  }

  lemma CrossNotEmpty(olds: seq<Path>, arms: seq<Path>)
    requires olds != [] && arms != []
    ensures Cross(olds, arms) != []
  {
    assert |Prefixed(olds[|olds| - 1], arms)| == |arms|;
  }
}
