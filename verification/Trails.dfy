/** Which paths there are: the enumerated paths are the ways through the code, and those are the walks of the graph. */
module Trails {
  import opened Ir
  import opened Statements
  import opened NestedCode
  import opened Paths
  import opened BlockGraph
  import opened Flatten

  // ---------- One set of paths after another ----------

  function Both(a: set<Path>, b: set<Path>): set<Path> {
    set p, q | p in a && q in b :: p + q
  }

  lemma BothHas(a: set<Path>, b: set<Path>, p: Path, q: Path)
    requires p in a && q in b
    ensures p + q in Both(a, b)
  {
  }

  lemma BothAssoc(a: set<Path>, b: set<Path>, c: set<Path>)
    ensures Both(Both(a, b), c) == Both(a, Both(b, c))
  {
    forall x | x in Both(Both(a, b), c) ensures x in Both(a, Both(b, c)) {
      var pq, r :| pq in Both(a, b) && r in c && x == pq + r;
      var p, q :| p in a && q in b && pq == p + q;
      BothHas(b, c, q, r);
      BothHas(a, Both(b, c), p, q + r);
      assert x == p + (q + r);
    }
    forall x | x in Both(a, Both(b, c)) ensures x in Both(Both(a, b), c) {
      var p, qr :| p in a && qr in Both(b, c) && x == p + qr;
      var q, r :| q in b && r in c && qr == q + r;
      BothHas(a, b, p, q);
      BothHas(Both(a, b), c, p + q, r);
      assert x == (p + q) + r;
    }
  }

  lemma BothParts(a: set<Path>, b: set<Path>, x: Path) returns (p: Path, q: Path)
    requires x in Both(a, b)
    ensures p in a && q in b && x == p + q
  {
    p, q :| p in a && q in b && x == p + q;
  }

  lemma BothNeutral(a: set<Path>)
    ensures Both({[]}, a) == a && Both(a, {[]}) == a
  {
    hide Both;
    forall x: Path ensures (x in Both({[]}, a) <==> x in a) && (x in Both(a, {[]}) <==> x in a) {
      assert [] + x == x && x + [] == x;
      if x in a {
        BothHas({[]}, a, [], x);
        BothHas(a, {[]}, x, []);
      }
      if x in Both({[]}, a) {
        var p, q := BothParts({[]}, a, x);
        assert x == q;
      }
      if x in Both(a, {[]}) {
        var p, q := BothParts(a, {[]}, x);
        assert x == p;
      }
    }
  }

  lemma BothUnion(a: set<Path>, b: set<Path>, c: set<Path>)
    ensures Both(a + b, c) == Both(a, c) + Both(b, c) && Both(c, a + b) == Both(c, a) + Both(c, b)
  {
  }

  lemma BothOne(p: Path, q: Path)
    ensures Both({p}, {q}) == {p + q}
  {
  }

  // ---------- The ways through code ----------

  function Ways(cs: seq<Code>): set<Path>
    decreases cs
  {
    if cs == [] then {[]} else Both(WaysThrough(cs[0]), Ways(cs[1..]))
  }

  /** A branch with nothing in either arm is no branch. */
  function WaysThrough(c: Code): set<Path>
    decreases c, 0
  {
    match c
    case Simple(s) => {[s]}
    case ITE(cond, t, e) =>
      if t == [] && e == [] then {[]} else Both({[If(cond)]}, Ways(t)) + Both({[If(Negated(cond))]}, Ways(e))
  }

  function SetOf(paths: seq<Path>): set<Path> {
    set p | p in paths
  }

  lemma SetOfConcat(a: seq<Path>, b: seq<Path>)
    ensures SetOf(a + b) == SetOf(a) + SetOf(b)
  {
  }

  lemma SetOfPrefixed(p: Path, paths: seq<Path>)
    ensures SetOf(Prefixed(p, paths)) == Both({p}, SetOf(paths))
  {
    forall x | x in Both({p}, SetOf(paths)) ensures x in SetOf(Prefixed(p, paths)) {
      var q :| q in paths && x == p + q;
      var i :| 0 <= i < |paths| && paths[i] == q;
      assert Prefixed(p, paths)[i] == x;
    }
    forall x | x in SetOf(Prefixed(p, paths)) ensures x in Both({p}, SetOf(paths)) {
      var i :| 0 <= i < |paths| && Prefixed(p, paths)[i] == x;
      BothHas({p}, SetOf(paths), p, paths[i]);
    }
  }

  lemma SetOfAppended(paths: seq<Path>, s: Stmt)
    ensures SetOf(AppendStmt(paths, s)) == Both(SetOf(OrEmptyPath(paths)), {[s]})
  {
    var olds := OrEmptyPath(paths);
    assert [] + [s] == [s];
    assert |AppendStmt(paths, s)| == |olds| && forall i :: 0 <= i < |olds| ==> AppendStmt(paths, s)[i] == olds[i] + [s];
    forall x | x in Both(SetOf(olds), {[s]}) ensures x in SetOf(AppendStmt(paths, s)) {
      var q :| q in olds && x == q + [s];
      var i :| 0 <= i < |olds| && olds[i] == q;
      assert AppendStmt(paths, s)[i] == x;
    }
    forall x | x in SetOf(AppendStmt(paths, s)) ensures x in Both(SetOf(olds), {[s]}) {
      var i :| 0 <= i < |olds| && AppendStmt(paths, s)[i] == x;
      BothHas(SetOf(olds), {[s]}, olds[i], [s]);
    }
  }

  lemma {:induction false} SetOfCross(olds: seq<Path>, arms: seq<Path>)
    ensures SetOf(Cross(olds, arms)) == Both(SetOf(olds), SetOf(arms))
    decreases |olds|
  {
    hide Both, Prefixed;
    if olds == [] {
      assert SetOf(Cross(olds, arms)) == {} == SetOf(olds);
      NothingFirst(SetOf(arms));
    } else {
      var init, last := olds[..|olds| - 1], olds[|olds| - 1];
      SetOfCross(init, arms);
      SetOfPrefixed(last, arms);
      SetOfConcat(Cross(init, arms), Prefixed(last, arms));
      assert olds == init + [last];
      assert SetOf(olds) == SetOf(init) + {last};
      BothUnion(SetOf(init), {last}, SetOf(arms));
    }
  }

  lemma NothingFirst(a: set<Path>)
    ensures Both({}, a) == {}
  {
  }

  lemma {:induction false} ExtendWays(paths: seq<Path>, c: Code)
    ensures SetOf(OrEmptyPath(Extend(paths, c))) == Both(SetOf(OrEmptyPath(paths)), WaysThrough(c))
    decreases c, 0
  {
    hide Both, Cross, Prefixed, SetOf, Ways;
    match c
    case Simple(s) => SetOfAppended(paths, s);
    case ITE(cond, t, e) =>
      if t == [] && e == [] {
        BothNeutral(SetOf(OrEmptyPath(paths)));
      } else {
        var yes, no := OrEmptyPath(ExtendAll([], t)), OrEmptyPath(ExtendAll([], e));
        ArmWays(t);
        ArmWays(e);
        SetOfPrefixed([If(cond)], yes);
        SetOfPrefixed([If(Negated(cond))], no);
        SetOfConcat(Prefixed([If(cond)], yes), Prefixed([If(Negated(cond))], no));
        SetOfCross(OrEmptyPath(paths), Arms(cond, ExtendAll([], t), ExtendAll([], e)));
        CrossedSome(OrEmptyPath(paths), cond, ExtendAll([], t), ExtendAll([], e));
      }
  }

  lemma {:induction false} ArmWays(cs: seq<Code>)
    ensures SetOf(OrEmptyPath(ExtendAll([], cs))) == Ways(cs)
    decreases cs, 2
  {
    hide *;
    ExtendAllWays([], cs);
    BothNeutral(Ways(cs));
    SetOfNone();
  }

  lemma SetOfNone()
    ensures SetOf(OrEmptyPath([])) == {[]}
  {
  }

  lemma CrossedSome(olds: seq<Path>, cond: Expr, ifPaths: seq<Path>, elsePaths: seq<Path>)
    requires olds != []
    ensures Cross(olds, Arms(cond, ifPaths, elsePaths)) != []
  {
    hide Negated;
    assert |Arms(cond, ifPaths, elsePaths)| > 0;
    assert |Prefixed(olds[|olds| - 1], Arms(cond, ifPaths, elsePaths))| > 0;
  }

  lemma {:induction false} ExtendAllWays(paths: seq<Path>, cs: seq<Code>)
    ensures SetOf(OrEmptyPath(ExtendAll(paths, cs))) == Both(SetOf(OrEmptyPath(paths)), Ways(cs))
    decreases cs, 1
  {
    hide Both, SetOf, Extend, OrEmptyPath;
    if cs == [] {
      BothNeutral(SetOf(OrEmptyPath(paths)));
    } else {
      ExtendWays(paths, cs[0]);
      ExtendAllWays(Extend(paths, cs[0]), cs[1..]);
      BothAssoc(SetOf(OrEmptyPath(paths)), WaysThrough(cs[0]), Ways(cs[1..]));
    }
  }

  /** The enumerated paths are the ways through the code, all of them and no others. */
  lemma PathsExact(cs: seq<Code>, p: Path)
    ensures p in OrEmptyPath(PathsOf(cs)) <==> p in Ways(cs)
  {
    ArmWays(cs);
    assert p in SetOf(OrEmptyPath(PathsOf(cs))) <==> p in OrEmptyPath(PathsOf(cs));
  }

  lemma {:induction false} WaysConcat(a: seq<Code>, b: seq<Code>)
    ensures Ways(a + b) == Both(Ways(a), Ways(b))
    decreases |a|
  {
    hide Both;
    if a == [] {
      assert a + b == b;
      BothNeutral(Ways(b));
    } else {
      assert (a + b)[1..] == a[1..] + b;
      WaysConcat(a[1..], b);
      BothAssoc(WaysThrough(a[0]), Ways(a[1..]), Ways(b));
    }
  }

  // ---------- Without the guards ----------

  /** What is done along a path. */
  function Deeds(p: Path): Path {
    if p == [] then [] else (if p[0].If? then [] else [p[0]]) + Deeds(p[1..])
  }

  lemma {:induction false} DeedsConcat(p: Path, q: Path)
    ensures Deeds(p + q) == Deeds(p) + Deeds(q)
    decreases |p|
  {
    if p == [] {
      assert p + q == q;
    } else {
      assert (p + q)[1..] == p[1..] + q;
      DeedsConcat(p[1..], q);
    }
  }

  lemma {:induction false} DeedsPlain(p: Path)
    requires forall i :: 0 <= i < |p| ==> !p[i].If?
    ensures Deeds(p) == p
  {
    if p != [] {
      DeedsPlain(p[1..]);
      assert p == [p[0]] + p[1..];
    }
  }

  function AllDeeds(a: set<Path>): set<Path> {
    set p | p in a :: Deeds(p)
  }

  lemma DeedsHas(a: set<Path>, p: Path)
    requires p in a
    ensures Deeds(p) in AllDeeds(a)
  {
  }

  lemma DeedsBoth(a: set<Path>, b: set<Path>)
    ensures AllDeeds(Both(a, b)) == Both(AllDeeds(a), AllDeeds(b))
  {
    hide Deeds;
    forall x | x in AllDeeds(Both(a, b)) ensures x in Both(AllDeeds(a), AllDeeds(b)) {
      var pq :| pq in Both(a, b) && x == Deeds(pq);
      var p, q :| p in a && q in b && pq == p + q;
      DeedsConcat(p, q);
      DeedsHas(a, p);
      DeedsHas(b, q);
      BothHas(AllDeeds(a), AllDeeds(b), Deeds(p), Deeds(q));
    }
    forall x | x in Both(AllDeeds(a), AllDeeds(b)) ensures x in AllDeeds(Both(a, b)) {
      var d, e :| d in AllDeeds(a) && e in AllDeeds(b) && x == d + e;
      var p :| p in a && d == Deeds(p);
      var q :| q in b && e == Deeds(q);
      DeedsConcat(p, q);
      BothHas(a, b, p, q);
      DeedsHas(Both(a, b), p + q);
    }
  }

  lemma DeedsUnion(a: set<Path>, b: set<Path>)
    ensures AllDeeds(a + b) == AllDeeds(a) + AllDeeds(b)
  {
    hide Deeds;
  }

  lemma OneDeed(p: Path)
    ensures AllDeeds({p}) == {Deeds(p)}
  {
    hide Deeds;
  }

  lemma GuardDeeds(cond: Expr, a: set<Path>)
    ensures AllDeeds(Both({[If(cond)]}, a)) == AllDeeds(a)
  {
    assert [If(cond)][1..] == [];
    assert Deeds([If(cond)]) == [];
    OneDeed([If(cond)]);
    DeedsBoth({[If(cond)]}, a);
    BothNeutral(AllDeeds(a));
  }

  /** A branch does what either arm does. */
  lemma BranchDeeds(cond: Expr, t: seq<Code>, e: seq<Code>)
    ensures AllDeeds(Ways([ITE(cond, t, e)])) == AllDeeds(Ways(t)) + AllDeeds(Ways(e))
  {
    var c := ITE(cond, t, e);
    OneWay(c);
    hide Both, AllDeeds, Negated;
    if t == [] && e == [] {
      assert Ways(t) + Ways(e) == WaysThrough(c);
      DeedsUnion(Ways(t), Ways(e));
    } else {
      GuardDeeds(cond, Ways(t));
      GuardDeeds(Negated(cond), Ways(e));
      DeedsUnion(Both({[If(cond)]}, Ways(t)), Both({[If(Negated(cond))]}, Ways(e)));
    }
  }

  lemma OneWay(c: Code)
    ensures Ways([c]) == WaysThrough(c)
  {
    assert [c][1..] == [];
    BothNeutral(WaysThrough(c));
    hide Both, WaysThrough;
  }

  lemma {:induction false} SimplesWays(stmts: seq<Stmt>)
    ensures Ways(Simples(stmts)) == {stmts}
    decreases |stmts|
  {
    if stmts != [] {
      assert Simples(stmts)[1..] == Simples(stmts[1..]);
      SimplesWays(stmts[1..]);
      BothOne([stmts[0]], stmts[1..]);
      assert [stmts[0]] + stmts[1..] == stmts;
    }
  }

  // ---------- The walks of a graph ----------

  /** What is done along the walks from n to stop, on whichever arm. */
  ghost function Walks(g: Graph, rank: map<int, nat>, n: int, stop: int): set<Path>
    requires Dag(g, rank) && n in g
    decreases rank[n]
  {
    if n == stop || n == TERMINAL then {[]}
    else if g[n].branch.None? then Both({g[n].stmts}, Walks(g, rank, g[n].succ[0], stop))
    else Both({g[n].stmts}, Walks(g, rank, g[n].succ[0], stop) + Walks(g, rank, g[n].succ[1], stop))
  }

  /** The walks to e that first reach m are those to m, each followed by those from m. */
  lemma {:induction false} WalksCut(g: Graph, rank: map<int, nat>, n: int, m: int, e: int)
    requires Dag(g, rank) && n in g && m in g && AllPass(g, rank, n, m) && e !in Before(g, rank, n, m)
    ensures Walks(g, rank, n, e) == Both(Walks(g, rank, n, m), Walks(g, rank, m, e))
    decreases rank[n]
  {
    hide Both;
    var after := Walks(g, rank, m, e);
    if n == m {
      BothNeutral(after);
    } else {
      var t := g[n].succ[0];
      WalksCut(g, rank, t, m, e);
      if g[n].branch.None? {
        BothAssoc({g[n].stmts}, Walks(g, rank, t, m), after);
      } else {
        var f := g[n].succ[1];
        WalksCut(g, rank, f, m, e);
        BothUnion(Walks(g, rank, t, m), Walks(g, rank, f, m), after);
        BothAssoc({g[n].stmts}, Walks(g, rank, t, m) + Walks(g, rank, f, m), after);
      }
    }
  }

  lemma {:induction false} StraightDeeds(stmts: seq<Stmt>, rest: seq<Code>)
    requires forall i :: 0 <= i < |stmts| ==> !stmts[i].If?
    ensures AllDeeds(Ways(Simples(stmts) + rest)) == Both({stmts}, AllDeeds(Ways(rest)))
  {
    hide Both, AllDeeds, Ways;
    WaysConcat(Simples(stmts), rest);
    SimplesWays(stmts);
    DeedsBoth({stmts}, Ways(rest));
    OneDeed(stmts);
    DeedsPlain(stmts);
  }

  /** What is done along the ways through a segment is what is done along the walks of the graph. */
  lemma {:induction false} SegmentWays(g: Graph, rank: map<int, nat>, startEnd: map<int, int>, pathNodes: map<int, set<int>>,
                                       n: int, end: int, allowed: set<int>)
    requires Tables(g, rank, startEnd, pathNodes) && n in g && end in g
    requires AllPass(g, rank, n, end) && Leftmost(g, rank, n, end) <= allowed
    ensures AllDeeds(Ways(Segment(g, rank, startEnd, pathNodes, n, end, allowed))) == Walks(g, rank, n, end)
    decreases rank[n]
  {
    hide Both, Simples, AllDeeds;
    if n == end {
      NoDeeds();
    } else if g[n].branch.None? {
      SegmentWays(g, rank, startEnd, pathNodes, g[n].succ[0], end, allowed);
      StraightDeeds(g[n].stmts, Segment(g, rank, startEnd, pathNodes, g[n].succ[0], end, allowed));
    } else {
      BranchWays(g, rank, startEnd, pathNodes, n, end, allowed);
    }
  }

  lemma NoDeeds()
    ensures AllDeeds(Ways([])) == {[]}
  {
    OneDeed([]);
  }

  lemma {:induction false} BranchWays(g: Graph, rank: map<int, nat>, startEnd: map<int, int>, pathNodes: map<int, set<int>>,
                                      n: int, end: int, allowed: set<int>)
    requires Tables(g, rank, startEnd, pathNodes) && IsBranch(g, n) && end in g && n != end
    requires AllPass(g, rank, n, end) && Leftmost(g, rank, n, end) <= allowed
    ensures AllDeeds(Ways(Segment(g, rank, startEnd, pathNodes, n, end, allowed))) == Walks(g, rank, n, end)
    decreases rank[n], 0
  {
    var m, t, f := startEnd[n], g[n].succ[0], g[n].succ[1];
    BranchMeets(g, rank, n, m);
    NotInArms(g, rank, n, m, end);
    PassOn(g, rank, t, m, end);
    LeftmostReaches(g, rank, t, m, end);
    SegmentWays(g, rank, startEnd, pathNodes, t, m, pathNodes[n]);
    SegmentWays(g, rank, startEnd, pathNodes, f, m, pathNodes[n]);
    SegmentWays(g, rank, startEnd, pathNodes, m, end, allowed);
    WalksCut(g, rank, t, m, end);
    WalksCut(g, rank, f, m, end);
    NoDeeds();
    var yes := Segment(g, rank, startEnd, pathNodes, t, m, pathNodes[n]);
    var no := Segment(g, rank, startEnd, pathNodes, f, m, pathNodes[n]);
    var rest := if m == end then [] else Segment(g, rank, startEnd, pathNodes, m, end, allowed);
    var cond, stmts := g[n].branch.value, g[n].stmts;
    assert AllDeeds(Ways(rest)) == Walks(g, rank, m, end);
    assert Segment(g, rank, startEnd, pathNodes, n, end, allowed) == Simples(stmts) + [ITE(cond, yes, no)] + rest;
    assert Walks(g, rank, n, end) == Both({stmts}, Walks(g, rank, t, end) + Walks(g, rank, f, end));
    hide *;
    BothUnion(Walks(g, rank, t, m), Walks(g, rank, f, m), Walks(g, rank, m, end));
    BranchThen(stmts, cond, yes, no, rest);
  }

  lemma BranchThen(stmts: seq<Stmt>, cond: Expr, yes: seq<Code>, no: seq<Code>, rest: seq<Code>)
    requires forall i :: 0 <= i < |stmts| ==> !stmts[i].If?
    ensures AllDeeds(Ways(Simples(stmts) + [ITE(cond, yes, no)] + rest)) ==
      Both({stmts}, Both(AllDeeds(Ways(yes)) + AllDeeds(Ways(no)), AllDeeds(Ways(rest))))
  {
    hide *;
    var ite := [ITE(cond, yes, no)];
    StraightDeeds(stmts, ite + rest);
    assert Simples(stmts) + ite + rest == Simples(stmts) + (ite + rest);
    WaysConcat(ite, rest);
    DeedsBoth(Ways(ite), Ways(rest));
    BranchDeeds(cond, yes, no);
  }

  /** What is done along the ways through a decompiled body is what is done along the walks to the terminal block. */
  lemma {:induction false} DecompiledWays(g: Graph, rank: map<int, nat>, startEnd: map<int, int>, pathNodes: map<int, set<int>>,
                                          n: int)
    requires Tables(g, rank, startEnd, pathNodes) && n in g
    ensures AllDeeds(Ways(Segment(g, rank, startEnd, pathNodes, n, TERMINAL, g.Keys))) == Walks(g, rank, n, TERMINAL)
  {
    AllPassTerminal(g, rank, n);
    forall x | x in Leftmost(g, rank, n, TERMINAL) ensures x in g { LeftmostRank(g, rank, n, TERMINAL, x); }
    SegmentWays(g, rank, startEnd, pathNodes, n, TERMINAL, g.Keys);
  }
}
