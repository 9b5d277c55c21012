/** Builds all operations of a module with slave ports, in the imperative form of the tool. */
module CreateOperationsSlave {
  import opened Ir
  import opened Statements
  import opened Operations
  import opened SlaveExpansion
  import opened SlaveMeaning

  // ---------- The expanded paths ----------

  /** The path of reset is left as it is. */
  function ExtendOne(p: seq<Node>, next: int): seq<seq<Node>> {
    if p != [] && p[0].stmt.None? then [p] else Expansions(p, ElseIds(p, |p|, next))
  }

  /** The node counter when the path at position n is reached. */
  function NextAt(raw: seq<seq<Node>>, n: nat, next: int): int
    requires n <= |raw|
  {
    if n == 0 then next
    else
      var p := raw[n - 1];
      NextAt(raw, n - 1, next) + if p != [] && p[0].stmt.None? then 0 else 3 * CountReads(p, |p|)
  }

  function Extended(raw: seq<seq<Node>>, n: nat, next: int): seq<seq<Node>>
    requires n <= |raw|
  {
    if n == 0 then [] else Extended(raw, n - 1, next) + ExtendOne(raw[n - 1], NextAt(raw, n - 1, next))
  }

  /** The expanded path at position a comes from raw path i. */
  lemma {:induction false} ExtendedSource(raw: seq<seq<Node>>, n: nat, next: int, a: nat) returns (i: nat, j: nat)
    requires n <= |raw| && a < |Extended(raw, n, next)|
    ensures i < n && j < |ExtendOne(raw[i], NextAt(raw, i, next))|
    ensures Extended(raw, n, next)[a] == ExtendOne(raw[i], NextAt(raw, i, next))[j] && a == |Extended(raw, i, next)| + j
    decreases n
  {
    hide ExtendOne, NextAt;
    if a < |Extended(raw, n - 1, next)| {
      i, j := ExtendedSource(raw, n - 1, next, a);
    } else {
      i, j := n - 1, a - |Extended(raw, n - 1, next)|;
    }
  }

  lemma {:induction false} ExtendedGrows(raw: seq<seq<Node>>, i: nat, n: nat, next: int)
    requires i < n <= |raw|
    ensures |Extended(raw, i, next)| + |ExtendOne(raw[i], NextAt(raw, i, next))| <= |Extended(raw, n, next)|
    decreases n
  {
    hide ExtendOne, NextAt;
    if i < n - 1 { ExtendedGrows(raw, i, n - 1, next); }
  }

  /** The paths the tool is given: reset paths or slave paths, pairwise parting, with ids below the node counter. */
  ghost predicate RawOk(raw: seq<seq<Node>>, next: int) {
    && PathsPart(raw)
    && (forall i :: 0 <= i < |raw| && raw[i][0].stmt.Some? ==> SlavePath(raw[i]))
    && forall i, k :: 0 <= i < |raw| && 0 <= k < |raw[i]| ==> raw[i][k].id < next
  }

  lemma {:induction false} NextGrows(raw: seq<seq<Node>>, n: nat, next: int)
    requires n <= |raw|
    ensures NextAt(raw, n, next) >= next
    decreases n
  {
    if n > 0 { NextGrows(raw, n - 1, next); }
  }

  lemma {:induction false} ElseIdsFresh(p: seq<Node>, n: nat, next: int)
    requires n <= |p| && forall k :: 0 <= k < |p| ==> p[k].id < next
    ensures forall x :: x in ElseIds(p, n, next) ==> ElseIds(p, n, next)[x] != x.id + 1
    decreases n
  {
    hide IsSlaveRead, CountReads;
    if n > 0 {
      ElseIdsFresh(p, n - 1, next);
      assert p[n - 1].id < next;
    }
  }

  lemma FreshAt(raw: seq<seq<Node>>, i: nat, next: int)
    requires RawOk(raw, next) && i < |raw|
    ensures Fresh(ElseIds(raw[i], |raw[i]|, NextAt(raw, i, next)), raw[i])
  {
    hide DivergeAt, SlavePath, RawPath;
    NextGrows(raw, i, next);
    ElseIdsFresh(raw[i], |raw[i]|, NextAt(raw, i, next));
    assert raw[i][..|raw[i]|] == raw[i];
  }

  /** An expanded path starts in the state its raw path starts in. */
  lemma StartKept(p: seq<Node>, ids: map<Node, int>, j: nat)
    requires SlavePath(p) && Covers(ids, p) && j < |Expansions(p, ids)|
    ensures Expansions(p, ids)[j] != [] && Expansions(p, ids)[j][0] == p[0]
  {
    AcceptedAtStart(p);
    ExpandAt(p, 0, ids, AbsentOf(Distinct(p, |p|), j));
    var e := Expansion(p, ids, j);
    assert ([] + Replace(p[0], ids, AbsentOf(Distinct(p, |p|), j)))[0] == p[0];
  }

  lemma AcceptedAtStart(p: seq<Node>)
    requires SlavePath(p)
    ensures !IsSlaveRead(p[0])
  {
    if p[0].stmt.Some? { AcceptedAt(p, 0); }
  }

  /** The one kind of operation a slave module has. */
  function SlavePlan(p: seq<Node>): Plan { Plan(p, SlaveOp) }

  function SlavePlans(paths: seq<seq<Node>>): seq<Plan> {
    seq(|paths|, i requires 0 <= i < |paths| => SlavePlan(paths[i]))
  }

  lemma SlavePlansMore(paths: seq<seq<Node>>, p: seq<Node>)
    ensures SlavePlans(paths + [p]) == SlavePlans(paths) + [SlavePlan(p)]
  {
  }

  lemma ExpansionsExclusive(raw: seq<seq<Node>>, next: int, i: nat, j: nat, i': nat, j': nat)
    requires RawOk(raw, next) && i <= i' < |raw| && raw[i][0] == raw[i'][0] && raw[i][0].stmt.Some?
    requires j < |ExtendOne(raw[i], NextAt(raw, i, next))| && j' < |ExtendOne(raw[i'], NextAt(raw, i', next))|
    requires i < i' || j < j'
    ensures Exclusive(SlavePlan(ExtendOne(raw[i], NextAt(raw, i, next))[j]), SlavePlan(ExtendOne(raw[i'], NextAt(raw, i', next))[j']))
  {
    hide Enabled, StatementsOf, NextAt, ElseIds, DivergeAt;
    FreshAt(raw, i, next);
    FreshAt(raw, i', next);
    var p, q := raw[i], raw[i'];
    var ids, ids' := ElseIds(p, |p|, NextAt(raw, i, next)), ElseIds(q, |q|, NextAt(raw, i', next));
    var x, y := Expansions(p, ids)[j], Expansions(q, ids')[j'];
    forall start: bool, start': bool, env: Env
      ensures !(Enabled(StatementsOf(x, start, SlaveOp), SlaveOp, env) && Enabled(StatementsOf(y, start', SlaveOp), SlaveOp, env))
    {
      ExpansionsExclude(p, ids, j, start, q, ids', j', start', env);
    }
  }

  /** Operations of a slave module are deterministic: two of one state are never enabled together. */
  lemma SlaveOperationsDeterministic(raw: seq<seq<Node>>, next: int, a: nat, b: nat)
    requires RawOk(raw, next) && a < b < |Extended(raw, |raw|, next)|
    requires var x, y := Extended(raw, |raw|, next)[a], Extended(raw, |raw|, next)[b]; x != [] && y != [] && x[0] == y[0]
    ensures Exclusive(SlavePlan(Extended(raw, |raw|, next)[a]), SlavePlan(Extended(raw, |raw|, next)[b]))
  {
    hide Exclusive, NextAt, ElseIds, SlavePath, DivergeAt;
    var i, j := ExtendedSource(raw, |raw|, next, a);
    var i', j' := ExtendedSource(raw, |raw|, next, b);
    if i' < i { ExtendedGrows(raw, i', i, next); }
    assert i < i' || (i == i' && j < j');
    StartOf(raw, next, i, j);
    StartOf(raw, next, i', j');
    if raw[i][0].stmt.None? {
      RawExclusive(raw, i, i');
    } else {
      ExpansionsExclusive(raw, next, i, j, i', j');
    }
  }

  lemma StartOf(raw: seq<seq<Node>>, next: int, i: nat, j: nat)
    requires RawOk(raw, next) && i < |raw| && j < |ExtendOne(raw[i], NextAt(raw, i, next))|
    ensures ExtendOne(raw[i], NextAt(raw, i, next))[j] != [] && ExtendOne(raw[i], NextAt(raw, i, next))[j][0] == raw[i][0]
  {
    hide NextAt, ElseIds, SlavePath, DivergeAt, Fresh, Expansions;
    if raw[i][0].stmt.Some? {
      FreshAt(raw, i, next);
      var ids := ElseIds(raw[i], |raw[i]|, NextAt(raw, i, next));
      assert Covers(ids, raw[i]) by { FreshCovers(ids, raw[i]); }
      StartKept(raw[i], ids, j);
    }
  }

  /** Expanding gives raw paths again. */
  lemma ExtendedRaw(raw: seq<seq<Node>>, next: int, a: nat)
    requires RawOk(raw, next) && a < |Extended(raw, |raw|, next)|
    ensures RawPath(Extended(raw, |raw|, next)[a])
  {
    hide RawPath, SlavePath, DivergeAt, ElseIds, NextAt, Extended, Fresh;
    var i, j := ExtendedSource(raw, |raw|, next, a);
    var p, ids := raw[i], ElseIds(raw[i], |raw[i]|, NextAt(raw, i, next));
    RawNonEmpty(p);
    if p[0].stmt.Some? {
      FreshAt(raw, i, next);
      FreshCovers(ids, p);
      ExpandRaw(p, ids, AbsentOf(Distinct(p, |p|), j));
    }
  }

  lemma RawNonEmpty(p: seq<Node>)
    requires RawPath(p)
    ensures p != []
  {
  }

  /** Raw paths that part, as they are. */
  lemma RawExclusive(raw: seq<seq<Node>>, i: nat, i': nat)
    requires PathsPart(raw) && i < i' < |raw| && raw[i][0] == raw[i'][0]
    ensures Exclusive(SlavePlan(raw[i]), SlavePlan(raw[i']))
  {
    hide Enabled, StatementsOf;
    var k: nat :| DivergeAt(raw[i], raw[i'], k);
    forall start: bool, start': bool, env: Env
      ensures !(Enabled(StatementsOf(raw[i], start, SlaveOp), SlaveOp, env)
             && Enabled(StatementsOf(raw[i'], start', SlaveOp), SlaveOp, env))
    {
      DivergingExclude(raw[i], raw[i'], k, start, start', SlaveOp, env);
    }
  }

  /** The paths operations are made from: the raw ones, or their expansions in a module with slave-in ports. */
  function PathsOf(raw: seq<seq<Node>>, hasSlaveIns: bool, next: int): seq<seq<Node>> {
    if hasSlaveIns then Extended(raw, |raw|, next) else raw
  }

  /** A path the builder takes: no return, no communication at its end, and none at its start that is not replaced. */
  predicate RawAllowed(p: seq<Node>, hasSlaveIns: bool)
    requires p != []
  {
    ReturnFree(p) && !Communicates(p[|p| - 1]) && (Communicates(p[0]) ==> hasSlaveIns && IsSlaveRead(p[0]))
  }

  lemma {:induction false} ExpandNoReturn(p: seq<Node>, n: nat, ids: map<Node, int>, absent: set<Node>)
    requires n <= |p| && Covers(ids, p)
    ensures ReturnFree(Expand(p, n, ids, absent)) <==> ReturnFree(p[..n])
    decreases n
  {
    if n > 0 {
      ExpandNoReturn(p, n - 1, ids, absent);
      ReplaceNoReturn(p[n - 1], ids, absent);
      assert p[..n] == p[..n - 1] + [p[n - 1]];
      NoReturnConcat(p[..n - 1], [p[n - 1]]);
      NoReturnConcat(Expand(p, n - 1, ids, absent), Replace(p[n - 1], ids, absent));
    }
  }

  lemma NoReturnConcat(a: seq<Node>, b: seq<Node>)
    ensures ReturnFree(a + b) <==> ReturnFree(a) && ReturnFree(b)
  {
    assert forall k :: 0 <= k < |b| ==> (a + b)[|a| + k] == b[k];
    if ReturnFree(a + b) {
      assert forall k :: 0 <= k < |a| ==> (a + b)[k] == a[k];
    }
  }

  lemma ReplaceNoReturn(n: Node, ids: map<Node, int>, absent: set<Node>)
    requires IsSlaveRead(n) ==> n in ids
    ensures ReturnFree(Replace(n, ids, absent)) <==> ReturnFree([n])
  {
    var r := Replace(n, ids, absent);
    if !IsSlaveRead(n) { assert r == [n]; }
  }

  /** Both ends of an expanded path. */
  lemma ExpandEnds(p: seq<Node>, ids: map<Node, int>, absent: set<Node>)
    requires |p| >= 2 && Covers(ids, p)
    ensures var e := Expand(p, |p|, ids, absent);
      && |e| >= 2
      && (Communicates(e[0]) <==> Communicates(p[0]) && !IsSlaveRead(p[0]))
      && (Communicates(e[|e| - 1]) <==> Communicates(p[|p| - 1]) && (IsSlaveRead(p[|p| - 1]) ==> p[|p| - 1] !in absent))
  {
    var e, last := Expand(p, |p|, ids, absent), Replace(p[|p| - 1], ids, absent);
    ExpandAt(p, 0, ids, absent);
    ExpandPrefix(p, 0, |p|, ids, absent);
    ExpandAt(p, |p| - 1, ids, absent);
    ReplaceLength(p[|p| - 1], ids, absent);
    hide Expand;
    var first := Replace(p[0], ids, absent);
    assert ([] + first)[0] == first[0];
    var before := Expand(p, |p| - 1, ids, absent);
    assert (before + last)[|before| + |last| - 1] == last[|last| - 1];
  }

  predicate AllAccepted(paths: seq<seq<Node>>) {
    forall j :: 0 <= j < |paths| ==> Accepted(paths[j], SlaveOp)
  }

  predicate FirstAllowed(raw: seq<seq<Node>>, n: nat)
    requires n <= |raw| && forall i :: 0 <= i < |raw| ==> |raw[i]| >= 2
  {
    forall i :: 0 <= i < n ==> RawAllowed(raw[i], true)
  }

  /** All expansions of a path are taken exactly when the path is allowed. */
  lemma ExpansionsAllowed(p: seq<Node>, ids: map<Node, int>)
    requires |p| >= 2 && Covers(ids, p)
    ensures AllAccepted(Expansions(p, ids)) <==> RawAllowed(p, true)
  {
    hide Expand, AbsentOf, Distinct, Pow2, Accepted, ReturnFree, Communicates;
    assert p[..|p|] == p;
    forall j | 0 <= j < |Expansions(p, ids)|
      ensures Accepted(Expansions(p, ids)[j], SlaveOp) <==>
        && ReturnFree(p) && !(Communicates(p[0]) && !IsSlaveRead(p[0]))
        && !(Communicates(p[|p| - 1]) && (IsSlaveRead(p[|p| - 1]) ==> p[|p| - 1] !in AbsentOf(Distinct(p, |p|), j)))
    {
      var absent := AbsentOf(Distinct(p, |p|), j);
      ExpandNoReturn(p, |p|, ids, absent);
      ExpandEnds(p, ids, absent);
      AcceptedExact(Expand(p, |p|, ids, absent), SlaveOp);
    }
    Builder.RoundZero(Distinct(p, |p|));
    assert |Expansions(p, ids)| > 0;
    if AllAccepted(Expansions(p, ids)) {
      assert Accepted(Expansions(p, ids)[0], SlaveOp);
    }
  }

  lemma OneAllowed(p: seq<Node>, next: int)
    requires |p| >= 2
    ensures AllAccepted(ExtendOne(p, next)) <==> RawAllowed(p, true)
  {
    if p[0].stmt.None? {
      AcceptedExact(p, SlaveOp);
      assert !Communicates(p[0]);
      hide Accepted, ReturnFree, Communicates;
      var one := ExtendOne(p, next);
      assert one == [p] && (Accepted(one[0], SlaveOp) <==> Accepted(p, SlaveOp));
    } else {
      Builder.IdsCover(p, next);
      assert ExtendOne(p, next) == Expansions(p, ElseIds(p, |p|, next));
      hide AllAccepted, RawAllowed, ElseIds, Expansions, ExtendOne;
      ExpansionsAllowed(p, ElseIds(p, |p|, next));
    }
  }

  lemma {:induction false} ExtendedAllowed(raw: seq<seq<Node>>, n: nat, next: int)
    requires n <= |raw| && forall i :: 0 <= i < |raw| ==> |raw[i]| >= 2
    ensures AllAccepted(Extended(raw, n, next)) <==> FirstAllowed(raw, n)
    decreases n
  {
    if n > 0 {
      hide *;
      ExtendedAllowed(raw, n - 1, next);
      OneAllowed(raw[n - 1], NextAt(raw, n - 1, next));
      AcceptedConcat(Extended(raw, n - 1, next), ExtendOne(raw[n - 1], NextAt(raw, n - 1, next)));
      OneMore(raw, n, next);
    }
  }

  lemma OneMore(raw: seq<seq<Node>>, n: nat, next: int)
    requires 0 < n <= |raw| && forall i :: 0 <= i < |raw| ==> |raw[i]| >= 2
    ensures Extended(raw, n, next) == Extended(raw, n - 1, next) + ExtendOne(raw[n - 1], NextAt(raw, n - 1, next))
    ensures FirstAllowed(raw, n) <==> FirstAllowed(raw, n - 1) && RawAllowed(raw[n - 1], true)
  {
    hide ExtendOne, NextAt, RawAllowed;
  }

  lemma AcceptedConcat(a: seq<seq<Node>>, b: seq<seq<Node>>)
    ensures AllAccepted(a + b) <==> AllAccepted(a) && AllAccepted(b)
  {
    hide Accepted;
    var c := a + b;
    if AllAccepted(c) {
      forall j | 0 <= j < |a| ensures Accepted(a[j], SlaveOp) { assert c[j] == a[j]; }
      forall j | 0 <= j < |b| ensures Accepted(b[j], SlaveOp) { assert c[|a| + j] == b[j]; }
    }
  }

  /** The builder throws exactly when some path holds a return or a communication where there may be none. */
  lemma ListAllowed(raw: seq<seq<Node>>, hasSlaveIns: bool, next: int)
    requires forall i :: 0 <= i < |raw| ==> |raw[i]| >= 2
    ensures (forall p :: p in PathsOf(raw, hasSlaveIns, next) ==> Accepted(p, SlaveOp)) <==>
      forall i :: 0 <= i < |raw| ==> RawAllowed(raw[i], hasSlaveIns)
  {
    if hasSlaveIns {
      ExtendedAllowed(raw, |raw|, next);
      hide Accepted, Extended, RawAllowed;
      var all := Extended(raw, |raw|, next);
      if forall p :: p in all ==> Accepted(p, SlaveOp) {
        assert forall j :: 0 <= j < |all| ==> all[j] in all;
      }
    } else {
      forall i | 0 <= i < |raw| ensures Accepted(raw[i], SlaveOp) <==> RawAllowed(raw[i], false) { AcceptedExact(raw[i], SlaveOp); }
      hide Accepted, RawAllowed;
      if forall p :: p in raw ==> Accepted(p, SlaveOp) {
        assert forall i :: 0 <= i < |raw| ==> raw[i] in raw;
      }
    }
  }

  lemma ListDeterministic(raw: seq<seq<Node>>, hasSlaveIns: bool, next: int, start: bool)
    requires if hasSlaveIns then RawOk(raw, next) else PathsPart(raw)
    ensures Deterministic(BuiltOf(SlavePlans(PathsOf(raw, hasSlaveIns, next)), start))
  {
    hide PathsPart, RawOk, Exclusive, BuiltOf, Extended;
    var paths := PathsOf(raw, hasSlaveIns, next);
    var plans := SlavePlans(paths);
    forall a, b | 0 <= a < b < |plans| && SameState(plans[a], plans[b]) ensures Exclusive(plans[a], plans[b]) {
      if hasSlaveIns { SlaveOperationsDeterministic(raw, next, a, b); } else { RawExclusive(raw, a, b); }
    }
    BuiltDeterministic(plans, start);
  }

  // ---------- The builder ----------

  class Builder {
    var rawOperationsExtended: seq<seq<Node>>
    var nextId: int
    var firstStatement: bool
    var lastStatement: bool
    var condition: bool
    var statementsList: seq<Stmt>
    var operationsList: seq<Built>

    constructor (next: int)
      ensures rawOperationsExtended == [] && operationsList == [] && nextId == next && !firstStatement && !lastStatement
    {
      rawOperationsExtended, operationsList, statementsList, nextId := [], [], [], next;
      firstStatement, lastStatement, condition := false, false, false;
    }

    /** The replacement nodes of the slave reads of a path; every read met uses three ids. */
    method MakeNodes(p: seq<Node>) returns (slaveInExtension: map<Node, int>, visited: map<Node, bool>)
      modifies this`nextId
      ensures slaveInExtension == ElseIds(p, |p|, old(nextId)) && nextId == old(nextId) + 3 * CountReads(p, |p|)
      ensures visited.Keys == slaveInExtension.Keys
    {
      hide IsSlaveRead;
      slaveInExtension, visited := map[], map[];
      for i := 0 to |p|
        invariant slaveInExtension == ElseIds(p, i, old(nextId)) && nextId == old(nextId) + 3 * CountReads(p, i)
        invariant visited.Keys == slaveInExtension.Keys
      {
        if IsSlaveRead(p[i]) {
          if p[i] !in slaveInExtension {
            slaveInExtension := slaveInExtension[p[i] := nextId + 2];
          }
          if p[i] !in visited {
            visited := visited[p[i] := false];
          }
          nextId := nextId + 3;
        }
      }
    }

    /** The stack and the visited marks agree with a set of reads that take their else branch. */
    static ghost predicate Marks(stack: seq<Node>, visited: map<Node, bool>, absent: set<Node>) {
      forall x :: x in stack ==> x in visited && (visited[x] <==> x in absent)
    }

    static ghost function Longer(a: seq<Node>, b: seq<Node>): seq<Node> {
      if |b| <= |a| then a else b
    }

    /** One round over the path: pushes reads it has not met, and emits the path along the current branches. */
    method Pass(p: seq<Node>, ids: map<Node, int>, stack0: seq<Node>, visited0: map<Node, bool>, ghost absent: set<Node>)
        returns (stack: seq<Node>, visited: map<Node, bool>)
      requires Covers(ids, p) && visited0.Keys == ids.Keys
      requires stack0 <= Distinct(p, |p|) && Marks(stack0, visited0, absent) && forall x :: x in absent ==> x in stack0
      modifies this`rawOperationsExtended
      ensures stack == Distinct(p, |p|) && visited.Keys == ids.Keys && Marks(stack, visited, absent)
      ensures rawOperationsExtended == old(rawOperationsExtended) + [Expand(p, |p|, ids, absent)]
    {
      var extended: seq<Node> := [];
      stack, visited := stack0, visited0;
      for i := 0 to |p|
        invariant extended == Expand(p, i, ids, absent) && rawOperationsExtended == old(rawOperationsExtended)
        invariant visited.Keys == ids.Keys && Marks(stack, visited, absent)
        invariant stack == Longer(stack0, Distinct(p, i)) && forall x :: x in stack0 ==> x in stack
      {
        assert Expand(p, i + 1, ids, absent) == Expand(p, i, ids, absent) + Replace(p[i], ids, absent);
        Met(p, i, stack0, stack);
        if IsSlaveRead(p[i]) {
          if p[i] !in stack {
            stack := stack + [p[i]];
            visited := visited[p[i] := false];
          }
          extended := extended + [SyncNode(p[i], ids[p[i]]), if visited[p[i]] then ElseNode(p[i], ids[p[i]]) else ReadNode(p[i])];
        } else {
          extended := extended + [p[i]];
        }
      }
      rawOperationsExtended := rawOperationsExtended + [extended];
    }

    /** A read that is not on the stack extends it to the next longer prefix of the distinct reads. */
    static lemma Met(p: seq<Node>, i: nat, stack0: seq<Node>, stack: seq<Node>)
      requires i < |p| && stack0 <= Distinct(p, |p|) && stack == Longer(stack0, Distinct(p, i))
      ensures Longer(stack0, Distinct(p, i + 1)) == if IsSlaveRead(p[i]) && p[i] !in stack then stack + [p[i]] else stack
    {
      hide IsSlaveRead;
      DistinctPrefix(p, i, |p|);
      DistinctPrefix(p, i + 1, |p|);
      DistinctFacts(p, i);
      MetCases(stack0, stack, Distinct(p, i), Distinct(p, i + 1), Distinct(p, |p|), p[i]);
    }

    /** c are the distinct reads so far, and c' those after x, among all of them, d. */
    static lemma MetCases(stack0: seq<Node>, stack: seq<Node>, c: seq<Node>, c': seq<Node>, d: seq<Node>, x: Node)
      requires stack0 <= d && c <= d && c' <= d && stack == Longer(stack0, c) && (c' == c || (c' == c + [x] && x !in c))
      ensures c' == c ==> Longer(stack0, c') == stack && (x in c ==> x in stack)
      ensures c' != c ==> Longer(stack0, c') == if x in stack then stack else stack + [x]
    {
      if c' == c {
        Ordered(c, stack, d);
      } else if |c| < |stack0| {
        Ordered(c', stack0, d);
      } else {
        Ordered(stack, c, d);
      }
    }

    static lemma Ordered(a: seq<Node>, b: seq<Node>, d: seq<Node>)
      requires a <= d && b <= d && |a| <= |b|
      ensures a <= b && forall x :: x in a ==> x in b
    {
      forall x | x in a ensures x in b { var k :| 0 <= k < |a| && a[k] == x; assert b[k] == x; }
    }

    /** Takes the reads whose both branches were visited from the stack, and turns to the other branch of the next. */
    static method Turn(d: seq<Node>, visited0: map<Node, bool>, ghost m: nat) returns (stack: seq<Node>, visited: map<Node, bool>)
      requires NoRepeats(d) && m < Pow2(|d|) && Marks(d, visited0, AbsentOf(d, m))
      ensures visited.Keys == visited0.Keys
      ensures stack == [] <==> m + 1 == Pow2(|d|)
      ensures stack != [] ==> stack <= d && Marks(stack, visited, AbsentOf(d, m + 1))
      ensures stack != [] ==> forall x :: x in AbsentOf(d, m + 1) ==> x in stack
    {
      hide AbsentOf, Pow2;
      stack, visited := d, visited0;
      while stack != [] && visited[stack[|stack| - 1]]
        invariant stack <= d
        invariant forall j :: |stack| <= j < |d| ==> d[j] in AbsentOf(d, m)
      {
        stack := stack[..|stack| - 1];
      }
      if stack != [] {
        Increment(d, m, |stack|);
        var top := stack[|stack| - 1];
        visited := visited[top := true];
        assert stack[..|stack| - 1] == d[..|stack| - 1];
        assert stack == stack[..|stack| - 1] + [top];
      } else {
        Exhausted(d, m);
      }
    }

    /** Appends the expansions of a path, one for each round of the stack loop. */
    method ExtendRawOperation(p: seq<Node>)
      modifies this`rawOperationsExtended, this`nextId
      ensures nextId == old(nextId) + 3 * CountReads(p, |p|)
      ensures Covers(ElseIds(p, |p|, old(nextId)), p)
      ensures rawOperationsExtended == old(rawOperationsExtended) + Expansions(p, ElseIds(p, |p|, old(nextId)))
    {
      hide AbsentOf, Distinct, ElseIds, IsSlaveRead, Pow2, NoRepeats;
      var ids, visited := MakeNodes(p);
      IdsCover(p, old(nextId));
      DistinctFacts(p, |p|);
      var stack: seq<Node> := [];
      ghost var d, m := Distinct(p, |p|), 0;
      RoundZero(d);
      var more := true;
      while more
        invariant visited.Keys == ids.Keys && nextId == old(nextId) + 3 * CountReads(p, |p|)
        invariant more <==> m < Pow2(|d|)
        invariant m <= Pow2(|d|)
        invariant rawOperationsExtended == old(rawOperationsExtended) + Expansions(p, ids)[..m]
        invariant more ==> stack <= d && Marks(stack, visited, AbsentOf(d, m))
        invariant more ==> forall x :: x in AbsentOf(d, m) ==> x in stack
        decreases Pow2(|d|) - m
      {
        stack, visited := Pass(p, ids, stack, visited, AbsentOf(d, m));
        assert Expansions(p, ids)[..m + 1] == Expansions(p, ids)[..m] + [Expansion(p, ids, m)];
        stack, visited := Turn(stack, visited, m);
        m := m + 1;
        more := stack != [];
      }
      assert Expansions(p, ids)[..m] == Expansions(p, ids);
    }

    static lemma RoundZero(d: seq<Node>)
      ensures Pow2(|d|) > 0 && AbsentOf(d, 0) == {}
      decreases |d|
    {
      if d != [] { RoundZero(d[..|d| - 1]); }
    }

    static lemma IdsCover(p: seq<Node>, next: int)
      ensures Covers(ElseIds(p, |p|, next), p)
    {
      assert p[..|p|] == p;
    }

    // ---------- Statement lists ----------

    ghost function CurrentPosition(): Position
      reads this
    {
      if firstStatement then First else if lastStatement then Last else Middle
    }

    method Visit(s: Stmt) returns (err: Option<Error>)
      modifies this`statementsList
      ensures err.Some? <==> Refused(s, CurrentPosition(), SlaveOp)
      ensures err.None? ==> statementsList == old(statementsList) + Emit(s, CurrentPosition(), condition, SlaveOp)
    {
      err := None;
      match s {
        case If(c) => statementsList := statementsList + [if condition then s else If(UnaryExpr(Not, c))];
        case While =>
        case Wait =>
        case Return(_) => return Some(NotAllowed);
        case _ =>
          if (s.Read? || s.Write?) && (firstStatement || lastStatement) {
            return Some(NotAllowed);
          }
          statementsList := statementsList + [s];
      }
    }

    /** One node before the last: sets the condition flag at a branching node, then visits the statement. */
    method VisitNode(p: seq<Node>, i: nat, ghost start: bool) returns (err: Option<Error>)
      requires i + 1 < |p| && firstStatement == (i == 0) && !lastStatement
      requires statementsList == EmitUpTo(p, i, start, SlaveOp) && AcceptedUpTo(p, i, SlaveOp)
      requires condition == if i == 0 then start else FlagAt(p, i - 1, start)
      modifies this`statementsList, this`condition
      ensures condition == FlagAt(p, i, start)
      ensures err.None? ==> statementsList == EmitUpTo(p, i + 1, start, SlaveOp)
      ensures err.None? <==> AcceptedUpTo(p, i + 1, SlaveOp)
    {
      hide Emit, Refused;
      err := None;
      if p[i].stmt.Some? {
        if |p[i].succ| > 1 {
          condition := p[i + 1].id == p[i].id + 1;
        }
        err := Visit(p[i].stmt.value);
      } else {
        assert statementsList == statementsList + [];
      }
    }

    method AddStatementsList(p: seq<Node>) returns (err: Option<Error>)
      requires RawPath(p) && !firstStatement && !lastStatement
      modifies this`statementsList, this`firstStatement, this`lastStatement, this`condition
      ensures err.None? ==> !firstStatement && !lastStatement && statementsList == StatementsOf(p, old(condition), SlaveOp)
      ensures err.None? ==> condition == FlagAfter(SlavePlan(p), old(condition))
      ensures err.None? <==> Accepted(p, SlaveOp)
      ensures err.None? <==> ReturnFree(p) && !Communicates(p[0]) && !Communicates(p[|p| - 1])
    {
      hide Emit, Refused;
      AcceptedExact(p, SlaveOp);
      statementsList := [];
      ghost var start := condition;
      firstStatement := true;
      for i := 0 to |p| - 1
        invariant firstStatement == (i == 0) && !lastStatement
        invariant statementsList == EmitUpTo(p, i, start, SlaveOp) && AcceptedUpTo(p, i, SlaveOp)
        invariant condition == if i == 0 then start else FlagAt(p, i - 1, start)
      {
        err := VisitNode(p, i, start);
        if err.Some? {
          if AcceptedUpTo(p, |p|, SlaveOp) { AcceptedStays(p, i + 1, |p|, SlaveOp); }
          return;
        }
        firstStatement := false;
      }
      lastStatement := true;
      err := Visit(p[|p| - 1].stmt.value);
      lastStatement := false;
    }

    /** An operation for every path, in order, each built with the flag the ones before it left. */
    ghost predicate ListOk(paths: seq<seq<Node>>, start: bool)
      reads this`operationsList, this`condition
    {
      operationsList == BuiltOf(SlavePlans(paths), start) && condition == FlagAfterAll(SlavePlans(paths), start)
    }

    method AddOperation(p: seq<Node>, ghost paths: seq<seq<Node>>, ghost start: bool) returns (err: Option<Error>)
      requires RawPath(p) && !firstStatement && !lastStatement && ListOk(paths, start)
      modifies this`statementsList, this`firstStatement, this`lastStatement, this`condition, this`operationsList
      ensures err.None? ==> !firstStatement && !lastStatement && ListOk(paths + [p], start)
      ensures err.None? <==> Accepted(p, SlaveOp)
    {
      SlavePlansMore(paths, p);
      hide StatementsOf, FlagAfter, SlavePlans, BuiltOf, FlagAfterAll, Accepted, ReturnFree, Communicates;
      BuiltMore(SlavePlans(paths), SlavePlan(p), start);
      err := AddStatementsList(p);
      if err.None? {
        operationsList := operationsList + [Built(SlavePlan(p), statementsList)];
      }
    }

    /** All expanded paths of a module that has slave-in ports. */
    method ExtendAll(raw: seq<seq<Node>>)
      requires (forall i :: 0 <= i < |raw| ==> raw[i] != []) && rawOperationsExtended == []
      modifies this`rawOperationsExtended, this`nextId
      ensures rawOperationsExtended == Extended(raw, |raw|, old(nextId))
    {
      hide Expansions, ElseIds;
      for i := 0 to |raw|
        invariant rawOperationsExtended == Extended(raw, i, old(nextId)) && nextId == NextAt(raw, i, old(nextId))
      {
        if raw[i][0].stmt.None? {
          rawOperationsExtended := rawOperationsExtended + [raw[i]];
        } else {
          ExtendRawOperation(raw[i]);
        }
      }
    }

    /**
     * All operations, in the order of the paths. If the raw paths part at branches, at most one operation is enabled at a
     * time in each state.
     */
    method Create(raw: seq<seq<Node>>, hasSlaveIns: bool) returns (err: Option<Error>)
      requires forall i :: 0 <= i < |raw| ==> raw[i] != []
      requires forall i :: 0 <= i < |PathsOf(raw, hasSlaveIns, nextId)| ==> RawPath(PathsOf(raw, hasSlaveIns, nextId)[i])
      requires rawOperationsExtended == [] && operationsList == [] && !firstStatement && !lastStatement
      modifies this
      ensures err.None? ==> operationsList == BuiltOf(SlavePlans(PathsOf(raw, hasSlaveIns, old(nextId))), old(condition))
      ensures err.None? && (if hasSlaveIns then RawOk(raw, old(nextId)) else PathsPart(raw)) ==> Deterministic(operationsList)
      ensures err.None? <==> forall p :: p in PathsOf(raw, hasSlaveIns, old(nextId)) ==> Accepted(p, SlaveOp)
      ensures (forall i :: 0 <= i < |raw| ==> |raw[i]| >= 2) ==>
        (err.None? <==> forall i :: 0 <= i < |raw| ==> RawAllowed(raw[i], hasSlaveIns))
    {
      if forall i :: 0 <= i < |raw| ==> |raw[i]| >= 2 { ListAllowed(raw, hasSlaveIns, nextId); }
      hide Extended, RawPath, Accepted, RawOk, PathsPart, Deterministic, RawAllowed;
      ghost var paths := PathsOf(raw, hasSlaveIns, nextId);
      assert forall i :: 0 <= i < |paths| ==> RawPath(paths[i]);
      if hasSlaveIns {
        ExtendAll(raw);
      } else {
        rawOperationsExtended := raw;
      }
      assert rawOperationsExtended == paths;
      err := BuildAll();
      if if hasSlaveIns then RawOk(raw, old(nextId)) else PathsPart(raw) {
        ListDeterministic(raw, hasSlaveIns, old(nextId), old(condition));
      }
    }

    /** An operation for every expanded path. */
    method BuildAll() returns (err: Option<Error>)
      requires forall i :: 0 <= i < |rawOperationsExtended| ==> RawPath(rawOperationsExtended[i])
      requires operationsList == [] && !firstStatement && !lastStatement
      modifies this`statementsList, this`firstStatement, this`lastStatement, this`condition, this`operationsList
      ensures err.None? ==> ListOk(rawOperationsExtended, old(condition))
      ensures err.None? <==> forall p :: p in rawOperationsExtended ==> Accepted(p, SlaveOp)
    {
      hide RawPath, Accepted;
      ghost var paths := rawOperationsExtended;
      for i := 0 to |rawOperationsExtended|
        invariant !firstStatement && !lastStatement && ListOk(paths[..i], old(condition))
        invariant forall j :: 0 <= j < i ==> Accepted(paths[j], SlaveOp)
      {
        assert paths[..i + 1] == paths[..i] + [paths[i]];
        err := AddOperation(rawOperationsExtended[i], paths[..i], old(condition));
        if err.Some? {
          return;
        }
      }
      assert paths[..|paths|] == paths;
      err := None;
    }
  }
}
