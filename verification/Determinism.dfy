/** Operations are deterministic on every process graph: from the block graph to the list of operations. */
module Determinism {
  import opened Statements
  import opened Operations
  import opened Lowering
  import FindOperations
  import CreateOperations
  import CreateOperationsSlave
  import SlaveExpansion
  import SlaveMeaning

  // ---------- Two paths part at a branch ----------

  /** Control can pass the nodes in this order. */
  predicate Linked(p: seq<Node>) {
    forall i :: 0 <= i < |p| - 1 ==> Numbered(p[i]) && p[i + 1].id in p[i].succ
  }

  /** Nodes with one id are one node. */
  predicate OneGraph(p: seq<Node>, q: seq<Node>) {
    forall i, j :: 0 <= i < |p| && 0 <= j < |q| && p[i].id == q[j].id ==> p[i] == q[j]
  }

  /** Paths from one node of which none continues the other part at a branch, the next numbered node on one side only. */
  lemma PathsDiverge(p: seq<Node>, q: seq<Node>) returns (k: nat)
    requires p != [] && q != [] && p[0] == q[0] && !(p <= q) && !(q <= p)
    requires Linked(p) && Linked(q) && OneGraph(p, q)
    ensures DivergeAt(p, q, k)
  {
    k := 1;
    while k < |p| && k < |q| && p[k] == q[k]
      invariant 0 < k <= |p| && k <= |q| && p[..k] == q[..k]
      decreases |p| - k
    {
      assert p[..k + 1] == p[..k] + [p[k]] && q[..k + 1] == q[..k] + [q[k]];
      k := k + 1;
    }
    assert p[..|p|] == p && q[..|q|] == q;
    var i := k - 1;
    assert p[i] == p[..k][i] && q[i] == q[..k][i];
    assert p[i + 1].id in p[i].succ && q[i + 1].id in q[i].succ;
  }

  // ---------- The nodes of a lowered graph ----------

  lemma {:induction false} Locate(bs: seq<Block>, n: nat, d: nat) returns (k: nat, i: nat)
    requires n <= |bs| && d < Before(bs, n)
    ensures k < n && i < |Content(bs[k])| && Before(bs, k) + i == d
    decreases n
  {
    hide Content;
    if d < Before(bs, n - 1) { k, i := Locate(bs, n - 1, d); } else { k, i := n - 1, d - Before(bs, n - 1); }
  }

  /** The process as blocks, and its node graph. */
  ghost predicate ProcessGraph(bs: seq<Block>, first: int, cfg: map<int, Node>) {
    ProcessBlocks(bs) && Lowered(bs, first, cfg)
  }

  /** A node of the graph stands under its id. */
  predicate InGraph(cfg: map<int, Node>, n: Node) {
    n.id in cfg && cfg[n.id] == n
  }

  lemma IdInRange(bs: seq<Block>, first: int, cfg: map<int, Node>, n: Node)
    requires ProcessGraph(bs, first, cfg) && InGraph(cfg, n)
    ensures first <= n.id < first + Before(bs, |bs|)
  {
    hide Content, NodeOf, BlocksOk, BlocksTyped, Structured, Before;
  }

  lemma TypedAt(bs: seq<Block>, k: nat, i: nat)
    requires BlocksTyped(bs) && k < |bs| && i < |Content(bs[k])|
    ensures Content(bs[k])[i].Some? ==> StmtOk(Content(bs[k])[i].value)
  {
    PlaceContent(bs[k], i);
    PlaceTyped(bs, k, i);
    hide Content, StmtOk;
  }

  /** Every node is well typed, and branches to the next numbered node when its condition is met. */
  lemma NodeFacts(bs: seq<Block>, first: int, cfg: map<int, Node>, n: Node)
    requires ProcessGraph(bs, first, cfg) && InGraph(cfg, n)
    ensures first <= n.id < first + Before(bs, |bs|)
    ensures Numbered(n) && (n.stmt.Some? ==> StmtOk(n.stmt.value))
  {
    hide Content, Numbered, StmtOk, Structured, Lowered, BlocksOk, BlocksTyped, Before;
    IdInRange(bs, first, cfg, n);
    var k, i := Locate(bs, |bs|, n.id - first);
    assert n.id == NodeId(bs, first, k, i);
    LoweredAt(bs, first, cfg, k, i);
    PolarityKept(bs, first, k, i);
    TypedAt(bs, k, i);
  }

  // ---------- The paths between the states ----------

  /** A state holds a wait, a read or a write, never a branch. */
  predicate IsState(n: Node) {
    n.stmt.Some? && !n.stmt.value.If?
  }

  ghost predicate Route(cfg: map<int, Node>, p: seq<Node>) {
    && (forall i :: 0 <= i < |p| ==> InGraph(cfg, p[i]))
    && forall i :: 0 <= i < |p| - 1 ==> p[i + 1].id in p[i].succ
  }

  /** Different paths of the graph that go to a state with none between; they start in a state or at the entry. */
  ghost predicate PathsBetween(cfg: map<int, Node>, states: seq<Node>, raw: seq<seq<Node>>) {
    && (forall s :: s in states ==> IsState(s))
    && (forall i :: 0 <= i < |raw| ==> raw[i] != [] && Route(cfg, raw[i]) && FindOperations.Between(raw[i], states, raw[i][0]))
    && forall i, j :: 0 <= i < j < |raw| ==> raw[i] != raw[j]
  }

  /** Such a path is one that an operation can be made of. */
  lemma RouteOnGraph(bs: seq<Block>, first: int, cfg: map<int, Node>, states: seq<Node>, p: seq<Node>)
    requires ProcessGraph(bs, first, cfg) && Route(cfg, p) && p != [] && FindOperations.Between(p, states, p[0])
    requires forall s :: s in states ==> IsState(s)
    ensures OnGraph(p) && Linked(p)
  {
    hide ProcessGraph, Numbered, StmtOk;
    forall i | 0 <= i < |p| ensures Numbered(p[i]) && (p[i].stmt.Some? ==> StmtOk(p[i].stmt.value)) {
      NodeFacts(bs, first, cfg, p[i]);
    }
    assert IsState(p[|p| - 1]);
  }

  /** None of two such paths continues the other: it would pass the state where the other ends. */
  lemma NoneContinues(p: seq<Node>, q: seq<Node>, states: seq<Node>)
    requires p != [] && q != [] && FindOperations.Between(p, states, p[0]) && FindOperations.Between(q, states, q[0]) && p <= q
    ensures p == q
  {
  }

  lemma RoutesPart(bs: seq<Block>, first: int, cfg: map<int, Node>, states: seq<Node>, raw: seq<seq<Node>>)
    requires ProcessGraph(bs, first, cfg) && PathsBetween(cfg, states, raw)
    ensures PathsPart(raw)
  {
    hide ProcessGraph, FindOperations.Between, Route, Linked, OneGraph, DivergeAt;
    forall i | 0 <= i < |raw| ensures RawPath(raw[i]) {
      RouteOnGraph(bs, first, cfg, states, raw[i]);
    }
    forall i, j | 0 <= i < j < |raw| && raw[i][0] == raw[j][0] ensures exists k: nat :: DivergeAt(raw[i], raw[j], k) {
      var p, q := raw[i], raw[j];
      RouteOnGraph(bs, first, cfg, states, p);
      RouteOnGraph(bs, first, cfg, states, q);
      RoutesOneGraph(bs, first, cfg, p, q);
      if p <= q { NoneContinues(p, q, states); }
      if q <= p { NoneContinues(q, p, states); }
      var k := PathsDiverge(p, q);
    }
  }

  lemma RoutesOneGraph(bs: seq<Block>, first: int, cfg: map<int, Node>, p: seq<Node>, q: seq<Node>)
    requires ProcessGraph(bs, first, cfg) && Route(cfg, p) && Route(cfg, q)
    ensures OneGraph(p, q)
  {
    hide ProcessGraph, Numbered, StmtOk;
    forall i, j | 0 <= i < |p| && 0 <= j < |q| && p[i].id == q[j].id ensures p[i] == q[j] {
      NodeFacts(bs, first, cfg, p[i]);
      NodeFacts(bs, first, cfg, q[j]);
    }
  }

  // ---------- Determinism ----------

  /** In a module without slave ports at most one operation of a state is enabled at a time. */
  lemma GraphDeterministic(bs: seq<Block>, first: int, cfg: map<int, Node>, states: seq<Node>, raw: seq<seq<Node>>, start: bool)
    requires ProcessGraph(bs, first, cfg) && PathsBetween(cfg, states, raw)
    ensures Deterministic(BuiltOf(CreateOperations.Plans(raw), start))
  {
    hide *;
    RoutesPart(bs, first, cfg, states, raw);
    CreateOperations.ListDeterministic(raw, start);
  }

  /** No communication is a state, and a slave input is read without blocking. */
  predicate SlaveAllowed(p: seq<Node>) {
    Accepted(p, SlaveOp) && forall i :: 0 <= i < |p| && SlaveExpansion.IsSlaveRead(p[i]) ==> p[i].stmt.value.nonBlocking
  }

  /** So it is in a module with slave ports, whose new nodes are numbered after those of the graph. */
  lemma SlaveGraphDeterministic(bs: seq<Block>, first: int, cfg: map<int, Node>, states: seq<Node>, raw: seq<seq<Node>>,
                                hasSlaveIns: bool, next: int, start: bool)
    requires ProcessGraph(bs, first, cfg) && PathsBetween(cfg, states, raw) && first + Before(bs, |bs|) <= next
    requires forall i :: 0 <= i < |raw| && raw[i][0].stmt.Some? ==> SlaveAllowed(raw[i])
    ensures Deterministic(BuiltOf(CreateOperationsSlave.SlavePlans(CreateOperationsSlave.PathsOf(raw, hasSlaveIns, next)), start))
  {
    hide ProcessGraph, Deterministic, BuiltOf, PathsPart;
    RoutesPart(bs, first, cfg, states, raw);
    forall i, k | 0 <= i < |raw| && 0 <= k < |raw[i]| ensures raw[i][k].id < next {
      NodeFacts(bs, first, cfg, raw[i][k]);
    }
    forall i | 0 <= i < |raw| && raw[i][0].stmt.Some? ensures SlaveMeaning.SlavePath(raw[i]) {
      RouteOnGraph(bs, first, cfg, states, raw[i]);
      AllowedPath(raw[i]);
    }
    CreateOperationsSlave.ListDeterministic(raw, hasSlaveIns, next, start);
  }

  lemma AllowedPath(p: seq<Node>)
    requires OnGraph(p) && SlaveAllowed(p)
    ensures SlaveMeaning.SlavePath(p)
  {
    hide StmtOk, Accepted;
  }
}
