/** From the block graph of a process to its numbered node graph. */
module Lowering {
  import opened Ir
  import opened Statements
  import opened Operations

  /** A block of the process, with the ids of its successors. */
  datatype Block = Block(id: int, stmts: seq<Stmt>, terminator: Option<Stmt>, succ: seq<int>)

  /** What the nodes of a block hold; a block without statements has one node. */
  function Content(b: Block): (c: seq<Option<Stmt>>)
    ensures |c| > 0
  {
    if b.stmts == [] then [b.terminator]
    else seq(|b.stmts|, i requires 0 <= i < |b.stmts| => Some(b.stmts[i])) + if b.terminator.Some? then [b.terminator] else []
  }

  /** The blocks stand in the order of their ids, and every successor is one of them. */
  ghost predicate BlocksOk(bs: seq<Block>) {
    && (forall i, j :: 0 <= i < j < |bs| ==> bs[i].id < bs[j].id)
    && forall i, j :: 0 <= i < |bs| && 0 <= j < |bs[i].succ| ==> HasId(bs, bs[i].succ[j])
  }

  ghost predicate HasId(bs: seq<Block>, id: int) {
    exists k :: 0 <= k < |bs| && bs[k].id == id
  }

  ghost function IndexOf(bs: seq<Block>, id: int): (k: nat)
    requires HasId(bs, id)
    ensures k < |bs| && bs[k].id == id
  {
    var k :| 0 <= k < |bs| && bs[k].id == id;
    k
  }

  // ---------- Numbering ----------

  /** How many nodes the first k blocks have. */
  function Before(bs: seq<Block>, k: nat): nat
    requires k <= |bs|
  {
    if k == 0 then 0 else Before(bs, k - 1) + |Content(bs[k - 1])|
  }

  lemma {:induction false} BeforeGrows(bs: seq<Block>, i: nat, k: nat)
    requires i <= k <= |bs|
    ensures Before(bs, i) + (k - i) <= Before(bs, k)
    decreases k
  {
    hide Content;
    if i < k { BeforeGrows(bs, i, k - 1); }
  }

  /** The id of node i of block k; ids run on inside a block and from each block to the next. */
  function NodeId(bs: seq<Block>, first: int, k: nat, i: nat): int
    requires k < |bs|
  {
    first + Before(bs, k) + i
  }

  /** The test that recovers branch polarity: only the next block starts with the id after the last of this one. */
  lemma NextIdExact(bs: seq<Block>, first: int, k: nat, s: nat)
    requires k < |bs| && s < |bs|
    ensures NodeId(bs, first, s, 0) == NodeId(bs, first, k, |Content(bs[k])| - 1) + 1 <==> s == k + 1
  {
    if s <= k {
      BeforeGrows(bs, s, k);
    } else if s > k + 1 {
      BeforeGrows(bs, k + 1, s);
    }
  }

  /** Different nodes have different ids. */
  lemma IdsApart(bs: seq<Block>, first: int, k: nat, i: nat, m: nat, j: nat)
    requires k < |bs| && i < |Content(bs[k])| && m < |bs| && j < |Content(bs[m])|
    requires NodeId(bs, first, k, i) == NodeId(bs, first, m, j)
    ensures k == m && i == j
  {
    hide Content;
    if k < m { BeforeGrows(bs, k + 1, m); }
    if m < k { BeforeGrows(bs, m + 1, k); }
  }

  // ---------- The node graph ----------

  ghost function StartsOf(bs: seq<Block>, first: int, succ: seq<int>): (ids: seq<int>)
    requires forall j :: 0 <= j < |succ| ==> HasId(bs, succ[j])
    ensures |ids| == |succ|
  {
    seq(|succ|, j requires 0 <= j < |succ| => NodeId(bs, first, IndexOf(bs, succ[j]), 0))
  }

  ghost function NodeOf(bs: seq<Block>, first: int, k: nat, i: nat): Node
    requires BlocksOk(bs) && k < |bs| && i < |Content(bs[k])|
  {
    Node(NodeId(bs, first, k, i), Content(bs[k])[i],
         if i + 1 < |Content(bs[k])| then [NodeId(bs, first, k, i + 1)] else StartsOf(bs, first, bs[k].succ))
  }

  /** The node graph: these nodes and no others. */
  ghost predicate Lowered(bs: seq<Block>, first: int, cfg: map<int, Node>)
    requires BlocksOk(bs)
  {
    && (forall x :: x in cfg ==> first <= x < first + Before(bs, |bs|))
    && forall k, i :: 0 <= k < |bs| && 0 <= i < |Content(bs[k])| ==>
         NodeId(bs, first, k, i) in cfg && cfg[NodeId(bs, first, k, i)] == NodeOf(bs, first, k, i)
  }

  // ---------- Walks ----------

  /** A walk over blocks, given by their places. */
  ghost predicate IsWalk(bs: seq<Block>, w: seq<nat>) {
    && w != [] && (forall j :: 0 <= j < |w| ==> w[j] < |bs|)
    && forall j :: 0 <= j < |w| - 1 ==> bs[w[j + 1]].id in bs[w[j]].succ
  }

  function BlockIds(bs: seq<Block>, first: int, k: nat): (ids: seq<int>)
    requires k < |bs|
    ensures |ids| == |Content(bs[k])|
  {
    seq(|Content(bs[k])|, i requires 0 <= i < |Content(bs[k])| => NodeId(bs, first, k, i))
  }

  /** The nodes a walk passes. */
  function Expand(bs: seq<Block>, first: int, w: seq<nat>): seq<int>
    requires forall j :: 0 <= j < |w| ==> w[j] < |bs|
  {
    if w == [] then [] else Expand(bs, first, w[..|w| - 1]) + BlockIds(bs, first, w[|w| - 1])
  }

  function BlockTrace(bs: seq<Block>, w: seq<nat>): seq<Option<Stmt>>
    requires forall j :: 0 <= j < |w| ==> w[j] < |bs|
  {
    if w == [] then [] else BlockTrace(bs, w[..|w| - 1]) + Content(bs[w[|w| - 1]])
  }

  /** A walk over nodes. */
  predicate IsPath(cfg: map<int, Node>, p: seq<int>) {
    && (forall j :: 0 <= j < |p| ==> p[j] in cfg)
    && forall j :: 0 <= j < |p| - 1 ==> p[j + 1] in cfg[p[j]].succ
  }

  function NodeTrace(cfg: map<int, Node>, p: seq<int>): seq<Option<Stmt>>
    requires forall j :: 0 <= j < |p| ==> p[j] in cfg
  {
    seq(|p|, j requires 0 <= j < |p| => cfg[p[j]].stmt)
  }

  lemma LoweredAt(bs: seq<Block>, first: int, cfg: map<int, Node>, k: nat, i: nat)
    requires BlocksOk(bs) && Lowered(bs, first, cfg) && k < |bs| && i < |Content(bs[k])|
    ensures NodeId(bs, first, k, i) in cfg && cfg[NodeId(bs, first, k, i)] == NodeOf(bs, first, k, i)
  {
  }

  /** The successors of the last node of a block are the first nodes of its successors. */
  lemma SuccExact(bs: seq<Block>, first: int, k: nat, y: int)
    requires BlocksOk(bs) && k < |bs|
    ensures y in StartsOf(bs, first, bs[k].succ) <==>
      exists s :: 0 <= s < |bs| && bs[s].id in bs[k].succ && y == NodeId(bs, first, s, 0)
  {
    var ids := StartsOf(bs, first, bs[k].succ);
    if y in ids {
      var j :| 0 <= j < |ids| && ids[j] == y;
      var s := IndexOf(bs, bs[k].succ[j]);
      assert bs[s].id in bs[k].succ;
    }
    if s :| 0 <= s < |bs| && bs[s].id in bs[k].succ && y == NodeId(bs, first, s, 0) {
      var j :| 0 <= j < |bs[k].succ| && bs[k].succ[j] == bs[s].id;
      assert IndexOf(bs, bs[k].succ[j]) == s;
      assert ids[j] == y;
    }
  }

  /** Inside a block the ids form a path with the contents as its trace. */
  lemma BlockPath(bs: seq<Block>, first: int, cfg: map<int, Node>, k: nat)
    requires BlocksOk(bs) && Lowered(bs, first, cfg) && k < |bs|
    ensures IsPath(cfg, BlockIds(bs, first, k)) && NodeTrace(cfg, BlockIds(bs, first, k)) == Content(bs[k])
  {
    hide Lowered, BlocksOk, Content;
    var ids := BlockIds(bs, first, k);
    forall i | 0 <= i < |ids|
      ensures ids[i] in cfg && cfg[ids[i]] == NodeOf(bs, first, k, i) && (i + 1 < |ids| ==> ids[i + 1] in cfg[ids[i]].succ)
    {
      LoweredAt(bs, first, cfg, k, i);
    }
  }

  lemma PathConcat(cfg: map<int, Node>, p: seq<int>, q: seq<int>)
    requires IsPath(cfg, p) && IsPath(cfg, q) && (p != [] && q != [] ==> q[0] in cfg[p[|p| - 1]].succ)
    ensures IsPath(cfg, p + q) && NodeTrace(cfg, p + q) == NodeTrace(cfg, p) + NodeTrace(cfg, q)
  {
    var pq := p + q;
    forall j | 0 <= j < |pq| ensures pq[j] in cfg && (j + 1 < |pq| ==> pq[j + 1] in cfg[pq[j]].succ) {
      if j < |p| { assert pq[j] == p[j]; } else { assert pq[j] == q[j - |p|]; }
      if |p| <= j + 1 < |pq| { assert pq[j + 1] == q[j + 1 - |p|]; }
      if j >= |p| { assert j + 1 < |pq| ==> q[j - |p| + 1] in cfg[q[j - |p|]].succ; }
    }
  }

  /** Every walk over blocks is a walk over nodes with the same statements. */
  lemma {:induction false} WalkLowered(bs: seq<Block>, first: int, cfg: map<int, Node>, w: seq<nat>)
    requires BlocksOk(bs) && Lowered(bs, first, cfg) && IsWalk(bs, w)
    ensures IsPath(cfg, Expand(bs, first, w)) && NodeTrace(cfg, Expand(bs, first, w)) == BlockTrace(bs, w)
    decreases |w|
  {
    hide Lowered, BlocksOk, IsPath, Content;
    var init, k := w[..|w| - 1], w[|w| - 1];
    BlockPath(bs, first, cfg, k);
    if |w| == 1 {
      EmptyWalk(bs, first, cfg, init);
    } else {
      WalkLowered(bs, first, cfg, init);
      ExpandEnd(bs, first, cfg, init);
      SuccExact(bs, first, w[|w| - 2], NodeId(bs, first, k, 0));
    }
    PathConcat(cfg, Expand(bs, first, init), BlockIds(bs, first, k));
  }

  lemma EmptyWalk(bs: seq<Block>, first: int, cfg: map<int, Node>, w: seq<nat>)
    requires w == []
    ensures Expand(bs, first, w) == [] && BlockTrace(bs, w) == [] && IsPath(cfg, []) && NodeTrace(cfg, []) == []
  {
  }

  /** The last node of an expanded walk is the last node of its last block. */
  lemma ExpandEnd(bs: seq<Block>, first: int, cfg: map<int, Node>, w: seq<nat>)
    requires BlocksOk(bs) && Lowered(bs, first, cfg) && IsWalk(bs, w)
    ensures var e, k := Expand(bs, first, w), w[|w| - 1];
      && e != [] && e[|e| - 1] in cfg && cfg[e[|e| - 1]].succ == StartsOf(bs, first, bs[k].succ)
  {
    var k := w[|w| - 1];
    assert BlocksOk(bs) && k < |bs|;
    hide Lowered, BlocksOk, Content, IsWalk;
    LoweredAt(bs, first, cfg, k, |Content(bs[k])| - 1);
    var ids, before := BlockIds(bs, first, k), Expand(bs, first, w[..|w| - 1]);
    assert Expand(bs, first, w) == before + ids;
    assert (before + ids)[|before| + |ids| - 1] == ids[|ids| - 1];
  }

  /** The path has got into the last block of the walk and not past it. */
  ghost predicate Reaches(bs: seq<Block>, first: int, w: seq<nat>, p: seq<int>)
    requires IsWalk(bs, w)
  {
    p <= Expand(bs, first, w) && |Expand(bs, first, w[..|w| - 1])| < |p|
  }

  /** Where in its last block the path has got to. */
  lemma WhereIs(bs: seq<Block>, first: int, w: seq<nat>, p: seq<int>) returns (k: nat, i: nat)
    requires IsWalk(bs, w) && Reaches(bs, first, w, p)
    ensures k == w[|w| - 1] && k < |bs| && i < |Content(bs[k])| && p[|p| - 1] == NodeId(bs, first, k, i)
    ensures if i + 1 < |Content(bs[k])| then Reaches(bs, first, w, p + [NodeId(bs, first, k, i + 1)]) else p == Expand(bs, first, w)
  {
    hide *;
    k := ReachesFacts(bs, first, w, p);
    var before, ids := Expand(bs, first, w[..|w| - 1]), BlockIds(bs, first, k);
    i := |p| - 1 - |before|;
    PrefixEnd(p, before, ids);
    BlockIdAt(bs, first, k, i);
    BlockIdAt(bs, first, k, i + 1);
    if i + 1 < |Content(bs[k])| { ReachesFrom(bs, first, w, p + [NodeId(bs, first, k, i + 1)]); }
  }

  lemma ReachesFacts(bs: seq<Block>, first: int, w: seq<nat>, p: seq<int>) returns (k: nat)
    requires IsWalk(bs, w) && Reaches(bs, first, w, p)
    ensures w != [] && k == w[|w| - 1] && k < |bs| && forall j :: 0 <= j < |w| ==> w[j] < |bs|
    ensures Expand(bs, first, w) == Expand(bs, first, w[..|w| - 1]) + BlockIds(bs, first, k)
    ensures p <= Expand(bs, first, w) && |Expand(bs, first, w[..|w| - 1])| < |p|
  {
    k := w[|w| - 1];
    hide BlockIds, Content;
  }

  lemma ReachesFrom(bs: seq<Block>, first: int, w: seq<nat>, p: seq<int>)
    requires IsWalk(bs, w) && p <= Expand(bs, first, w) && |Expand(bs, first, w[..|w| - 1])| < |p|
    ensures Reaches(bs, first, w, p)
  {
    hide Expand;
  }

  lemma BlockIdAt(bs: seq<Block>, first: int, k: nat, i: nat)
    requires k < |bs|
    ensures |BlockIds(bs, first, k)| == |Content(bs[k])|
    ensures i < |Content(bs[k])| ==> BlockIds(bs, first, k)[i] == NodeId(bs, first, k, i)
  {
    hide Content, NodeId;
  }

  lemma PrefixEnd(p: seq<int>, a: seq<int>, b: seq<int>)
    requires p <= a + b && |a| < |p|
    ensures var i := |p| - 1 - |a|;
      && i < |b| && p[|p| - 1] == b[i]
      && if i + 1 < |b| then p + [b[i + 1]] <= a + b && |a| < |p + [b[i + 1]]| else p == a + b
  {
    var ab := a + b;
    assert p == ab[..|p|];
    if |p| < |ab| { assert ab[..|p| + 1] == p + [ab[|p|]]; }
  }

  /** One more step of a path stays in the block or enters a successor. */
  lemma StepLowered(bs: seq<Block>, first: int, cfg: map<int, Node>, w: seq<nat>, p: seq<int>, y: int) returns (v: seq<nat>)
    requires BlocksOk(bs) && Lowered(bs, first, cfg) && IsWalk(bs, w) && Reaches(bs, first, w, p)
    requires p[|p| - 1] in cfg && y in cfg[p[|p| - 1]].succ
    ensures IsWalk(bs, v) && v[0] == w[0] && Reaches(bs, first, v, p + [y])
  {
    hide Lowered, BlocksOk, Content, IsWalk, Reaches, Expand, NodeId;
    var k, i := WhereIs(bs, first, w, p);
    LoweredAt(bs, first, cfg, k, i);
    if i + 1 < |Content(bs[k])| {
      v := w;
    } else {
      SuccExact(bs, first, k, y);
      var s :| 0 <= s < |bs| && bs[s].id in bs[k].succ && y == NodeId(bs, first, s, 0);
      v := EnterBlock(bs, first, w, p, s);
    }
  }

  lemma EnterBlock(bs: seq<Block>, first: int, w: seq<nat>, p: seq<int>, s: nat) returns (v: seq<nat>)
    requires IsWalk(bs, w) && p == Expand(bs, first, w) && s < |bs| && bs[s].id in bs[w[|w| - 1]].succ
    ensures IsWalk(bs, v) && v[0] == w[0] && Reaches(bs, first, v, p + [NodeId(bs, first, s, 0)])
  {
    hide Content;
    v := w + [s];
    assert v[..|v| - 1] == w;
    assert Expand(bs, first, v) == p + BlockIds(bs, first, s);
  }

  /** Every walk over nodes from the start of a block follows one over blocks, so their statements agree as far as it goes. */
  lemma {:induction false} PathLowered(bs: seq<Block>, first: int, cfg: map<int, Node>, k: nat, p: seq<int>) returns (w: seq<nat>)
    requires BlocksOk(bs) && Lowered(bs, first, cfg) && k < |bs|
    requires IsPath(cfg, p) && p != [] && p[0] == NodeId(bs, first, k, 0)
    ensures IsWalk(bs, w) && w[0] == k && Reaches(bs, first, w, p)
    ensures NodeTrace(cfg, p) <= BlockTrace(bs, w)
    decreases |p|
  {
    hide Lowered, BlocksOk, Content, Reaches, IsWalk, Expand, BlockTrace, IsPath, NodeTrace;
    if |p| == 1 {
      w := [k];
      OneBlock(bs, first, k, p);
    } else {
      var init := p[..|p| - 1];
      LastStep(cfg, p);
      var v := PathLowered(bs, first, cfg, k, init);
      w := StepLowered(bs, first, cfg, v, init, p[|p| - 1]);
      assert init + [p[|p| - 1]] == p;
    }
    WalkLowered(bs, first, cfg, w);
    ReachesPrefix(bs, first, cfg, w, p);
  }

  lemma OneBlock(bs: seq<Block>, first: int, k: nat, p: seq<int>)
    requires k < |bs| && |p| == 1 && p[0] == NodeId(bs, first, k, 0)
    ensures IsWalk(bs, [k]) && Reaches(bs, first, [k], p)
  {
    hide Content;
    assert [k][..0] == [];
    assert Expand(bs, first, [k]) == [] + BlockIds(bs, first, k);
  }

  lemma LastStep(cfg: map<int, Node>, p: seq<int>)
    requires IsPath(cfg, p) && |p| > 1
    ensures var init := p[..|p| - 1];
      && IsPath(cfg, init) && init[0] == p[0] && init[|init| - 1] in cfg && p[|p| - 1] in cfg[init[|init| - 1]].succ
  {
    assert p[|p| - 2 + 1] == p[|p| - 1];
  }

  lemma ReachesPrefix(bs: seq<Block>, first: int, cfg: map<int, Node>, w: seq<nat>, p: seq<int>)
    requires IsWalk(bs, w) && Reaches(bs, first, w, p)
    requires IsPath(cfg, Expand(bs, first, w)) && NodeTrace(cfg, Expand(bs, first, w)) == BlockTrace(bs, w)
    ensures IsPath(cfg, p) && NodeTrace(cfg, p) <= BlockTrace(bs, w)
  {
    hide Expand, BlockTrace, IsPath, NodeTrace;
    TracePrefix(cfg, p, Expand(bs, first, w));
  }

  lemma TracePrefix(cfg: map<int, Node>, p: seq<int>, q: seq<int>)
    requires p <= q && IsPath(cfg, q)
    ensures IsPath(cfg, p) && NodeTrace(cfg, p) <= NodeTrace(cfg, q)
  {
    var t, u := NodeTrace(cfg, p), NodeTrace(cfg, q);
    forall j | 0 <= j < |t| ensures t[j] == u[j] {
      assert p[j] == q[j];
    }
  }

  // ---------- Branches ----------

  predicate EndsInIf(b: Block) {
    b.terminator.Some? && b.terminator.value.If?
  }

  predicate StructuredAt(bs: seq<Block>, k: nat)
    requires k < |bs|
  {
    && (forall i :: 0 <= i < |bs[k].stmts| ==> !bs[k].stmts[i].If?)
    && if EndsInIf(bs[k]) then
         |bs[k].succ| == 2 && bs[k].succ[0] != bs[k].succ[1] && k + 1 < |bs| && bs[k].succ[0] == bs[k + 1].id
       else |bs[k].succ| == 1
  }

  /** A branch ends its block and goes to the next block when it is met, and to another one when not. */
  ghost predicate Structured(bs: seq<Block>) {
    forall k :: 0 <= k < |bs| ==> StructuredAt(bs, k)
  }

  lemma IfIsLast(b: Block, i: nat)
    requires i < |Content(b)| && forall j :: 0 <= j < |b.stmts| ==> !b.stmts[j].If?
    ensures Content(b)[i].Some? && Content(b)[i].value.If? ==> i + 1 == |Content(b)| && EndsInIf(b)
    ensures i + 1 == |Content(b)| && EndsInIf(b) ==> Content(b)[i] == b.terminator
  {
  }

  /** The successors of a branching block start at the next id and at another one. */
  lemma BranchIds(bs: seq<Block>, first: int, k: nat)
    requires BlocksOk(bs) && k < |bs| && StructuredAt(bs, k) && EndsInIf(bs[k])
    ensures var ids, e := StartsOf(bs, first, bs[k].succ), NodeId(bs, first, k, |Content(bs[k])| - 1);
      |ids| == 2 && ids[0] == e + 1 && ids[1] != e + 1
  {
    hide Content, Before;
    var t, f := IndexOf(bs, bs[k].succ[0]), IndexOf(bs, bs[k].succ[1]);
    assert t == k + 1;
    NextIdExact(bs, first, k, t);
    NextIdExact(bs, first, k, f);
  }

  /** On a structured block graph every node is numbered so that the next id marks the true edge and no other. */
  lemma PolarityKept(bs: seq<Block>, first: int, k: nat, i: nat)
    requires BlocksOk(bs) && Structured(bs) && k < |bs| && i < |Content(bs[k])|
    ensures Numbered(NodeOf(bs, first, k, i))
  {
    assert StructuredAt(bs, k);
    IfIsLast(bs[k], i);
    if i + 1 == |Content(bs[k])| && EndsInIf(bs[k]) { BranchIds(bs, first, k); }
    hide Content, Before;
  }

  // ---------- The process as blocks ----------

  /** A place in a block: before one of its statements, or before its terminator. */
  datatype Place = Place(block: nat, at: nat)

  /** The last place of a block; a block without any statement has one place, where nothing happens. */
  function LastAt(b: Block): nat {
    if b.terminator.Some? then |b.stmts| else if b.stmts == [] then 0 else |b.stmts| - 1
  }

  function StmtAt(b: Block, at: nat): Option<Stmt> {
    if at < |b.stmts| then Some(b.stmts[at]) else b.terminator
  }

  ghost predicate PlaceOk(bs: seq<Block>, p: Place) {
    p.block < |bs| && p.at <= LastAt(bs[p.block])
  }

  /** The successor a block goes on to: its terminator picks one of two, or there is one. */
  ghost function NextBlock(bs: seq<Block>, k: nat, env: Env): (s: nat)
    requires BlocksOk(bs) && k < |bs| && StructuredAt(bs, k)
    ensures s < |bs|
  {
    var b := bs[k];
    IndexOf(bs, if b.terminator.Some? && b.terminator.value.If? && !Holds(b.terminator.value.cond, env) then b.succ[1] else b.succ[0])
  }

  /** Statements one after the other, and then the first of the successor. */
  ghost function NextPlace(bs: seq<Block>, p: Place, env: Env): Place
    requires BlocksOk(bs) && PlaceOk(bs, p) && StructuredAt(bs, p.block)
  {
    if p.at < LastAt(bs[p.block]) then Place(p.block, p.at + 1) else Place(NextBlock(bs, p.block, env), 0)
  }

  function IdAt(bs: seq<Block>, first: int, p: Place): int
    requires p.block < |bs|
  {
    NodeId(bs, first, p.block, p.at)
  }

  lemma PlaceContent(b: Block, at: nat)
    ensures |Content(b)| == LastAt(b) + 1
    ensures at <= LastAt(b) ==> Content(b)[at] == StmtAt(b, at)
  {
  }

  /** The node of a place holds the statement of the place, and control goes from it to the node of the next place. */
  lemma PlaceNode(bs: seq<Block>, first: int, cfg: map<int, Node>, p: Place, env: Env)
    requires BlocksOk(bs) && Structured(bs) && Lowered(bs, first, cfg) && PlaceOk(bs, p)
    ensures StructuredAt(bs, p.block) && PlaceOk(bs, NextPlace(bs, p, env))
    ensures var x := IdAt(bs, first, p);
      && x in cfg && cfg[x].id == x && cfg[x].stmt == StmtAt(bs[p.block], p.at) && Numbered(cfg[x])
      && NextId(cfg[x], env) == IdAt(bs, first, NextPlace(bs, p, env))
  {
    var k, b := p.block, bs[p.block];
    assert StructuredAt(bs, k);
    PlaceContent(b, p.at);
    LoweredAt(bs, first, cfg, k, p.at);
    PolarityKept(bs, first, k, p.at);
    IfIsLast(b, p.at);
    hide Content, Before, Lowered, Structured, BlocksOk, Holds;
    NextInGraph(bs, first, k, p.at, env);
  }

  lemma NextInGraph(bs: seq<Block>, first: int, k: nat, i: nat, env: Env)
    requires BlocksOk(bs) && k < |bs| && StructuredAt(bs, k) && i < |Content(bs[k])| == LastAt(bs[k]) + 1
    requires Content(bs[k])[i] == StmtAt(bs[k], i) && Numbered(NodeOf(bs, first, k, i))
    requires StmtAt(bs[k], i).Some? && StmtAt(bs[k], i).value.If? ==> i == LastAt(bs[k]) && EndsInIf(bs[k])
    ensures NextId(NodeOf(bs, first, k, i), env) == IdAt(bs, first, NextPlace(bs, Place(k, i), env))
  {
    hide Content, Before, BlocksOk, Holds;
  }

  // ---------- Whole blocks ----------

  /** What a block does. */
  function BlockStmts(b: Block): seq<Stmt> {
    b.stmts + if b.terminator.Some? then [b.terminator.value] else []
  }

  ghost predicate BlocksTyped(bs: seq<Block>) {
    forall k :: 0 <= k < |bs| ==> StmtsOk(BlockStmts(bs[k]))
  }

  /** The blocks of a process, as the stages before leave them. */
  ghost predicate ProcessBlocks(bs: seq<Block>) {
    BlocksOk(bs) && Structured(bs) && BlocksTyped(bs)
  }

  ghost predicate NodesTyped(cfg: map<int, Node>) {
    forall y :: y in cfg ==> Numbered(cfg[y]) && (cfg[y].stmt.Some? ==> StmtOk(cfg[y].stmt.value))
  }

  /** The node graph run for n nodes from node x, without regard to states: where control is then, and what was done. */
  ghost function RunNodes(cfg: map<int, Node>, x: int, r: Run, n: nat): (int, Run)
    requires NodesTyped(cfg)
    decreases n
  {
    if n == 0 || x !in cfg then (x, r)
    else RunNodes(cfg, NextId(cfg[x], r.env), if cfg[x].stmt.None? then r else Step(r, cfg[x].stmt.value, false), n - 1)
  }

  /** The block graph run for n blocks from block k: each does its statements, and its terminator picks the next. */
  ghost function RunBlocks(bs: seq<Block>, k: nat, r: Run, n: nat): (nat, Run)
    requires BlocksOk(bs) && Structured(bs) && BlocksTyped(bs) && k < |bs|
    decreases n
  {
    if n == 0 then (k, r)
    else
      var end := Exec(r, BlockStmts(bs[k]), false);
      RunBlocks(bs, NextBlock(bs, k, end.env), end, n - 1)
  }

  /** How many nodes these blocks have. */
  ghost function NodesOf(bs: seq<Block>, k: nat, r: Run, n: nat): nat
    requires BlocksOk(bs) && Structured(bs) && BlocksTyped(bs) && k < |bs|
    decreases n
  {
    if n == 0 then 0
    else
      var end := Exec(r, BlockStmts(bs[k]), false);
      LastAt(bs[k]) + 1 + NodesOf(bs, NextBlock(bs, k, end.env), end, n - 1)
  }

  lemma {:induction false} RunOn(cfg: map<int, Node>, x: int, r: Run, m: nat, n: nat)
    requires NodesTyped(cfg)
    ensures RunNodes(cfg, x, r, m + n) == RunNodes(cfg, RunNodes(cfg, x, r, m).0, RunNodes(cfg, x, r, m).1, n)
    decreases m
  {
    if m > 0 && x in cfg {
      RunOn(cfg, NextId(cfg[x], r.env), if cfg[x].stmt.None? then r else Step(r, cfg[x].stmt.value, false), m - 1, n);
    }
  }

  lemma OneNode(cfg: map<int, Node>, x: int, r: Run, n: nat)
    requires NodesTyped(cfg) && x in cfg
    ensures RunNodes(cfg, x, r, 0) == (x, r)
    ensures n > 0 ==>
      RunNodes(cfg, x, r, n)
        == RunNodes(cfg, NextId(cfg[x], r.env), if cfg[x].stmt.None? then r else Step(r, cfg[x].stmt.value, false), n - 1)
  {
  }

  lemma PlaceTyped(bs: seq<Block>, k: nat, i: nat)
    requires BlocksTyped(bs) && k < |bs| && i <= LastAt(bs[k])
    ensures StmtsOk(BlockStmts(bs[k])) && (StmtAt(bs[k], i).Some? ==> StmtOk(StmtAt(bs[k], i).value))
  {
    var b := bs[k];
    if i < |b.stmts| { assert BlockStmts(b)[i] == b.stmts[i]; }
    if b.terminator.Some? { assert BlockStmts(b)[|b.stmts|] == b.terminator.value; }
  }

  /** One step of the nodes from a place of a block. */
  lemma PlaceRun(bs: seq<Block>, first: int, cfg: map<int, Node>, k: nat, i: nat, r: Run, n: nat)
    requires ProcessBlocks(bs) && Lowered(bs, first, cfg) && NodesTyped(cfg) && PlaceOk(bs, Place(k, i)) && n > 0
    ensures StructuredAt(bs, k) && (StmtAt(bs[k], i).Some? ==> StmtOk(StmtAt(bs[k], i).value))
    ensures var (next, at) := (NextPlace(bs, Place(k, i), r.env), StmtAt(bs[k], i));
      && PlaceOk(bs, next)
      && RunNodes(cfg, NodeId(bs, first, k, i), r, n)
           == RunNodes(cfg, NodeId(bs, first, next.block, next.at), if at.None? then r else Step(r, at.value, false), n - 1)
  {
    PlaceNode(bs, first, cfg, Place(k, i), r.env);
    PlaceTyped(bs, k, i);
    var x, next := NodeId(bs, first, k, i), NextPlace(bs, Place(k, i), r.env);
    assert IdAt(bs, first, Place(k, i)) == x && IdAt(bs, first, next) == NodeId(bs, first, next.block, next.at);
    hide *;
    OneNode(cfg, x, r, n);
  }

  /** The statements of a block from place i on. */
  lemma RestStmts(b: Block, i: nat, r: Run)
    requires i <= LastAt(b) && StmtsOk(BlockStmts(b))
    ensures i <= |BlockStmts(b)| && StmtsOk(BlockStmts(b)[i..])
    ensures i < LastAt(b) ==>
      && StmtAt(b, i).Some? && StmtOk(StmtAt(b, i).value) && i + 1 <= |BlockStmts(b)| && StmtsOk(BlockStmts(b)[i + 1..])
      && Exec(r, BlockStmts(b)[i..], false) == Exec(Step(r, StmtAt(b, i).value, false), BlockStmts(b)[i + 1..], false)
    ensures i == LastAt(b) ==>
      && (StmtAt(b, i).Some? ==> StmtOk(StmtAt(b, i).value))
      && Exec(r, BlockStmts(b)[i..], false) == if StmtAt(b, i).None? then r else Step(r, StmtAt(b, i).value, false)
  {
    hide Step, StmtOk;
    var todo := BlockStmts(b)[i..];
    if todo != [] {
      assert todo[0] == StmtAt(b, i).value && todo[1..] == BlockStmts(b)[i + 1..];
    }
  }

  /** From place i of a block the nodes do the rest of the block. */
  lemma {:induction false} RestOfBlock(bs: seq<Block>, first: int, cfg: map<int, Node>, k: nat, i: nat, r: Run)
    requires ProcessBlocks(bs) && Lowered(bs, first, cfg) && NodesTyped(cfg) && PlaceOk(bs, Place(k, i))
    ensures StmtsOk(BlockStmts(bs[k])[i..]) && StructuredAt(bs, k)
    ensures var end := Exec(r, BlockStmts(bs[k])[i..], false);
      RunNodes(cfg, NodeId(bs, first, k, i), r, LastAt(bs[k]) + 1 - i) == (NodeId(bs, first, NextBlock(bs, k, end.env), 0), end)
    decreases LastAt(bs[k]) - i
  {
    hide *;
    PlaceFacts(bs, k, i);
    PlaceTyped(bs, k, i);
    var n := LastAt(bs[k]) + 1 - i;
    PlaceRun(bs, first, cfg, k, i, r, n);
    NextFacts(bs, k, i, r.env);
    RestStmts(bs[k], i, r);
    if n > 1 {
      RestOfBlock(bs, first, cfg, k, i + 1, Step(r, StmtAt(bs[k], i).value, false));
    } else {
      var end := if StmtAt(bs[k], i).None? then r else Step(r, StmtAt(bs[k], i).value, false);
      LastPicks(bs, k, r);
      StartNode(bs, first, cfg, NextBlock(bs, k, r.env));
      OneNode(cfg, NodeId(bs, first, NextBlock(bs, k, r.env), 0), end, 0);
    }
  }

  lemma PlaceFacts(bs: seq<Block>, k: nat, i: nat)
    requires ProcessBlocks(bs) && PlaceOk(bs, Place(k, i))
    ensures k < |bs| && i <= LastAt(bs[k]) && (i < LastAt(bs[k]) ==> PlaceOk(bs, Place(k, i + 1)))
    ensures BlocksOk(bs) && BlocksTyped(bs) && Structured(bs) && StructuredAt(bs, k)
  {
    hide BlocksOk, BlocksTyped, StructuredAt, LastAt;
  }

  lemma NextFacts(bs: seq<Block>, k: nat, i: nat, env: Env)
    requires BlocksOk(bs) && k < |bs| && StructuredAt(bs, k) && PlaceOk(bs, Place(k, i))
    ensures NextPlace(bs, Place(k, i), env) == if i < LastAt(bs[k]) then Place(k, i + 1) else Place(NextBlock(bs, k, env), 0)
  {
    hide BlocksOk, StructuredAt, LastAt, NextBlock;
  }

  lemma StartNode(bs: seq<Block>, first: int, cfg: map<int, Node>, k: nat)
    requires BlocksOk(bs) && Lowered(bs, first, cfg) && k < |bs|
    ensures NodeId(bs, first, k, 0) in cfg
  {
    LoweredAt(bs, first, cfg, k, 0);
  }

  /** The last statement of a block does not change what its terminator picks by. */
  lemma LastPicks(bs: seq<Block>, k: nat, r: Run)
    requires BlocksOk(bs) && k < |bs| && StructuredAt(bs, k) && StmtsOk(BlockStmts(bs[k])[LastAt(bs[k])..])
    ensures NextBlock(bs, k, Exec(r, BlockStmts(bs[k])[LastAt(bs[k])..], false).env) == NextBlock(bs, k, r.env)
  {
    if EndsInIf(bs[k]) {
      var last := BlockStmts(bs[k])[LastAt(bs[k])..];
      assert last == [bs[k].terminator.value] && StmtOk(last[0]);
      assert last[0] == If(bs[k].terminator.value.cond);
      OneGuard(r, bs[k].terminator.value.cond, false);
    }
  }

  lemma FirstPlace(bs: seq<Block>, k: nat)
    requires k < |bs|
    ensures PlaceOk(bs, Place(k, 0)) && BlockStmts(bs[k])[0..] == BlockStmts(bs[k])
  {
  }

  lemma OneBlockMore(bs: seq<Block>, k: nat, r: Run, n: nat)
    requires ProcessBlocks(bs) && k < |bs|
    ensures BlocksOk(bs) && Structured(bs) && BlocksTyped(bs) && StmtsOk(BlockStmts(bs[k])) && StructuredAt(bs, k)
    ensures n == 0 ==> RunBlocks(bs, k, r, n) == (k, r) && NodesOf(bs, k, r, n) == 0
    ensures n > 0 ==>
      var end := Exec(r, BlockStmts(bs[k]), false);
      var s := NextBlock(bs, k, end.env);
      && s < |bs| && RunBlocks(bs, k, r, n) == RunBlocks(bs, s, end, n - 1)
      && NodesOf(bs, k, r, n) == LastAt(bs[k]) + 1 + NodesOf(bs, s, end, n - 1)
  {
    hide Exec, BlockStmts, NextBlock, LastAt, BlocksOk, StructuredAt, StmtsOk;
  }

  /**
   * The node graph runs as the block graph: from the first node of a block it does what the blocks do, one statement after
   * the other, and is at the first node of the block control is in then.
   */
  lemma {:induction false} BlocksLowered(bs: seq<Block>, first: int, cfg: map<int, Node>, k: nat, r: Run, n: nat)
    requires ProcessBlocks(bs) && Lowered(bs, first, cfg) && NodesTyped(cfg) && k < |bs|
    ensures var (end, done) := RunBlocks(bs, k, r, n);
      end < |bs| && RunNodes(cfg, NodeId(bs, first, k, 0), r, NodesOf(bs, k, r, n)) == (NodeId(bs, first, end, 0), done)
    decreases n
  {
    hide *;
    OneBlockMore(bs, k, r, n);
    StartNode(bs, first, cfg, k);
    if n == 0 {
      OneNode(cfg, NodeId(bs, first, k, 0), r, 0);
    } else {
      FirstPlace(bs, k);
      RestOfBlock(bs, first, cfg, k, 0, r);
      var end := Exec(r, BlockStmts(bs[k]), false);
      var s := NextBlock(bs, k, end.env);
      BlocksLowered(bs, first, cfg, s, end, n - 1);
      RunOn(cfg, NodeId(bs, first, k, 0), r, LastAt(bs[k]) + 1, NodesOf(bs, s, end, n - 1));
    }
  }

  // ---------- The construction ----------

  /** The first n contents stand in a chain of nodes from id base on; the last has no successor yet. */
  ghost predicate Chain(cfg: map<int, Node>, base: int, c: seq<Option<Stmt>>, n: nat)
    requires n <= |c|
  {
    forall x :: base <= x < base + n ==> x in cfg && cfg[x] == Node(x, c[x - base], if x + 1 < base + n then [x + 1] else [])
  }

  /** Nothing changed outside the ids from lo to hi. */
  ghost predicate Same(before: map<int, Node>, after: map<int, Node>, lo: int, hi: int) {
    forall x :: x < lo || hi <= x ==> (x in before <==> x in after) && (x in before ==> after[x] == before[x])
  }

  class CreateRealCfg {
    var cfg: map<int, Node>
    var nodeCnt: int
    var startNodeMap: map<int, int>
    var endNodeMap: map<int, int>

    constructor (first: int)
      ensures cfg == map[] && nodeCnt == first && startNodeMap == map[] && endNodeMap == map[]
    {
      cfg, nodeCnt, startNodeMap, endNodeMap := map[], first, map[], map[];
    }

    ghost predicate Below()
      reads this`cfg, this`nodeCnt
    {
      forall x :: x in cfg ==> x < nodeCnt
    }

    /** A new node, linked from the one before it in its block. */
    method Append(stmt: Option<Stmt>, ghost base: int, ghost c: seq<Option<Stmt>>, n: nat)
      requires Below() && n < |c| && c[n] == stmt && Chain(cfg, base, c, n) && nodeCnt == base + n
      modifies this`cfg, this`nodeCnt
      ensures Below() && Chain(cfg, base, c, n + 1) && nodeCnt == base + n + 1 && Same(old(cfg), cfg, base, nodeCnt)
    {
      if n > 0 {
        var end := nodeCnt - 1;
        cfg := cfg[end := cfg[end].(succ := cfg[end].succ + [nodeCnt])];
      }
      cfg := cfg[nodeCnt := Node(nodeCnt, stmt, [])];
      nodeCnt := nodeCnt + 1;
    }

    /** The nodes of one block. */
    method AddBlock(b: Block) returns (start: int, end: int)
      requires Below()
      modifies this`cfg, this`nodeCnt
      ensures Below() && start == old(nodeCnt) && nodeCnt == start + |Content(b)| && end == nodeCnt - 1
      ensures Chain(cfg, start, Content(b), |Content(b)|) && Same(old(cfg), cfg, start, nodeCnt)
      ensures end == start + LastAt(b) && forall x :: start <= x <= end ==> x in cfg && cfg[x].stmt == StmtAt(b, x - start)
    {
      hide StmtAt, LastAt;
      start := nodeCnt;
      ghost var c := Content(b);
      if b.stmts == [] {
        Append(b.terminator, start, c, 0);
      } else {
        for i := 0 to |b.stmts|
          invariant Below() && nodeCnt == start + i && Chain(cfg, start, c, i) && Same(old(cfg), cfg, start, nodeCnt)
        {
          Append(Some(b.stmts[i]), start, c, i);
        }
        if b.terminator.Some? {
          Append(b.terminator, start, c, |b.stmts|);
        }
      }
      end := nodeCnt - 1;
      ChainPlaces(cfg, start, b);
    }

    static lemma ChainPlaces(cfg: map<int, Node>, start: int, b: Block)
      requires Chain(cfg, start, Content(b), |Content(b)|)
      ensures |Content(b)| == LastAt(b) + 1
      ensures forall x :: start <= x <= start + LastAt(b) ==> x in cfg && cfg[x].stmt == StmtAt(b, x - start)
    {
      forall i: nat ensures |Content(b)| == LastAt(b) + 1 && (i <= LastAt(b) ==> Content(b)[i] == StmtAt(b, i)) {
        PlaceContent(b, i);
      }
      hide Content, StmtAt, LastAt;
    }

    /** The start and end nodes of the first n blocks are recorded. */
    static ghost predicate Recorded(bs: seq<Block>, first: int, n: nat, starts: map<int, int>, ends: map<int, int>)
      requires n <= |bs|
    {
      forall k :: 0 <= k < n ==>
        && bs[k].id in starts && starts[bs[k].id] == NodeId(bs, first, k, 0)
        && bs[k].id in ends && ends[bs[k].id] == NodeId(bs, first, k, |Content(bs[k])| - 1)
    }

    /** The nodes of block k stand as a chain, or for the first m blocks with their edges to other blocks. */
    static ghost predicate BlockBuilt(cfg: map<int, Node>, bs: seq<Block>, first: int, k: nat, m: nat)
      requires BlocksOk(bs) && k < |bs|
    {
      var base, c := NodeId(bs, first, k, 0), Content(bs[k]);
      if k < m then forall x :: base <= x < base + |c| ==> x in cfg && cfg[x] == NodeOf(bs, first, k, x - base)
      else Chain(cfg, base, c, |c|)
    }

    /** The first n blocks are built, the first m of them with edges. */
    static ghost predicate Built(cfg: map<int, Node>, bs: seq<Block>, first: int, n: nat, m: nat)
      requires BlocksOk(bs) && m <= n <= |bs|
    {
      && (forall x :: x in cfg ==> first <= x < first + Before(bs, n))
      && forall k :: 0 <= k < n ==> BlockBuilt(cfg, bs, first, k, m)
    }

    /** A change inside the ids of block m leaves the other blocks as they are. */
    static lemma OthersKept(before: map<int, Node>, after: map<int, Node>, bs: seq<Block>, first: int, k: nat, m: nat,
                             edged: nat, edged': nat)
      requires BlocksOk(bs) && k < |bs| && m < |bs| && k != m && BlockBuilt(before, bs, first, k, edged)
      requires k < edged <==> k < edged'
      requires Same(before, after, NodeId(bs, first, m, 0), NodeId(bs, first, m, |Content(bs[m])|))
      ensures BlockBuilt(after, bs, first, k, edged')
    {
      hide Content, NodeOf;
      if k < m { BeforeGrows(bs, k + 1, m); } else { BeforeGrows(bs, m + 1, k); }
    }

    method AddNodes(bs: seq<Block>, k: nat, ghost first: int)
      requires BlocksOk(bs) && k < |bs| && Built(cfg, bs, first, k, 0) && nodeCnt == first + Before(bs, k)
      requires Recorded(bs, first, k, startNodeMap, endNodeMap)
      modifies this
      ensures Built(cfg, bs, first, k + 1, 0) && nodeCnt == first + Before(bs, k + 1)
      ensures Recorded(bs, first, k + 1, startNodeMap, endNodeMap)
    {
      hide Content, Chain, BlocksOk, BlockBuilt, Same;
      ghost var before := cfg;
      var start, end := AddBlock(bs[k]);
      startNodeMap := startNodeMap[bs[k].id := start];
      endNodeMap := endNodeMap[bs[k].id := end];
      NewBuilt(before, cfg, bs, first, k);
      OtherIds(bs, k);
    }

    static lemma OtherIds(bs: seq<Block>, k: nat)
      requires BlocksOk(bs) && k < |bs|
      ensures forall j :: 0 <= j < k ==> bs[j].id != bs[k].id
    {
    }

    static lemma NewBuilt(before: map<int, Node>, after: map<int, Node>, bs: seq<Block>, first: int, k: nat)
      requires BlocksOk(bs) && k < |bs| && Built(before, bs, first, k, 0)
      requires Chain(after, NodeId(bs, first, k, 0), Content(bs[k]), |Content(bs[k])|)
      requires Same(before, after, NodeId(bs, first, k, 0), NodeId(bs, first, k, |Content(bs[k])|))
      ensures Built(after, bs, first, k + 1, 0)
    {
      hide Content, BlocksOk;
      forall j | 0 <= j < k ensures BlockBuilt(after, bs, first, j, 0) {
        assert BlockBuilt(before, bs, first, j, 0);
        OthersKept(before, after, bs, first, j, k, 0, 0);
      }
      forall x | x in after ensures first <= x < first + Before(bs, k + 1) {
        if x < NodeId(bs, first, k, 0) || NodeId(bs, first, k, |Content(bs[k])|) <= x { assert x in before; }
      }
    }

    /** Appends an edge to the start node of every successor. */
    method Link(endNode: int, succ: seq<int>, ghost ids: seq<int>)
      requires endNode in cfg && cfg[endNode].succ == [] && |ids| == |succ|
      requires forall j :: 0 <= j < |succ| ==> succ[j] in startNodeMap && startNodeMap[succ[j]] == ids[j]
      modifies this`cfg
      ensures cfg == old(cfg)[endNode := old(cfg)[endNode].(succ := ids)]
    {
      for j := 0 to |succ|
        invariant cfg == old(cfg)[endNode := old(cfg)[endNode].(succ := ids[..j])]
      {
        cfg := cfg[endNode := cfg[endNode].(succ := cfg[endNode].succ + [startNodeMap[succ[j]]])];
        assert ids[..j + 1] == ids[..j] + [ids[j]];
      }
      assert ids[..|ids|] == ids;
    }

    /** The edges from block k to its successors. */
    method AddEdges(bs: seq<Block>, k: nat, ghost first: int)
      requires BlocksOk(bs) && k < |bs| && Built(cfg, bs, first, |bs|, k)
      requires Recorded(bs, first, |bs|, startNodeMap, endNodeMap)
      modifies this`cfg
      ensures Built(cfg, bs, first, |bs|, k + 1)
    {
      hide *;
      ghost var before := cfg;
      EndIn(cfg, bs, first, k);
      EndRecorded(bs, first, k, startNodeMap, endNodeMap);
      StartsRecorded(bs, first, k, startNodeMap, endNodeMap);
      Link(endNodeMap[bs[k].id], bs[k].succ, StartsIn(bs, first, k));
      EdgesBuilt(before, cfg, bs, first, k);
    }

    static ghost function StartsIn(bs: seq<Block>, first: int, k: nat): (ids: seq<int>)
      requires BlocksOk(bs) && k < |bs|
      ensures |ids| == |bs[k].succ|
    {
      StartsOf(bs, first, bs[k].succ)
    }

    static lemma EndRecorded(bs: seq<Block>, first: int, k: nat, starts: map<int, int>, ends: map<int, int>)
      requires k < |bs| && Recorded(bs, first, |bs|, starts, ends)
      ensures bs[k].id in ends && ends[bs[k].id] == NodeId(bs, first, k, |Content(bs[k])| - 1)
    {
    }

    static lemma StartsRecorded(bs: seq<Block>, first: int, k: nat, starts: map<int, int>, ends: map<int, int>)
      requires BlocksOk(bs) && k < |bs| && Recorded(bs, first, |bs|, starts, ends)
      ensures forall j :: 0 <= j < |bs[k].succ| ==>
        bs[k].succ[j] in starts && starts[bs[k].succ[j]] == StartsIn(bs, first, k)[j]
    {
      hide Content, Recorded;
      forall j | 0 <= j < |bs[k].succ|
        ensures bs[k].succ[j] in starts && starts[bs[k].succ[j]] == StartsIn(bs, first, k)[j]
      {
        StartRecorded(bs, first, k, j, starts, ends);
      }
    }

    static lemma EndIn(cfg: map<int, Node>, bs: seq<Block>, first: int, k: nat)
      requires BlocksOk(bs) && k < |bs| && Built(cfg, bs, first, |bs|, k)
      ensures var e := NodeId(bs, first, k, |Content(bs[k])| - 1);
        e in cfg && cfg[e] == Node(e, Content(bs[k])[|Content(bs[k])| - 1], [])
    {
      assert BlockBuilt(cfg, bs, first, k, k);
    }

    static lemma StartRecorded(bs: seq<Block>, first: int, k: nat, j: nat, starts: map<int, int>, ends: map<int, int>)
      requires BlocksOk(bs) && k < |bs| && j < |bs[k].succ| && Recorded(bs, first, |bs|, starts, ends)
      ensures bs[k].succ[j] in starts && starts[bs[k].succ[j]] == StartsOf(bs, first, bs[k].succ)[j]
    {
      hide Content;
      var s := IndexOf(bs, bs[k].succ[j]);
      assert bs[s].id in starts;
    }

    static lemma EdgesBuilt(before: map<int, Node>, after: map<int, Node>, bs: seq<Block>, first: int, k: nat)
      requires BlocksOk(bs) && k < |bs| && Built(before, bs, first, |bs|, k)
      requires var e := NodeId(bs, first, k, |Content(bs[k])| - 1);
        e in before && after == before[e := before[e].(succ := StartsIn(bs, first, k))]
      ensures Built(after, bs, first, |bs|, k + 1)
    {
      hide Content, BlocksOk, StartsOf;
      assert BlockBuilt(before, bs, first, k, k);
      assert BlockBuilt(after, bs, first, k, k + 1);
      var m := k + 1;
      forall j | 0 <= j < |bs| && j != k ensures BlockBuilt(after, bs, first, j, m) {
        assert BlockBuilt(before, bs, first, j, k);
        OthersKept(before, after, bs, first, j, k, k, m);
      }
    }

    /** The nodes of all blocks, each holding the statement of its place. */
    method Create(bs: seq<Block>)
      requires BlocksOk(bs) && cfg == map[] && startNodeMap == map[] && endNodeMap == map[]
      modifies this
      ensures Lowered(bs, old(nodeCnt), cfg)
      ensures forall k, i :: 0 <= k < |bs| && 0 <= i <= LastAt(bs[k]) ==>
        NodeId(bs, old(nodeCnt), k, i) in cfg && cfg[NodeId(bs, old(nodeCnt), k, i)].stmt == StmtAt(bs[k], i)
    {
      ghost var first := nodeCnt;
      hide Content, BlocksOk, BlockBuilt;
      for k := 0 to |bs|
        invariant Built(cfg, bs, first, k, 0) && nodeCnt == first + Before(bs, k)
        invariant Recorded(bs, first, k, startNodeMap, endNodeMap)
      {
        AddNodes(bs, k, first);
      }
      for k := 0 to |bs|
        invariant Built(cfg, bs, first, |bs|, k) && Recorded(bs, first, |bs|, startNodeMap, endNodeMap)
      {
        AddEdges(bs, k, first);
      }
      AllBuilt(cfg, bs, first);
      forall k, i | 0 <= k < |bs| && 0 <= i <= LastAt(bs[k])
        ensures NodeId(bs, first, k, i) in cfg && cfg[NodeId(bs, first, k, i)].stmt == StmtAt(bs[k], i)
      {
        PlaceContent(bs[k], i);
        LoweredAt(bs, first, cfg, k, i);
      }
    }

    static lemma AllBuilt(cfg: map<int, Node>, bs: seq<Block>, first: int)
      requires BlocksOk(bs) && Built(cfg, bs, first, |bs|, |bs|)
      ensures Lowered(bs, first, cfg)
    {
      hide Content, BlocksOk, NodeOf;
      forall k, i | 0 <= k < |bs| && 0 <= i < |Content(bs[k])|
        ensures NodeId(bs, first, k, i) in cfg && cfg[NodeId(bs, first, k, i)] == NodeOf(bs, first, k, i)
      {
        assert BlockBuilt(cfg, bs, first, k, |bs|);
        assert NodeId(bs, first, k, i) == NodeId(bs, first, k, 0) + i;
      }
    }
  }
}
