/** The fixed-point loop that colours important states, and the order check of slave communication. */
module FindOperations {
  import opened Ir
  import opened Statements
  import opened Operations
  import opened Colouring
  import opened SlavesOrder

  /** What the search for paths from one state gives: its operations, or a path that never reaches a state. */
  datatype Found = Paths(operations: seq<seq<Node>>) | Spurious(path: seq<Node>)

  /** The path search: from the states coloured so far and one of them. */
  type Finder = (seq<Node>, Node) -> Found

  // ---------- Contracts of the path search ----------

  predicate Within(path: seq<Node>, cfg: set<Node>) {
    forall x :: x in path ==> x in cfg
  }

  /** An operation goes from a state to a state with none between them. */
  predicate Between(path: seq<Node>, states: seq<Node>, n: Node) {
    && |path| >= 2 && path[0] == n && path[|path| - 1] in states
    && forall x :: x in path[1..|path| - 1] ==> x !in states
  }

  /** A spurious path leaves its state for good. */
  predicate Leaves(path: seq<Node>, states: seq<Node>, n: Node) {
    path != [] && path[0] == n && forall x :: x in path[1..] ==> x !in states
  }

  ghost predicate FoundOk(f: Found, cfg: set<Node>, states: seq<Node>, n: Node) {
    match f
    case Paths(ops) => forall p :: p in ops ==> Within(p, cfg) && Between(p, states, n)
    case Spurious(p) => Within(p, cfg) && Leaves(p, states, n)
  }

  ghost predicate FinderOk(find: Finder, cfg: set<Node>) {
    forall states: seq<Node>, n: Node :: n in states && Within(states, cfg) ==> FoundOk(find(states, n), cfg, states, n)
  }

  // ---------- What one round keeps ----------

  /** The paths of ops that some run to the state can be continued with. */
  function Reachable(ops: seq<seq<Node>>, n: nat, reachable: seq<Node> -> bool): seq<seq<Node>>
    requires n <= |ops|
  {
    if n == 0 then [] else Reachable(ops, n - 1, reachable) + if reachable(ops[n - 1]) then [ops[n - 1]] else []
  }

  /** The operations of the first k states, none of which has a spurious path. */
  function Kept(find: Finder, reachable: seq<Node> -> bool, states: seq<Node>, k: nat): seq<seq<Node>>
    requires k <= |states| && forall i :: 0 <= i < k ==> find(states, states[i]).Paths?
  {
    if k == 0 then []
    else
      var ops := find(states, states[k - 1]).operations;
      Kept(find, reachable, states, k - 1) + Reachable(ops, |ops|, reachable)
  }

  lemma {:induction false} ReachableSource(ops: seq<seq<Node>>, n: nat, reachable: seq<Node> -> bool)
    requires n <= |ops|
    ensures forall p :: p in Reachable(ops, n, reachable) <==> p in ops[..n] && reachable(p)
    decreases n
  {
    if n > 0 {
      ReachableSource(ops, n - 1, reachable);
      assert ops[..n] == ops[..n - 1] + [ops[n - 1]];
    }
  }

  ghost predicate OperationOk(p: seq<Node>, cfg: set<Node>, states: seq<Node>) {
    Within(p, cfg) && |p| >= 2 && Between(p, states, p[0]) && p[0] in states
  }

  lemma {:induction false} KeptOk(find: Finder, reachable: seq<Node> -> bool, cfg: set<Node>, states: seq<Node>, k: nat)
    requires FinderOk(find, cfg) && Within(states, cfg) && k <= |states|
    requires forall i :: 0 <= i < k ==> find(states, states[i]).Paths?
    ensures forall p :: p in Kept(find, reachable, states, k) ==> OperationOk(p, cfg, states) && reachable(p)
    decreases k
  {
    hide Within, Between;
    if k > 0 {
      KeptOk(find, reachable, cfg, states, k - 1);
      var n := states[k - 1];
      var ops := find(states, n).operations;
      ReachableSource(ops, |ops|, reachable);
      assert ops[..|ops|] == ops;
      assert FoundOk(find(states, n), cfg, states, n);
      forall p | p in Reachable(ops, |ops|, reachable) ensures OperationOk(p, cfg, states) && reachable(p) {
        assert p in ops;
        BetweenStart(p, states, n);
      }
    }
  }

  lemma {:induction false} KeptExact(find: Finder, reachable: seq<Node> -> bool, states: seq<Node>, k: nat, p: seq<Node>)
    requires k <= |states| && forall i :: 0 <= i < k ==> find(states, states[i]).Paths?
    ensures p in Kept(find, reachable, states, k) <==>
      reachable(p) && exists i :: 0 <= i < k && p in find(states, states[i]).operations
    decreases k
  {
    if k > 0 {
      var ops := find(states, states[k - 1]).operations;
      KeptExact(find, reachable, states, k - 1, p);
      ReachableSource(ops, |ops|, reachable);
      assert ops[..|ops|] == ops;
    }
  }

  /** The search gives this path from state i, and no state up to it has a spurious path. */
  ghost predicate Given(find: Finder, states: seq<Node>, i: nat, p: seq<Node>) {
    && i < |states| && (forall j :: 0 <= j <= i ==> find(states, states[j]).Paths?)
    && p in find(states, states[i]).operations
  }

  /** Kept are the paths the search gives before the first spurious one and that some run can go on with, all of them. */
  lemma KeptGiven(find: Finder, reachable: seq<Node> -> bool, states: seq<Node>)
    ensures var k := FirstSpurious(find, states, 0);
      forall p :: p in Kept(find, reachable, states, k) <==> reachable(p) && exists i: nat :: Given(find, states, i, p)
  {
    var k := FirstSpurious(find, states, 0);
    forall p ensures p in Kept(find, reachable, states, k) <==> reachable(p) && exists i: nat :: Given(find, states, i, p) {
      KeptExact(find, reachable, states, k, p);
      if reachable(p) && exists i: nat :: Given(find, states, i, p) {
        var i: nat :| Given(find, states, i, p);
        assert i < k;
      }
      if i :| 0 <= i < k && p in find(states, states[i]).operations { assert Given(find, states, i, p); }
    }
  }

  lemma BetweenStart(p: seq<Node>, states: seq<Node>, n: Node)
    requires Between(p, states, n)
    ensures |p| >= 2 && p[0] == n
  {
  }

  // ---------- Slave modules ----------

  predicate IsSlave(n: Node) {
    n.stmt.Some? && (n.stmt.value.Read? || n.stmt.value.Write?) && n.stmt.value.port.iface == Slave
  }

  predicate IsSlaveIn(n: Node) {
    IsSlave(n) && n.stmt.value.port.dir == In
  }

  /** The slave ports accessed by the first n nodes, in order. */
  function Accesses(path: seq<Node>, n: nat): seq<string>
    requires n <= |path|
  {
    if n == 0 then [] else Accesses(path, n - 1) + if IsSlave(path[n - 1]) then [path[n - 1].stmt.value.port.name] else []
  }

  /** The reset path reads no slave port; every other path reads each slave-in port once and then writes each slave-out port. */
  ghost predicate SlaveLegal(path: seq<Node>, ins: set<string>, outs: set<string>)
    requires path != []
  {
    if path[0].stmt.None? then forall x :: x in path ==> !IsSlaveIn(x) else Ordered(Accesses(path, |path|), ins, outs)
  }

  /** The nodes access slave ports of the module only. */
  ghost predicate PortsKnown(cfg: set<Node>, ins: set<string>, outs: set<string>) {
    && ins !! outs
    && forall x :: x in cfg && IsSlave(x) ==> x.stmt.value.port.name in if x.stmt.value.port.dir == In then ins else outs
  }

  lemma {:induction false} AccessesKnown(path: seq<Node>, n: nat, cfg: set<Node>, ins: set<string>, outs: set<string>)
    requires n <= |path| && Within(path, cfg) && PortsKnown(cfg, ins, outs)
    ensures forall p :: p in Accesses(path, n) ==> p in ins + outs
    decreases n
  {
    if n > 0 {
      AccessesKnown(path, n - 1, cfg, ins, outs);
      assert path[n - 1] in path;
    }
  }

  // ---------- One pass over the graph ----------

  /** The first state, from i on, with a spurious path. */
  function FirstSpurious(find: Finder, states: seq<Node>, i: nat): (k: nat)
    requires i <= |states|
    ensures i <= k <= |states| && forall j :: i <= j < k ==> find(states, states[j]).Paths?
    ensures k < |states| ==> find(states, states[k]).Spurious?
    decreases |states| - i
  {
    if i == |states| || find(states, states[i]).Spurious? then i else FirstSpurious(find, states, i + 1)
  }

  /** What the check colours: in the first operation that is not legal. */
  function FirstToColour(ops: seq<seq<Node>>): Option<Node>
    requires forall p :: p in ops ==> |p| >= 2
  {
    if ops == [] then None
    else
      assert ops[0] in ops;
      var c := ToColour(ops[0]);
      if c.Some? then c else FirstToColour(ops[1..])
  }

  datatype Pass = Throws(error: Error) | Recolours(state: Node) | Ends(operations: seq<seq<Node>>)

  /** A module with slave ports is a slave module. */
  predicate SlaveModule(ins: set<string>, outs: set<string>) {
    ins + outs != {}
  }

  /**
   * What one pass comes to. It goes up to the first spurious path. That one throws in a slave module, and is broken at a
   * new state otherwise; if there is none to break it at, it throws, and if the state is not new, the operations found
   * before it are checked like those of a pass to the end.
   */
  ghost function PassOf(find: Finder, reachable: seq<Node> -> bool, ins: set<string>, outs: set<string>, cfg: set<Node>,
                        states: seq<Node>): Pass
    requires FinderOk(find, cfg) && Within(states, cfg)
  {
    var k := FirstSpurious(find, states, 0);
    var broken := if k < |states| then Some(BreakAt(find(states, states[k]).path)) else None;
    if broken.Some? && (SlaveModule(ins, outs) || broken.value.Err?) then Throws(InvalidPath)
    else if broken.Some? && broken.value.value !in states then Recolours(broken.value.value)
    else
      KeptOk(find, reachable, cfg, states, k);
      var ops := Kept(find, reachable, states, k);
      if SlaveModule(ins, outs) && exists p :: p in ops && !SlaveLegal(p, ins, outs) then Throws(InvalidPath)
      else
        var c := FirstToColour(ops);
        if c.None? then Ends(ops) else if SlaveModule(ins, outs) then Throws(NotAllowed) else Recolours(c.value)
  }

  /** After n passes that each coloured a new state, the states are these. */
  ghost predicate Recoloured(find: Finder, reachable: seq<Node> -> bool, ins: set<string>, outs: set<string>, cfg: set<Node>,
                             states: seq<Node>, n: nat, last: seq<Node>)
    requires FinderOk(find, cfg) && Within(states, cfg)
    decreases n
  {
    if n == 0 then states == last
    else
      var pass := PassOf(find, reachable, ins, outs, cfg, states);
      && pass.Recolours? && pass.state in cfg
      && Recoloured(find, reachable, ins, outs, cfg, states + [pass.state], n - 1, last)
  }

  /** Operations that may be kept on a normal exit. */
  ghost predicate Admitted(p: seq<Node>, ins: set<string>, outs: set<string>)
    requires |p| >= 2
  {
    Legal(p) && (SlaveModule(ins, outs) ==> SlaveLegal(p, ins, outs))
  }

  lemma {:induction false} FirstToColourExact(ops: seq<seq<Node>>)
    requires forall p :: p in ops ==> |p| >= 2
    ensures FirstToColour(ops).None? <==> forall p :: p in ops ==> Legal(p)
    ensures FirstToColour(ops).Some? ==> exists p :: p in ops && ToColour(p) == FirstToColour(ops)
    decreases |ops|
  {
    hide ToColour, Legal;
    if ops != [] {
      assert ops[0] in ops;
      ToColourExact(ops[0]);
      FirstToColourExact(ops[1..]);
      assert ops == [ops[0]] + ops[1..];
    }
  }

  /** State k is the first with a spurious path, and that path has no master to break it at. */
  ghost predicate Unbreakable(find: Finder, states: seq<Node>, k: nat) {
    && k < |states| && (forall i :: 0 <= i < k ==> find(states, states[i]).Paths?)
    && var f := find(states, states[k]); f.Spurious? && BreakAt(f.path).Err?
  }

  lemma UnbreakableFirst(find: Finder, states: seq<Node>)
    ensures var k := FirstSpurious(find, states, 0);
      (exists j: nat :: Unbreakable(find, states, j)) <==> k < |states| && BreakAt(find(states, states[k]).path).Err?
  {
    hide BreakAt;
    var k := FirstSpurious(find, states, 0);
    if k < |states| && BreakAt(find(states, states[k]).path).Err? { assert Unbreakable(find, states, k); }
  }

  /** Some state has a spurious path. */
  ghost predicate AnySpurious(find: Finder, states: seq<Node>) {
    exists j :: 0 <= j < |states| && find(states, states[j]).Spurious?
  }

  lemma SpuriousFirst(find: Finder, states: seq<Node>)
    ensures AnySpurious(find, states) <==> FirstSpurious(find, states, 0) < |states|
  {
  }

  /** When a pass throws. */
  lemma PassThrows(find: Finder, reachable: seq<Node> -> bool, ins: set<string>, outs: set<string>, cfg: set<Node>,
                   states: seq<Node>)
    requires FinderOk(find, cfg) && Within(states, cfg)
    ensures PassOf(find, reachable, ins, outs, cfg, states).Throws? <==>
      if SlaveModule(ins, outs) then
        || AnySpurious(find, states)
        || exists p :: p in Kept(find, reachable, states, |states|) && |p| >= 2 && !Admitted(p, ins, outs)
      else exists j: nat :: Unbreakable(find, states, j)
  {
    hide BreakAt, Legal, ToColour, SlaveLegal, Unbreakable, AnySpurious, OperationOk, Within, FinderOk, Kept, FirstToColour;
    UnbreakableFirst(find, states);
    SpuriousFirst(find, states);
    KeptFacts(find, reachable, cfg, states, FirstSpurious(find, states, 0));
  }

  lemma KeptFacts(find: Finder, reachable: seq<Node> -> bool, cfg: set<Node>, states: seq<Node>, k: nat)
    requires FinderOk(find, cfg) && Within(states, cfg) && k <= |states|
    requires forall i :: 0 <= i < k ==> find(states, states[i]).Paths?
    ensures var ops := Kept(find, reachable, states, k);
      && (forall p :: p in ops ==> |p| >= 2 && OperationOk(p, cfg, states) && reachable(p))
      && (FirstToColour(ops).None? <==> forall p :: p in ops ==> Legal(p))
  {
    hide FinderOk, Kept, Legal, FirstToColour;
    KeptOk(find, reachable, cfg, states, k);
    FirstToColourExact(Kept(find, reachable, states, k));
  }

  class Finding {
    const slaveModule: bool
    const ins: set<string>
    const outs: set<string>
    const order: SlaveOrder
    var importantStates: seq<Node>
    var operations: seq<seq<Node>>
    var newImportantState: bool

    constructor (initial: seq<Node>, ins: set<string>, outs: set<string>)
      ensures importantStates == initial && operations == [] && !newImportantState
      ensures this.ins == ins && this.outs == outs && OrderOk() && fresh(order)
    {
      importantStates, operations, newImportantState := initial, [], false;
      this.ins, this.outs, slaveModule := ins, outs, ins + outs != {};
      order := new SlaveOrder(ins, outs);
    }

    /** The order check knows the slave ports of the module. */
    ghost predicate OrderOk()
      reads this, order
    {
      && (slaveModule <==> SlaveModule(ins, outs))
      && order.slaveInOrder.Keys == ins && order.slaveOutOrder.Keys == outs
    }

    /** The node a path has to be broken at, none for a legal path. */
    method CheckPath(path: seq<Node>) returns (c: Option<Node>)
      requires |path| >= 2
      ensures c == ToColour(path)
    {
      var pathMasters: seq<Node> := [];
      for i := 1 to |path| - 1
        invariant pathMasters == Masters(path, 1, i) && FirstChoice(path, None, 1, i).None?
      {
        var n := path[i];
        if IsMaster(n) {
          var found := Earlier(pathMasters, None, n);
          if found.Some? {
            FirstStays(path, None, 1, i + 1, |path| - 1);
            return found;
          }
          pathMasters := pathMasters + [n];
        }
      }
      return None;
    }

    static lemma {:induction false} FirstStays(path: seq<Node>, start: Option<Node>, from: nat, i: nat, n: nat)
      requires from <= i <= n <= |path| && FirstChoice(path, start, from, i).Some?
      ensures FirstChoice(path, start, from, n) == FirstChoice(path, start, from, i)
      decreases n
    {
      hide Choice, Masters;
      if i < n { FirstStays(path, start, from, i, n - 1); }
    }

    /** What to colour when master n follows the masters so far: searches them backwards and then forwards. */
    method Earlier(pathMasters: seq<Node>, start: Option<Node>, n: Node) returns (c: Option<Node>)
      ensures c == Choice(pathMasters, start, n)
    {
      hide IsMaster, MasterRead, MasterWrite, SamePort;
      assert pathMasters[..|pathMasters|] == pathMasters;
      if MasterRead(n) {
        var j := |pathMasters|;
        while j > 0
          invariant 0 <= j <= |pathMasters| && LastWrite(pathMasters) == LastWrite(pathMasters[..j])
        {
          j := j - 1;
          assert pathMasters[..j + 1][..j] == pathMasters[..j];
          if MasterWrite(pathMasters[j]) {
            return Some(pathMasters[j]);
          }
        }
      }
      assert pathMasters[..0] == [];
      for i := 0 to |pathMasters|
        invariant MasterRead(n) ==> LastWrite(pathMasters).None?
        invariant FirstSame(pathMasters[..i], n).None?
      {
        assert pathMasters[..i + 1][..i] == pathMasters[..i];
        if SamePort(pathMasters[i], n) {
          assert FirstSame(pathMasters[..i + 1], n) == Some(pathMasters[i]);
          SameStays(pathMasters, i + 1, n);
          return Some(if Some(pathMasters[i]) == start || MasterRead(n) then n else pathMasters[i]);
        }
      }
      return None;
    }

    static lemma {:induction false} SameStays(ms: seq<Node>, i: nat, n: Node)
      requires i <= |ms| && FirstSame(ms[..i], n).Some?
      ensures FirstSame(ms, n) == FirstSame(ms[..i], n)
      decreases |ms|
    {
      hide SamePort;
      if i < |ms| {
        assert ms[..|ms| - 1][..i] == ms[..i];
        SameStays(ms[..|ms| - 1], i, n);
      } else {
        assert ms[..i] == ms;
      }
    }

    /** Colours a node unless it is coloured already. */
    method Colour(n: Node)
      modifies this`importantStates, this`newImportantState
      ensures importantStates == if n in old(importantStates) then old(importantStates) else old(importantStates) + [n]
      ensures newImportantState == (old(newImportantState) || n !in old(importantStates))
    {
      if n !in importantStates {
        importantStates := importantStates + [n];
        newImportantState := true;
      }
    }

    /** Colours the node a spurious path is broken at; on a path without a master it throws. */
    method ProcessSpurious(path: seq<Node>) returns (err: Option<Error>)
      requires path != []
      modifies this`importantStates, this`newImportantState
      ensures err == if BreakAt(path).Err? then Some(InvalidPath) else None
      ensures err.Some? ==> importantStates == old(importantStates) && newImportantState == old(newImportantState)
      ensures err.None? ==> var t, states := BreakAt(path).value, old(importantStates);
        && importantStates == (if t in states then states else states + [t])
        && newImportantState == (old(newImportantState) || t !in states)
    {
      var pathMasters: seq<Node> := [];
      for i := 0 to |path|
        invariant pathMasters == Masters(path, 0, i) && FirstChoice(path, Some(path[0]), 0, i).None?
        invariant importantStates == old(importantStates) && newImportantState == old(newImportantState)
      {
        var n := path[i];
        if IsMaster(n) {
          var found := Earlier(pathMasters, Some(path[0]), n);
          if found.Some? {
            FirstStays(path, Some(path[0]), 0, i + 1, |path|);
            Colour(found.value);
            return None;
          }
          pathMasters := pathMasters + [n];
        }
      }
      if pathMasters != [] {
        Colour(pathMasters[|pathMasters| - 1]);
        return None;
      }
      return Some(InvalidPath);
    }

    /** Colours a node of the first operation that is not legal. */
    method CheckForMasters()
      requires forall p :: p in operations ==> |p| >= 2
      modifies this`importantStates, this`newImportantState
      ensures var c := FirstToColour(operations);
        if c.None? then importantStates == old(importantStates) && newImportantState == old(newImportantState)
        else importantStates == old(importantStates) + [c.value] && newImportantState
    {
      hide ToColour;
      assert operations[0..] == operations;
      for i := 0 to |operations|
        invariant importantStates == old(importantStates) && newImportantState == old(newImportantState)
        invariant FirstToColour(operations) == FirstToColour(operations[i..])
      {
        assert operations[i..][0] == operations[i] && operations[i..][1..] == operations[i + 1..];
        var c := CheckPath(operations[i]);
        if c.Some? {
          importantStates := importantStates + [c.value];
          newImportantState := true;
          return;
        }
      }
      assert operations[|operations|..] == [];
    }

    /** Throws on a reset path with a slave input, and on any other path whose slave ports are not in order. */
    method CheckForSlaves(ghost cfg: set<Node>) returns (err: Option<Error>)
      requires OrderOk() && PortsKnown(cfg, ins, outs)
      requires forall i :: 0 <= i < |operations| ==> operations[i] != [] && Within(operations[i], cfg)
      modifies order
      ensures OrderOk() && (err.Some? ==> err == Some(InvalidPath))
      ensures err.None? <==> forall i :: 0 <= i < |operations| ==> SlaveLegal(operations[i], ins, outs)
    {
      hide SlaveLegal, PortsKnown, Within;
      for i := 0 to |operations|
        invariant OrderOk() && forall j :: 0 <= j < i ==> SlaveLegal(operations[j], ins, outs)
      {
        var ok := CheckSlavePath(operations[i], cfg);
        if !ok {
          return Some(InvalidPath);
        }
      }
      err := None;
    }

    method CheckSlavePath(path: seq<Node>, ghost cfg: set<Node>) returns (ok: bool)
      requires OrderOk() && PortsKnown(cfg, ins, outs) && path != [] && Within(path, cfg)
      modifies order
      ensures OrderOk() && (ok <==> SlaveLegal(path, ins, outs))
    {
      hide Ordered;
      var resetProperty := path[0].stmt.None?;
      var pathSlaves: seq<string> := [];
      for i := 0 to |path|
        invariant pathSlaves == Accesses(path, i) && OrderOk()
        invariant resetProperty ==> forall j :: 0 <= j < i ==> !IsSlaveIn(path[j])
      {
        if IsSlave(path[i]) {
          pathSlaves := pathSlaves + [path[i].stmt.value.port.name];
          if path[i].stmt.value.port.dir == In && resetProperty {
            assert path[i] in path && IsSlaveIn(path[i]);
            return false;
          }
        }
      }
      ok := true;
      if !resetProperty {
        AccessesKnown(path, |path|, cfg, ins, outs);
        ok := order.CheckSlavesOrder(pathSlaves);
      }
    }

    /** The states: distinct nodes of the graph. */
    ghost predicate StatesOk(cfg: set<Node>)
      reads this`importantStates
    {
      Within(importantStates, cfg) && forall i, j :: 0 <= i < j < |importantStates| ==> importantStates[i] != importantStates[j]
    }

    lemma OneState(cfg: set<Node>)
      requires |importantStates| == 1 && Within(importantStates, cfg)
      ensures StatesOk(cfg)
    {
    }

    static ghost function Uncoloured(cfg: set<Node>, states: seq<Node>): set<Node> {
      set x | x in cfg && x !in states
    }

    static lemma Progress(cfg: set<Node>, before: seq<Node>, after: seq<Node>)
      requires before < after && Within(after, cfg)
      requires forall i, j :: 0 <= i < j < |after| ==> after[i] != after[j]
      ensures Uncoloured(cfg, after) < Uncoloured(cfg, before)
    {
      var x := after[|before|];
      assert forall i :: 0 <= i < |before| ==> before[i] == after[i];
      assert x in Uncoloured(cfg, before) && x !in Uncoloured(cfg, after);
    }

    /** Only masters are coloured. */
    static ghost predicate MastersAdded(before: seq<Node>, after: seq<Node>) {
      before <= after && forall x :: x in after ==> x in before || IsMaster(x)
    }

    /** Collects the operations state by state up to the first spurious path, which is broken if it can be. */
    method Search(find: Finder, reachable: seq<Node> -> bool, ghost cfg: set<Node>) returns (err: Option<Error>)
      requires FinderOk(find, cfg) && Within(importantStates, cfg) && !newImportantState && OrderOk()
      modifies this`importantStates, this`newImportantState, this`operations
      ensures var states := old(importantStates);
        var k := FirstSpurious(find, states, 0);
        && operations == Kept(find, reachable, states, k)
        && if k == |states| then err.None? && importantStates == states && !newImportantState
           else
             var b := BreakAt(find(states, states[k]).path);
             if slaveModule || b.Err? then err == Some(InvalidPath)
             else
               && err.None? && (newImportantState <==> b.value !in states)
               && importantStates == if b.value in states then states else states + [b.value]
    {
      hide BreakAt, Within, Leaves, Between;
      operations := [];
      err := None;
      ghost var states := importantStates;
      for i := 0 to |importantStates|
        invariant importantStates == states && !newImportantState
        invariant FirstSpurious(find, states, 0) == FirstSpurious(find, states, i)
        invariant forall j :: 0 <= j < i ==> find(states, states[j]).Paths?
        invariant operations == Kept(find, reachable, states, i)
      {
        var n := importantStates[i];
        var f := find(importantStates, n);
        assert FoundOk(f, cfg, states, n);
        if f.Spurious? {
          if slaveModule {
            err := Some(InvalidPath);
          } else {
            LeavesSome(f.path, states, n);
            err := ProcessSpurious(f.path);
          }
          return;
        }
        AddReachable(f.operations, reachable);
      }
    }

    static lemma LeavesSome(path: seq<Node>, states: seq<Node>, n: Node)
      requires Leaves(path, states, n)
      ensures path != []
    {
    }

    /** The operations that some run can go on with. */
    method AddReachable(ops: seq<seq<Node>>, reachable: seq<Node> -> bool)
      modifies this`operations
      ensures operations == old(operations) + Reachable(ops, |ops|, reachable)
    {
      for j := 0 to |ops|
        invariant operations == old(operations) + Reachable(ops, j, reachable)
      {
        if reachable(ops[j]) {
          operations := operations + [ops[j]];
        }
      }
    }

    /** One pass: the search, and the checks unless it coloured a state. */
    method Round(find: Finder, reachable: seq<Node> -> bool, ghost cfg: set<Node>) returns (err: Option<Error>)
      requires FinderOk(find, cfg) && Within(importantStates, cfg) && OrderOk() && PortsKnown(cfg, ins, outs)
      modifies this`importantStates, this`newImportantState, this`operations, order
      ensures OrderOk()
      ensures match PassOf(find, reachable, ins, outs, cfg, old(importantStates))
        case Throws(e) => err == Some(e)
        case Recolours(c) => err.None? && newImportantState && importantStates == old(importantStates) + [c]
        case Ends(ops) => err.None? && !newImportantState && importantStates == old(importantStates) && operations == ops
    {
      hide BreakAt, Kept, Within, Between, Legal, ToColour, SlaveLegal, FirstToColour, PortsKnown;
      newImportantState := false;
      ghost var states := importantStates;
      err := Search(find, reachable, cfg);
      if err.Some? || newImportantState {
        return;
      }
      ghost var k := FirstSpurious(find, states, 0);
      KeptOk(find, reachable, cfg, states, k);
      assert forall i :: 0 <= i < |operations| ==> operations[i] in operations && OperationOk(operations[i], cfg, states);
      if slaveModule {
        err := CheckForSlaves(cfg);
        if err.Some? {
          return;
        }
      }
      CheckForMasters();
      if slaveModule && newImportantState {
        err := Some(NotAllowed);
      }
    }

    /** Repeats passes until no new state is coloured. */
    method ProcessCfg(find: Finder, reachable: seq<Node> -> bool, ghost cfg: set<Node>)
        returns (err: Option<Error>, ghost rounds: nat, ghost last: seq<Node>)
      requires FinderOk(find, cfg) && StatesOk(cfg) && OrderOk() && PortsKnown(cfg, ins, outs)
      modifies this`importantStates, this`newImportantState, this`operations, order
      ensures MastersAdded(old(importantStates), last) && Within(last, cfg)
      ensures Recoloured(find, reachable, ins, outs, cfg, old(importantStates), rounds, last)
      ensures match PassOf(find, reachable, ins, outs, cfg, last)
        case Throws(e) => err == Some(e)
        case Recolours(_) => false
        case Ends(ops) => err.None? && importantStates == last && operations == ops
      ensures err.None? ==> StatesOk(cfg)
      ensures err.None? ==> forall p :: p in operations ==> OperationOk(p, cfg, last) && reachable(p) && Admitted(p, ins, outs)
      ensures err.None? && slaveModule ==> !AnySpurious(find, last) && operations == Kept(find, reachable, last, |last|)
      ensures err.None? ==> forall p :: p in operations <==> reachable(p) && exists i: nat :: Given(find, last, i, p)
      ensures err.Some? <==>
        if slaveModule then
          || AnySpurious(find, last)
          || exists p :: p in Kept(find, reachable, last, |last|) && |p| >= 2 && !Admitted(p, ins, outs)
        else exists j: nat :: Unbreakable(find, last, j)
    {
      hide PassOf, FinderOk, Unbreakable, AnySpurious, OperationOk, Admitted, PortsKnown, Kept, Given, StartsStuck,
           FirstSpurious;
      rounds, last := 0, importantStates;
      err := None;
      var more := true;
      while more
        invariant StatesOk(cfg) && OrderOk() && MastersAdded(old(importantStates), importantStates) && last == importantStates
        invariant Recoloured(find, reachable, ins, outs, cfg, old(importantStates), rounds, last)
        invariant err.None?
        invariant !more ==> PassOf(find, reachable, ins, outs, cfg, last) == Ends(operations)
        decreases more, Uncoloured(cfg, importantStates)
      {
        err := Round(find, reachable, cfg);
        PassThrows(find, reachable, ins, outs, cfg, last);
        if err.Some? {
          return;
        }
        more := newImportantState;
        if more {
          RecoloursNew(find, reachable, ins, outs, cfg, last);
          OneMoreRound(find, reachable, ins, outs, cfg, old(importantStates), rounds, last);
          Progress(cfg, last, importantStates);
          rounds, last := rounds + 1, importantStates;
        }
      }
      PassThrows(find, reachable, ins, outs, cfg, last);
      PassEnds(find, reachable, ins, outs, cfg, last);
      EndsShort(find, reachable, ins, outs, cfg, last);
      KeptGiven(find, reachable, last);
    }
  }

  /** A pass colours a master of the graph that is no state yet. */
  lemma RecoloursNew(find: Finder, reachable: seq<Node> -> bool, ins: set<string>, outs: set<string>, cfg: set<Node>,
                     states: seq<Node>)
    requires FinderOk(find, cfg) && Within(states, cfg) && PassOf(find, reachable, ins, outs, cfg, states).Recolours?
    ensures var c := PassOf(find, reachable, ins, outs, cfg, states).state;
      IsMaster(c) && c in cfg && c !in states && !SlaveModule(ins, outs)
  {
    hide BreakAt, ToColour, Legal, IsMaster, SlaveLegal;
    var k := FirstSpurious(find, states, 0);
    KeptOk(find, reachable, cfg, states, k);
    var ops := Kept(find, reachable, states, k);
    if k < |states| {
      var p := find(states, states[k]).path;
      assert FoundOk(find(states, states[k]), cfg, states, states[k]);
      BreakAtExact(p);
    }
    FirstToColourExact(ops);
    if FirstToColour(ops).Some? {
      var p :| p in ops && ToColour(p) == FirstToColour(ops);
      ToColourExact(p);
      InsideIsNew(p, cfg, states, ToColour(p).value);
    }
  }

  /** Of the states searched in order, i is the first with a spurious path, and that is broken at c. */
  ghost predicate BrokenAt(find: Finder, states: seq<Node>, i: nat, c: Node) {
    && i < |states| && (forall j :: 0 <= j < i ==> find(states, states[j]).Paths?)
    && find(states, states[i]).Spurious? && BreakAt(find(states, states[i]).path) == Ok(c) && c !in states
  }

  /** A path that is kept but not legal, to be coloured at c. */
  ghost predicate ColouredAt(find: Finder, reachable: seq<Node> -> bool, states: seq<Node>, p: seq<Node>, c: Node) {
    reachable(p) && (exists i: nat :: Given(find, states, i, p)) && |p| >= 2 && !Legal(p) && ToColour(p) == Some(c)
  }

  /** What a pass colours: where the first spurious path is broken, or what the check picks in a kept operation that is not legal. */
  lemma RecoloursPicks(find: Finder, reachable: seq<Node> -> bool, ins: set<string>, outs: set<string>, cfg: set<Node>,
                       states: seq<Node>)
    requires FinderOk(find, cfg) && Within(states, cfg) && PassOf(find, reachable, ins, outs, cfg, states).Recolours?
    ensures var c := PassOf(find, reachable, ins, outs, cfg, states).state;
      (exists i: nat :: BrokenAt(find, states, i, c)) || exists p :: ColouredAt(find, reachable, states, p, c)
  {
    hide BreakAt, ToColour, Legal, IsMaster, SlaveLegal, Kept, FinderOk;
    var k := FirstSpurious(find, states, 0);
    var c := PassOf(find, reachable, ins, outs, cfg, states).state;
    if k < |states| && BreakAt(find(states, states[k]).path) == Ok(c) && c !in states {
      assert BrokenAt(find, states, k, c);
    } else {
      KeptOk(find, reachable, cfg, states, k);
      KeptGiven(find, reachable, states);
      var ops := Kept(find, reachable, states, k);
      FirstToColourExact(ops);
      var p :| p in ops && ToColour(p) == FirstToColour(ops);
      ToColourExact(p);
      assert ColouredAt(find, reachable, states, p, c);
    }
  }

  lemma InsideIsNew(p: seq<Node>, cfg: set<Node>, states: seq<Node>, c: Node)
    requires OperationOk(p, cfg, states) && c in p[1..|p| - 1]
    ensures c in cfg && c !in states
  {
    assert c in p;
  }

  lemma {:induction false} OneMoreRound(find: Finder, reachable: seq<Node> -> bool, ins: set<string>, outs: set<string>,
                                        cfg: set<Node>, states: seq<Node>, n: nat, last: seq<Node>)
    requires FinderOk(find, cfg) && Within(states, cfg) && Within(last, cfg)
    requires Recoloured(find, reachable, ins, outs, cfg, states, n, last)
    requires PassOf(find, reachable, ins, outs, cfg, last).Recolours? && PassOf(find, reachable, ins, outs, cfg, last).state in cfg
    ensures Recoloured(find, reachable, ins, outs, cfg, states, n + 1, last + [PassOf(find, reachable, ins, outs, cfg, last).state])
    decreases n
  {
    hide PassOf, FinderOk;
    if n > 0 {
      var c := PassOf(find, reachable, ins, outs, cfg, states).state;
      OneMoreRound(find, reachable, ins, outs, cfg, states + [c], n - 1, last);
    } else {
      var c := PassOf(find, reachable, ins, outs, cfg, states).state;
      assert Recoloured(find, reachable, ins, outs, cfg, states + [c], 0, states + [c]);
    }
  }

  /** What a pass without a new state keeps. */
  lemma PassEnds(find: Finder, reachable: seq<Node> -> bool, ins: set<string>, outs: set<string>, cfg: set<Node>,
                 states: seq<Node>)
    requires FinderOk(find, cfg) && Within(states, cfg) && PassOf(find, reachable, ins, outs, cfg, states).Ends?
    ensures var ops := PassOf(find, reachable, ins, outs, cfg, states).operations;
      && (forall p :: p in ops ==> OperationOk(p, cfg, states) && reachable(p) && Admitted(p, ins, outs))
      && (SlaveModule(ins, outs) ==> !AnySpurious(find, states) && ops == Kept(find, reachable, states, |states|))
  {
    hide BreakAt, Legal, ToColour, SlaveLegal, AnySpurious, OperationOk, Within, FinderOk, Kept, FirstToColour;
    SpuriousFirst(find, states);
    KeptFacts(find, reachable, cfg, states, FirstSpurious(find, states, 0));
  }

  /** A pass that ends short of the last state stopped at a spurious path whose start would be coloured, a state already. */
  lemma EndsShort(find: Finder, reachable: seq<Node> -> bool, ins: set<string>, outs: set<string>, cfg: set<Node>,
                  states: seq<Node>)
    requires FinderOk(find, cfg) && Within(states, cfg) && PassOf(find, reachable, ins, outs, cfg, states).Ends?
    ensures var k := FirstSpurious(find, states, 0);
      && PassOf(find, reachable, ins, outs, cfg, states).operations == Kept(find, reachable, states, k)
      && (k < |states| ==> !SlaveModule(ins, outs) && StartsStuck(find(states, states[k]).path))
  {
    hide ToColour, Legal, SlaveLegal, BreakAt, StartsStuck;
    var k := FirstSpurious(find, states, 0);
    if k < |states| {
      var n, p := states[k], find(states, states[k]).path;
      assert FoundOk(find(states, n), cfg, states, n);
      Broken(p, states, n, cfg);
    }
  }

  /** Breaking a spurious path colours a new node of the graph, unless it starts stuck. */
  lemma Broken(path: seq<Node>, states: seq<Node>, n: Node, cfg: set<Node>)
    requires Leaves(path, states, n) && Within(path, cfg) && n in states
    ensures BreakAt(path).Ok? ==>
      IsMaster(BreakAt(path).value) && BreakAt(path).value in cfg && (BreakAt(path).value in states <==> StartsStuck(path))
  {
    hide BreakAt;
    BreakAtExact(path);
    StuckExact(path);
    assert path == [path[0]] + path[1..];
  }

  // ---------- The states to start from ----------

  ghost function NodeSet(cfg: seq<Node>): set<Node> { set n | n in cfg }

  predicate IsInitial(n: Node) {
    n.stmt.Some? && (n.stmt.value.Wait? || ((n.stmt.value.Read? || n.stmt.value.Write?) && n.stmt.value.port.iface == Blocking))
  }

  /** The waits and blocking communications among the first n nodes, in order. */
  function Initials(cfg: seq<Node>, n: nat): seq<Node>
    requires n <= |cfg|
  {
    if n == 0 then [] else Initials(cfg, n - 1) + if IsInitial(cfg[n - 1]) then [cfg[n - 1]] else []
  }

  /** The root, for the reset operation, and then every wait and blocking communication in the order of the ids. */
  method FindInitialImportantStates(cfg: seq<Node>) returns (states: seq<Node>)
    requires cfg != []
    ensures states == [cfg[0]] + Initials(cfg, |cfg|)
    ensures forall x :: x in states <==> x == cfg[0] || (x in cfg && StateOfItself(x))
  {
    InitialsExact(cfg, |cfg|);
    assert cfg[..|cfg|] == cfg;
    states := [cfg[0]];
    for i := 0 to |cfg|
      invariant states == [cfg[0]] + Initials(cfg, i)
    {
      if IsInitial(cfg[i]) {
        states := states + [cfg[i]];
      }
    }
  }

  /** A wait, or a communication that needs its partner. */
  predicate StateOfItself(n: Node) {
    n.stmt == Some(Wait) || BlockingStart([n])
  }

  lemma {:induction false} InitialsExact(cfg: seq<Node>, n: nat)
    requires n <= |cfg|
    ensures forall x :: x in Initials(cfg, n) <==> x in cfg[..n] && StateOfItself(x)
    decreases n
  {
    if n > 0 {
      InitialsExact(cfg, n - 1);
      assert cfg[..n] == cfg[..n - 1] + [cfg[n - 1]];
      assert IsInitial(cfg[n - 1]) <==> StateOfItself(cfg[n - 1]);
      hide IsInitial, StateOfItself;
    }
  }

  /** The nodes of the graph that are no states hold neither a wait nor a communication that needs its partner. */
  ghost predicate NothingBetween(p: seq<Node>) {
    forall i :: 0 < i < |p| - 1 ==> !StateOfItself(p[i])
  }

  /**
   * The whole search: from the initial states to the operations. Every wait and every communication that needs its partner
   * is a state at the end, other states are the root and masters, and no operation passes one on its way.
   */
  method FindAll(cfg: seq<Node>, find: Finder, reachable: seq<Node> -> bool, ins: set<string>, outs: set<string>)
      returns (err: Option<Error>, states: seq<Node>, operations: seq<seq<Node>>)
    requires cfg != [] && cfg[0].stmt.None? && forall i, j :: 0 <= i < j < |cfg| ==> cfg[i] != cfg[j]
    requires FinderOk(find, NodeSet(cfg)) && PortsKnown(NodeSet(cfg), ins, outs)
    ensures err.None? ==> forall x :: x in states ==> x in cfg && (x == cfg[0] || StateOfItself(x) || IsMaster(x))
    ensures err.None? ==> forall x :: x in cfg && StateOfItself(x) ==> x in states
    ensures err.None? ==> forall p :: p in operations <==> reachable(p) && exists i: nat :: Given(find, states, i, p)
    ensures err.None? ==> forall p :: p in operations ==>
      OperationOk(p, NodeSet(cfg), states) && reachable(p) && Admitted(p, ins, outs) && NothingBetween(p)
  {
    hide PassOf, FinderOk, StateOfItself, IsMaster, Admitted, PortsKnown, Kept, IsInitial, Initials, Recoloured,
         Unbreakable, AnySpurious, Given;
    ghost var nodes := NodeSet(cfg);
    InitialStatesOk(cfg);
    states := FindInitialImportantStates(cfg);
    var finding := new Finding(states, ins, outs);
    ghost var rounds, last;
    err, rounds, last := finding.ProcessCfg(find, reachable, nodes);
    states, operations := finding.importantStates, finding.operations;
    if err.None? {
      forall p | p in operations ensures NothingBetween(p) {
        BetweenNothing(p, cfg, states);
      }
    }
  }

  lemma BetweenNothing(p: seq<Node>, cfg: seq<Node>, states: seq<Node>)
    requires OperationOk(p, NodeSet(cfg), states) && forall x :: x in cfg && StateOfItself(x) ==> x in states
    ensures NothingBetween(p)
  {
    hide StateOfItself;
    forall i | 0 < i < |p| - 1 ensures !StateOfItself(p[i]) {
      assert p[i] == p[1..|p| - 1][i - 1] && p[i] in p;
    }
  }

  lemma {:induction false} InitialsOf(cfg: seq<Node>, n: nat)
    requires n <= |cfg| && forall i, j :: 0 <= i < j < |cfg| ==> cfg[i] != cfg[j]
    ensures forall x :: x in Initials(cfg, n) <==> x in cfg[..n] && IsInitial(x)
    ensures forall i, j :: 0 <= i < j < |Initials(cfg, n)| ==> Initials(cfg, n)[i] != Initials(cfg, n)[j]
    decreases n
  {
    hide IsInitial;
    if n > 0 {
      InitialsOf(cfg, n - 1);
      assert cfg[..n] == cfg[..n - 1] + [cfg[n - 1]];
      assert cfg[n - 1] !in cfg[..n - 1];
    }
  }

  /** The root holds no statement, so the loop starts from distinct states. */
  lemma InitialStatesOk(cfg: seq<Node>)
    requires cfg != [] && cfg[0].stmt.None? && forall i, j :: 0 <= i < j < |cfg| ==> cfg[i] != cfg[j]
    ensures var s := [cfg[0]] + Initials(cfg, |cfg|);
      (forall x :: x in s ==> x in cfg) && forall i, j :: 0 <= i < j < |s| ==> s[i] != s[j]
  {
    InitialsOf(cfg, |cfg|);
    assert cfg[..|cfg|] == cfg;
    var s := [cfg[0]] + Initials(cfg, |cfg|);
    forall i, j | 0 <= i < j < |s| ensures s[i] != s[j] {
      assert s[j] in Initials(cfg, |cfg|);
    }
  }

  /** The passes that colour a state lead to one end. */
  lemma {:induction false} OneEnd(find: Finder, reachable: seq<Node> -> bool, ins: set<string>, outs: set<string>, cfg: set<Node>,
                                  states: seq<Node>, n: nat, last: seq<Node>, n': nat, last': seq<Node>)
    requires FinderOk(find, cfg) && Within(states, cfg) && Within(last, cfg) && Within(last', cfg)
    requires Recoloured(find, reachable, ins, outs, cfg, states, n, last)
    requires Recoloured(find, reachable, ins, outs, cfg, states, n', last')
    requires !PassOf(find, reachable, ins, outs, cfg, last).Recolours? && !PassOf(find, reachable, ins, outs, cfg, last').Recolours?
    ensures last == last'
    decreases n
  {
    hide PassOf, FinderOk;
    if n > 0 && n' > 0 {
      var c := PassOf(find, reachable, ins, outs, cfg, states).state;
      OneEnd(find, reachable, ins, outs, cfg, states + [c], n - 1, last, n' - 1, last');
    }
  }

  // ---------- A state that is passed over ----------

  const ROOT := Node(0, None, [1])
  const BRANCH := Node(1, Some(If(Operand(Var(Variable, "c", "", TBool)))), [2, 5])

  /** The false arm reads one port twice. */
  function FirstRead(): Node { MasterInput(5, "m", 6) }
  function SecondRead(): Node { MasterInput(6, "m", 2) }

  /** The arms meet at the last read, and then there is only a loop without a state. */
  function StuckGraph(): seq<Node> { [ROOT, BRANCH, LastRead(), LOOP, BODY, FirstRead(), SecondRead()] }

  const DIRECT := [ROOT, BRANCH, LastRead()]
  const LONG := [ROOT, BRANCH, FirstRead(), SecondRead(), LastRead()]
  const BEGUN := [ROOT, BRANCH, FirstRead(), SecondRead()]

  /** The paths from the states of this graph, in the order of its arms. */
  function StuckFinder(states: seq<Node>, n: Node): Found {
    if BRANCH in states || LOOP in states || BODY in states then Paths([])
    else if n == ROOT && LastRead() !in states then Spurious([ROOT, BRANCH, LastRead(), LOOP, BODY, LOOP])
    else if n == ROOT then
      Paths([DIRECT, if FirstRead() in states then [ROOT, BRANCH, FirstRead()] else if SecondRead() in states then BEGUN else LONG])
    else if n == LastRead() then Spurious([LastRead(), LOOP, BODY, LOOP])
    else if n == SecondRead() && LastRead() in states then Paths([[SecondRead(), LastRead()]])
    else Paths([])
  }

  ghost function StuckNodes(): set<Node> { NodeSet(StuckGraph()) }

  lemma StuckFinderOk()
    ensures FinderOk(StuckFinder, StuckNodes())
  {
    forall states: seq<Node>, n: Node | n in states && Within(states, StuckNodes())
      ensures FoundOk(StuckFinder(states, n), StuckNodes(), states, n)
    {
      if BRANCH !in states && LOOP !in states && BODY !in states {
        if n == ROOT { RootFound(states); } else { OtherFound(states, n); }
      }
    }
  }

  lemma RootFound(states: seq<Node>)
    requires ROOT in states && BRANCH !in states && LOOP !in states && BODY !in states
    ensures FoundOk(StuckFinder(states, ROOT), StuckNodes(), states, ROOT)
  {
    var g := StuckNodes();
    var first := [ROOT, BRANCH, FirstRead()];
    assert forall x :: x in DIRECT || x in LONG || x in BEGUN || x in first ==> x in g;
    assert DIRECT[1..|DIRECT| - 1] == [BRANCH] == first[1..|first| - 1];
    assert BEGUN[1..|BEGUN| - 1] == [BRANCH, FirstRead()] && LONG[1..|LONG| - 1] == [BRANCH, FirstRead(), SecondRead()];
  }

  lemma OtherFound(states: seq<Node>, n: Node)
    requires n in states && n != ROOT && BRANCH !in states && LOOP !in states && BODY !in states
    ensures FoundOk(StuckFinder(states, n), StuckNodes(), states, n)
  {
    var p, q := [LastRead(), LOOP, BODY, LOOP], [SecondRead(), LastRead()];
    assert p[1..] == [LOOP, BODY, LOOP] && q[1..|q| - 1] == [];
  }

  /** Every path is one that some run can go on with. */
  predicate Always(p: seq<Node>) { true }

  lemma KeptFirst(states: seq<Node>)
    requires states != [] && StuckFinder(states, states[0]).Paths? && |StuckFinder(states, states[0]).operations| == 2
    ensures Kept(StuckFinder, Always, states, 1) == StuckFinder(states, states[0]).operations
  {
    hide StuckFinder;
    var ops := StuckFinder(states, states[0]).operations;
    assert Kept(StuckFinder, Always, states, 1) == Kept(StuckFinder, Always, states, 0) + Reachable(ops, 2, Always);
    assert Reachable(ops, 2, Always) == Reachable(ops, 1, Always) + [ops[1]] && Reachable(ops, 1, Always) == Reachable(ops, 0, Always) + [ops[0]];
  }

  lemma StuckFirst(states: seq<Node>)
    requires |states| >= 2 && states[0] == ROOT && states[1] == LastRead()
    requires BRANCH !in states && LOOP !in states && BODY !in states
    ensures FirstSpurious(StuckFinder, states, 0) == 1 && StuckFinder(states, LastRead()) == Spurious([LastRead(), LOOP, BODY, LOOP])
  {
  }

  /** The first pass breaks the direct path to the loop at its only master. */
  lemma FirstPass()
    requires FinderOk(StuckFinder, StuckNodes())
    ensures Within([ROOT], StuckNodes()) && PassOf(StuckFinder, Always, {}, {}, StuckNodes(), [ROOT]) == Recolours(LastRead())
  {
    hide *;
    DirectBreak();
    PassBreaks(StuckFinder, StuckNodes(), [ROOT], 0, [ROOT, BRANCH, LastRead(), LOOP, BODY, LOOP], LastRead());
  }

  lemma DirectBreak()
    ensures Within([ROOT], StuckNodes()) && LastRead() !in [ROOT] && FirstSpurious(StuckFinder, [ROOT], 0) == 0
    ensures var p := [ROOT, BRANCH, LastRead(), LOOP, BODY, LOOP];
      StuckFinder([ROOT], ROOT) == Spurious(p) && BreakAt(p) == Ok(LastRead())
  {
    hide BreakAt;
    var p := [ROOT, BRANCH, LastRead(), LOOP, BODY, LOOP];
    BreakAtExact(p);
    assert p[2] == LastRead() && IsMaster(p[2]);
    assert forall x :: x in p && IsMaster(x) ==> x == LastRead();
  }

  /** A pass that stops at state k and breaks its path at a new state. */
  lemma PassBreaks(find: Finder, cfg: set<Node>, states: seq<Node>, k: nat, p: seq<Node>, t: Node)
    requires FinderOk(find, cfg) && Within(states, cfg) && k < |states| && FirstSpurious(find, states, 0) == k
    requires find(states, states[k]) == Spurious(p) && BreakAt(p) == Ok(t) && t !in states
    ensures PassOf(find, Always, {}, {}, cfg, states) == Recolours(t)
  {
    hide BreakAt, FinderOk, ToColour, Kept, Within, SlaveLegal, FirstSpurious;
    NoSlavePorts();
  }

  lemma NoSlavePorts()
    ensures !SlaveModule({}, {})
  {
    var none: set<string> := {};
    assert none + none == none;
  }

  /** A pass that stops at state k, which is a state already, with two operations found before it. */
  lemma PassStuck(find: Finder, cfg: set<Node>, states: seq<Node>, k: nat, p: seq<Node>, a: seq<Node>, b: seq<Node>)
    requires FinderOk(find, cfg) && Within(states, cfg) && k < |states| && FirstSpurious(find, states, 0) == k
    requires find(states, states[k]) == Spurious(p) && BreakAt(p).Ok? && BreakAt(p).value in states
    requires Kept(find, Always, states, k) == [a, b] && |a| >= 2 && |b| >= 2 && ToColour(a) == None
    ensures PassOf(find, Always, {}, {}, cfg, states) == if ToColour(b).Some? then Recolours(ToColour(b).value) else Ends([a, b])
  {
    hide BreakAt, FinderOk, ToColour, Kept, Within, SlaveLegal;
    NoSlavePorts();
    FirstOfTwo(a, b);
  }

  lemma FirstOfTwo(a: seq<Node>, b: seq<Node>)
    requires |a| >= 2 && |b| >= 2 && ToColour(a) == None
    ensures FirstToColour([a, b]) == ToColour(b)
  {
    hide ToColour;
    var ops := [a, b];
    assert ops[0] == a && ops[1..] == [b];
    assert [b][0] == b && [b][1..] == [];
    assert FirstToColour([b]) == ToColour(b);
  }

  /** The second is stuck at the last read, and the check colours the second read of the port. */
  lemma SecondPass()
    requires FinderOk(StuckFinder, StuckNodes())
    ensures Within([ROOT, LastRead()], StuckNodes())
    ensures PassOf(StuckFinder, Always, {}, {}, StuckNodes(), [ROOT, LastRead()]) == Recolours(SecondRead())
  {
    var states := [ROOT, LastRead()];
    StuckFinds(states);
    LegalPaths();
    hide *;
    PassStuck(StuckFinder, StuckNodes(), states, 1, [LastRead(), LOOP, BODY, LOOP], DIRECT, LONG);
  }

  /** In the third nothing is left to colour, and the search still stops at the last read. */
  lemma ThirdPass()
    requires FinderOk(StuckFinder, StuckNodes())
    ensures var states := [ROOT, LastRead(), SecondRead()];
      Within(states, StuckNodes()) && PassOf(StuckFinder, Always, {}, {}, StuckNodes(), states) == Ends([DIRECT, BEGUN])
  {
    var states := [ROOT, LastRead(), SecondRead()];
    StuckFinds(states);
    LegalPaths();
    hide *;
    PassStuck(StuckFinder, StuckNodes(), states, 1, [LastRead(), LOOP, BODY, LOOP], DIRECT, BEGUN);
  }

  /** What the search finds once the last read is a state. */
  lemma StuckFinds(states: seq<Node>)
    requires states == [ROOT, LastRead()] || states == [ROOT, LastRead(), SecondRead()]
    ensures Within(states, StuckNodes()) && FirstSpurious(StuckFinder, states, 0) == 1
    ensures StuckFinder(states, LastRead()) == Spurious([LastRead(), LOOP, BODY, LOOP])
    ensures BreakAt([LastRead(), LOOP, BODY, LOOP]) == Ok(LastRead())
    ensures Kept(StuckFinder, Always, states, 1) == [DIRECT, if |states| == 2 then LONG else BEGUN]
  {
    hide *;
    FindsFromRoot(states);
    StuckPath();
    StuckFirst(states);
    KeptFirst(states);
  }

  lemma FindsFromRoot(states: seq<Node>)
    requires states == [ROOT, LastRead()] || states == [ROOT, LastRead(), SecondRead()]
    ensures Within(states, StuckNodes()) && BRANCH !in states && LOOP !in states && BODY !in states
    ensures states[0] == ROOT && states[1] == LastRead()
    ensures StuckFinder(states, states[0]) == Paths([DIRECT, if |states| == 2 then LONG else BEGUN])
  {
  }

  lemma LegalPaths()
    ensures ToColour(DIRECT) == None && ToColour(BEGUN) == None && ToColour(LONG) == Some(SecondRead())
    ensures Legal([SecondRead(), LastRead()])
  {
    hide ToColour, Legal;
    ShortLegal(DIRECT);
    ShortLegal(BEGUN);
    ShortLegal([SecondRead(), LastRead()]);
    LongColours();
  }

  /** With one master at most inside nothing clashes. */
  lemma ShortLegal(p: seq<Node>)
    requires p == DIRECT || p == BEGUN || p == [SecondRead(), LastRead()]
    ensures Legal(p) && ToColour(p) == None
  {
    assert Legal(p) by {
      hide FirstRead, SecondRead, LastRead;
      if p == BEGUN { assert !IsMaster(p[1]); }
    }
    hide Legal, ToColour;
    ToColourExact(p);
  }

  lemma LongColours()
    ensures ToColour(LONG) == Some(SecondRead())
  {
    assert Masters(LONG, 1, 1) == [] && Masters(LONG, 1, 2) == [] && Masters(LONG, 1, 3) == [FirstRead()];
    assert FirstChoice(LONG, None, 1, 1) == FirstChoice(LONG, None, 1, 2) == None;
    FirstReadAlone();
    assert FirstChoice(LONG, None, 1, 3) == Choice([], None, FirstRead());
    assert FirstChoice(LONG, None, 1, 4) == Choice([FirstRead()], None, SecondRead());
  }

  lemma FirstReadAlone()
    ensures Choice([], None, FirstRead()) == None && Choice([FirstRead()], None, SecondRead()) == Some(SecondRead())
    ensures IsMaster(FirstRead()) && IsMaster(SecondRead())
  {
    assert [FirstRead()][..0] == [];
    assert LastWrite([FirstRead()]) == LastWrite([]) == None;
    assert FirstSame([FirstRead()], SecondRead()) == Some(FirstRead());
  }

  /**
   * From the states the tool starts with, the search ends without an exception although it stopped at a state; the
   * operation of a later state is legal and missing.
   */
  method StuckRun() returns (states: seq<Node>, operations: seq<seq<Node>>, err: Option<Error>)
    ensures err.None? && states == [ROOT, LastRead(), SecondRead()] && operations == [DIRECT, BEGUN]
    ensures StuckFinder(states, SecondRead()) == Paths([[SecondRead(), LastRead()]]) && Legal([SecondRead(), LastRead()])
    ensures [SecondRead(), LastRead()] !in operations
  {
    hide *;
    ghost var third := [ROOT, LastRead(), SecondRead()];
    StuckFinderOk();
    NoInitials();
    ThreePasses();
    ThirdPass();
    LegalPaths();
    Passed();
    var initial := FindInitialImportantStates(StuckGraph());
    var finding := new Finding(initial, {}, {});
    finding.OneState(StuckNodes());
    ghost var rounds, last;
    err, rounds, last := finding.ProcessCfg(StuckFinder, Always, StuckNodes());
    OneEnd(StuckFinder, Always, {}, {}, StuckNodes(), [ROOT], rounds, last, 2, third);
    states, operations := finding.importantStates, finding.operations;
  }

  lemma Passed()
    ensures var states := [ROOT, LastRead(), SecondRead()];
      && StuckFinder(states, SecondRead()) == Paths([[SecondRead(), LastRead()]])
      && [SecondRead(), LastRead()] !in [DIRECT, BEGUN]
    ensures PortsKnown(StuckNodes(), {}, {})
  {
  }

  lemma NoInitials()
    ensures StuckGraph() != []
    ensures [StuckGraph()[0]] + Initials(StuckGraph(), |StuckGraph()|) == [ROOT]
  {
    var g := StuckGraph();
    assert Initials(g, 1) == Initials(g, 0) == [];
    assert Initials(g, 2) == Initials(g, 3) == [];
    assert Initials(g, 4) == Initials(g, 5) == [];
    assert Initials(g, 6) == Initials(g, 7) == [];
  }

  lemma ThreePasses()
    requires FinderOk(StuckFinder, StuckNodes())
    ensures Within([ROOT], StuckNodes())
    ensures Recoloured(StuckFinder, Always, {}, {}, StuckNodes(), [ROOT], 2, [ROOT, LastRead(), SecondRead()])
  {
    FirstPass();
    SecondPass();
    hide PassOf, FinderOk;
    var g := StuckNodes();
    assert [ROOT] + [LastRead()] == [ROOT, LastRead()];
    assert [ROOT, LastRead()] + [SecondRead()] == [ROOT, LastRead(), SecondRead()];
    assert Recoloured(StuckFinder, Always, {}, {}, g, [ROOT, LastRead(), SecondRead()], 0, [ROOT, LastRead(), SecondRead()]);
    assert Recoloured(StuckFinder, Always, {}, {}, g, [ROOT, LastRead()], 1, [ROOT, LastRead(), SecondRead()]);
  }
}
