/** Which node of an illegal path is made a state, and what a legal path is. */
module Colouring {
  import opened Ir
  import opened Statements
  import opened Operations

  predicate IsMaster(n: Node) {
    n.stmt.Some? && (n.stmt.value.Read? || n.stmt.value.Write?) && n.stmt.value.port.iface == Master
  }

  predicate MasterRead(n: Node) { IsMaster(n) && n.stmt.value.Read? }

  predicate MasterWrite(n: Node) { IsMaster(n) && n.stmt.value.Write? }

  predicate SamePort(a: Node, b: Node) {
    IsMaster(a) && IsMaster(b) && a.stmt.value.port.name == b.stmt.value.port.name
  }

  /** What may not stand in this order inside an operation: a read after a write, or one port twice. */
  predicate Clash(a: Node, b: Node) {
    SamePort(a, b) || (MasterWrite(a) && MasterRead(b))
  }

  ghost predicate Legal(path: seq<Node>) {
    forall i, j :: 1 <= i < j < |path| - 1 ==> !Clash(path[i], path[j])
  }

  // ---------- The choice ----------

  function Masters(path: seq<Node>, from: nat, n: nat): seq<Node>
    requires from <= n <= |path|
  {
    if n == from then [] else Masters(path, from, n - 1) + if IsMaster(path[n - 1]) then [path[n - 1]] else []
  }

  function LastWrite(ms: seq<Node>): Option<Node> {
    if ms == [] then None
    else if MasterWrite(ms[|ms| - 1]) then Some(ms[|ms| - 1])
    else LastWrite(ms[..|ms| - 1])
  }

  function FirstSame(ms: seq<Node>, n: Node): Option<Node> {
    if ms == [] then None
    else
      var f := FirstSame(ms[..|ms| - 1], n);
      if f.Some? then f else if SamePort(ms[|ms| - 1], n) then Some(ms[|ms| - 1]) else None
  }

  /** The node to colour when master n follows ms: the last write before a read, or one of two uses of a port. */
  function Choice(ms: seq<Node>, start: Option<Node>, n: Node): Option<Node> {
    if MasterRead(n) && LastWrite(ms).Some? then LastWrite(ms)
    else
      match FirstSame(ms, n)
      case None => None
      case Some(m) => Some(if MasterRead(n) || Some(m) == start then n else m)
  }

  /** The choice at the first node that clashes with one before it. */
  function FirstChoice(path: seq<Node>, start: Option<Node>, from: nat, n: nat): Option<Node>
    requires from <= n <= |path|
  {
    if n == from then None
    else
      var c := FirstChoice(path, start, from, n - 1);
      if c.Some? || !IsMaster(path[n - 1]) then c else Choice(Masters(path, from, n - 1), start, path[n - 1])
  }

  /** The ends of an operation are states already. */
  function ToColour(path: seq<Node>): Option<Node>
    requires |path| >= 2
  {
    FirstChoice(path, None, 1, |path| - 1)
  }

  lemma {:induction false} MastersFacts(path: seq<Node>, from: nat, n: nat)
    requires from <= n <= |path|
    ensures forall x :: x in Masters(path, from, n) <==> x in path[from..n] && IsMaster(x)
    decreases n
  {
    if n > from {
      MastersFacts(path, from, n - 1);
      assert path[from..n] == path[from..n - 1] + [path[n - 1]];
    } else {
      assert path[from..n] == [];
    }
  }

  lemma {:induction false} LastWriteFacts(ms: seq<Node>)
    ensures LastWrite(ms).Some? <==> exists x :: x in ms && MasterWrite(x)
    ensures LastWrite(ms).Some? ==> LastWrite(ms).value in ms && MasterWrite(LastWrite(ms).value)
    decreases |ms|
  {
    if ms != [] {
      LastWriteFacts(ms[..|ms| - 1]);
      assert ms == ms[..|ms| - 1] + [ms[|ms| - 1]];
    }
  }

  lemma {:induction false} FirstSameFacts(ms: seq<Node>, n: Node)
    ensures FirstSame(ms, n).Some? <==> exists x :: x in ms && SamePort(x, n)
    ensures FirstSame(ms, n).Some? ==> FirstSame(ms, n).value in ms && SamePort(FirstSame(ms, n).value, n)
    decreases |ms|
  {
    if ms != [] {
      FirstSameFacts(ms[..|ms| - 1], n);
      assert ms == ms[..|ms| - 1] + [ms[|ms| - 1]];
    }
  }

  /** n clashes with a master before it. */
  ghost predicate Clashes(ms: seq<Node>, n: Node) {
    exists x :: x in ms && Clash(x, n)
  }

  /** A choice is made exactly when some earlier master clashes with the new one. */
  lemma ChoiceExact(ms: seq<Node>, start: Option<Node>, n: Node)
    requires IsMaster(n) && forall x :: x in ms ==> IsMaster(x)
    ensures Choice(ms, start, n).Some? <==> Clashes(ms, n)
    ensures Choice(ms, start, n).Some? ==> var c := Choice(ms, start, n).value; IsMaster(c) && (c == n || c in ms)
  {
    LastWriteFacts(ms);
    FirstSameFacts(ms, n);
    if FirstSame(ms, n).Some? { assert Clash(FirstSame(ms, n).value, n); }
    if MasterRead(n) && LastWrite(ms).Some? { assert Clash(LastWrite(ms).value, n); }
  }

  ghost predicate NoClash(path: seq<Node>, from: nat, n: nat)
    requires from <= n <= |path|
  {
    forall i, j :: from <= i < j < n ==> !Clash(path[i], path[j])
  }

  lemma {:induction false} FirstChoiceExact(path: seq<Node>, start: Option<Node>, from: nat, n: nat)
    requires from <= n <= |path|
    ensures FirstChoice(path, start, from, n).None? <==> NoClash(path, from, n)
    ensures FirstChoice(path, start, from, n).Some? ==>
      var c := FirstChoice(path, start, from, n).value; IsMaster(c) && c in path[from..n]
    decreases n
  {
    hide Choice, Clash;
    if n > from {
      FirstChoiceExact(path, start, from, n - 1);
      assert path[from..n] == path[from..n - 1] + [path[n - 1]];
      MastersFacts(path, from, n - 1);
      if IsMaster(path[n - 1]) {
        ChoiceExact(Masters(path, from, n - 1), start, path[n - 1]);
        ClashWithEarlier(path, from, n);
      } else {
        NotMasterNoClash(path, from, n);
      }
    }
  }

  lemma NotMasterNoClash(path: seq<Node>, from: nat, n: nat)
    requires from < n <= |path| && !IsMaster(path[n - 1])
    ensures NoClash(path, from, n) <==> NoClash(path, from, n - 1)
  {
  }

  lemma ClashMasters(a: Node, b: Node)
    ensures Clash(a, b) ==> IsMaster(a) && IsMaster(b)
  {
  }

  lemma ClashWithEarlier(path: seq<Node>, from: nat, n: nat)
    requires from < n <= |path|
    ensures NoClash(path, from, n) <==>
      NoClash(path, from, n - 1) && !Clashes(Masters(path, from, n - 1), path[n - 1])
  {
    var ms, last := Masters(path, from, n - 1), path[n - 1];
    MastersFacts(path, from, n - 1);
    hide Clash, Masters, IsMaster;
    forall i | from <= i < n - 1 && Clash(path[i], path[n - 1]) ensures path[i] in Masters(path, from, n - 1) {
      ClashMasters(path[i], path[n - 1]);
      assert path[from..n - 1][i - from] == path[i];
    }
    if Clashes(ms, last) {
      var x :| x in ms && Clash(x, last);
      var k :| 0 <= k < n - 1 - from && path[from..n - 1][k] == x;
      assert Clash(path[from + k], path[n - 1]);
    }
  }

  /** The check colours nothing exactly when the path is legal, and otherwise a master strictly inside it. */
  lemma ToColourExact(path: seq<Node>)
    requires |path| >= 2
    ensures ToColour(path).None? <==> Legal(path)
    ensures ToColour(path).Some? ==> IsMaster(ToColour(path).value) && ToColour(path).value in path[1..|path| - 1]
  {
    FirstChoiceExact(path, None, 1, |path| - 1);
  }

  // ---------- Which node it is ----------

  lemma OneMaster(path: seq<Node>, from: nat, n: nat)
    requires from < n <= |path|
    ensures var ms, last := Masters(path, from, n - 1), path[n - 1];
      Masters(path, from, n) == (if IsMaster(last) then ms + [last] else ms)
  {
    if !IsMaster(path[n - 1]) { assert Masters(path, from, n - 1) + [] == Masters(path, from, n - 1); }
  }

  lemma LaterWrite(ms: seq<Node>, last: Node)
    ensures LastWrite(ms + [last]) == if MasterWrite(last) then Some(last) else LastWrite(ms)
  {
    assert (ms + [last])[..|ms|] == ms;
    hide MasterWrite;
  }

  lemma LaterSame(ms: seq<Node>, last: Node, x: Node)
    ensures FirstSame(ms + [last], x) ==
      if FirstSame(ms, x).Some? then FirstSame(ms, x) else if SamePort(last, x) then Some(last) else None
  {
    assert (ms + [last])[..|ms|] == ms;
    hide SamePort;
  }

  lemma NoMaster(n: Node, x: Node)
    requires !IsMaster(n)
    ensures !MasterWrite(n) && !SamePort(n, x)
  {
  }

  predicate NoWrite(path: seq<Node>, from: nat, n: nat)
    requires from <= n <= |path|
  {
    forall k :: from <= k < n ==> !MasterWrite(path[k])
  }

  predicate NoneSame(path: seq<Node>, from: nat, n: nat, x: Node)
    requires from <= n <= |path|
  {
    forall k :: from <= k < n ==> !SamePort(path[k], x)
  }

  lemma NoWriteLater(path: seq<Node>, from: nat, n: nat)
    requires from < n <= |path|
    ensures NoWrite(path, n, n) && (NoWrite(path, from, n) <==> NoWrite(path, from, n - 1) && !MasterWrite(path[n - 1]))
  {
    hide MasterWrite;
  }

  lemma NoneSameLater(path: seq<Node>, from: nat, n: nat, x: Node)
    requires from < n <= |path|
    ensures NoneSame(path, from, n, x) <==> NoneSame(path, from, n - 1, x) && !SamePort(path[n - 1], x)
  {
    hide SamePort;
  }

  lemma {:induction false} LastWritePlace(path: seq<Node>, from: nat, n: nat) returns (i: nat)
    requires from <= n <= |path|
    ensures var w := LastWrite(Masters(path, from, n));
      if w.Some? then from <= i < n && MasterWrite(path[i]) && w == Some(path[i]) && NoWrite(path, i + 1, n)
      else NoWrite(path, from, n)
    decreases n
  {
    i := 0;
    if n > from {
      hide *;
      i := LastWritePlace(path, from, n - 1);
      var last := path[n - 1];
      OneMaster(path, from, n);
      LaterWrite(Masters(path, from, n - 1), last);
      NoWriteLater(path, from, n);
      if MasterWrite(last) { i := n - 1; } else if i + 1 < n { NoWriteLater(path, i + 1, n); }
      if !IsMaster(last) { NoMaster(last, last); }
    }
  }

  lemma {:induction false} FirstSamePlace(path: seq<Node>, from: nat, n: nat, x: Node) returns (i: nat)
    requires from <= n <= |path|
    ensures var f := FirstSame(Masters(path, from, n), x);
      if f.Some? then from <= i < n && SamePort(path[i], x) && f == Some(path[i]) && NoneSame(path, from, i, x)
      else NoneSame(path, from, n, x)
    decreases n
  {
    i := 0;
    if n > from {
      hide *;
      i := FirstSamePlace(path, from, n - 1, x);
      var last, ms := path[n - 1], Masters(path, from, n - 1);
      OneMaster(path, from, n);
      LaterSame(ms, last, x);
      NoneSameLater(path, from, n, x);
      if FirstSame(ms, x).None? && SamePort(last, x) { i := n - 1; }
      if !IsMaster(last) { NoMaster(last, x); }
    }
  }

  ghost predicate WriteBefore(path: seq<Node>, from: nat, j: nat)
    requires j <= |path|
  {
    exists k :: from <= k < j && MasterWrite(path[k])
  }

  /**
   * What is coloured for the clash of the nodes i and j: the last write before a read; of two uses of one port the second if
   * it reads, or if the first is the start of the path, and else the first.
   */
  ghost predicate Picks(path: seq<Node>, start: Option<Node>, from: nat, i: nat, j: nat, c: Node) {
    && from <= i < j < |path|
    && if MasterRead(path[j]) && WriteBefore(path, from, j) then
         MasterWrite(path[i]) && (forall k :: i < k < j ==> !MasterWrite(path[k])) && c == path[i]
       else
         && SamePort(path[i], path[j]) && (forall k :: from <= k < i ==> !SamePort(path[k], path[j]))
         && c == if MasterRead(path[j]) || Some(path[i]) == start then path[j] else path[i]
  }

  /** The node coloured is the one for the first clash. */
  lemma {:induction false} FirstChoicePicks(path: seq<Node>, start: Option<Node>, from: nat, n: nat) returns (i: nat, j: nat)
    requires from <= n <= |path| && FirstChoice(path, start, from, n).Some?
    ensures from <= j < n && NoClash(path, from, j) && Picks(path, start, from, i, j, FirstChoice(path, start, from, n).value)
    decreases n
  {
    hide IsMaster, MasterRead, MasterWrite, SamePort, Clash, Masters, LastWrite, FirstSame;
    if FirstChoice(path, start, from, n - 1).Some? {
      i, j := FirstChoicePicks(path, start, from, n - 1);
    } else {
      FirstChoiceExact(path, start, from, n - 1);
      j := n - 1;
      i := LastWritePlace(path, from, j);
      if !(MasterRead(path[j]) && WriteBefore(path, from, j)) {
        i := FirstSamePlace(path, from, j, path[j]);
      }
    }
  }

  /** The check of an operation looks at the nodes strictly inside it. */
  lemma ToColourPicks(path: seq<Node>) returns (i: nat, j: nat)
    requires |path| >= 2 && ToColour(path).Some?
    ensures 1 <= j < |path| - 1 && NoClash(path, 1, j) && Picks(path, None, 1, i, j, ToColour(path).value)
  {
    i, j := FirstChoicePicks(path, None, 1, |path| - 1);
  }

  // ---------- Spurious paths ----------

  /** The node a path without a second state is broken at: where it clashes first, or else at its last master. */
  function BreakAt(path: seq<Node>): Result<Node> {
    var start := if path == [] then None else Some(path[0]);
    var c, ms := FirstChoice(path, start, 0, |path|), Masters(path, 0, |path|);
    if c.Some? then Ok(c.value) else if ms != [] then Ok(ms[|ms| - 1]) else Err(InvalidPath)
  }

  lemma BreakAtExact(path: seq<Node>)
    ensures BreakAt(path).Err? <==> forall x :: x in path ==> !IsMaster(x)
    ensures BreakAt(path).Ok? ==> IsMaster(BreakAt(path).value) && BreakAt(path).value in path
  {
    var ms := Masters(path, 0, |path|);
    FirstChoiceExact(path, if path == [] then None else Some(path[0]), 0, |path|);
    MastersFacts(path, 0, |path|);
    assert path[0..|path|] == path;
    if ms != [] { assert ms[|ms| - 1] in ms; }
  }

  lemma {:induction false} LastMasterPlace(path: seq<Node>, n: nat) returns (i: nat)
    requires n <= |path| && Masters(path, 0, n) != []
    ensures var ms := Masters(path, 0, n);
      i < n && IsMaster(path[i]) && ms[|ms| - 1] == path[i] && forall k :: i < k < n ==> !IsMaster(path[k])
    decreases n
  {
    if IsMaster(path[n - 1]) { i := n - 1; } else { i := LastMasterPlace(path, n - 1); }
  }

  /** A spurious path is broken for its first clash, or at its last master when nothing clashes. */
  lemma BreakAtPicks(path: seq<Node>) returns (i: nat, j: nat)
    requires BreakAt(path).Ok? && path != []
    ensures var c := BreakAt(path).value;
      || (NoClash(path, 0, |path|) && i < |path| && IsMaster(path[i]) && c == path[i] && forall k :: i < k < |path| ==> !IsMaster(path[k]))
      || (j < |path| && NoClash(path, 0, j) && Picks(path, Some(path[0]), 0, i, j, c))
  {
    i, j := 0, 0;
    FirstChoiceExact(path, Some(path[0]), 0, |path|);
    if FirstChoice(path, Some(path[0]), 0, |path|).Some? {
      i, j := FirstChoicePicks(path, Some(path[0]), 0, |path|);
    } else {
      i := LastMasterPlace(path, |path|);
    }
  }

  /** The only master is the state, or the state writes and the first other master reads. */
  predicate StartsStuck(path: seq<Node>) {
    && path != [] && IsMaster(path[0])
    && var ms := Masters(path, 1, |path|); ms == [] || (MasterWrite(path[0]) && MasterRead(ms[0]))
  }

  lemma {:induction false} MastersFromOne(path: seq<Node>, n: nat)
    requires 1 <= n <= |path|
    ensures Masters(path, 0, n) == (if IsMaster(path[0]) then [path[0]] else []) + Masters(path, 1, n)
    decreases n
  {
    if n > 1 {
      MastersFromOne(path, n - 1);
    } else {
      assert Masters(path, 0, 1) == Masters(path, 0, 0) + if IsMaster(path[0]) then [path[0]] else [];
    }
  }

  /** What the first n nodes give, when the first of them is a master that does not come again. */
  lemma {:induction false} StuckUpTo(path: seq<Node>, n: nat)
    requires 1 <= n <= |path| && IsMaster(path[0]) && path[0] !in path[1..]
    ensures var c, ms := FirstChoice(path, Some(path[0]), 0, n), Masters(path, 1, n);
      && (ms == [] ==> c.None?)
      && (c == Some(path[0]) <==> ms != [] && MasterWrite(path[0]) && MasterRead(ms[0]))
    decreases n
  {
    hide Choice, LastWrite, FirstSame, MasterWrite, MasterRead, IsMaster;
    if n == 1 {
      FirstAlone(path);
    } else {
      StuckUpTo(path, n - 1);
      if IsMaster(path[n - 1]) {
        MastersFromOne(path, n - 1);
        MastersFacts(path, 1, n - 1);
        assert path[n - 1] == path[1..][n - 2];
        assert path[1..n - 1] == path[1..][..n - 2];
        StuckChoice(path[0], Masters(path, 1, n - 1), path[n - 1]);
      }
    }
  }

  lemma FirstAlone(path: seq<Node>)
    requires path != []
    ensures FirstChoice(path, Some(path[0]), 0, 1).None? && Masters(path, 1, 1) == []
  {
    assert FirstChoice(path, Some(path[0]), 0, 0).None?;
    assert Masters(path, 0, 0) == [];
  }

  /** With master s at the start, the choice falls on it when it writes and is directly followed by a read. */
  lemma StuckChoice(s: Node, ms: seq<Node>, n: Node)
    requires IsMaster(s) && IsMaster(n) && s !in ms && n != s && forall x :: x in ms ==> IsMaster(x)
    ensures Choice([s] + ms, Some(s), n) == Some(s) ==> MasterWrite(s) && (if ms == [] then MasterRead(n) else MasterRead(ms[0]))
    ensures ms == [] && MasterWrite(s) && MasterRead(n) ==> Choice([s] + ms, Some(s), n) == Some(s)
  {
    LastWriteFacts(ms);
    LastWriteOf(s, ms);
    if ms != [] {
      assert ms[0] in ms;
    } else {
      assert [s] + ms == [s];
      assert FirstSame([s], n) == (if SamePort(s, n) then Some(s) else None) by { assert [s][..0] == []; }
    }
  }

  lemma {:induction false} LastWriteOf(s: Node, ms: seq<Node>)
    ensures LastWrite([s] + ms) == if LastWrite(ms).Some? then LastWrite(ms) else if MasterWrite(s) then Some(s) else None
    decreases |ms|
  {
    if ms != [] {
      LastWriteOf(s, ms[..|ms| - 1]);
      assert ([s] + ms)[..|ms|] == [s] + ms[..|ms| - 1];
    } else {
      assert [s] + ms == [s] && [s][..0] == [];
    }
  }

  /** A spurious path is broken at its own start, where nothing new can be coloured, exactly when it starts stuck. */
  lemma StuckExact(path: seq<Node>)
    requires path != [] && path[0] !in path[1..]
    ensures BreakAt(path) == Ok(path[0]) <==> StartsStuck(path)
  {
    MastersFromOne(path, |path|);
    MastersFacts(path, 1, |path|);
    if IsMaster(path[0]) {
      StuckUpTo(path, |path|);
    } else {
      BreakAtExact(path);
    }
    var ms := Masters(path, 1, |path|);
    if ms != [] { assert ms[|ms| - 1] in ms; }
  }

  /** A master read of the port, and the node control goes to after it. */
  function MasterInput(id: int, port: string, next: int): Node {
    Node(id, Some(Read(Port(port, Master, In, [("", TInt)]), Object(Variable, "x", [("", TInt)]), false, None)), [next])
  }

  function LastRead(): Node { MasterInput(2, "n", 3) }

  const LOOP := Node(3, Some(While), [4])
  const BODY := Node(4, Some(Assign(Var(Variable, "y", "", TInt), IntegerValue(1))), [3])

  /** Such a path: a master input, and then a loop without a state. */
  lemma StuckPath()
    ensures var p := [LastRead(), LOOP, BODY, LOOP]; StartsStuck(p) && BreakAt(p) == Ok(LastRead()) && p[0] !in p[1..]
  {
    var p := [LastRead(), LOOP, BODY, LOOP];
    assert Masters(p, 1, 1) == Masters(p, 1, 2) == Masters(p, 1, 3) == Masters(p, 1, 4) == [];
    StuckExact(p);
  }
}
