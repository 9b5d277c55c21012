/** Slave modules: every path is expanded over what each of its slave reads may find. */
module SlaveExpansion {
  import opened Ir
  import opened Statements
  import opened Operations

  predicate IsSlaveRead(n: Node) {
    n.stmt.Some? && n.stmt.value.Read? && n.stmt.value.port.iface == Slave
  }

  // ---------- The nodes that replace a slave read ----------

  function SyncOf(n: Node): Expr
    requires IsSlaveRead(n)
  {
    SyncSignal(n.stmt.value.port.name)
  }

  /** Has the id of the read it replaces, so that a branch before it keeps its polarity. */
  function SyncNode(n: Node, elseId: int): Node
    requires IsSlaveRead(n)
  {
    Node(n.id, Some(If(SyncOf(n))), [n.id + 1, elseId])
  }

  /** Numbered after the sync node, so that the condition counts as met. */
  function ReadNode(n: Node): Node
    requires IsSlaveRead(n)
  {
    Node(n.id + 1, n.stmt, [])
  }

  function ElseNode(n: Node, elseId: int): Node
    requires IsSlaveRead(n)
  {
    var status := n.stmt.value.status;
    Node(elseId, if status.Some? then Some(Assign(status.value, SyncOf(n))) else None, [])
  }

  function CountReads(p: seq<Node>, n: nat): nat
    requires n <= |p|
  {
    if n == 0 then 0 else CountReads(p, n - 1) + if IsSlaveRead(p[n - 1]) then 1 else 0
  }

  /** The id of each else node: the third of the three nodes made where the read is first met. */
  function ElseIds(p: seq<Node>, n: nat, next: int): (m: map<Node, int>)
    requires n <= |p|
    ensures forall x :: x in m <==> x in p[..n] && IsSlaveRead(x)
  {
    if n == 0 then map[]
    else
      var m := ElseIds(p, n - 1, next);
      assert p[..n] == p[..n - 1] + [p[n - 1]];
      if IsSlaveRead(p[n - 1]) && p[n - 1] !in m then m[p[n - 1] := next + 3 * CountReads(p, n - 1) + 2] else m
  }

  predicate Covers(ids: map<Node, int>, p: seq<Node>) {
    forall i :: 0 <= i < |p| && IsSlaveRead(p[i]) ==> p[i] in ids
  }

  function Replace(n: Node, ids: map<Node, int>, absent: set<Node>): seq<Node>
    requires IsSlaveRead(n) ==> n in ids
  {
    if !IsSlaveRead(n) then [n]
    else [SyncNode(n, ids[n]), if n in absent then ElseNode(n, ids[n]) else ReadNode(n)]
  }

  /** The first n nodes with each slave read replaced; those in absent take the else branch. */
  function Expand(p: seq<Node>, n: nat, ids: map<Node, int>, absent: set<Node>): seq<Node>
    requires n <= |p| && Covers(ids, p)
  {
    if n == 0 then [] else Expand(p, n - 1, ids, absent) + Replace(p[n - 1], ids, absent)
  }

  // ---------- Counting through all choices ----------

  /** The slave reads among the first n nodes, each where it is first met. */
  function Distinct(p: seq<Node>, n: nat): seq<Node>
    requires n <= |p|
  {
    if n == 0 then []
    else
      var d := Distinct(p, n - 1);
      if IsSlaveRead(p[n - 1]) && p[n - 1] !in d then d + [p[n - 1]] else d
  }

  function Pow2(k: nat): nat { if k == 0 then 1 else 2 * Pow2(k - 1) }

  /** The reads whose bit is one in m, the first read being the most significant bit. */
  function AbsentOf(d: seq<Node>, m: nat): set<Node> {
    if d == [] then {}
    else AbsentOf(d[..|d| - 1], m / 2) + if m % 2 == 1 then {d[|d| - 1]} else {}
  }

  function Expansion(p: seq<Node>, ids: map<Node, int>, m: nat): seq<Node>
    requires Covers(ids, p)
  {
    Expand(p, |p|, ids, AbsentOf(Distinct(p, |p|), m))
  }

  function Expansions(p: seq<Node>, ids: map<Node, int>): seq<seq<Node>>
    requires Covers(ids, p)
  {
    seq(Pow2(|Distinct(p, |p|)|), m requires 0 <= m => Expansion(p, ids, m))
  }

  predicate NoRepeats(d: seq<Node>) {
    forall i, j :: 0 <= i < j < |d| ==> d[i] != d[j]
  }

  lemma {:induction false} DistinctFacts(p: seq<Node>, n: nat)
    requires n <= |p|
    ensures NoRepeats(Distinct(p, n))
    ensures forall x :: x in Distinct(p, n) <==> x in p[..n] && IsSlaveRead(x)
    decreases n
  {
    if n > 0 {
      DistinctFacts(p, n - 1);
      assert p[..n] == p[..n - 1] + [p[n - 1]];
    }
  }

  lemma {:induction false} DistinctPrefix(p: seq<Node>, i: nat, n: nat)
    requires i <= n <= |p|
    ensures Distinct(p, i) <= Distinct(p, n)
    decreases n
  {
    if i < n { DistinctPrefix(p, i, n - 1); }
  }

  lemma {:induction false} AbsentWithin(d: seq<Node>, m: nat)
    ensures forall x :: x in AbsentOf(d, m) ==> x in d
    decreases |d|
  {
    if d != [] { AbsentWithin(d[..|d| - 1], m / 2); }
  }

  /** Adding one clears the ones at the end and sets the bit before them. */
  lemma {:induction false} Increment(d: seq<Node>, m: nat, h: nat)
    requires NoRepeats(d) && m < Pow2(|d|) && 1 <= h <= |d|
    requires d[h - 1] !in AbsentOf(d, m) && forall j :: h <= j < |d| ==> d[j] in AbsentOf(d, m)
    ensures m + 1 < Pow2(|d|)
    ensures AbsentOf(d, m + 1) == (set x | x in AbsentOf(d, m) && x in d[..h - 1]) + {d[h - 1]}
    decreases |d|
  {
    var init, last := d[..|d| - 1], d[|d| - 1];
    assert NoRepeats(init) && last !in init && Pow2(|d|) == 2 * Pow2(|init|);
    hide *;
    assert forall j :: 0 <= j < |init| ==> d[j] == init[j];
    LastBit(d, m);
    LastBit(d, m + 1);
    AbsentWithin(init, m / 2);
    AbsentWithin(init, (m + 1) / 2);
    if h == |d| {
      assert (m + 1) / 2 == m / 2;
    } else {
      assert (m + 1) / 2 == m / 2 + 1;
      Increment(init, m / 2, h);
      assert init[..h - 1] == d[..h - 1];
    }
  }

  lemma LastBit(d: seq<Node>, m: nat)
    requires d != []
    ensures AbsentOf(d, m) == AbsentOf(d[..|d| - 1], m / 2) + if m % 2 == 1 then {d[|d| - 1]} else {}
  {
  }

  /** When every read took its else branch the count is at its end. */
  lemma {:induction false} Exhausted(d: seq<Node>, m: nat)
    requires NoRepeats(d) && m < Pow2(|d|) && forall j :: 0 <= j < |d| ==> d[j] in AbsentOf(d, m)
    ensures m == Pow2(|d|) - 1
    decreases |d|
  {
    if d != [] {
      var init, last := d[..|d| - 1], d[|d| - 1];
      AbsentWithin(init, m / 2);
      assert last !in init;
      forall j | 0 <= j < |init| ensures init[j] in AbsentOf(init, m / 2) { assert d[j] == init[j]; }
      Exhausted(init, m / 2);
    }
  }

  /** Every combination of outcomes has its number. */
  lemma {:induction false} CombinationNumber(d: seq<Node>, a: set<Node>) returns (m: nat)
    requires NoRepeats(d) && forall x :: x in a ==> x in d
    ensures m < Pow2(|d|) && AbsentOf(d, m) == a
    decreases |d|
  {
    if d == [] {
      m := 0;
    } else {
      var init, last := d[..|d| - 1], d[|d| - 1];
      var half := CombinationNumber(init, a - {last});
      m := 2 * half + if last in a then 1 else 0;
      assert m / 2 == half;
    }
  }

  /** And only one. */
  lemma {:induction false} NumberUnique(d: seq<Node>, m: nat, m': nat)
    requires NoRepeats(d) && m < Pow2(|d|) && m' < Pow2(|d|) && AbsentOf(d, m) == AbsentOf(d, m')
    ensures m == m'
    decreases |d|
  {
    if d != [] {
      var init, last := d[..|d| - 1], d[|d| - 1];
      AbsentWithin(init, m / 2);
      AbsentWithin(init, m' / 2);
      assert last !in init;
      assert AbsentOf(init, m / 2) == AbsentOf(d, m) - {last} && AbsentOf(init, m' / 2) == AbsentOf(d, m') - {last};
      NumberUnique(init, m / 2, m' / 2);
      assert m % 2 == 1 <==> last in AbsentOf(d, m);
      assert m' % 2 == 1 <==> last in AbsentOf(d, m');
    }
  }
}
