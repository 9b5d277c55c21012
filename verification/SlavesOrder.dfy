/** The order check of slave communication: every slave-in port once, then every slave-out port once. */
module SlavesOrder {

  /** The accesses are all slave-in ports in some order, followed by all slave-out ports in some order. */
  ghost predicate Ordered(s: seq<string>, ins: set<string>, outs: set<string>) {
    && |s| == |ins| + |outs|
    && multiset(s[..|ins|]) == multiset(ins)
    && multiset(s[|ins|..]) == multiset(outs)
  }

  /** What the counters and status flags say after the accesses of s. */
  ghost predicate Tallies(s: seq<string>, ports: set<string>, flags: map<string, bool>, count: int) {
    && flags.Keys == ports
    && (forall p :: p in ports ==> (flags[p] <==> multiset(s)[p] % 2 == 1))
    && count == Hits(s, ports)
  }

  function Hits(s: seq<string>, ports: set<string>): (n: nat)
    ensures n <= |s|
  {
    if s == [] then 0 else Hits(s[..|s| - 1], ports) + if s[|s| - 1] in ports then 1 else 0
  }

  class SlaveOrder {
    var slaveInOrder: map<string, bool>
    var slaveOutOrder: map<string, bool>

    constructor (ins: set<string>, outs: set<string>)
      ensures slaveInOrder.Keys == ins && slaveOutOrder.Keys == outs
    {
      slaveInOrder, slaveOutOrder := map p | p in ins :: false, map p | p in outs :: false;
    }

    /** The counters pass the checks made after the access at position i. */
    static ghost predicate PassedAt(s: seq<string>, i: nat, ins: set<string>, outs: set<string>)
      requires i < |s|
    {
      var ni, no := Hits(s[..i + 1], ins), Hits(s[..i + 1], outs);
      !(ni < |ins| && no > 0) && ni <= |ins| && no <= |outs|
    }

    ghost predicate Tallied(s: seq<string>, ins: set<string>, outs: set<string>, countIns: int, countOuts: int)
      reads this
    {
      Tallies(s, ins, slaveInOrder, countIns) && Tallies(s, outs, slaveOutOrder, countOuts)
    }

    /** One access: counts it and flips the status of its port. */
    method Access(s: seq<string>, i: nat, ghost ins: set<string>, ghost outs: set<string>, countIns0: int, countOuts0: int)
        returns (countIns: int, countOuts: int)
      requires i < |s| && Tallied(s[..i], ins, outs, countIns0, countOuts0)
      modifies this
      ensures Tallied(s[..i + 1], ins, outs, countIns, countOuts)
    {
      countIns, countOuts := countIns0, countOuts0;
      ghost var inBefore, outBefore := slaveInOrder, slaveOutOrder;
      if s[i] in slaveInOrder {
        countIns := countIns + 1;
        slaveInOrder := slaveInOrder[s[i] := !slaveInOrder[s[i]]];
      }
      if s[i] in slaveOutOrder {
        countOuts := countOuts + 1;
        slaveOutOrder := slaveOutOrder[s[i] := !slaveOutOrder[s[i]]];
      }
      assert s[i] in ins <==> s[i] in inBefore;
      assert s[i] in outs <==> s[i] in outBefore;
      hide Tallies;
      Flip(s, i, ins, inBefore, countIns0, slaveInOrder, countIns);
      Flip(s, i, outs, outBefore, countOuts0, slaveOutOrder, countOuts);
    }

    method Reset(ghost ins: set<string>, ghost outs: set<string>)
      requires slaveInOrder.Keys == ins && slaveOutOrder.Keys == outs
      modifies this
      ensures Tallied([], ins, outs, 0, 0)
    {
      slaveInOrder, slaveOutOrder := map p | p in slaveInOrder :: false, map p | p in slaveOutOrder :: false;
      NoAccess(ins, slaveInOrder);
      NoAccess(outs, slaveOutOrder);
    }

    /** Counts the accesses as long as the counters pass. */
    method Traverse(s: seq<string>, ghost ins: set<string>, ghost outs: set<string>, slaveInSize: int, slaveOutSize: int)
        returns (ok: bool, countIns: int, countOuts: int)
      requires Tallied([], ins, outs, 0, 0) && slaveInSize == |ins| && slaveOutSize == |outs|
      modifies this
      ensures slaveInOrder.Keys == ins && slaveOutOrder.Keys == outs
      ensures ok ==> Tallied(s, ins, outs, countIns, countOuts) && forall j :: 0 <= j < |s| ==> PassedAt(s, j, ins, outs)
      ensures !ok ==> exists j :: 0 <= j < |s| && !PassedAt(s, j, ins, outs)
    {
      hide PassedAt, Tallies, Hits;
      countIns, countOuts := 0, 0;
      assert s[..0] == [];
      for i := 0 to |s|
        invariant Tallied(s[..i], ins, outs, countIns, countOuts)
        invariant forall j :: 0 <= j < i ==> PassedAt(s, j, ins, outs)
      {
        countIns, countOuts := Access(s, i, ins, outs, countIns, countOuts);
        KeysOf(s[..i + 1], ins, slaveInOrder, countIns);
        KeysOf(s[..i + 1], outs, slaveOutOrder, countOuts);
        Counts(s, i, ins, outs, slaveInOrder, slaveOutOrder, countIns, countOuts);
        if (countIns < slaveInSize && countOuts > 0) || countIns > slaveInSize || countOuts > slaveOutSize {
          return false, countIns, countOuts;
        }
      }
      assert s[..|s|] == s;
      KeysOf(s, ins, slaveInOrder, countIns);
      KeysOf(s, outs, slaveOutOrder, countOuts);
      ok := true;
    }

    method CheckSlavesOrder(s: seq<string>) returns (ok: bool)
      requires slaveInOrder.Keys !! slaveOutOrder.Keys
      requires forall p :: p in s ==> p in slaveInOrder.Keys + slaveOutOrder.Keys
      modifies this
      ensures slaveInOrder.Keys == old(slaveInOrder.Keys) && slaveOutOrder.Keys == old(slaveOutOrder.Keys)
      ensures ok <==> Ordered(s, old(slaveInOrder.Keys), old(slaveOutOrder.Keys))
    {
      ghost var ins, outs := slaveInOrder.Keys, slaveOutOrder.Keys;
      var slaveInSize, slaveOutSize := |slaveInOrder|, |slaveOutOrder|;
      KeysCount(slaveInOrder);
      KeysCount(slaveOutOrder);
      Reset(ins, outs);
      hide Ordered, PassedAt, Tallies, Hits, AllSet, AllOdd;
      var countIns, countOuts;
      ok, countIns, countOuts := Traverse(s, ins, outs, slaveInSize, slaveOutSize);
      if !ok {
        ghost var j :| 0 <= j < |s| && !PassedAt(s, j, ins, outs);
        if Ordered(s, ins, outs) { OrderedPasses(s, j, ins, outs); }
        return;
      }
      KeysOf(s, ins, slaveInOrder, countIns);
      KeysOf(s, outs, slaveOutOrder, countOuts);
      if Ordered(s, ins, outs) {
        OrderedCounts(s, ins, outs);
        OrderedOnce(s, ins, outs);
      }
      if countIns != slaveInSize || countOuts != slaveOutSize {
        return false;
      }
      ok := AllSet(slaveInOrder) && AllSet(slaveOutOrder);
      if ok { PassedOrdered(s, ins, outs); }
    }
  }

  ghost predicate AllOdd(s: seq<string>, ports: set<string>) {
    forall p :: p in ports ==> multiset(s)[p] % 2 == 1
  }

  /** Every port has its status set. */
  predicate AllSet(flags: map<string, bool>) {
    forall p <- flags.Keys :: flags[p]
  }

  lemma KeysOf(s: seq<string>, ports: set<string>, flags: map<string, bool>, count: int)
    requires Tallies(s, ports, flags, count)
    ensures flags.Keys == ports && count == Hits(s, ports)
    ensures AllSet(flags) <==> AllOdd(s, ports)
  {
  }

  /** What the check after access i tests. */
  lemma Counts(s: seq<string>, i: nat, ins: set<string>, outs: set<string>, inFlags: map<string, bool>,
               outFlags: map<string, bool>, countIns: int, countOuts: int)
    requires i < |s| && Tallies(s[..i + 1], ins, inFlags, countIns) && Tallies(s[..i + 1], outs, outFlags, countOuts)
    ensures SlaveOrder.PassedAt(s, i, ins, outs) <==>
      !((countIns < |ins| && countOuts > 0) || countIns > |ins| || countOuts > |outs|)
  {
  }

  lemma KeysCount<V>(m: map<string, V>)
    ensures |m| == |m.Keys|
  {
  }

  lemma NoAccess(ports: set<string>, flags: map<string, bool>)
    requires flags.Keys == ports && forall p :: p in ports ==> !flags[p]
    ensures Tallies([], ports, flags, 0)
  {
  }

  lemma Flip(s: seq<string>, i: nat, ports: set<string>, flags: map<string, bool>, count: int, flags': map<string, bool>, count': int)
    requires i < |s| && Tallies(s[..i], ports, flags, count)
    requires s[i] in ports ==> s[i] in flags
    requires if s[i] in ports then flags' == flags[s[i] := !flags[s[i]]] && count' == count + 1 else flags' == flags && count' == count
    ensures Tallies(s[..i + 1], ports, flags', count')
  {
    var a, x := s[..i], s[i];
    assert s[..i + 1] == a + [x];
    assert (a + [x])[..i] == a;
    forall p | p in ports ensures flags'[p] <==> multiset(a + [x])[p] % 2 == 1 {
      OneMore(a, x, p);
    }
  }

  lemma OneMore(a: seq<string>, x: string, p: string)
    ensures multiset(a + [x])[p] == multiset(a)[p] + if p == x then 1 else 0
    ensures (multiset(a + [x])[p] % 2 == 1) == if p == x then multiset(a)[p] % 2 != 1 else multiset(a)[p] % 2 == 1
  {
  }

  // ---------- Counting ----------

  lemma {:induction false} HitsConcat(a: seq<string>, b: seq<string>, ports: set<string>)
    ensures Hits(a + b, ports) == Hits(a, ports) + Hits(b, ports)
    decreases |b|
  {
    if b == [] {
      assert a + b == a;
    } else {
      assert (a + b)[..|a + b| - 1] == a + b[..|b| - 1];
      HitsConcat(a, b[..|b| - 1], ports);
    }
  }

  lemma {:induction false} HitsAll(s: seq<string>, ports: set<string>)
    ensures (forall p :: p in s ==> p in ports) <==> Hits(s, ports) == |s|
    ensures (forall p :: p in s ==> p !in ports) <==> Hits(s, ports) == 0
    decreases |s|
  {
    if s != [] {
      HitsAll(s[..|s| - 1], ports);
      assert s == s[..|s| - 1] + [s[|s| - 1]];
    }
  }

  lemma {:induction false} HitsSum(s: seq<string>, ins: set<string>, outs: set<string>)
    requires ins !! outs && forall p :: p in s ==> p in ins + outs
    ensures Hits(s, ins) + Hits(s, outs) == |s|
    decreases |s|
  {
    if s != [] {
      assert s[|s| - 1] in s;
      HitsSum(s[..|s| - 1], ins, outs);
    }
  }

  /** As many accesses as ports, every port among them: each exactly once. */
  lemma Permutation(a: seq<string>, ports: set<string>)
    requires |a| == |ports| && forall p :: p in ports ==> p in a
    ensures multiset(a) == multiset(ports)
  {
    var extra := multiset(a) - multiset(ports);
    assert multiset(ports) <= multiset(a);
    assert multiset(a) == multiset(ports) + extra;
    assert |multiset(a)| == |multiset(ports)| + |extra|;
    assert extra == multiset{};
  }

  lemma PermutationOf(a: seq<string>, ports: set<string>)
    requires multiset(a) == multiset(ports)
    ensures forall p :: p in a <==> p in ports
  {
    forall p ensures p in a <==> p in ports { assert p in a <==> p in multiset(a); }
  }

  /** Before the slave-in ports are through, nothing else was accessed. */
  lemma {:induction false} InsFirst(s: seq<string>, j: nat, ins: set<string>, outs: set<string>)
    requires ins !! outs && forall p :: p in s ==> p in ins + outs
    requires forall i :: 0 <= i < |s| ==> SlaveOrder.PassedAt(s, i, ins, outs)
    requires j <= |s| && j <= |ins|
    ensures Hits(s[..j], ins) == j
    decreases j
  {
    if j > 0 {
      InsFirst(s, j - 1, ins, outs);
      assert SlaveOrder.PassedAt(s, j - 1, ins, outs);
      assert s[..j - 1 + 1] == s[..j] && s[..j][..j - 1] == s[..j - 1];
      HitsSum(s[..j], ins, outs);
    }
  }

  lemma OddOccurs(a: seq<string>, b: seq<string>, ports: set<string>)
    requires AllOdd(a + b, ports)
    ensures forall p :: p in ports ==> p in a || p in b
  {
    forall p | p in ports ensures p in a || p in b {
      assert p in multiset(a + b);
      assert p in a + b;
    }
  }

  /** A sequence over the ports whose counters passed has the ports of each kind in its part. */
  lemma PassedOrdered(s: seq<string>, ins: set<string>, outs: set<string>)
    requires ins !! outs && (forall p :: p in s ==> p in ins + outs)
    requires Hits(s, ins) == |ins| && Hits(s, outs) == |outs|
    requires forall j :: 0 <= j < |s| ==> SlaveOrder.PassedAt(s, j, ins, outs)
    requires AllOdd(s, ins) && AllOdd(s, outs)
    ensures Ordered(s, ins, outs)
  {
    hide Hits, SlaveOrder.PassedAt, AllOdd;
    HitsSum(s, ins, outs);
    var a, b := s[..|ins|], s[|ins|..];
    assert s == a + b;
    InsFirst(s, |ins|, ins, outs);
    HitsAll(a, ins);
    HitsConcat(a, b, ins);
    HitsAll(b, ins);
    OddOccurs(a, b, ins);
    OddOccurs(a, b, outs);
    Permutation(a, ins);
    Permutation(b, outs);
  }

  lemma OrderedPasses(s: seq<string>, i: nat, ins: set<string>, outs: set<string>)
    requires ins !! outs && Ordered(s, ins, outs) && i < |s|
    ensures SlaveOrder.PassedAt(s, i, ins, outs)
  {
    hide Hits;
    var a, b := s[..|ins|], s[|ins|..];
    PermutationOf(a, ins);
    PermutationOf(b, outs);
    if i < |ins| {
      var c := s[..i + 1];
      assert forall p :: p in c ==> p in a;
      HitsAll(c, ins);
      HitsAll(c, outs);
    } else {
      var c := s[|ins|..i + 1];
      assert s[..i + 1] == a + c;
      assert forall p :: p in c ==> p in b;
      HitsConcat(a, c, ins);
      HitsConcat(a, c, outs);
      HitsAll(a, ins);
      HitsAll(a, outs);
      HitsAll(c, ins);
      HitsAll(c, outs);
    }
  }

  lemma OrderedCounts(s: seq<string>, ins: set<string>, outs: set<string>)
    requires ins !! outs && Ordered(s, ins, outs)
    ensures Hits(s, ins) == |ins| && Hits(s, outs) == |outs|
  {
    hide Hits;
    var a, b := s[..|ins|], s[|ins|..];
    assert s == a + b;
    PermutationOf(a, ins);
    PermutationOf(b, outs);
    HitsConcat(a, b, ins);
    HitsConcat(a, b, outs);
    HitsAll(a, ins);
    HitsAll(a, outs);
    HitsAll(b, ins);
    HitsAll(b, outs);
  }

  lemma OrderedOnce(s: seq<string>, ins: set<string>, outs: set<string>)
    requires ins !! outs && Ordered(s, ins, outs)
    ensures AllOdd(s, ins) && AllOdd(s, outs)
  {
    assert s == s[..|ins|] + s[|ins|..];
  }
}
