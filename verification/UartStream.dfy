/** The transmitter's line fed into the receiver gives the low bytes of the words sent. */
module UartStream {
  import opened Ir
  import opened UartBits
  import Tx = UartTx
  import Rx = UartRx

  // ---------- Runs ----------

  function TxEnd(s: Tx.State, ins: seq<Tx.Input>): Tx.State
    decreases |ins|
  {
    if ins == [] then s else TxEnd(Tx.Next(s, ins[0]).0, ins[1..])
  }

  /** The bits that go over the line. */
  function Line(s: Tx.State, ins: seq<Tx.Input>): seq<bool>
    decreases |ins|
  {
    if ins == [] then [] else Tx.Next(s, ins[0]).1.line + Line(Tx.Next(s, ins[0]).0, ins[1..])
  }

  function LowBytes(ws: seq<bv32>): seq<bv32> {
    seq(|ws|, k requires 0 <= k < |ws| => LowByte(ws[k]))
  }

  /** The low bytes of the words accepted for sending. */
  function Sent(s: Tx.State, ins: seq<Tx.Input>): seq<bv32>
    decreases |ins|
  {
    if ins == [] then [] else LowBytes(Tx.Next(s, ins[0]).1.accepted) + Sent(Tx.Next(s, ins[0]).0, ins[1..])
  }

  function RxEnd(s: Rx.State, ins: seq<Rx.Input>): Rx.State
    decreases |ins|
  {
    if ins == [] then s else RxEnd(Rx.Next(s, ins[0]).0, ins[1..])
  }

  /** The bits the receiver is given, whatever pauses lie between them. */
  function Bits(ins: seq<Rx.Input>): seq<bool>
    decreases |ins|
  {
    if ins == [] then [] else (if ins[0].bit.Some? then [ins[0].bit.value] else []) + Bits(ins[1..])
  }

  function Delivered(s: Rx.State, ins: seq<Rx.Input>): seq<bv32>
    decreases |ins|
  {
    if ins == [] then [] else Rx.Next(s, ins[0]).1.delivered + Delivered(Rx.Next(s, ins[0]).0, ins[1..])
  }

  predicate NoErrors(o: Rx.Output) {
    forall k :: 0 <= k < |o.events| ==> !o.events[k].timeout && o.events[k].errorSrc == Rx.NO_ERROR
  }

  /** No event reports a parity, framing, break or overrun error or a timeout. */
  predicate Clean(s: Rx.State, ins: seq<Rx.Input>)
    decreases |ins|
  {
    ins == [] || (NoErrors(Rx.Next(s, ins[0]).1) && Clean(Rx.Next(s, ins[0]).0, ins[1..]))
  }

  /** The receiver stays active, its setting is c, and a word is collected no later than the next start bit comes. */
  predicate RxOk(s: Rx.State, ins: seq<Rx.Input>, c: Config)
    decreases |ins|
  {
    ins != [] ==>
      && ins[0].active && ins[0].config == c
      && (s.section == Rx.SendingData && ins[0].bit == Some(false) ==> ins[0].collected)
      && RxOk(Rx.Next(s, ins[0]).0, ins[1..], c)
  }

  predicate TxOk(ins: seq<Tx.Input>, c: Config) {
    forall k :: 0 <= k < |ins| ==> ins[k].config == c
  }

  // ---------- Both in step ----------

  /** Transmitter and receiver agree once the receiver has read all bits of the line. */
  predicate Coupled(t: Tx.State, r: Rx.State, c: Config) {
    && !r.timeout && r.suspendingCount == 0
    && (r.section == Rx.Listening || r.section == Rx.SendingData ==> r.dataCount == 0)
    && match t.section
       case Idle =>
         || r.section == Rx.Listening || r.section == Rx.SendingData
         || (r.section == Rx.ReceivingStop && !c.twoStopBits && r.dataCount == 9)
         || (r.section == Rx.ReceivingStopSecond && c.twoStopBits && r.dataCount == 10)
       case TransmittingStart => r.section == Rx.Listening || r.section == Rx.SendingData
       case TransmittingData =>
         r.section == Rx.ReceivingData && r.dataCount == t.dataCount < 8 && SameBits(r.data, t.data, t.dataCount)
       case TransmittingParity => c.parity && r.section == Rx.ReceivingParity && r.dataCount == 8 && SameBits(r.data, t.data, 8)
       case TransmittingStop =>
         t.config == c && r.section == Rx.ReceivingStop && r.dataCount == 9 && SameBits(r.data, t.data, 8)
  }

  /** Bytes sent but not handed over: what the receiver still holds, and what the transmitter is sending. */
  function Held(t: Tx.State, r: Rx.State): seq<bv32> {
    (if r.section == Rx.SendingData || (t.section == Tx.Idle && r.section != Rx.Listening) then [LowByte(r.data)] else [])
      + (if t.section != Tx.Idle then [LowByte(t.data)] else [])
  }

  lemma NextIs(r: Rx.State, i: Rx.Input)
    requires i.active
    ensures var (n, resp, o) := Rx.Receive(r, i);
      && Rx.Next(r, i).0 == n.(suspendingCount := 0, timeout := false) && Rx.Next(r, i).1.delivered == o.delivered
      && (o.events == [] && resp.errorSrc == Rx.NO_ERROR && !resp.timeout ==> NoErrors(Rx.Next(r, i).1))
  {
    hide Rx.Receive;
  }

  /** A step without a bit hands over a word or does nothing. */
  lemma Pause(t: Tx.State, r: Rx.State, i: Rx.Input, c: Config)
    requires Coupled(t, r, c) && i.active && i.bit.None?
    ensures var (n, o) := Rx.Next(r, i); Coupled(t, n, c) && NoErrors(o) && o.delivered + Held(t, n) == Held(t, r)
  {
    hide LowByte, SameBits, UpdateData, Parity;
    NextIs(r, i);
  }

  /** A step of the transmitter that puts nothing on the line. */
  lemma Silent(t: Tx.State, r: Rx.State, i: Tx.Input, c: Config)
    requires Coupled(t, r, c) && i.config == c && Tx.Next(t, i).1.line == []
    ensures var (n, o) := Tx.Next(t, i); Coupled(n, r, c) && Held(n, r) == Held(t, r) + LowBytes(o.accepted)
  {
    hide Parity, Bit, LowByte;
    assert LowBytes([]) == [];
    if t.section == Tx.TransmittingStop { SameByte(r.data, t.data); }
  }

  // ---------- A bit goes over the line ----------

  /** What a step over the line keeps: both in step, no error, no byte lost. */
  ghost predicate Keeps(t: Tx.State, r: Rx.State, i: Tx.Input, j: Rx.Input, c: Config) {
    var ((t', o), (r', p)) := (Tx.Next(t, i), Rx.Next(r, j));
    Coupled(t', r', c) && NoErrors(p) && p.delivered + Held(t', r') == Held(t, r) + LowBytes(o.accepted)
  }

  /** The line takes b from the transmitter to a receiver that is fit for it. */
  predicate Passes(t: Tx.State, r: Rx.State, i: Tx.Input, j: Rx.Input, c: Config, b: bool) {
    && Coupled(t, r, c) && i.config == c && j.config == c && j.active
    && Tx.Next(t, i).1.line == [b] && j.bit == Some(b)
    && (r.section == Rx.SendingData && !b ==> j.collected)
  }

  lemma UpdateKeeps(r: bv32, t: bv32, b: bool, k: nat, n: nat)
    requires SameBits(r, t, n) && n <= k <= 10
    ensures SameBits(UpdateData(b, r, k), t, n) && Bit(UpdateData(b, r, k), k) == b
  {
    hide Bit, UpdateData;
    UpdateBit(b, r, k, k);
    forall j | 0 <= j < n ensures Bit(UpdateData(b, r, k), j) == Bit(t, j) {
      UpdateBit(b, r, k, j);
    }
  }

  lemma UpdateLow(w: bv32, b: bool, k: nat)
    requires 8 <= k <= 10
    ensures LowByte(UpdateData(b, w, k)) == LowByte(w)
  {
    hide LowByte, Bit, UpdateData;
    UpdateKeeps(w, w, b, k, 8);
    SameByte(UpdateData(b, w, k), w);
  }

  lemma StartPasses(t: Tx.State, r: Rx.State, i: Tx.Input, j: Rx.Input, c: Config)
    requires t.section == Tx.TransmittingStart && Passes(t, r, i, j, c, false)
    ensures Keeps(t, r, i, j, c)
  {
    hide LowByte, Bit, UpdateData, Rx.Blank;
    NextIs(r, j);
    assert LowBytes([]) == [];
  }

  lemma DataPasses(t: Tx.State, r: Rx.State, i: Tx.Input, j: Rx.Input, c: Config, b: bool)
    requires t.section == Tx.TransmittingData && Passes(t, r, i, j, c, b) && t.dataCount < 7
    ensures Keeps(t, r, i, j, c)
  {
    hide LowByte, Bit, UpdateData, SameBits, Parity, Rx.Blank;
    NextIs(r, j);
    assert LowBytes([]) == [];
    var k, data := t.dataCount, UpdateData(b, r.data, t.dataCount);
    UpdateKeeps(r.data, t.data, b, k, k);
    OneMore(data, t.data, k);
  }

  lemma LastDataPasses(t: Tx.State, r: Rx.State, i: Tx.Input, j: Rx.Input, c: Config, b: bool)
    requires t.section == Tx.TransmittingData && Passes(t, r, i, j, c, b) && t.dataCount == 7
    ensures Keeps(t, r, i, j, c)
  {
    hide LowByte, Bit, UpdateData, SameBits, Parity, Rx.Blank;
    NextIs(r, j);
    assert LowBytes([]) == [];
    var data := UpdateData(b, r.data, 7);
    UpdateKeeps(r.data, t.data, b, 7, 7);
    OneMore(data, t.data, 7);
    UpdateKeeps(data, t.data, false, 8, 8);
  }

  lemma OneMore(a: bv32, b: bv32, k: nat)
    requires SameBits(a, b, k) && Bit(a, k) == Bit(b, k)
    ensures SameBits(a, b, k + 1)
  {
    hide Bit;
  }

  lemma ParityPasses(t: Tx.State, r: Rx.State, i: Tx.Input, j: Rx.Input, c: Config, b: bool)
    requires t.section == Tx.TransmittingParity && Passes(t, r, i, j, c, b)
    ensures Keeps(t, r, i, j, c)
  {
    hide LowByte, Bit, UpdateData, SameBits, Parity, Rx.Blank;
    NextIs(r, j);
    assert LowBytes([]) == [];
    UpdateKeeps(r.data, t.data, b, 8, 8);
    SameByte(UpdateData(b, r.data, 8), t.data);
    SameParity(UpdateData(b, r.data, 8), t.data);
  }

  lemma StopPasses(t: Tx.State, r: Rx.State, i: Tx.Input, j: Rx.Input, c: Config, b: bool)
    requires t.section == Tx.TransmittingStop && Passes(t, r, i, j, c, b)
    ensures Keeps(t, r, i, j, c)
  {
    hide LowByte, Bit, UpdateData, SameBits, Rx.Blank;
    NextIs(r, j);
    assert LowBytes([]) == [];
    UpdateLow(r.data, b, 9);
    SameByte(r.data, t.data);
  }

  /** An idle stop bit ends the frame before it. */
  lemma EndPasses(t: Tx.State, r: Rx.State, i: Tx.Input, j: Rx.Input, c: Config, b: bool)
    requires t.section == Tx.Idle && Passes(t, r, i, j, c, b)
    requires r.section == Rx.ReceivingStop || r.section == Rx.ReceivingStopSecond
    ensures Keeps(t, r, i, j, c)
  {
    hide LowByte, Bit, UpdateData, SameBits, Parity, Rx.Blank;
    NextIs(r, j);
    assert LowBytes([]) == [];
    if i.word.Some? { assert LowBytes([i.word.value]) == [LowByte(i.word.value)]; }
    UpdateLow(r.data, true, r.dataCount);
    StopSet(r.data, r.dataCount);
  }

  lemma IdlePasses(t: Tx.State, r: Rx.State, i: Tx.Input, j: Rx.Input, c: Config, b: bool)
    requires t.section == Tx.Idle && Passes(t, r, i, j, c, b) && (r.section == Rx.Listening || r.section == Rx.SendingData)
    ensures Keeps(t, r, i, j, c)
  {
    hide LowByte, Bit, UpdateData, SameBits, Parity, Rx.Blank;
    NextIs(r, j);
    assert LowBytes([]) == [];
    if i.word.Some? { assert LowBytes([i.word.value]) == [LowByte(i.word.value)]; }
  }

  lemma StopSet(w: bv32, k: nat)
    requires k == 9 || k == 10
    ensures k == 9 ==> !Rx.Blank(UpdateData(true, w, 9), 0x3FF)
    ensures k == 10 ==> !Rx.Blank(UpdateData(true, w, 10), 0x7FF)
  {
    hide Bit, UpdateData;
    UpdateBit(true, w, k, k);
    NoBreak(UpdateData(true, w, k));
  }

  lemma BitPasses(t: Tx.State, r: Rx.State, i: Tx.Input, j: Rx.Input, c: Config, b: bool)
    requires Passes(t, r, i, j, c, b)
    ensures Keeps(t, r, i, j, c)
  {
    hide Keeps;
    match t.section
    case Idle =>
      if r.section == Rx.Listening || r.section == Rx.SendingData {
        IdlePasses(t, r, i, j, c, b);
      } else {
        EndPasses(t, r, i, j, c, b);
      }
    case TransmittingStart => StartPasses(t, r, i, j, c);
    case TransmittingData => if t.dataCount < 7 { DataPasses(t, r, i, j, c, b); } else { LastDataPasses(t, r, i, j, c, b); }
    case TransmittingParity => ParityPasses(t, r, i, j, c, b);
    case TransmittingStop => StopPasses(t, r, i, j, c, b);
  }

  // ---------- Whole runs ----------

  lemma Regroup(d: seq<bv32>, ds: seq<bv32>, h': seq<bv32>, h: seq<bv32>, w: seq<bv32>, ws: seq<bv32>, e: seq<bv32>)
    requires d + h' == h + w && ds + e == h' + ws
    ensures (d + ds) + e == h + (w + ws)
  {
    assert (d + ds) + e == d + (ds + e);
    assert d + (h' + ws) == (d + h') + ws;
    assert (h + w) + ws == h + (w + ws);
  }

  /**
   * For every run of the transmitter and every run of the receiver on its line, whatever pauses, idle bits and frame
   * setting: no error is reported, and the words handed over are the low bytes of the words sent, in order, up to the
   * one or two that are still under way.
   */
  lemma {:induction false} RoundTrip(t: Tx.State, r: Rx.State, ts: seq<Tx.Input>, js: seq<Rx.Input>, c: Config)
    requires Coupled(t, r, c) && TxOk(ts, c) && RxOk(r, js, c) && Bits(js) == Line(t, ts)
    ensures Clean(r, js) && Coupled(TxEnd(t, ts), RxEnd(r, js), c)
    ensures Delivered(r, js) + Held(TxEnd(t, ts), RxEnd(r, js)) == Held(t, r) + Sent(t, ts)
    decreases |ts| + |js|
  {
    hide Tx.Next, Rx.Next, Coupled, Held, NoErrors;
    var end := Held(TxEnd(t, ts), RxEnd(r, js));
    if js != [] && js[0].bit.None? {
      Pause(t, r, js[0], c);
      var (n, o) := Rx.Next(r, js[0]);
      RoundTrip(t, n, ts, js[1..], c);
      Regroup(o.delivered, Delivered(n, js[1..]), Held(t, n), Held(t, r), [], Sent(t, ts), end);
    } else if ts != [] {
      var (n, o) := Tx.Next(t, ts[0]);
      LineShort(t, ts[0]);
      if o.line == [] {
        Silent(t, r, ts[0], c);
        RoundTrip(n, r, ts[1..], js, c);
        Regroup([], Delivered(r, js), Held(n, r), Held(t, r), LowBytes(o.accepted), Sent(n, ts[1..]), end);
      } else {
        var b := o.line[0];
        BitsFirst(js, o.line, Line(n, ts[1..]));
        BitPasses(t, r, ts[0], js[0], c, b);
        KeepsIs(t, r, ts[0], js[0], c);
        var (m, p) := Rx.Next(r, js[0]);
        RoundTrip(n, m, ts[1..], js[1..], c);
        Regroup(p.delivered, Delivered(m, js[1..]), Held(n, m), Held(t, r), LowBytes(o.accepted), Sent(n, ts[1..]), end);
      }
    } else {
      assert js == [];
    }
  }

  lemma KeepsIs(t: Tx.State, r: Rx.State, i: Tx.Input, j: Rx.Input, c: Config)
    requires Keeps(t, r, i, j, c)
    ensures var ((t', o), (r', p)) := (Tx.Next(t, i), Rx.Next(r, j));
      Coupled(t', r', c) && NoErrors(p) && p.delivered + Held(t', r') == Held(t, r) + LowBytes(o.accepted)
  {
  }

  lemma LineShort(t: Tx.State, i: Tx.Input)
    ensures |Tx.Next(t, i).1.line| <= 1
  {
    hide Bit, Parity;
  }

  lemma BitsFirst(js: seq<Rx.Input>, line: seq<bool>, rest: seq<bool>)
    requires |line| == 1 && Bits(js) == line + rest && (js != [] ==> js[0].bit.Some?)
    ensures js != [] && js[0].bit == Some(line[0]) && line == [line[0]] && Bits(js[1..]) == rest
  {
    if js != [] {
      assert Bits(js) == [js[0].bit.value] + Bits(js[1..]);
      assert Bits(js)[0] == line[0];
      assert Bits(js)[1..] == Bits(js[1..]) && (line + rest)[1..] == rest;
    }
  }

  /** From reset, once the transmitter idles and the last word is collected, the words received are the words sent. */
  lemma StreamRoundTrip(ts: seq<Tx.Input>, js: seq<Rx.Input>, c: Config, g: Config, g': Config)
    requires TxOk(ts, c) && RxOk(Rx.Start(g'), js, c) && Bits(js) == Line(Tx.Start(g), ts)
    ensures Clean(Rx.Start(g'), js)
    ensures Delivered(Rx.Start(g'), js) <= Sent(Tx.Start(g), ts)
    ensures |Sent(Tx.Start(g), ts)| <= |Delivered(Rx.Start(g'), js)| + 2
    ensures TxEnd(Tx.Start(g), ts).section == Tx.Idle && RxEnd(Rx.Start(g'), js).section == Rx.Listening ==>
      Delivered(Rx.Start(g'), js) == Sent(Tx.Start(g), ts)
  {
    var t, r := Tx.Start(g), Rx.Start(g');
    RoundTrip(t, r, ts, js, c);
    var end := Held(TxEnd(t, ts), RxEnd(r, js));
    assert Held(t, r) == [] && |end| <= 2;
    assert Delivered(r, js) + end == Sent(t, ts);
  }

  // ---------- The processes ----------

  lemma TxOneMore(s: Tx.State, ts: seq<Tx.Input>, k: nat)
    requires k < |ts|
    ensures var (n, o) := Tx.Next(s, ts[k]);
      && Line(s, ts[k..]) == o.line + Line(n, ts[k + 1..])
      && Sent(s, ts[k..]) == LowBytes(o.accepted) + Sent(n, ts[k + 1..])
      && TxEnd(s, ts[k..]) == TxEnd(n, ts[k + 1..])
  {
    hide Tx.Next;
    assert ts[k..][1..] == ts[k + 1..];
  }

  lemma TxNone(s: Tx.State)
    ensures Line(s, []) == [] && Sent(s, []) == [] && TxEnd(s, []) == s
  {
  }

  lemma RxOneMore(s: Rx.State, js: seq<Rx.Input>, k: nat)
    requires k < |js|
    ensures var (n, o) := Rx.Next(s, js[k]);
      && Delivered(s, js[k..]) == o.delivered + Delivered(n, js[k + 1..])
      && Clean(s, js[k..]) == (NoErrors(o) && Clean(n, js[k + 1..]))
      && RxEnd(s, js[k..]) == RxEnd(n, js[k + 1..])
  {
    hide Rx.Next;
    assert js[k..][1..] == js[k + 1..];
  }

  lemma RxNone(s: Rx.State)
    ensures Delivered(s, []) == [] && Clean(s, []) && RxEnd(s, []) == s
  {
  }

  method Transmit(tx: Tx.Transmitter, ts: seq<Tx.Input>) returns (line: seq<bool>, sent: seq<bv32>)
    modifies tx
    ensures line == Line(old(tx.Now()), ts) && sent == Sent(old(tx.Now()), ts) && tx.Now() == TxEnd(old(tx.Now()), ts)
  {
    hide *;
    line, sent := [], [];
    assert ts[0..] == ts && ts[|ts|..] == [];
    for k := 0 to |ts|
      invariant line + Line(tx.Now(), ts[k..]) == Line(old(tx.Now()), ts)
      invariant sent + Sent(tx.Now(), ts[k..]) == Sent(old(tx.Now()), ts)
      invariant TxEnd(tx.Now(), ts[k..]) == TxEnd(old(tx.Now()), ts)
    {
      TxOneMore(tx.Now(), ts, k);
      var o := tx.Iterate(ts[k]);
      line, sent := line + o.line, sent + LowBytes(o.accepted);
    }
    TxNone(tx.Now());
  }

  method Collect(rx: Rx.Receiver, js: seq<Rx.Input>) returns (delivered: seq<bv32>, clean: bool)
    modifies rx
    ensures delivered == Delivered(old(rx.Now()), js) && clean == Clean(old(rx.Now()), js) && rx.Now() == RxEnd(old(rx.Now()), js)
  {
    hide *;
    delivered, clean := [], true;
    assert js[0..] == js && js[|js|..] == [];
    for k := 0 to |js|
      invariant delivered + Delivered(rx.Now(), js[k..]) == Delivered(old(rx.Now()), js)
      invariant (clean && Clean(rx.Now(), js[k..])) == Clean(old(rx.Now()), js)
      invariant RxEnd(rx.Now(), js[k..]) == RxEnd(old(rx.Now()), js)
    {
      RxOneMore(rx.Now(), js, k);
      var o := rx.Iterate(js[k]);
      delivered, clean := delivered + o.delivered, clean && NoErrors(o);
    }
    RxNone(rx.Now());
  }

  /** Both processes from reset, the receiver on the line of the transmitter. */
  method Stream(ts: seq<Tx.Input>, js: seq<Rx.Input>, c: Config, g: Config, g': Config)
      returns (sent: seq<bv32>, delivered: seq<bv32>, clean: bool, idle: bool)
    requires TxOk(ts, c) && RxOk(Rx.Start(g'), js, c) && Bits(js) == Line(Tx.Start(g), ts)
    ensures clean && delivered <= sent && |sent| <= |delivered| + 2 && (idle ==> delivered == sent)
    ensures sent == Sent(Tx.Start(g), ts)
  {
    StreamRoundTrip(ts, js, c, g, g');
    var tx := new Tx.Transmitter(g);
    var rx := new Rx.Receiver(g');
    var line;
    line, sent := Transmit(tx, ts);
    delivered, clean := Collect(rx, js);
    idle := tx.section == Tx.Idle && rx.section == Rx.Listening;
  }
}
