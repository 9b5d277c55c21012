/** The frame on the line, bit by bit: what the transmitter sends for a word, and what the receiver reports for any frame. */
module UartFrames {
  import opened Ir
  import opened UartBits
  import opened UartStream
  import Tx = UartTx
  import Rx = UartRx

  // ---------- Frames ----------

  /** Start bit, data bits from the lowest, a parity bit if there is one, one or two stop bits. */
  datatype Frame = Frame(data: seq<bool>, parity: Option<bool>, stop: bool, second: Option<bool>)

  function OptionBit(b: Option<bool>): seq<bool> {
    if b.Some? then [b.value] else []
  }

  function FrameBits(f: Frame): seq<bool> {
    [false] + f.data + OptionBit(f.parity) + [f.stop] + OptionBit(f.second)
  }

  /** An odd number of ones. */
  function XorOf(bits: seq<bool>): bool {
    bits != [] && (bits[|bits| - 1] != XorOf(bits[..|bits| - 1]))
  }

  predicate AllZero(bits: seq<bool>) {
    forall k :: 0 <= k < |bits| ==> !bits[k]
  }

  function BitsOf(w: bv32): seq<bool> {
    seq(8, k requires 0 <= k => Bit(w, k))
  }

  // ---------- Bits of the data register ----------

  lemma XorEight(w: bv32)
    ensures Parity(w) == (Test(w, 0x80) != (Test(w, 0x40) != (Test(w, 0x20) != (Test(w, 0x10) != (Test(w, 0x8) !=
      (Test(w, 0x4) != (Test(w, 0x2) != Test(w, 0x1))))))))
  {
  }

  lemma XorStep(b: seq<bool>, k: nat)
    requires k < |b|
    ensures XorOf(b[..k + 1]) == (b[k] != XorOf(b[..k])) && !XorOf(b[..0])
  {
    assert b[..k + 1][..k] == b[..k];
  }

  lemma BitAt(w: bv32, k: nat)
    requires k < 8
    ensures |BitsOf(w)| == 8 && BitsOf(w)[k] == Test(w, BitMask(k))
  {
    hide Test;
  }

  /** The parity macro is the exclusive or of the eight data bits. */
  lemma ParityXor(w: bv32)
    ensures Parity(w) == XorOf(BitsOf(w))
  {
    hide Test, Parity, XorOf, BitsOf;
    XorEight(w);
    var b := BitsOf(w);
    BitAt(w, 0);
    BitAt(w, 1);
    BitAt(w, 2);
    BitAt(w, 3);
    BitAt(w, 4);
    BitAt(w, 5);
    BitAt(w, 6);
    BitAt(w, 7);
    XorStep(b, 0);
    XorStep(b, 1);
    XorStep(b, 2);
    XorStep(b, 3);
    XorStep(b, 4);
    XorStep(b, 5);
    XorStep(b, 6);
    XorStep(b, 7);
    assert b[..8] == b;
  }

  lemma BlankMasks(w: bv32)
    ensures w & 0x3FF == 0 <==>
      && !Test(w, 0x1) && !Test(w, 0x2) && !Test(w, 0x4) && !Test(w, 0x8) && !Test(w, 0x10)
      && !Test(w, 0x20) && !Test(w, 0x40) && !Test(w, 0x80) && !Test(w, 0x100) && !Test(w, 0x200)
    ensures w & 0x7FF == 0 <==> w & 0x3FF == 0 && !Test(w, 0x400)
  {
  }

  lemma BlankBits(w: bv32)
    ensures Rx.Blank(w, 0x3FF) <==> forall k :: 0 <= k < 10 ==> !Bit(w, k)
    ensures Rx.Blank(w, 0x7FF) <==> forall k :: 0 <= k < 11 ==> !Bit(w, k)
  {
    BlankMasks(w);
    hide Test;
    if forall k :: 0 <= k < 10 ==> !Bit(w, k) {
      assert !Bit(w, 0) && !Bit(w, 1) && !Bit(w, 2) && !Bit(w, 3) && !Bit(w, 4) && !Bit(w, 5) && !Bit(w, 6) && !Bit(w, 7);
      assert !Bit(w, 8) && !Bit(w, 9);
    }
    if forall k :: 0 <= k < 11 ==> !Bit(w, k) { assert !Bit(w, 10); }
  }

  /** The first n bits of the register are these. */
  predicate Holds(w: bv32, bits: seq<bool>) {
    forall k :: 0 <= k < |bits| ==> Bit(w, k) == bits[k]
  }

  lemma HoldsMore(w: bv32, bits: seq<bool>, b: bool)
    requires Holds(w, bits) && |bits| <= 10
    ensures Holds(UpdateData(b, w, |bits|), bits + [b])
  {
    hide Bit, UpdateData;
    UpdateBit(b, w, |bits|, |bits|);
    forall k | 0 <= k < |bits| ensures Bit(UpdateData(b, w, |bits|), k) == bits[k] { UpdateBit(b, w, |bits|, k); }
  }

  lemma HoldsBits(w: bv32, bits: seq<bool>)
    requires Holds(w, bits) && |bits| >= 8
    ensures BitsOf(w) == bits[..8]
    ensures |bits| == 10 ==> (Rx.Blank(w, 0x3FF) <==> AllZero(bits))
    ensures |bits| == 11 ==> (Rx.Blank(w, 0x7FF) <==> AllZero(bits))
  {
    BlankBits(w);
    hide Bit, Rx.Blank;
  }

  // ---------- The events of a run ----------

  function Events(s: Rx.State, ins: seq<Rx.Input>): seq<Rx.Event>
    decreases |ins|
  {
    if ins == [] then [] else Rx.Next(s, ins[0]).1.events + Events(Rx.Next(s, ins[0]).0, ins[1..])
  }

  /** What the receiver reports for a frame: the errors where they come, and at the end that a word is ready. */
  function Reports(f: Frame, overrun: bool): seq<Rx.Event> {
    (if overrun then [Rx.Event(false, false, Rx.ERROR_OVERRUN_MASK)] else []) + ParityReport(f) + StopReport(f)
  }

  /** A wrong parity bit is reported twice. */
  function ParityReport(f: Frame): seq<Rx.Event> {
    var wrong := Rx.Event(false, false, Rx.ERROR_PARITY_MASK);
    if f.parity.Some? && f.parity.value != XorOf(f.data) then [wrong, wrong] else []
  }

  /** Nothing but zeros is a break. Otherwise a first stop bit that is zero is a framing error. */
  function StopReport(f: Frame): seq<Rx.Event> {
    var break_ := AllZero(FrameBits(f));
    if f.second.None? then
      [Rx.Event(false, true, if break_ then Rx.ERROR_BREAK_MASK else if !f.stop then Rx.ERROR_FRAMING_MASK else Rx.NO_ERROR)]
    else FirstStopReport(f) + [Rx.Event(false, true, if break_ then Rx.ERROR_BREAK_MASK else Rx.NO_ERROR)]
  }

  function FirstStopReport(f: Frame): seq<Rx.Event> {
    if f.stop then [] else [Rx.Event(false, false, Rx.ERROR_FRAMING_MASK)]
  }

  // ---------- The receiver inside a frame ----------

  /** The rounds stay under the timeout, counted from the inactive rounds before them, and all see the setting of the frame. */
  predicate Calm(count: nat, ins: seq<Rx.Input>, f: Frame)
    decreases |ins|
  {
    ins != [] ==>
      && ins[0].config.parity == f.parity.Some? && ins[0].config.twoStopBits == f.second.Some?
      && (ins[0].active || count + 1 < Rx.UART_TIMEOUT)
      && Calm(if ins[0].active then 0 else count + 1, ins[1..], f)
  }

  /** The bits of a frame without its start bit; a missing parity bit is kept as zero. */
  function Kept(f: Frame): seq<bool> {
    f.data + [f.parity.Some? && f.parity.value] + [f.stop] + OptionBit(f.second)
  }

  /** n of the kept bits are in; the receiver waits for the next of them that is sent. */
  predicate Inside(s: Rx.State, f: Frame, n: nat) {
    && |f.data| == 8 && n < |Kept(f)| && s.dataCount == n && Holds(s.data, Kept(f)[..n])
    && s.section == (if n < 8 then Rx.ReceivingData else if n == 8 then Rx.ReceivingParity
                     else if n == 9 then Rx.ReceivingStop else Rx.ReceivingStopSecond)
    && (n == 8 ==> f.parity.Some?)
  }

  /** How many kept bits are in after the next one. */
  function After(f: Frame, n: nat): nat {
    if n == 7 && f.parity.None? then 9 else n + 1
  }

  /** The bits still to come. */
  function BitsLeft(f: Frame, n: nat): seq<bool>
    requires |f.data| == 8 && n <= |Kept(f)|
  {
    if n <= 8 then f.data[n..] + OptionBit(f.parity) + [f.stop] + OptionBit(f.second) else Kept(f)[n..]
  }

  /** The reports still to come. */
  function ReportsLeft(f: Frame, n: nat): seq<Rx.Event> {
    if n <= 8 then ParityReport(f) + StopReport(f)
    else if n == 9 then StopReport(f)
    else [Rx.Event(false, true, if AllZero(FrameBits(f)) then Rx.ERROR_BREAK_MASK else Rx.NO_ERROR)]
  }

  /** A word is ready; the register holds the data bits. */
  predicate Done(s: Rx.State, f: Frame) {
    s.section == Rx.SendingData && s.dataCount == 0 && Holds(s.data, f.data)
  }

  lemma ConcludeCalm(s: Rx.State, i: Rx.Input)
    requires i.active || s.suspendingCount + 1 < Rx.UART_TIMEOUT
    ensures var ((n, resp, o), (m, p)) := (Rx.Receive(s, i), Rx.Next(s, i));
      && m.suspendingCount == (if i.active then 0 else n.suspendingCount + 1)
      && m.(suspendingCount := 0, timeout := false) == n.(suspendingCount := 0, timeout := false)
      && n.suspendingCount == s.suspendingCount && p.delivered == o.delivered
      && p.events == o.events + if resp.timeout || resp.ready || resp.errorSrc != Rx.NO_ERROR then [resp] else []
  {
    hide UpdateData, Parity, LowByte, Rx.Blank;
  }

  lemma AllZeroKept(f: Frame)
    requires |f.data| == 8
    ensures AllZero(FrameBits(f)) <==> AllZero(Kept(f))
  {
    var a, b := FrameBits(f), Kept(f);
    if AllZero(a) {
      forall k | 0 <= k < |b| ensures !b[k] {
        if k < 8 { assert a[k + 1] == b[k]; }
        if k == 8 && f.parity.Some? { assert a[9] == f.parity.value; }
        if k == 9 { assert a[if f.parity.Some? then 10 else 9] == f.stop; }
        if k == 10 { assert a[if f.parity.Some? then 11 else 10] == f.second.value; }
      }
    }
    if AllZero(b) {
      assert !b[8] && !b[9];
      forall k | 0 <= k < |a| ensures !a[k] {
        if 0 < k <= 8 { assert a[k] == b[k - 1]; }
        if f.second.Some? { assert b[10] == f.second.value; }
      }
    }
  }

  /** A round fits the frame: its setting is that of the frame, and the timeout is not reached in it. */
  predicate Fits(s: Rx.State, i: Rx.Input, f: Frame) {
    && i.config.parity == f.parity.Some? && i.config.twoStopBits == f.second.Some?
    && (i.active || s.suspendingCount + 1 < Rx.UART_TIMEOUT)
  }

  function CountAfter(s: Rx.State, i: Rx.Input): nat {
    if i.active then 0 else s.suspendingCount + 1
  }

  /** A round inside a frame without a bit. */
  lemma PauseInside(s: Rx.State, f: Frame, n: nat, i: Rx.Input)
    requires Inside(s, f, n) && Fits(s, i, f) && i.bit.None?
    ensures var (m, o) := Rx.Next(s, i);
      Inside(m, f, n) && m.suspendingCount == CountAfter(s, i) && o == Rx.Output([], [])
  {
    ConcludeCalm(s, i);
    hide UpdateData, Parity, LowByte, Rx.Blank, Holds, Rx.Next, Kept;
  }

  /** What a round with the next bit leaves: the rest of the frame, or the word ready. */
  ghost predicate Goes(s: Rx.State, f: Frame, n: nat, i: Rx.Input)
    requires |f.data| == 8 && n < |Kept(f)|
  {
    var (m, o) := Rx.Next(s, i);
    && m.suspendingCount == CountAfter(s, i) && o.delivered == []
    && if After(f, n) < |Kept(f)| then
         Inside(m, f, After(f, n)) && o.events + ReportsLeft(f, After(f, n)) == ReportsLeft(f, n)
       else Done(m, f) && o.events == ReportsLeft(f, n)
  }

  lemma KeptPrefix(f: Frame, n: nat)
    requires |f.data| == 8 && n < |Kept(f)|
    ensures Kept(f)[..n + 1] == Kept(f)[..n] + [Kept(f)[n]] && |Kept(f)[..n]| == n
    ensures n < 8 ==> Kept(f)[n] == f.data[n]
    ensures Kept(f)[8] == (f.parity.Some? && f.parity.value) && Kept(f)[9] == f.stop && (n == 10 ==> Kept(f)[10] == f.second.value)
    ensures |Kept(f)| == if f.second.Some? then 11 else 10
  {
  }

  lemma DataBitIn(s: Rx.State, f: Frame, n: nat, i: Rx.Input)
    requires Inside(s, f, n) && n < 7 && Fits(s, i, f) && i.bit == Some(f.data[n])
    ensures Goes(s, f, n, i)
  {
    ConcludeCalm(s, i);
    KeptPrefix(f, n);
    HoldsMore(s.data, Kept(f)[..n], f.data[n]);
    hide UpdateData, Parity, LowByte, Rx.Blank, Holds, Rx.Next, Kept, ParityReport, StopReport;
  }

  lemma LastDataBitIn(s: Rx.State, f: Frame, i: Rx.Input)
    requires Inside(s, f, 7) && Fits(s, i, f) && i.bit == Some(f.data[7])
    ensures Goes(s, f, 7, i)
  {
    ConcludeCalm(s, i);
    KeptPrefix(f, 7);
    KeptPrefix(f, 8);
    HoldsMore(s.data, Kept(f)[..7], f.data[7]);
    if f.parity.None? { HoldsMore(UpdateData(f.data[7], s.data, 7), Kept(f)[..8], false); }
    hide UpdateData, Parity, LowByte, Rx.Blank, Holds, Rx.Next, Kept, StopReport;
  }

  /** The check of the parity bit compares it with the data bits. */
  lemma ParityChecked(w: bv32, f: Frame)
    requires |f.data| == 8 && f.parity.Some? && Holds(w, Kept(f)[..9])
    ensures Rx.ParityNotCorrect(w, f.parity.value) <==> f.parity.value != XorOf(f.data)
  {
    HoldsBits(w, Kept(f)[..9]);
    assert Kept(f)[..9][..8] == f.data;
    hide Parity, XorOf, BitsOf, Bit;
    ParityXor(w);
  }

  lemma ParityBitIn(s: Rx.State, f: Frame, i: Rx.Input)
    requires Inside(s, f, 8) && Fits(s, i, f) && i.bit == Some(f.parity.value)
    ensures Goes(s, f, 8, i)
  {
    KeptPrefix(f, 8);
    hide UpdateData, Parity, LowByte, Rx.Blank, Holds, Rx.Next, Kept, StopReport, XorOf, BitsOf, Rx.ParityNotCorrect;
    ConcludeCalm(s, i);
    HoldsMore(s.data, Kept(f)[..8], f.parity.value);
    ParityChecked(UpdateData(f.parity.value, s.data, 8), f);
  }

  lemma StopBitIn(s: Rx.State, f: Frame, i: Rx.Input)
    requires Inside(s, f, 9) && Fits(s, i, f) && i.bit == Some(f.stop)
    ensures Goes(s, f, 9, i)
  {
    ConcludeCalm(s, i);
    KeptPrefix(f, 9);
    HoldsMore(s.data, Kept(f)[..9], f.stop);
    var w := UpdateData(f.stop, s.data, 9);
    HoldsBits(w, Kept(f)[..10]);
    AllZeroKept(f);
    DataHeld(w, f, 10);
    if f.second.None? { assert Kept(f)[..10] == Kept(f); }
    hide UpdateData, Parity, LowByte, Rx.Blank, Holds, Rx.Next, Kept, AllZero, FrameBits, BitsOf;
  }

  lemma SecondStopBitIn(s: Rx.State, f: Frame, i: Rx.Input)
    requires Inside(s, f, 10) && Fits(s, i, f) && i.bit == Some(f.second.value)
    ensures Goes(s, f, 10, i)
  {
    ConcludeCalm(s, i);
    KeptPrefix(f, 10);
    HoldsMore(s.data, Kept(f)[..10], f.second.value);
    var w := UpdateData(f.second.value, s.data, 10);
    assert Kept(f)[..11] == Kept(f);
    HoldsBits(w, Kept(f));
    AllZeroKept(f);
    DataHeld(w, f, 11);
    hide UpdateData, Parity, LowByte, Rx.Blank, Holds, Rx.Next, Kept, AllZero, FrameBits, BitsOf;
  }

  lemma DataHeld(w: bv32, f: Frame, n: nat)
    requires |f.data| == 8 && 8 <= n <= |Kept(f)| && Holds(w, Kept(f)[..n])
    ensures Holds(w, f.data)
  {
    hide Bit;
    forall k | 0 <= k < 8 ensures Bit(w, k) == f.data[k] { assert Kept(f)[..n][k] == f.data[k]; }
  }

  lemma BitIn(s: Rx.State, f: Frame, n: nat, i: Rx.Input)
    requires Inside(s, f, n) && Fits(s, i, f) && i.bit == Some(BitsLeft(f, n)[0])
    ensures Goes(s, f, n, i)
  {
    KeptPrefix(f, n);
    hide Goes, Rx.Next, Holds;
    if n < 7 {
      DataBitIn(s, f, n, i);
    } else if n == 7 {
      LastDataBitIn(s, f, i);
    } else if n == 8 {
      assert f.data[8..] == [];
      ParityBitIn(s, f, i);
    } else if n == 9 {
      StopBitIn(s, f, i);
    } else {
      SecondStopBitIn(s, f, i);
    }
  }

  lemma BitsLeftNext(f: Frame, n: nat)
    requires |f.data| == 8 && n < |Kept(f)| && (n == 8 ==> f.parity.Some?)
    ensures BitsLeft(f, n) != [] && After(f, n) <= |Kept(f)|
    ensures BitsLeft(f, n)[1..] == BitsLeft(f, After(f, n))
    ensures After(f, n) == |Kept(f)| ==> |BitsLeft(f, n)| == 1
  {
  }

  /** From inside a frame, whatever pauses there are: the rest of the reports, and the word ready with the last bit. */
  lemma {:induction false} RestOfFrame(s: Rx.State, f: Frame, n: nat, js: seq<Rx.Input>)
    requires Inside(s, f, n) && Calm(s.suspendingCount, js, f) && Bits(js) == BitsLeft(f, n)
    requires js != [] && js[|js| - 1].bit.Some?
    ensures Events(s, js) == ReportsLeft(f, n) && Delivered(s, js) == [] && Done(RxEnd(s, js), f)
    decreases |js|
  {
    hide Rx.Next, Holds, ReportsLeft, Kept, BitsLeft;
    var (m, o) := Rx.Next(s, js[0]);
    if js[0].bit.None? {
      PauseInside(s, f, n, js[0]);
      assert js[1..] != [] && js[1..][|js| - 2] == js[|js| - 1];
      RestOfFrame(m, f, n, js[1..]);
    } else {
      BitsLeftNext(f, n);
      FirstBit(js, BitsLeft(f, n));
      BitIn(s, f, n, js[0]);
      if After(f, n) < |Kept(f)| {
        MoreBits(f, n);
        NoBits(js[1..]);
        assert js[1..][|js| - 2] == js[|js| - 1];
        RestOfFrame(m, f, After(f, n), js[1..]);
      } else {
        LastBit(js);
        assert js[1..] == [];
      }
    }
  }

  lemma FirstBit(js: seq<Rx.Input>, bits: seq<bool>)
    requires js != [] && js[0].bit.Some? && Bits(js) == bits && bits != []
    ensures js[0].bit == Some(bits[0]) && Bits(js[1..]) == bits[1..]
  {
    assert Bits(js) == [js[0].bit.value] + Bits(js[1..]);
  }

  lemma MoreBits(f: Frame, n: nat)
    requires |f.data| == 8 && After(f, n) < |Kept(f)|
    ensures BitsLeft(f, After(f, n)) != []
  {
  }

  lemma NoBits(js: seq<Rx.Input>)
    ensures js == [] ==> Bits(js) == []
  {
  }

  /** A run that ends with a bit and has only one consists of it when it starts with it. */
  lemma {:induction false} EndsWithBit(js: seq<Rx.Input>)
    requires js != [] && js[|js| - 1].bit.Some?
    ensures Bits(js) != []
    decreases |js|
  {
    if |js| > 1 { EndsWithBit(js[1..]); }
  }

  lemma LastBit(js: seq<Rx.Input>)
    requires js != [] && js[0].bit.Some? && js[|js| - 1].bit.Some? && |Bits(js)| == 1
    ensures |js| == 1
  {
    if |js| > 1 { EndsWithBit(js[1..]); }
  }

  // ---------- Whole frames ----------

  /** Ready for a start bit: listening and not timed out, or with a word that waits to be collected. */
  predicate Ready(s: Rx.State) {
    (s.section == Rx.Listening && !s.timeout) || (s.section == Rx.SendingData && s.dataCount == 0)
  }

  lemma StartReports(f: Frame, overrun: bool)
    ensures Reports(f, overrun) == (if overrun then [Rx.Event(false, false, Rx.ERROR_OVERRUN_MASK)] else []) + ReportsLeft(f, 0)
  {
    hide ParityReport, StopReport;
  }

  lemma NoneIn(w: bv32, f: Frame)
    requires |f.data| == 8
    ensures 0 < |Kept(f)| && Holds(w, Kept(f)[..0])
  {
    hide Bit;
  }

  lemma StartStep(s: Rx.State, i: Rx.Input)
    requires Ready(s) && (i.active || s.suspendingCount + 1 < Rx.UART_TIMEOUT) && i.bit == Some(false)
    ensures var ((m, o), waiting) := (Rx.Next(s, i), s.section == Rx.SendingData);
      && m.section == Rx.ReceivingData && m.dataCount == 0 && m.data == s.data && m.suspendingCount == CountAfter(s, i)
      && o.delivered == (if waiting && i.collected then [LowByte(s.data)] else [])
      && o.events == if waiting && !i.collected then [Rx.Event(false, false, Rx.ERROR_OVERRUN_MASK)] else []
  {
    ConcludeCalm(s, i);
    hide UpdateData, Parity, LowByte, Rx.Blank, Rx.Next;
  }

  lemma {:induction false} StartIn(s: Rx.State, f: Frame, i: Rx.Input)
    requires |f.data| == 8 && Ready(s) && Fits(s, i, f) && i.bit == Some(false)
    ensures var ((m, o), waiting) := (Rx.Next(s, i), s.section == Rx.SendingData);
      && Inside(m, f, 0) && m.suspendingCount == CountAfter(s, i)
      && o.delivered == (if waiting && i.collected then [LowByte(s.data)] else [])
      && o.events + ReportsLeft(f, 0) == Reports(f, waiting && !i.collected)
  {
    StartStep(s, i);
    StartReports(f, s.section == Rx.SendingData && !i.collected);
    NoneIn(s.data, f);
    hide LowByte, Rx.Next, Reports, ReportsLeft, Holds, Kept;
  }

  /**
   * For every frame, with whatever pauses between its bits, as long as the timeout is not reached: the receiver reports an
   * overrun exactly when the word before was not collected by the start bit, a parity error exactly when the parity bit is not
   * the exclusive or of the data bits, a break exactly when the frame is all zero, a framing error exactly when the first stop
   * bit is zero (with one stop bit a break takes its place), and then that a word is ready, whose bits are the data bits.
   */
  lemma {:induction false} FrameExact(s: Rx.State, f: Frame, js: seq<Rx.Input>)
    requires |f.data| == 8 && Ready(s) && Calm(s.suspendingCount, js, f) && Bits(js) == FrameBits(f)
    requires js != [] && js[0].bit.Some? && js[|js| - 1].bit.Some?
    ensures var waiting := s.section == Rx.SendingData;
      && Events(s, js) == Reports(f, waiting && !js[0].collected)
      && Delivered(s, js) == (if waiting && js[0].collected then [LowByte(s.data)] else [])
    ensures RxEnd(s, js).section == Rx.SendingData && RxEnd(s, js).dataCount == 0 && BitsOf(RxEnd(s, js).data) == f.data
  {
    assert FrameBits(f) != [] && FrameBits(f)[0] == false && FrameBits(f)[1..] == BitsLeft(f, 0) != [];
    assert Calm(CountAfter(s, js[0]), js[1..], f) && Fits(s, js[0], f);
    hide Rx.Next, Bit, ReportsLeft, Reports, LowByte, Inside, FrameBits, BitsLeft, Fits, Done, Ready, Calm;
    FirstBit(js, FrameBits(f));
    StartIn(s, f, js[0]);
    NoBits(js[1..]);
    assert js[1..] != [] && js[1..][|js| - 2] == js[|js| - 1];
    RestOfFrame(Rx.Next(s, js[0]).0, f, 0, js[1..]);
    DoneBits(RxEnd(s, js), f);
  }

  lemma DoneBits(s: Rx.State, f: Frame)
    requires Done(s, f) && |f.data| == 8
    ensures s.section == Rx.SendingData && s.dataCount == 0 && BitsOf(s.data) == f.data
  {
    hide Bit;
  }

  /** Between frames: a round without a start bit reports nothing, and a word that waits is handed over when it is collected. */
  lemma BetweenFrames(s: Rx.State, i: Rx.Input)
    requires s.section == Rx.Listening || s.section == Rx.SendingData
    requires i.bit != Some(false) && (i.active || s.suspendingCount + 1 < Rx.UART_TIMEOUT)
    ensures var ((m, o), waiting) := (Rx.Next(s, i), s.section == Rx.SendingData);
      && o.events == [] && o.delivered == (if waiting && i.collected then [LowByte(s.data)] else [])
      && m.data == s.data && m.dataCount == s.dataCount
      && m.section == if waiting && !i.collected then Rx.SendingData else Rx.Listening
  {
    ConcludeCalm(s, i);
    hide UpdateData, Parity, LowByte, Rx.Blank, Rx.Next;
  }

  /** The receiver is timed out from a timeout on until it is active, and at no other time. */
  lemma TimeoutFlag(s: Rx.State, i: Rx.Input)
    ensures Rx.Next(s, i).0.timeout <==> !i.active && (s.timeout || s.suspendingCount + 1 >= Rx.UART_TIMEOUT)
  {
    hide UpdateData, Parity, LowByte, Rx.Blank;
  }

  // ---------- Timeouts ----------

  /** The receiver before round i. */
  function Before(s: Rx.State, ins: seq<Rx.Input>, i: nat): Rx.State
    requires i <= |ins|
  {
    if i == 0 then s else Rx.Next(Before(s, ins, i - 1), ins[i - 1]).0
  }

  /** How many rounds up to round i were inactive in a row, with those before the run. */
  function Inactive(count: nat, ins: seq<Rx.Input>, i: nat): nat
    requires i <= |ins|
  {
    if i == 0 then count else if ins[i - 1].active then 0 else Inactive(count, ins, i - 1) + 1
  }

  predicate TimesOut(o: Rx.Output) {
    exists k :: 0 <= k < |o.events| && o.events[k].timeout
  }

  lemma OneTimeout(s: Rx.State, i: Rx.Input)
    requires s.suspendingCount < Rx.UART_TIMEOUT
    ensures var (m, o) := Rx.Next(s, i);
      && (TimesOut(o) <==> !i.active && s.suspendingCount + 1 == Rx.UART_TIMEOUT)
      && m.suspendingCount == (if i.active || s.suspendingCount + 1 == Rx.UART_TIMEOUT then 0 else s.suspendingCount + 1)
      && (TimesOut(o) ==> m.section == Rx.Listening)
      && (m.timeout <==> TimesOut(o) || (s.timeout && !i.active))
  {
    NoEarlyTimeout(s, i);
    hide Rx.Receive;
    var (n, resp, o) := Rx.Receive(s, i);
    var p := Rx.Next(s, i).1;
    if !i.active && s.suspendingCount + 1 == Rx.UART_TIMEOUT {
      assert p.events[|p.events| - 1].timeout;
    }
  }

  lemma NoEarlyTimeout(s: Rx.State, i: Rx.Input)
    ensures var (n, resp, o) := Rx.Receive(s, i);
      && !resp.timeout && (forall k :: 0 <= k < |o.events| ==> !o.events[k].timeout)
      && n.suspendingCount == s.suspendingCount && n.timeout == s.timeout
  {
    hide UpdateData, Parity, LowByte, Rx.Blank;
  }

  lemma {:induction false} SuspendedCount(s: Rx.State, ins: seq<Rx.Input>, i: nat)
    requires s.suspendingCount < Rx.UART_TIMEOUT && i <= |ins|
    ensures Before(s, ins, i).suspendingCount == Inactive(s.suspendingCount, ins, i) % 44
    decreases i
  {
    hide Rx.Next;
    if i > 0 {
      SuspendedCount(s, ins, i - 1);
      OneTimeout(Before(s, ins, i - 1), ins[i - 1]);
      NextModulo(Inactive(s.suspendingCount, ins, i - 1));
    }
  }

  lemma NextModulo(n: nat)
    ensures (n + 1) % 44 == if n % 44 == 43 then 0 else n % 44 + 1
  {
  }

  /** A timeout is reported exactly in every forty-fourth inactive round in a row, and then the receiver listens. */
  lemma TimeoutExact(s: Rx.State, ins: seq<Rx.Input>, i: nat)
    requires s.suspendingCount < Rx.UART_TIMEOUT && i < |ins|
    ensures var n, o := Inactive(s.suspendingCount, ins, i + 1), Rx.Next(Before(s, ins, i), ins[i]).1;
      && (TimesOut(o) <==> n > 0 && n % 44 == 0)
      && (TimesOut(o) ==> Before(s, ins, i + 1).section == Rx.Listening && Before(s, ins, i + 1).timeout)
  {
    hide Rx.Next, TimesOut;
    SuspendedCount(s, ins, i);
    OneTimeout(Before(s, ins, i), ins[i]);
    NextModulo(Inactive(s.suspendingCount, ins, i));
  }

  /** After a timeout no frame starts until the receiver is active again. */
  lemma TimedOut(s: Rx.State, i: Rx.Input)
    requires s.section == Rx.Listening && s.timeout && s.suspendingCount < Rx.UART_TIMEOUT
    ensures var (m, o) := Rx.Next(s, i);
      m.section == Rx.Listening && o.delivered == [] && (m.timeout <==> !i.active)
  {
    hide UpdateData, Parity, LowByte, Rx.Blank;
  }

  // ---------- The transmitter ----------

  /** The frame of a word: its bits from the lowest, their exclusive or, stop bits. */
  function FrameOf(w: bv32, c: Config): Frame {
    Frame(BitsOf(w), if c.parity then Some(XorOf(BitsOf(w))) else None, true, if c.twoStopBits then Some(true) else None)
  }

  predicate Setting(ts: seq<Tx.Input>, c: Config) {
    forall k :: 0 <= k < |ts| ==> ts[k].config == c
  }

  /** How many rounds are left with k data bits sent. */
  function RoundsLeft(c: Config, k: nat): nat
    requires k <= 8
  {
    8 - k + (if c.parity then 1 else 0) + if c.parity && !c.twoStopBits then 0 else 1
  }

  /** What is put on the line after k data bits; the first stop bit is the idle line. */
  function LineLeft(w: bv32, c: Config, k: nat): seq<bool>
    requires k <= 8
  {
    BitsOf(w)[k..] + OptionBit(FrameOf(w, c).parity) + OptionBit(FrameOf(w, c).second)
  }

  function Readies(s: Tx.State, ins: seq<Tx.Input>): nat
    decreases |ins|
  {
    if ins == [] then 0 else (if Tx.Next(s, ins[0]).1.ready then 1 else 0) + Readies(Tx.Next(s, ins[0]).0, ins[1..])
  }

  lemma {:induction false} AfterData(s: Tx.State, ts: seq<Tx.Input>, c: Config)
    requires Setting(ts, c) && |ts| == RoundsLeft(c, 8) && s.config == c
    requires s.section == if c.parity then Tx.TransmittingParity else Tx.TransmittingStop
    ensures Line(s, ts) == LineLeft(s.data, c, 8) && TxEnd(s, ts).section == Tx.Idle && Readies(s, ts) == 1 && Sent(s, ts) == []
  {
    ParityXor(s.data);
    hide Parity, XorOf, BitsOf;
    assert BitsOf(s.data)[8..] == [] by { assert |BitsOf(s.data)| == 8 by { BitsLength(s.data); } }
    assert LowBytes([]) == [];
    var (m, o) := Tx.Next(s, ts[0]);
    if |ts| == 2 {
      var (n, q) := Tx.Next(m, ts[1]);
      assert ts[1..][1..] == [];
      assert TxEnd(m, ts[1..]) == TxEnd(n, []) == n && n.section == Tx.Idle;
      assert Line(m, ts[1..]) == q.line + Line(n, []) && Readies(m, ts[1..]) == 1 && Sent(m, ts[1..]) == [];
    } else {
      assert ts[1..] == [];
    }
  }

  lemma BitsLength(w: bv32)
    ensures |BitsOf(w)| == 8
  {
  }

  lemma DataRound(s: Tx.State, i: Tx.Input)
    requires s.section == Tx.TransmittingData && s.dataCount < 8
    ensures var (m, o) := Tx.Next(s, i);
      && m.data == s.data && o == Tx.Output([Bit(s.data, s.dataCount)], [], false)
      && if s.dataCount < 7 then m.section == Tx.TransmittingData && m.dataCount == s.dataCount + 1
         else m.config == i.config && m.section == if i.config.parity then Tx.TransmittingParity else Tx.TransmittingStop
  {
    hide Bit, Parity;
  }

  lemma LineOneMore(w: bv32, c: Config, k: nat)
    requires k < 8
    ensures LineLeft(w, c, k) == [Bit(w, k)] + LineLeft(w, c, k + 1)
  {
    hide Bit, XorOf;
    assert BitsOf(w)[k..] == [Bit(w, k)] + BitsOf(w)[k + 1..];
  }

  lemma {:induction false} DataOut(s: Tx.State, ts: seq<Tx.Input>, c: Config)
    requires s.section == Tx.TransmittingData && s.dataCount < 8 && Setting(ts, c) && |ts| == RoundsLeft(c, s.dataCount)
    ensures Line(s, ts) == LineLeft(s.data, c, s.dataCount)
    ensures TxEnd(s, ts).section == Tx.Idle && Readies(s, ts) == 1 && Sent(s, ts) == []
    decreases 8 - s.dataCount
  {
    hide Tx.Next, LineLeft, Bit;
    DataRound(s, ts[0]);
    LineOneMore(s.data, c, s.dataCount);
    NothingAccepted();
    var m := Tx.Next(s, ts[0]).0;
    if s.dataCount == 7 {
      AfterData(m, ts[1..], c);
    } else {
      DataOut(m, ts[1..], c);
    }
  }

  lemma NothingAccepted()
    ensures LowBytes([]) == []
  {
  }

  /** An idle round: nothing but a stop bit on the line, no word said to be ready, and a word taken only when it can go out. */
  lemma IdleRound(s: Tx.State, i: Tx.Input)
    requires s.section == Tx.Idle
    ensures var ((m, o), starts) := (Tx.Next(s, i), i.active && i.taken && i.word.Some?);
      && o.line == (if i.taken then [true] else []) && !o.ready && o.accepted == (if starts then [i.word.value] else [])
      && m.section == if starts then Tx.TransmittingStart else Tx.Idle
  {
    hide Bit, Parity;
  }

  lemma StartRounds(s: Tx.State, i: Tx.Input, j: Tx.Input, w: bv32)
    requires s.section == Tx.Idle && i.active && i.taken && i.word == Some(w)
    ensures var (m, o) := Tx.Next(s, i);
      var (n, q) := Tx.Next(m, j);
      && o == Tx.Output([true], [w], false) && q == Tx.Output([false], [], false)
      && n.section == Tx.TransmittingData && n.dataCount == 0 && n.data == w
    ensures LowBytes([w]) == [LowByte(w)]
  {
    hide Bit, Parity, LowByte;
  }

  /**
   * From the round in which the idle transmitter takes a word: after the idle stop bit the line carries the start bit, the
   * eight data bits from the lowest, their exclusive or if parity is set, and the second stop bit if there are two. Then the
   * transmitter idles again and has said once that it is ready.
   */
  lemma {:induction false} FrameSent(s: Tx.State, ts: seq<Tx.Input>, c: Config, w: bv32)
    requires s.section == Tx.Idle && Setting(ts, c) && |ts| == 2 + RoundsLeft(c, 0)
    requires ts[0].active && ts[0].taken && ts[0].word == Some(w)
    ensures Line(s, ts) == [true, false] + BitsOf(w) + OptionBit(FrameOf(w, c).parity) + OptionBit(FrameOf(w, c).second)
    ensures TxEnd(s, ts).section == Tx.Idle && Readies(s, ts) == 1 && Sent(s, ts) == [LowByte(w)]
  {
    hide Tx.Next, BitsOf, LowByte, LowBytes;
    StartRounds(s, ts[0], ts[1], w);
    NothingAccepted();
    BitsLength(w);
    var m := Tx.Next(s, ts[0]).0;
    var n := Tx.Next(m, ts[1]).0;
    assert ts[1..][0] == ts[1] && ts[1..][1..] == ts[2..];
    DataOut(n, ts[2..], c);
    assert BitsOf(w)[0..] == BitsOf(w);
    assert Line(m, ts[1..]) == [false] + LineLeft(w, c, 0) && Readies(m, ts[1..]) == 1 && Sent(m, ts[1..]) == [];
  }
}
