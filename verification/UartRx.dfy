/** The UART receiver: one iteration of its process at a time. */
module UartRx {
  import opened Ir
  import opened UartBits

  datatype Section = Listening | SendingData | ReceivingData | ReceivingParity | ReceivingStop | ReceivingStopSecond

  datatype State = State(section: Section, config: Config, data: bv32, dataCount: nat, suspendingCount: nat, timeout: bool)

  /** What the environment does in an iteration: the control word, a bit on the line, whether an offered word is collected. */
  datatype Input = Input(active: bool, bit: Option<bool>, collected: bool, config: Config)

  datatype Event = Event(timeout: bool, ready: bool, errorSrc: bv32)

  /** The word handed over, and the events written to the control unit. */
  datatype Output = Output(delivered: seq<bv32>, events: seq<Event>)

  const NO_ERROR: bv32 := 0
  const ERROR_OVERRUN_MASK: bv32 := 1
  const ERROR_PARITY_MASK: bv32 := 2
  const ERROR_FRAMING_MASK: bv32 := 4
  const ERROR_BREAK_MASK: bv32 := 8
  const UART_TIMEOUT: nat := 44

  function Start(garbage: Config): State {
    State(Listening, garbage, 0, 0, 0, false)
  }

  predicate ParityNotCorrect(data: bv32, parityBit: bool) {
    Parity(data) != parityBit
  }

  /** A frame without a single one in it. */
  predicate Blank(data: bv32, frame: bv32) {
    data & frame == 0
  }

  /** The part of an iteration that depends on the section: new state, response so far, word and early event. */
  function Receive(s: State, i: Input): (State, Event, Output) {
    var quiet, none := Event(false, false, NO_ERROR), Output([], []);
    match s.section
    case SendingData =>
      var startBit := i.bit == Some(false);
      if i.collected then
        (s.(section := if startBit then ReceivingData else Listening), quiet, Output([LowByte(s.data)], []))
      else if startBit then (s.(section := ReceivingData), quiet.(errorSrc := ERROR_OVERRUN_MASK), none)
      else (s, quiet, none)
    case Listening =>
      if i.bit == Some(false) && !s.timeout then (s.(section := ReceivingData, dataCount := 0), quiet, none) else (s, quiet, none)
    case ReceivingData =>
      if i.bit.None? then (s, quiet, none)
      else
        var data := UpdateData(i.bit.value, s.data, s.dataCount);
        if s.dataCount + 1 < UART_DATA_LENGTH then (s.(data := data, dataCount := s.dataCount + 1), quiet, none)
        else if i.config.parity then
          (s.(data := data, dataCount := s.dataCount + 1, config := i.config, section := ReceivingParity), quiet, none)
        else
          (s.(data := UpdateData(false, data, s.dataCount + 1), dataCount := s.dataCount + 2, config := i.config,
              section := ReceivingStop), quiet, none)
    case ReceivingParity =>
      if i.bit.None? then (s, quiet, none)
      else
        var data := UpdateData(i.bit.value, s.data, s.dataCount);
        var wrong := quiet.(errorSrc := ERROR_PARITY_MASK);
        var next := s.(data := data, dataCount := s.dataCount + 1, section := ReceivingStop);
        if ParityNotCorrect(data, i.bit.value) then (next, wrong, Output([], [wrong])) else (next, quiet, none)
    case ReceivingStop =>
      if i.bit.None? then (s, quiet, none)
      else
        var data := UpdateData(i.bit.value, s.data, s.dataCount);
        var resp := if i.bit.value then quiet else quiet.(errorSrc := ERROR_FRAMING_MASK);
        var next := s.(data := data, config := i.config);
        if i.config.twoStopBits then (next.(section := ReceivingStopSecond, dataCount := s.dataCount + 1), resp, none)
        else
          (next.(section := SendingData, dataCount := 0),
           resp.(ready := true, errorSrc := if Blank(data, 0x3FF) then ERROR_BREAK_MASK else resp.errorSrc), none)
    case ReceivingStopSecond =>
      if i.bit.None? then (s, quiet, none)
      else
        var data := UpdateData(i.bit.value, s.data, s.dataCount);
        (s.(data := data, dataCount := 0, section := SendingData),
         quiet.(ready := true, errorSrc := if Blank(data, 0x7FF) then ERROR_BREAK_MASK else NO_ERROR), none)
  }

  /** The rest: suspension while the receiver is not active, and the event. */
  function Conclude(s: State, resp: Event, o: Output, active: bool): (State, Output) {
    var count := if active then 0 else s.suspendingCount + 1;
    var reached := !active && count >= UART_TIMEOUT;
    var next := if reached then s.(suspendingCount := 0, timeout := true, section := Listening)
                else if active then s.(suspendingCount := 0, timeout := false)
                else s.(suspendingCount := count);
    var event := if reached then resp.(timeout := true) else resp;
    (next, if event.timeout || event.ready || event.errorSrc != NO_ERROR then o.(events := o.events + [event]) else o)
  }

  function Next(s: State, i: Input): (State, Output) {
    var (next, resp, o) := Receive(s, i);
    Conclude(next, resp, o, i.active)
  }

  class Receiver {
    var section: Section
    var config: Config
    var rx_bit: bool
    var data: bv32
    var data_count: nat
    var suspending_count: nat
    var timeout: bool

    constructor (garbage: Config)
      ensures Now() == Start(garbage)
    {
      section, config, rx_bit, data, data_count, suspending_count, timeout := Listening, garbage, false, 0, 0, 0, false;
    }

    ghost function Now(): State
      reads this
    {
      State(section, config, data, data_count, suspending_count, timeout)
    }

    method ReceiveBit(i: Input) returns (resp: Event, o: Output)
      modifies this
      ensures (Now(), resp, o) == Receive(old(Now()), i)
    {
      hide Parity, LowByte, UpdateData, Blank;
      resp, o := Event(false, false, NO_ERROR), Output([], []);
      var success := i.bit.Some?;
      if success {
        rx_bit := i.bit.value;
      }
      match section {
        case SendingData =>
          if i.collected {
            o := o.(delivered := [LowByte(data)]);
            section := if success && !rx_bit then ReceivingData else Listening;
          } else if success && !rx_bit {
            section := ReceivingData;
            resp := resp.(errorSrc := ERROR_OVERRUN_MASK);
          }
        case Listening =>
          if success {
            if !rx_bit && !timeout {
              section := ReceivingData;
              data_count := 0;
            }
          }
        case ReceivingData =>
          if success {
            data := UpdateData(rx_bit, data, data_count);
            data_count := data_count + 1;
            if data_count >= UART_DATA_LENGTH {
              config := i.config;
              if config.parity {
                section := ReceivingParity;
              } else {
                section := ReceivingStop;
                data := UpdateData(false, data, data_count);
                data_count := data_count + 1;
              }
            }
          }
        case _ =>
          resp, o := ReceiveEnd(i);
      }
    }

    /** The parity and stop bits. */
    method ReceiveEnd(i: Input) returns (resp: Event, o: Output)
      requires section == ReceivingParity || section == ReceivingStop || section == ReceivingStopSecond
      requires i.bit.Some? ==> rx_bit == i.bit.value
      modifies this
      ensures (Now(), resp, o) == Receive(old(Now()), i)
    {
      hide Parity, LowByte, UpdateData, Blank;
      resp, o := Event(false, false, NO_ERROR), Output([], []);
      if i.bit.None? {
        return;
      }
      match section {
        case ReceivingParity =>
          section := ReceivingStop;
          data := UpdateData(rx_bit, data, data_count);
          data_count := data_count + 1;
          if ParityNotCorrect(data, rx_bit) {
            resp := resp.(errorSrc := ERROR_PARITY_MASK);
            o := o.(events := [resp]);
          }
        case ReceivingStop =>
          data := UpdateData(rx_bit, data, data_count);
          config := i.config;
          if !rx_bit {
            resp := resp.(errorSrc := ERROR_FRAMING_MASK);
          }
          if config.twoStopBits {
            section := ReceivingStopSecond;
            data_count := data_count + 1;
          } else {
            data_count := 0;
            section := SendingData;
            resp := resp.(ready := true);
            if Blank(data, 0x3FF) {
              resp := resp.(errorSrc := ERROR_BREAK_MASK);
            }
          }
        case ReceivingStopSecond =>
          data := UpdateData(rx_bit, data, data_count);
          data_count := 0;
          resp := resp.(ready := true);
          if Blank(data, 0x7FF) {
            resp := resp.(errorSrc := ERROR_BREAK_MASK);
          }
          section := SendingData;
      }
    }

    /** One round of the endless loop. */
    method Iterate(i: Input) returns (o: Output)
      modifies this
      ensures (Now(), o) == Next(old(Now()), i)
    {
      hide Receive;
      var resp;
      resp, o := ReceiveBit(i);
      suspending_count := if i.active then 0 else suspending_count + 1;
      if !i.active && suspending_count >= UART_TIMEOUT {
        suspending_count := 0;
        resp := resp.(timeout := true);
        timeout := true;
        section := Listening;
      } else if i.active {
        suspending_count := 0;
        timeout := false;
      }
      if resp.timeout || resp.ready || resp.errorSrc != NO_ERROR {
        o := o.(events := o.events + [resp]);
      }
    }
  }
}
