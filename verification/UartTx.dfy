/** The UART transmitter: one iteration of its process at a time. */
module UartTx {
  import opened Ir
  import opened UartBits

  datatype Section = Idle | TransmittingStart | TransmittingData | TransmittingParity | TransmittingStop

  datatype State = State(section: Section, config: Config, data: bv32, dataCount: nat)

  /** What the environment does in an iteration: the control word, whether an idle stop bit is taken, a word to send. */
  datatype Input = Input(active: bool, taken: bool, word: Option<bv32>, config: Config)

  /** The bits put on the line and read there, the word accepted, and the ready event. */
  datatype Output = Output(line: seq<bool>, accepted: seq<bv32>, ready: bool)

  const START_BIT := false
  const STOP_BIT := true

  function Start(garbage: Config): State {
    State(Idle, garbage, 0, 0)
  }

  function Next(s: State, i: Input): (State, Output) {
    match s.section
    case Idle =>
      var line := if i.taken then [STOP_BIT] else [];
      if i.active && i.taken && i.word.Some? then
        (s.(section := TransmittingStart, data := i.word.value), Output(line, [i.word.value], false))
      else (s, Output(line, [], false))
    case TransmittingStart =>
      (s.(section := TransmittingData, dataCount := 0), Output([START_BIT], [], false))
    case TransmittingData =>
      var out := Output([Bit(s.data, s.dataCount)], [], false);
      if s.dataCount + 1 >= UART_DATA_LENGTH then
        (s.(dataCount := 0, config := i.config, section := if i.config.parity then TransmittingParity else TransmittingStop), out)
      else (s.(dataCount := s.dataCount + 1), out)
    case TransmittingParity =>
      (s.(config := i.config, section := if i.config.twoStopBits then TransmittingStop else Idle),
       Output([Parity(s.data)], [], !i.config.twoStopBits))
    case TransmittingStop =>
      (s.(section := Idle), Output(if s.config.twoStopBits then [STOP_BIT] else [], [], true))
  }

  class Transmitter {
    var section: Section
    var config: Config
    var data: bv32
    var data_count: nat

    constructor (garbage: Config)
      ensures Now() == Start(garbage)
    {
      section, config, data, data_count := Idle, garbage, 0, 0;
    }

    ghost function Now(): State
      reads this
    {
      State(section, config, data, data_count)
    }

    /** One round of the endless loop. */
    method Iterate(i: Input) returns (o: Output)
      modifies this
      ensures (Now(), o) == Next(old(Now()), i)
    {
      o := Output([], [], false);
      match section {
        case Idle =>
          if i.taken {
            o := o.(line := [STOP_BIT]);
          }
          if i.active && i.taken {
            if i.word.Some? {
              data := i.word.value;
              o := o.(accepted := [data]);
              section := TransmittingStart;
            }
          }
        case TransmittingStart =>
          o := o.(line := [START_BIT]);
          data_count := 0;
          section := TransmittingData;
        case TransmittingData =>
          var next_bit := Bit(data, data_count);
          o := o.(line := [next_bit]);
          data_count := data_count + 1;
          if data_count >= UART_DATA_LENGTH {
            data_count := 0;
            config := i.config;
            section := if config.parity then TransmittingParity else TransmittingStop;
          }
        case TransmittingParity =>
          o := o.(line := [Parity(data)]);
          config := i.config;
          if !config.twoStopBits {
            o := o.(ready := true);
            section := Idle;
          } else {
            section := TransmittingStop;
          }
        case TransmittingStop =>
          if config.twoStopBits {
            o := o.(line := [STOP_BIT]);
          }
          o := o.(ready := true);
          section := Idle;
      }
    }
  }
}
