/**
 * The blocking channel with one reader and one writer. Processes run one at a time and only a wait gives way to another;
 * an immediate notification wakes the processes that wait for the event at that moment, and no others (section 4.2.1 of
 * IEEE 1666-2011).
 */
module Blocking {

  /** Where a process stands with respect to the channel. */
  datatype Process =
    | Away      // not in a channel operation; it may start one when it runs next
    | Asleep    // waits for the notification of the other side
    | Woken     // was notified and continues after its wait when it runs next

  datatype State<T> = State(reader: Process, writer: Process, available: bool, shared: T, written: seq<T>, read: seq<T>)

  /** Which process runs next; a writer that starts an operation has a value for it. */
  datatype Move<T> = Reader | Writer(value: T)

  function Initial<T>(garbage: T): State<T> {
    State(Away, Away, false, garbage, [], [])
  }

  predicate Runnable<T>(s: State<T>, m: Move<T>) {
    if m.Reader? then s.reader != Asleep else s.writer != Asleep
  }

  function Notified(p: Process): Process {
    if p == Asleep then Woken else p
  }

  /** The process runs from where it stands to its next wait or to the end of its operation. */
  function Next<T>(s: State<T>, m: Move<T>): State<T>
    requires Runnable(s, m)
  {
    match m
    case Reader =>
      if s.reader == Away && !s.available then s.(reader := Asleep)
      else s.(reader := Away, available := false, writer := Notified(s.writer), read := s.read + [s.shared])
    case Writer(v) =>
      if s.writer == Woken then s.(writer := Away)
      else s.(writer := Asleep, available := true, shared := v, reader := Notified(s.reader), written := s.written + [v])
  }

  /** A run of the scheduler: every move is one of a process that can run. */
  predicate IsRun<T>(s: State<T>, moves: seq<Move<T>>)
    decreases |moves|
  {
    moves != [] ==> Runnable(s, moves[0]) && IsRun(Next(s, moves[0]), moves[1..])
  }

  function After<T>(s: State<T>, moves: seq<Move<T>>): State<T>
    requires IsRun(s, moves)
    decreases |moves|
  {
    if moves == [] then s else After(Next(s, moves[0]), moves[1..])
  }

  // ---------- Safety ----------

  /** The asserts in the channel: a woken reader finds data, a woken writer finds its data gone. */
  predicate AssertsHold<T>(s: State<T>) {
    (s.reader == Woken ==> s.available) && (s.writer == Woken ==> !s.available)
  }

  /** What was read is what was written, but for the value still in the channel. */
  ghost predicate NothingLost<T>(s: State<T>) {
    s.written == s.read + if s.available then [s.shared] else []
  }

  ghost predicate Safe<T>(s: State<T>) {
    && AssertsHold(s) && NothingLost(s)
    && (s.writer == Asleep <==> s.available)
    && (s.reader == Asleep ==> !s.available)
  }

  lemma NextSafe<T>(s: State<T>, m: Move<T>)
    requires Safe(s) && Runnable(s, m)
    ensures Safe(Next(s, m))
  {
    if m.Reader? && !(s.reader == Away && !s.available) {
      assert s.read + [s.shared] + [] == s.read + [s.shared];
    }
  }

  /**
   * In every run the values read are a prefix of the values written that misses at most the last, both asserts hold,
   * and reader and writer are never both asleep.
   */
  lemma {:induction false} RunSafe<T>(s: State<T>, moves: seq<Move<T>>)
    requires Safe(s) && IsRun(s, moves)
    ensures var e := After(s, moves);
      && Safe(e) && e.read <= e.written && |e.written| <= |e.read| + 1
      && !(e.reader == Asleep && e.writer == Asleep)
    decreases |moves|
  {
    if moves != [] {
      NextSafe(s, moves[0]);
      RunSafe(Next(s, moves[0]), moves[1..]);
    }
  }

  lemma InitialSafe<T>(garbage: T)
    ensures Safe(Initial(garbage))
  {
    assert [] == [] + if false then [garbage] else [];
  }

  // ---------- Progress ----------

  /** How many moves there can be before the next value is read, whichever processes make them. */
  function Distance<T>(s: State<T>): nat {
    if s.available then 1
    else if s.writer == Away then (if s.reader == Asleep then 2 else 3)
    else if s.reader == Asleep then 3 else 4
  }

  lemma NextCloser<T>(s: State<T>, m: Move<T>)
    requires Safe(s) && Runnable(s, m)
    ensures var n := Next(s, m);
      if |n.read| == |s.read| + 1 then Distance(n) <= 4 else n.read == s.read && Distance(n) < Distance(s)
  {
  }

  /** Without any fairness of the scheduler, at least every fourth move reads a value. */
  lemma {:induction false} RunProgress<T>(s: State<T>, moves: seq<Move<T>>)
    requires Safe(s) && IsRun(s, moves)
    ensures |moves| + Distance(After(s, moves)) <= 4 * (|After(s, moves).read| - |s.read|) + Distance(s)
    decreases |moves|
  {
    if moves != [] {
      NextSafe(s, moves[0]);
      NextCloser(s, moves[0]);
      RunProgress(Next(s, moves[0]), moves[1..]);
    }
  }

  // ---------- The channel object ----------

  class Channel<T> {
    var shared_data: T
    var available_data: bool
    var reader: Process
    var writer: Process
    ghost var written: seq<T>
    ghost var taken: seq<T>

    constructor (garbage: T)
      ensures Abstract() == Initial(garbage)
    {
      shared_data, available_data, reader, writer, written, taken := garbage, false, Away, Away, [], [];
    }

    ghost function Abstract(): State<T>
      reads this
    {
      State(reader, writer, available_data, shared_data, written, taken)
    }

    /** read, from the call to the wait or to the end. */
    method Read() returns (done: bool, out: T)
      requires reader == Away && Safe(Abstract())
      modifies this
      ensures Abstract() == Next(old(Abstract()), Reader) && Safe(Abstract())
      ensures done == old(available_data) && (done ==> taken == old(taken) + [out])
    {
      NextSafe(Abstract(), Reader);
      out := shared_data;
      if !available_data {
        reader := Asleep;
        return false, out;
      }
      Take();
      done := true;
    }

    /** read, after its wait. */
    method ResumeRead() returns (out: T)
      requires reader == Woken && Safe(Abstract())
      modifies this
      ensures Abstract() == Next(old(Abstract()), Reader) && Safe(Abstract())
      ensures taken == old(taken) + [out]
    {
      NextSafe(Abstract(), Reader);
      assert available_data;
      out := shared_data;
      Take();
    }

    method Take()
      modifies this
      ensures !available_data && reader == Away && writer == Notified(old(writer))
      ensures taken == old(taken) + [shared_data] && shared_data == old(shared_data) && written == old(written)
    {
      taken := taken + [shared_data];
      available_data := false;
      writer := Notified(writer);
      reader := Away;
    }

    /** write, from the call to the wait. */
    method Write(val: T)
      requires writer == Away && Safe(Abstract())
      modifies this
      ensures Abstract() == Next(old(Abstract()), Writer(val)) && Safe(Abstract())
    {
      NextSafe(Abstract(), Writer(val));
      shared_data := val;
      available_data := true;
      reader := Notified(reader);
      writer := Asleep;
      written := written + [val];
    }

    /** write, after its wait. */
    method ResumeWrite()
      requires writer == Woken && Safe(Abstract())
      modifies this
      ensures Abstract() == Next(old(Abstract()), Writer(shared_data)) && Safe(Abstract())
    {
      NextSafe(Abstract(), Writer(shared_data));
      assert !available_data;
      writer := Away;
    }

    /** Any schedule the processes can follow, started from a fresh channel. */
    method Run(moves: seq<Move<T>>)
      requires Abstract() == Initial(shared_data) && IsRun(Abstract(), moves)
      modifies this
      ensures Abstract() == After(old(Abstract()), moves)
      ensures taken <= written && |written| <= |taken| + 1 && |moves| <= 4 * |taken| + 2
    {
      InitialSafe(shared_data);
      ghost var start := Abstract();
      RunSafe(start, moves);
      RunProgress(start, moves);
      assert moves[0..] == moves;
      for i := 0 to |moves|
        invariant Safe(Abstract()) && IsRun(Abstract(), moves[i..])
        invariant After(Abstract(), moves[i..]) == After(start, moves)
      {
        assert moves[i..][0] == moves[i] && moves[i..][1..] == moves[i + 1..];
        match moves[i] {
          case Reader =>
            if reader == Away {
              var _, _ := Read();
            } else {
              var _ := ResumeRead();
            }
          case Writer(v) =>
            if writer == Away {
              Write(v);
            } else {
              ResumeWrite();
            }
        }
      }
    }
  }
}
