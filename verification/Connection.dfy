/** Sending on a connection: `send` and the write coroutine of src/libs/network/connection.cpp,
    on one io thread, so that code between two suspensions runs undisturbed. */
module Connection {
  import opened Bytes

  /** Where the write coroutine is.
      Spawned: not run yet. Sleeping: suspended on the send timer, `woken` once its wait has
      been cancelled. Writing: suspended in `async_write`, `done` bytes of the front packet
      being on the wire. Ended: left the loop, `done` bytes of the front packet written. */
  datatype Writer = Spawned | Sleeping(woken: bool) | Writing(done: nat) | Ended(done: nat)

  /** `wire` and `accepted` are histories: the bytes written to the socket and the packets
      passed to `send`. */
  datatype State = State(
    open: bool,
    queue: seq<seq<Byte>>,
    writer: Writer,
    wire: seq<Byte>,
    accepted: seq<seq<Byte>>)

  datatype Step =
    | Send(packet: seq<Byte>)
    | Transmit(count: nat)     // the socket takes more bytes of the packet being written
    | Resume                   // the coroutine runs on to its next suspension
    | Fail                     // the write in progress ends with an error
    | Close                    // the reader stops the connection

  const INITIAL := State(true, [], Spawned, [], [])

  /** The coroutine from the head of its loop to the next suspension. */
  function Loop(s: State): State
  {
    if !s.open then s.(writer := Ended(0))
    else if s.queue == [] then s.(writer := Sleeping(false))
    else s.(writer := Writing(0))
  }

  predicate Enabled(s: State, step: Step)
  {
    match step
    case Send(_) => true
    case Transmit(count) =>
      s.open && s.writer.Writing? && s.queue != [] && 0 < count && s.writer.done + count <= |s.queue[0]|
    case Resume =>
      || s.writer == Spawned
      || s.writer == Sleeping(true)
      || (s.writer.Writing? && s.queue != [] && s.writer.done == |s.queue[0]|)
    case Fail => s.writer.Writing?
    case Close => true
  }

  function Next(s: State, step: Step): State
    requires Enabled(s, step)
  {
    match step
    case Send(packet) =>
      s.(queue := s.queue + [packet], accepted := s.accepted + [packet],
         writer := if s.writer.Sleeping? then Sleeping(true) else s.writer)
    case Transmit(count) =>
      s.(wire := s.wire + s.queue[0][s.writer.done..s.writer.done + count], writer := Writing(s.writer.done + count))
    case Resume =>
      Loop(if s.writer.Writing? then s.(queue := s.queue[1..]) else s)
    case Fail =>
      s.(open := false, writer := Ended(s.writer.done))
    case Close =>
      s.(open := false)
  }

  predicate Possible(s: State, steps: seq<Step>)
    decreases |steps|
  {
    steps == [] || (Enabled(s, steps[0]) && Possible(Next(s, steps[0]), steps[1..]))
  }

  function Run(s: State, steps: seq<Step>): State
    requires Possible(s, steps)
    decreases |steps|
  {
    if steps == [] then s else Run(Next(s, steps[0]), steps[1..])
  }

  class Connection {
    var open: bool
    var queue: seq<seq<Byte>>
    var writer: Writer
    ghost var wire: seq<Byte>
    ghost var accepted: seq<seq<Byte>>

    ghost function Contents(): State
      reads this
    {
      State(open, queue, writer, wire, accepted)
    }

    constructor ()
      ensures Contents() == INITIAL
    {
      open, queue, writer, wire, accepted := true, [], Spawned, [], [];
    }

    method Send(packet: seq<Byte>)
      modifies this
      ensures Contents() == Next(old(Contents()), Step.Send(packet))
    {
      queue := queue + [packet];
      accepted := accepted + [packet];
      CancelOne();
    }

    /** `send_timer_.cancel_one()`: wakes the coroutine if it waits, else does nothing. */
    method CancelOne()
      modifies this`writer
      ensures writer == if old(writer).Sleeping? then Sleeping(true) else old(writer)
    {
      if writer.Sleeping? {
        writer := Sleeping(true);
      }
    }

    /** The socket's part of a write in progress. */
    method Transmit(count: nat)
      requires Enabled(Contents(), Step.Transmit(count))
      modifies this
      ensures Contents() == Next(old(Contents()), Step.Transmit(count))
    {
      wire := wire + queue[0][writer.done..writer.done + count];
      writer := Writing(writer.done + count);
    }

    /** `do_write`, from one suspension to the next. */
    method Resume()
      requires Enabled(Contents(), Step.Resume)
      modifies this
      ensures Contents() == Next(old(Contents()), Step.Resume)
    {
      if writer.Writing? {
        queue := queue[1..];
      }
      if open {
        if queue == [] {
          writer := Sleeping(false);
        } else {
          writer := Writing(0);
        }
      } else {
        writer := Ended(0);
      }
    }

    method Fail()
      requires Enabled(Contents(), Step.Fail)
      modifies this
      ensures Contents() == Next(old(Contents()), Step.Fail)
    {
      open := false;
      writer := Ended(writer.done);
    }

    method Close()
      modifies this
      ensures Contents() == Next(old(Contents()), Step.Close)
    {
      open := false;
    }

    /** Any possible run on the object. */
    method Perform(steps: seq<Step>)
      requires Possible(Contents(), steps)
      modifies this
      ensures Contents() == Run(old(Contents()), steps)
    {
      for i := 0 to |steps|
        invariant Possible(Contents(), steps[i..])
        invariant Run(Contents(), steps[i..]) == Run(old(Contents()), steps)
      {
        assert steps[i..][0] == steps[i] && steps[i..][1..] == steps[i + 1..];
        match steps[i] {
          case Send(packet) => Send(packet);
          case Transmit(count) => Transmit(count);
          case Resume => Resume();
          case Fail => Fail();
          case Close => Close();
        }
      }
    }
  }

  // ------------------------------------------------------- properties of every run

  function Done(w: Writer): nat
  {
    if w.Writing? || w.Ended? then w.done else 0
  }

  /** The bytes accepted but not on the wire. */
  function Unsent(s: State): seq<Byte>
    requires Done(s.writer) <= |Flatten(s.queue)|
  {
    Flatten(s.queue)[Done(s.writer)..]
  }

  ghost predicate Invariant(s: State)
  {
    && (Done(s.writer) > 0 ==> s.queue != [])
    && (s.writer.Writing? ==> s.queue != [])
    && (s.queue != [] ==> Done(s.writer) <= |s.queue[0]|)
    && Done(s.writer) <= |Flatten(s.queue)|
    && Flatten(s.accepted) == s.wire + Unsent(s)
    && (s.writer.Sleeping? && s.queue != [] ==> s.writer.woken)
    && (s.writer.Ended? ==> !s.open)
  }

  lemma SendKeepsInvariant(s: State, packet: seq<Byte>)
    requires Invariant(s)
    ensures Invariant(Next(s, Send(packet)))
  {
    FlattenSnoc(s.queue, packet);
    FlattenSnoc(s.accepted, packet);
    var d := Done(s.writer);
    assert (Flatten(s.queue) + packet)[d..] == Flatten(s.queue)[d..] + packet;
    assert s.wire + (Unsent(s) + packet) == (s.wire + Unsent(s)) + packet;
  }

  lemma TransmitKeepsInvariant(s: State, count: nat)
    requires Invariant(s) && Enabled(s, Transmit(count))
    ensures Invariant(Next(s, Transmit(count)))
  {
    var d, all := s.writer.done, Flatten(s.queue);
    assert s.queue[0][d..d + count] == all[d..d + count];
    assert all[d..] == all[d..d + count] + all[d + count..];
    assert s.wire + (all[d..d + count] + all[d + count..]) == (s.wire + all[d..d + count]) + all[d + count..];
  }

  lemma ResumeKeepsInvariant(s: State)
    requires Invariant(s) && Enabled(s, Resume)
    ensures Invariant(Next(s, Resume))
  {
    if s.writer.Writing? {
      assert Flatten(s.queue)[|s.queue[0]|..] == Flatten(s.queue[1..]);
    }
    var rest := if s.writer.Writing? then s.queue[1..] else s.queue;
    assert Flatten(rest)[0..] == Flatten(rest);
  }

  lemma StepKeepsInvariant(s: State, step: Step)
    requires Enabled(s, step) && Invariant(s)
    ensures Invariant(Next(s, step))
  {
    match step {
      case Send(packet) => SendKeepsInvariant(s, packet);
      case Transmit(count) => TransmitKeepsInvariant(s, count);
      case Resume => ResumeKeepsInvariant(s);
      case Fail =>
      case Close =>
    }
  }

  lemma {:induction false} RunKeepsInvariant(s: State, steps: seq<Step>)
    requires Possible(s, steps) && Invariant(s)
    ensures Invariant(Run(s, steps))
    decreases |steps|
  {
    if steps != [] {
      StepKeepsInvariant(s, steps[0]);
      RunKeepsInvariant(Next(s, steps[0]), steps[1..]);
    }
  }

  /** In every interleaving, also with failing writes and a closing reader: the bytes written
      followed by the unwritten rest of the queue are exactly the packets sent, in order, and
      a sleeping writer with something to write has been woken. */
  lemma NothingLostOrReordered(steps: seq<Step>)
    requires Possible(INITIAL, steps)
    ensures var s := Run(INITIAL, steps);
            Done(s.writer) <= |Flatten(s.queue)|
            && s.wire + Unsent(s) == Flatten(s.accepted)
            && s.wire <= Flatten(s.accepted)
            && (s.writer.Sleeping? && s.queue != [] ==> s.writer.woken)
            && (s.writer == Sleeping(false) ==> s.wire == Flatten(s.accepted))
  {
    RunKeepsInvariant(INITIAL, steps);
  }

  lemma RunCons(s: State, step: Step, steps: seq<Step>)
    requires Enabled(s, step) && Possible(Next(s, step), steps)
    ensures Possible(s, [step] + steps) && Run(s, [step] + steps) == Run(Next(s, step), steps)
  {
    assert ([step] + steps)[1..] == steps;
  }

  function Rank(w: Writer): nat
  {
    match w
    case Sleeping(woken) => if woken then 2 else 0
    case Spawned => 2
    case _ => 1
  }

  /** From every reachable open state the writer alone, with no further send, can bring every
      accepted byte onto the wire and go back to sleep: nothing is stuck for want of a wake-up. */
  lemma {:induction false} WriterDrains(s: State) returns (steps: seq<Step>)
    requires Invariant(s) && s.open
    ensures forall i :: 0 <= i < |steps| ==> steps[i].Transmit? || steps[i].Resume?
    ensures Possible(s, steps)
    ensures var t := Run(s, steps);
            t.writer == Sleeping(false) && t.queue == [] && t.accepted == s.accepted && t.wire == Flatten(s.accepted)
    decreases |s.queue|, Rank(s.writer), if s.writer.Writing? then |s.queue[0]| - s.writer.done else 0
  {
    if s.writer == Sleeping(false) {
      return [];
    }
    var step := Resume;
    if s.writer.Writing? && s.writer.done < |s.queue[0]| {
      step := Transmit(|s.queue[0]| - s.writer.done);
    }
    StepKeepsInvariant(s, step);
    var rest := WriterDrains(Next(s, step));
    RunCons(s, step, rest);
    steps := [step] + rest;
  }

  predicate SendFree(steps: seq<Step>)
  {
    forall i :: 0 <= i < |steps| ==> !steps[i].Send?
  }

  /** A writer asleep with nothing to wake it stays asleep until something is sent, also when the
      connection is closed meanwhile. */
  lemma {:induction false} AsleepUntilSend(s: State, steps: seq<Step>)
    requires s.writer == Sleeping(false) && SendFree(steps) && Possible(s, steps)
    ensures Run(s, steps).writer == Sleeping(false)
    decreases |steps|
  {
    if steps != [] {
      AsleepUntilSend(Next(s, steps[0]), steps[1..]);
    }
  }

  /** On a closed connection the writer can come to its end without another send exactly when it is
      not asleep: `stop` closes the socket but does not cancel the timer the writer waits on. */
  lemma ClosedWriterEnds(s: State)
    requires Invariant(s) && !s.open
    ensures (exists steps :: SendFree(steps) && Possible(s, steps) && Run(s, steps).writer.Ended?)
       <==> s.writer != Sleeping(false)
  {
    if s.writer == Sleeping(false) {
      forall steps | SendFree(steps) && Possible(s, steps)
        ensures !Run(s, steps).writer.Ended?
      {
        AsleepUntilSend(s, steps);
      }
    } else if s.writer.Ended? {
      assert Run(s, []).writer.Ended? && SendFree([]);
    } else {
      var step := if s.writer.Writing? then Fail else Resume;
      RunCons(s, step, []);
      assert SendFree([step] + []);
    }
  }

  /** Nothing is written to a closed connection, and it stays closed. */
  lemma {:induction false} ClosedWireStays(s: State, steps: seq<Step>)
    requires !s.open && Possible(s, steps)
    ensures Run(s, steps).wire == s.wire && !Run(s, steps).open
    decreases |steps|
  {
    if steps != [] {
      ClosedWireStays(Next(s, steps[0]), steps[1..]);
    }
  }

  /** Nothing is written but what has been passed to `send`. */
  lemma WrittenWasAccepted(s: State, steps: seq<Step>)
    requires Invariant(s) && SendFree(steps) && Possible(s, steps)
    ensures |Run(s, steps).wire| <= |Flatten(s.accepted)|
  {
    RunKeepsInvariant(s, steps);
    SendFreeAccepts(s, steps);
  }

  lemma {:induction false} SendFreeAccepts(s: State, steps: seq<Step>)
    requires SendFree(steps) && Possible(s, steps)
    ensures Run(s, steps).accepted == s.accepted
    decreases |steps|
  {
    if steps != [] {
      SendFreeAccepts(Next(s, steps[0]), steps[1..]);
    }
  }

  /** The steps are possible and lead to these bytes being on the wire. */
  ghost predicate Carries(s: State, bytes: seq<Byte>, steps: seq<Step>)
  {
    Possible(s, steps) && bytes <= Run(s, steps).wire
  }

  /** A packet passed to `send` can get onto the wire exactly when the connection is open at the
      call: on an open one with nothing sent after it, on a closed one not whatever happens. */
  lemma WrittenIffOpen(s: State, packet: seq<Byte>)
    requires Invariant(s) && packet != []
    ensures var t, all := Next(s, Send(packet)), Flatten(s.accepted) + packet;
            && (s.open ==> exists steps :: SendFree(steps) && Carries(t, all, steps))
            && (!s.open ==> forall steps :: !Carries(t, all, steps))
  {
    var t, all := Next(s, Send(packet)), Flatten(s.accepted) + packet;
    if s.open {
      StepKeepsInvariant(s, Send(packet));
      var steps := WriterDrains(t);
      FlattenSnoc(s.accepted, packet);
      assert SendFree(steps) && Carries(t, all, steps);
    } else {
      forall steps | Possible(t, steps)
        ensures !Carries(t, all, steps)
      {
        ClosedWireStays(t, steps);
      }
    }
  }

  /** A connection closed while its writer sleeps: the next packet is taken, wakes the writer, and is
      dropped. */
  lemma SentAfterClose(packet: seq<Byte>)
    ensures var steps := [Resume, Close, Send(packet), Resume];
            && Possible(INITIAL, steps)
            && Run(INITIAL, steps) == State(false, [packet], Ended(0), [], [packet])
  {
    var s1 := Next(INITIAL, Resume);
    var s2 := Next(s1, Close);
    var s3 := Next(s2, Send(packet));
    RunCons(s3, Resume, []);
    RunCons(s2, Send(packet), [Resume]);
    RunCons(s1, Close, [Send(packet), Resume]);
    RunCons(INITIAL, Resume, [Close, Send(packet), Resume]);
    assert [Resume] + [Close, Send(packet), Resume] == [Resume, Close, Send(packet), Resume];
    assert [Close] + [Send(packet), Resume] == [Close, Send(packet), Resume];
    assert [Send(packet)] + [Resume] == [Send(packet), Resume] && [Resume] + [] == [Resume];
  }
}
