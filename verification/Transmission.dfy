/** What the locator hands to `connection::send` over a whole run, and what becomes of each
    request. Whether a connection then writes it is `Connection.WrittenIffOpen`. */
module Transmission {
  import opened Bytes
  import MemoryStream
  import opened Crc32
  import opened RegisteredMessage
  import opened ServiceConnection
  import opened ServiceLocator
  import Connection

  /** Whether the service's connection object is alive: what the last change said. */
  predicate Up(events: seq<Event>, service: ServiceType)
  {
    events != []
    && var last := events[|events| - 1];
       if last.Link? && last.service == service then last.alive else Up(events[..|events| - 1], service)
  }

  predicate IsMessage(ev: Event)
  {
    ev.Send? || ev.Request?
  }

  function Receiver(ev: Event): ServiceType
    requires IsMessage(ev)
  {
    if ev.Send? then ev.service else ev.registration.service
  }

  /** The frame of a message: the k-th request of a run goes out under number k, an update
      under 0. */
  function MessageFrame(e: Engine, before: seq<Event>, ev: Event): seq<Byte>
    requires Proper(ev) && IsMessage(ev)
  {
    if ev.Send? then Frame(Signed(e, 0, UPDATE, ev.message))
    else Frame(Signed(e, |History(before)| % IDS, REQUEST, ev.message))
  }

  /** What one event hands over: nothing if the service has no live connection at the call. */
  function Frames(e: Engine, before: seq<Event>, ev: Event): seq<(ServiceType, seq<Byte>)>
    requires Proper(ev)
  {
    if IsMessage(ev) && Up(before, Receiver(ev)) then [(Receiver(ev), MessageFrame(e, before, ev))] else []
  }

  function SentFrames(e: Engine, events: seq<Event>): seq<(ServiceType, seq<Byte>)>
    requires forall i :: 0 <= i < |events| ==> Proper(events[i])
  {
    if events == [] then []
    else
      var before := events[..|events| - 1];
      SentFrames(e, before) + Frames(e, before, events[|events| - 1])
  }

  predicate Alive(s: State, service: ServiceType)
  {
    service in s.services && s.services[service]
  }

  lemma {:induction false} AliveIffUp(e: Engine, events: seq<Event>, service: ServiceType)
    requires forall i :: 0 <= i < |events| ==> Proper(events[i])
    ensures Alive(Run(e, events), service) <==> Up(events, service)
  {
    if events != [] {
      AliveIffUp(e, events[..|events| - 1], service);
    }
  }

  lemma {:induction false} CounterIsHistory(e: Engine, events: seq<Event>)
    requires forall i :: 0 <= i < |events| ==> Proper(events[i])
    ensures Run(e, events).counter == |History(events)| % IDS
  {
    if events != [] {
      var before := events[..|events| - 1];
      CounterIsHistory(e, before);
      ApplyCounts(e, Run(e, before), events[|events| - 1], |History(before)|);
    }
  }

  lemma ApplyCounts(e: Engine, s: State, ev: Event, n: nat)
    requires Proper(ev) && s.counter == n % IDS
    ensures Apply(e, s, ev).counter == (n + if ev.Request? then 1 else 0) % IDS
  {
    Wrap(n);
  }

  lemma Wrap(n: nat)
    ensures (n % IDS + 1) % IDS == (n + 1) % IDS
    ensures n < IDS ==> n % IDS == n
  {
  }

  lemma ApplySends(e: Engine, before: seq<Event>, ev: Event)
    requires Proper(ev) && forall i :: 0 <= i < |before| ==> Proper(before[i])
    ensures Apply(e, Run(e, before), ev).sent == Run(e, before).sent + Frames(e, before, ev)
  {
    CounterIsHistory(e, before);
    AppendNothing(Run(e, before).sent);
    match ev {
      case Send(service, _) => AliveIffUp(e, before, service);
      case Request(r, _) => AliveIffUp(e, before, r.service);
      case Link(_, _) =>
      case Incoming(_) =>
    }
  }

  /** Over every run, with any number of requests, the frames handed to `connection::send` are
      exactly, in order, those of the messages whose service had a live connection at the call. */
  lemma {:induction false} EveryRunSends(e: Engine, events: seq<Event>)
    requires forall i :: 0 <= i < |events| ==> Proper(events[i])
    ensures Run(e, events).sent == SentFrames(e, events)
  {
    if events != [] {
      var before := events[..|events| - 1];
      EveryRunSends(e, before);
      ApplySends(e, before, events[|events| - 1]);
    }
  }

  lemma {:induction false} SentGrows(e: Engine, events: seq<Event>, i: nat)
    requires i <= |events| && forall k :: 0 <= k < |events| ==> Proper(events[k])
    ensures Run(e, events[..i]).sent <= Run(e, events).sent
  {
    if i == |events| {
      assert events[..i] == events;
    } else {
      var before := events[..|events| - 1];
      SentGrows(e, before, i);
      assert before[..i] == events[..i];
      ApplySends(e, before, events[|events| - 1]);
    }
  }

  /** The frame of message i of a run is handed to `connection::send` at the call, exactly when the
      service has a live connection then; otherwise nothing is, then or later. */
  lemma MessageSentIffUp(e: Engine, events: seq<Event>, i: nat)
    requires forall k :: 0 <= k < |events| ==> Proper(events[k])
    requires i < |events| && IsMessage(events[i])
    ensures var before, after := Run(e, events[..i]).sent, Run(e, events[..i + 1]).sent;
            && after == before + Frames(e, events[..i], events[i])
            && after <= Run(e, events).sent
            && (|after| == |before| + 1 <==> Up(events[..i], Receiver(events[i])))
            && (|after| == |before| <==> !Up(events[..i], Receiver(events[i])))
  {
    InitOfTake(events, i);
    ApplySends(e, events[..i], events[i]);
    SentGrows(e, events, i + 1);
  }

  /** The receiver's connection after the call. */
  function Handed(c: Connection.State, frames: seq<(ServiceType, seq<Byte>)>): Connection.State
    requires |frames| <= 1
  {
    if frames == [] then c else Connection.Next(c, Connection.Step.Send(frames[0].1))
  }

  /** The frame of message i gets written, behind everything the connection had taken before and
      with nothing sent after it, in some continuation exactly when the service's connection
      is alive and its socket open at the call. `c` is that connection then. */
  lemma WrittenIffUpAndOpen(e: Engine, events: seq<Event>, i: nat, c: Connection.State)
    requires forall k :: 0 <= k < |events| ==> Proper(events[k])
    requires i < |events| && IsMessage(events[i]) && Connection.Invariant(c)
    ensures var t, all := Handed(c, Frames(e, events[..i], events[i])),
                          Flatten(c.accepted) + MessageFrame(e, events[..i], events[i]);
            ((exists steps :: Connection.SendFree(steps) && Connection.Carries(t, all, steps))
             <==> Up(events[..i], Receiver(events[i])) && c.open)
  {
    var frame := MessageFrame(e, events[..i], events[i]);
    FrameNotEmpty(e, events[..i], events[i]);
    Connection.WrittenIffOpen(c, frame);
    if !Up(events[..i], Receiver(events[i])) {
      forall steps | Connection.SendFree(steps)
        ensures !Connection.Carries(c, Flatten(c.accepted) + frame, steps)
      {
        NotCarried(c, frame, steps);
      }
    }
  }

  lemma FrameNotEmpty(e: Engine, before: seq<Event>, ev: Event)
    requires Proper(ev) && IsMessage(ev)
    ensures MessageFrame(e, before, ev) != []
  {
    FrameParts(Signed(e, 0, UPDATE, ev.message));
    FrameParts(Signed(e, |History(before)| % IDS, REQUEST, ev.message));
  }

  lemma NotCarried(c: Connection.State, frame: seq<Byte>, steps: seq<Connection.Step>)
    requires Connection.Invariant(c) && Connection.SendFree(steps) && frame != []
    ensures !Connection.Carries(c, Flatten(c.accepted) + frame, steps)
  {
    if Connection.Possible(c, steps) {
      Connection.WrittenWasAccepted(c, steps);
    }
  }

  // ------------------------------------------------------------------- one request

  predicate Requests(frame: seq<Byte>, id: nat)
  {
    |frame| >= HEADER && Parsed(frame).sender == id && Parsed(frame).command == REQUEST
  }

  /** How many of the frames are requests numbered id. */
  function RequestCount(sent: seq<(ServiceType, seq<Byte>)>, id: nat): nat
  {
    if sent == [] then 0
    else RequestCount(sent[..|sent| - 1], id) + if Requests(sent[|sent| - 1].1, id) then 1 else 0
  }

  lemma CountSnoc(sent: seq<(ServiceType, seq<Byte>)>, f: (ServiceType, seq<Byte>), id: nat)
    ensures RequestCount(sent + [f], id) == RequestCount(sent, id) + if Requests(f.1, id) then 1 else 0
  {
    assert (sent + [f])[..|sent|] == sent;
  }

  lemma SignedRequests(e: Engine, sender: nat, command: nat, m: MemoryStream.StreamValue, id: nat)
    requires m.readPosition <= |m.buffer| && sender < IDS && command < 0x1_0000
    ensures Requests(Frame(Signed(e, sender, command, m)), id) <==> sender == id && command == REQUEST
  {
    FrameParts(Signed(e, sender, command, m));
    WordBounds();
    LeBytesValue(sender, 8);
    LeBytesValue(command, 2);
  }

  /** The requests numbered id that one event hands over. */
  lemma CountStep(e: Engine, before: seq<Event>, ev: Event, id: nat)
    requires Proper(ev) && forall i :: 0 <= i < |before| ==> Proper(before[i])
    requires |History(before)| < IDS
    ensures RequestCount(SentFrames(e, before) + Frames(e, before, ev), id) ==
            RequestCount(SentFrames(e, before), id)
            + if ev.Request? && |History(before)| == id && Up(before, ev.registration.service) then 1 else 0
  {
    FrameRequests(e, before, ev, id);
    CountLast(SentFrames(e, before), Frames(e, before, ev), id);
  }

  lemma CountLast(sent: seq<(ServiceType, seq<Byte>)>, frames: seq<(ServiceType, seq<Byte>)>, id: nat)
    requires |frames| <= 1
    ensures RequestCount(sent + frames, id) ==
            RequestCount(sent, id) + if frames != [] && Requests(frames[0].1, id) then 1 else 0
  {
    if frames == [] {
      AppendNothing(sent);
    } else {
      assert frames == [frames[0]];
      CountSnoc(sent, frames[0], id);
    }
  }

  lemma FrameRequests(e: Engine, before: seq<Event>, ev: Event, id: nat)
    requires Proper(ev) && |History(before)| < IDS
    ensures var frames := Frames(e, before, ev);
            |frames| <= 1
            && (frames != [] && Requests(frames[0].1, id) <==>
                ev.Request? && |History(before)| == id && Up(before, ev.registration.service))
  {
    Wrap(|History(before)|);
    if ev.Send? {
      SignedRequests(e, 0, UPDATE, ev.message, id);
    } else if ev.Request? {
      SignedRequests(e, |History(before)|, REQUEST, ev.message, id);
    }
  }

  lemma {:induction false} HistoryGrows(events: seq<Event>, i: nat)
    requires i <= |events|
    ensures |History(events[..i])| <= |History(events)|
    ensures i < |events| && events[i].Request? ==> |History(events[..i])| < |History(events)|
  {
    if i == |events| {
      assert events[..i] == events;
    } else {
      var before := events[..|events| - 1];
      HistoryGrows(before, i);
      assert before[..i] == events[..i];
    }
  }

  /** A number is on no frame before it has been given out. */
  lemma {:induction false} UnusedNumber(e: Engine, events: seq<Event>, id: nat)
    requires forall i :: 0 <= i < |events| ==> Proper(events[i])
    requires |History(events)| <= id < IDS
    ensures RequestCount(SentFrames(e, events), id) == 0
  {
    if events != [] {
      var before := events[..|events| - 1];
      UnusedNumber(e, before, id);
      CountStep(e, before, events[|events| - 1], id);
    }
  }

  lemma {:induction false} RequestSentIffUp(e: Engine, events: seq<Event>, i: nat)
    requires forall k :: 0 <= k < |events| ==> Proper(events[k])
    requires |History(events)| < IDS
    requires i < |events| && events[i].Request?
    ensures RequestCount(SentFrames(e, events), |History(events[..i])|) ==
            if Up(events[..i], events[i].registration.service) then 1 else 0
  {
    var before, last := events[..|events| - 1], events[|events| - 1];
    var id := |History(events[..i])|;
    HistoryGrows(before, i);
    if i == |events| - 1 {
      UnusedNumber(e, before, id);
    } else {
      RequestSentIffUp(e, before, i);
      assert before[..i] == events[..i];
    }
    CountStep(e, before, last, id);
  }

  /** Received data that carries an intact frame with the number. */
  predicate Answers(e: Engine, ev: Event, id: nat)
  {
    ev.Incoming?
    && var outcome := Feed(e, [], ev.data).0;
       outcome.Delivered? && outcome.sender == id
  }

  ghost predicate AnsweredIn(e: Engine, events: seq<Event>, id: nat)
  {
    exists ev :: ev in events && Answers(e, ev, id)
  }

  lemma AnsweredSnoc(e: Engine, events: seq<Event>, last: Event, id: nat)
    ensures AnsweredIn(e, events + [last], id) <==> AnsweredIn(e, events, id) || Answers(e, last, id)
  {
    assert last in events + [last];
    if AnsweredIn(e, events, id) {
      var ev :| ev in events && Answers(e, ev, id);
      assert ev in events + [last];
    }
  }

  /** A request that has been given its number stays in the table until that number is answered. */
  lemma PendingStep(e: Engine, s: State, ev: Event, id: nat)
    requires Proper(ev) && (ev.Request? ==> s.counter != id)
    ensures id in Apply(e, s, ev).pending <==> id in s.pending && !Answers(e, ev, id)
  {
  }

  lemma PendingAtFirst(e: Engine, events: seq<Event>)
    requires forall k :: 0 <= k < |events| ==> Proper(events[k])
    requires events != [] && events[|events| - 1].Request?
    requires |History(events[..|events| - 1])| < IDS
    ensures |History(events[..|events| - 1])| in Run(e, events).pending
  {
    var before := events[..|events| - 1];
    CounterIsHistory(e, before);
    Wrap(|History(before)|);
  }

  lemma PendingLater(e: Engine, events: seq<Event>, id: nat)
    requires forall k :: 0 <= k < |events| ==> Proper(events[k])
    requires events != [] && id < |History(events[..|events| - 1])| < IDS
    ensures id in Run(e, events).pending <==>
            id in Run(e, events[..|events| - 1]).pending && !Answers(e, events[|events| - 1], id)
  {
    var before := events[..|events| - 1];
    CounterIsHistory(e, before);
    Wrap(|History(before)|);
    PendingStep(e, Run(e, before), events[|events| - 1], id);
  }

  lemma PendingSnoc(e: Engine, events: seq<Event>, i: nat, id: nat)
    requires forall k :: 0 <= k < |events| ==> Proper(events[k])
    requires i < |events| - 1 && id < |History(events[..|events| - 1])| < IDS
    requires id in Run(e, events[..|events| - 1]).pending <==> !AnsweredIn(e, events[..|events| - 1][i + 1..], id)
    ensures id in Run(e, events).pending <==> !AnsweredIn(e, events[i + 1..], id)
  {
    var before := events[..|events| - 1];
    PendingLater(e, events, id);
    assert events[i + 1..] == before[i + 1..] + [events[|events| - 1]];
    AnsweredSnoc(e, before[i + 1..], events[|events| - 1], id);
  }

  lemma {:induction false} PendingUntilAnswered(e: Engine, events: seq<Event>, i: nat)
    requires forall k :: 0 <= k < |events| ==> Proper(events[k])
    requires |History(events)| < IDS
    requires i < |events| && events[i].Request?
    ensures |History(events[..i])| in Run(e, events).pending <==>
            !AnsweredIn(e, events[i + 1..], |History(events[..i])|)
  {
    var before := events[..|events| - 1];
    var id := |History(events[..i])|;
    HistoryGrows(events, |events| - 1);
    if i == |events| - 1 {
      PendingAtFirst(e, events);
    } else {
      HistoryGrows(before, i);
      assert before[..i] == events[..i];
      PendingUntilAnswered(e, before, i);
      PendingSnoc(e, events, i, id);
    }
  }

  lemma {:induction false} HistoryAt(events: seq<Event>, i: nat)
    requires i < |events| && events[i].Request?
    ensures |History(events[..i])| < |History(events)|
    ensures History(events)[|History(events[..i])|] == events[i].registration
  {
    var before := events[..|events| - 1];
    if i < |events| - 1 {
      HistoryAt(before, i);
      assert before[..i] == events[..i];
    }
  }

  /** What becomes of every request of every run with fewer than 2^64 of them: its frame is handed to
      `connection::send` once if its service had a live connection at the call and never
      otherwise; and it waits in the table, under its own registration, exactly until an intact
      frame with its number arrives. */
  lemma RequestFate(e: Engine, events: seq<Event>, i: nat)
    requires forall k :: 0 <= k < |events| ==> Proper(events[k])
    requires |History(events)| < IDS
    requires i < |events| && events[i].Request?
    ensures var id, r, s := |History(events[..i])|, events[i].registration, Run(e, events);
            && RequestCount(s.sent, id) == (if Up(events[..i], r.service) then 1 else 0)
            && (id in s.pending <==> !AnsweredIn(e, events[i + 1..], id))
            && (id in s.pending ==> s.pending[id] == r)
  {
    EveryRunSends(e, events);
    RequestSentIffUp(e, events, i);
    PendingUntilAnswered(e, events, i);
    EveryRunAccounted(e, events);
    HistoryAt(events, i);
  }

  /** A request made before the link comes up: it is not sent when the link does, and waits. */
  lemma NoQueue(e: Engine, r: Registration, message: MemoryStream.StreamValue)
    requires message.readPosition <= |message.buffer|
    ensures var events := [Request(r, message), Link(r.service, true)];
            Up(events, r.service) && Run(e, events).sent == [] && Run(e, events).pending == map[0 := r]
  {
    var events := [Request(r, message), Link(r.service, true)];
    var first := events[..1];
    assert first == [Request(r, message)] && first[..0] == [];
    assert RunFrom(e, INITIAL, first) == Apply(e, RunFrom(e, INITIAL, []), first[0]);
  }
}
