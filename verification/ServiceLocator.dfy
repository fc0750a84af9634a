/** The client side of the RPC: src/libs/network/service_locator.cpp. */
module ServiceLocator {
  import opened Bytes
  import opened MemoryStream
  import opened Crc32
  import opened RegisteredMessage
  import opened ServiceConnection

  const IDS := 0x1_0000_0000_0000_0000

  /** Services, io services and callbacks by identity. */
  type ServiceType = nat
  type IoService = nat
  type Callback = nat

  datatype Registration = Registration(service: ServiceType, ioService: IoService, callback: Callback)

  /** One `io_service.post`: the callback of registration `id` with its service type and a reply. */
  datatype Posting = Posting(id: nat, registration: Registration, payload: StreamValue)

  /** services maps each located service to whether its connection is alive. */
  datatype State = State(
    counter: nat,
    pending: map<nat, Registration>,
    services: map<ServiceType, bool>,
    posted: seq<Posting>,
    sent: seq<(ServiceType, seq<Byte>)>)

  function Transmit(s: State, service: ServiceType, frame: seq<Byte>): State
  {
    if service in s.services && s.services[service] then s.(sent := s.sent + [(service, frame)]) else s
  }

  /** The tables after a request: the next id is taken and entered unless it is in use. */
  function Enrolled(s: State, r: Registration): State
  {
    s.(counter := (s.counter + 1) % IDS,
       pending := if s.counter in s.pending then s.pending else s.pending[s.counter := r])
  }

  function Registered(e: Engine, s: State, r: Registration, message: StreamValue): State
    requires message.readPosition <= |message.buffer|
  {
    Transmit(Enrolled(s, r), r.service, Frame(Signed(e, s.counter, REQUEST, message)))
  }

  function Updated(e: Engine, s: State, service: ServiceType, message: StreamValue): State
    requires message.readPosition <= |message.buffer|
  {
    Transmit(s, service, Frame(Signed(e, 0, UPDATE, message)))
  }

  /** How `on_data` ends: with its result, with an exception, or in a read past the buffer. */
  datatype Verdict = Returned(ok: bool) | Raised | Undefined

  /** The end of `on_data`, and the state after it. After a read past the buffer, which C++ leaves
      undefined, the state is taken to be as before. */
  function Received(e: Engine, s: State, data: seq<Byte>): (Verdict, State)
  {
    match Feed(e, [], data).0
    case Waiting => (Returned(true), s)
    case Rejected => (Returned(false), s)
    case Thrown => (Raised, s)
    case Overread => (Undefined, s)
    case Delivered(id, payload) =>
      if id !in s.pending then (Returned(false), s)
      else (Returned(true), s.(pending := s.pending - {id},
                           posted := s.posted + [Posting(id, s.pending[id], StreamValue(payload, 0))]))
  }

  /** Any received chunk, in bytes: the end and the state. The checksum at 8 is over everything behind
      it, the number of the request is at 12, the reply from 22 on. */
  lemma ReceivedInBytes(e: Engine, s: State, c: seq<Byte>)
    ensures var whole := |c| >= 22 && LeValue(c[..8]) <= |c|;
            var posts := whole && LeValue(c[8..12]) == Checksum(e, c[12..]) && LeValue(c[12..20]) in s.pending;
            && (Received(e, s, c).0 == Returned(true) <==> (|c| >= 8 && LeValue(c[..8]) > |c|) || posts)
            && (Received(e, s, c).0 == Returned(false) <==> whole && !posts)
            && (!posts ==> Received(e, s, c).1 == s)
            && (posts ==>
                  var id := LeValue(c[12..20]);
                  Received(e, s, c).1 ==
                  s.(pending := s.pending - {id},
                     posted := s.posted + [Posting(id, s.pending[id], StreamValue(c[22..], 0))]))
  {
    FeedInBytes(e, c);
  }

  /** What one call hands to the connection of a live service, in bytes: an update has sender 0 and
      command 0, a request the number it is entered under and command 1; both carry the whole
      buffer from 22 on. */
  lemma SentInBytes(e: Engine, s: State, r: Registration, message: StreamValue)
    requires message.readPosition <= |message.buffer|
    requires s.counter < IDS && r.service in s.services && s.services[r.service]
    ensures var sent := Updated(e, s, r.service, message).sent;
            && |sent| == |s.sent| + 1 && sent[..|s.sent|] == s.sent
            && sent[|s.sent|].0 == r.service
            && var f := sent[|s.sent|].1;
               |f| >= 22 && LeValue(f[12..20]) == 0 && f[20..22] == [0, 0] && f[22..] == message.buffer
    ensures var sent := Registered(e, s, r, message).sent;
            && |sent| == |s.sent| + 1 && sent[..|s.sent|] == s.sent
            && sent[|s.sent|].0 == r.service
            && var f := sent[|s.sent|].1;
               |f| >= 22 && LeValue(f[12..20]) == s.counter && f[20..22] == [1, 0] && f[22..] == message.buffer
  {
    FrameParts(Signed(e, 0, UPDATE, message));
    FrameParts(Signed(e, s.counter, REQUEST, message));
    WordBounds();
    LeBytesValue(0, 8);
    LeBytesValue(s.counter, 8);
    SmallWord(UPDATE);
    SmallWord(REQUEST);
  }

  /** A request takes no other request's place: what is pending stays so, under what it was registered
      with, also if the counter has come round to it. */
  lemma NothingReplaced(e: Engine, s: State, r: Registration, message: StreamValue, id: nat)
    requires message.readPosition <= |message.buffer| && id in s.pending
    ensures id in Registered(e, s, r, message).pending && Registered(e, s, r, message).pending[id] == s.pending[id]
  {
  }

  class ServiceLocator {
    const crc: Accumulator
    var counter: nat
    var callbacks: map<nat, Registration>
    var services: map<ServiceType, bool>
    var posted: seq<Posting>
    var sent: seq<(ServiceType, seq<Byte>)>

    ghost function Contents(): State
      reads this
    {
      State(counter, callbacks, services, posted, sent)
    }

    constructor (engine: Engine)
      ensures Contents() == INITIAL
      ensures fresh(crc) && crc.engine == engine
    {
      crc := new Accumulator(engine);
      counter, callbacks, services, posted, sent := 0, map[], map[], [], [];
    }

    /** A connection to a service comes up or goes away. */
    method SetLink(service: ServiceType, alive: bool)
      modifies this`services
      ensures Contents() == old(Contents()).(services := old(services)[service := alive])
    {
      services := services[service := alive];
    }

    method SendTo'(service: ServiceType, frame: seq<Byte>)
      modifies this`sent
      ensures Contents() == Transmit(old(Contents()), service, frame)
    {
      if service !in services {
        return;
      }
      if services[service] {
        sent := sent + [(service, frame)];
      }
    }

    method SendTo(service: ServiceType, message: StreamValue)
      requires message.readPosition <= |message.buffer|
      modifies this`sent, crc
      ensures Contents() == Updated(crc.engine, old(Contents()), service, message)
    {
      var c := crc.Compute(CrcPieces(0, UPDATE, message));
      var stream := RegisteredMessage.Encode(Message(c, 0, UPDATE, message));
      SendTo'(service, stream.buffer);
    }

    method SendRegistered(service: ServiceType, message: StreamValue, ioService: IoService, callback: Callback)
      requires message.readPosition <= |message.buffer|
      modifies this`counter, this`callbacks, this`sent, crc
      ensures Contents() ==
              Registered(crc.engine, old(Contents()), Registration(service, ioService, callback), message)
    {
      var id := counter;
      counter := (counter + 1) % IDS;
      if id !in callbacks {
        callbacks := callbacks[id := Registration(service, ioService, callback)];
      }
      var c := crc.Compute(CrcPieces(id, REQUEST, message));
      var stream := RegisteredMessage.Encode(Message(c, id, REQUEST, message));
      SendTo'(service, stream.buffer);
    }

    method OnData(data: seq<Byte>) returns (verdict: Verdict)
      modifies this`callbacks, this`posted, crc
      ensures verdict == Received(crc.engine, old(Contents()), data).0
      ensures Contents() == Received(crc.engine, old(Contents()), data).1
    {
      assert [] + data == data;
      var stream := new MemoryStream.FromBytes(data);
      assert stream.Queue() == data;
      var ready := CanDecode(stream);
      var size := stream.Size();
      if ready == Empty {
        return Raised;
      }
      if ready == NotReady {
        return Returned(true);
      }
      if ready == Partial || !EndsAtField(size) {
        return Undefined;
      }
      var decoded := Decode(stream);
      if decoded.None? {
        return Raised;
      }
      var m := decoded.value;
      var valid := crc.Validate(m.crc, CrcPieces(m.sender, m.command, m.payload));
      if !valid {
        return Returned(false);
      }
      if m.sender !in callbacks {
        return Returned(false);
      }
      posted := posted + [Posting(m.sender, callbacks[m.sender], m.payload)];
      callbacks := callbacks - {m.sender};
      verdict := Returned(true);
    }

    /** Any run of events on the object. */
    method Run(events: seq<Event>)
      requires forall i :: 0 <= i < |events| ==> Proper(events[i])
      modifies this, crc
      ensures Contents() == RunFrom(crc.engine, old(Contents()), events)
    {
      for i := 0 to |events|
        invariant Contents() == RunFrom(crc.engine, old(Contents()), events[..i])
      {
        InitOfTake(events, i);
        match events[i] {
          case Link(service, alive) => SetLink(service, alive);
          case Send(service, message) => SendTo(service, message);
          case Request(r, message) => SendRegistered(r.service, message, r.ioService, r.callback);
          case Incoming(data) => var verdict := OnData(data);
        }
      }
      assert events[..|events|] == events;
    }
  }

  // -------------------------------------------------------------- every run of events

  datatype Event =
    | Link(service: ServiceType, alive: bool)
    | Send(service: ServiceType, message: StreamValue)
    | Request(registration: Registration, message: StreamValue)
    | Incoming(data: seq<Byte>)

  predicate Proper(ev: Event)
  {
    (ev.Send? || ev.Request?) ==> ev.message.readPosition <= |ev.message.buffer|
  }

  function Apply(e: Engine, s: State, ev: Event): State
    requires Proper(ev)
  {
    match ev
    case Link(service, alive) => s.(services := s.services[service := alive])
    case Send(service, message) => Updated(e, s, service, message)
    case Request(r, message) => Registered(e, s, r, message)
    case Incoming(data) => Received(e, s, data).1
  }

  const INITIAL := State(0, map[], map[], [], [])

  function RunFrom(e: Engine, s: State, events: seq<Event>): State
    requires forall i :: 0 <= i < |events| ==> Proper(events[i])
  {
    if events == [] then s
    else Apply(e, RunFrom(e, s, events[..|events| - 1]), events[|events| - 1])
  }

  function Run(e: Engine, events: seq<Event>): State
    requires forall i :: 0 <= i < |events| ==> Proper(events[i])
  {
    RunFrom(e, INITIAL, events)
  }

  /** The registrations requested so far: entry i is the one numbered i. */
  function History(events: seq<Event>): seq<Registration>
  {
    if events == [] then []
    else
      var last := events[|events| - 1];
      History(events[..|events| - 1]) + if last.Request? then [last.registration] else []
  }

  function PostedIds(posted: seq<Posting>): set<nat>
  {
    set i | 0 <= i < |posted| :: posted[i].id
  }

  /** Pending and posted ids partition 0..n-1, and no id is posted twice. */
  ghost predicate Partition(pending: map<nat, Registration>, posted: seq<Posting>, n: nat)
  {
    && (forall id: nat :: id < n <==> id in pending || id in PostedIds(posted))
    && (forall id :: id in pending ==> id !in PostedIds(posted))
    && (forall i, j :: 0 <= i < j < |posted| ==> posted[i].id != posted[j].id)
    && |pending| + |posted| == n
  }

  /** Every pending or posted id has the registration that was made under it. */
  ghost predicate Faithful(pending: map<nat, Registration>, posted: seq<Posting>, history: seq<Registration>)
  {
    && (forall id :: id in pending ==> id < |history| && pending[id] == history[id])
    && (forall i :: 0 <= i < |posted| ==>
          posted[i].id < |history| && posted[i].registration == history[posted[i].id])
  }

  ghost predicate Accounted(s: State, history: seq<Registration>)
  {
    && s.counter == |history|
    && Partition(s.pending, s.posted, |history|)
    && Faithful(s.pending, s.posted, history)
  }

  lemma PostedSnoc(posted: seq<Posting>, p: Posting)
    ensures PostedIds(posted + [p]) == PostedIds(posted) + {p.id}
  {
    var all := posted + [p];
    assert all[|posted|].id in PostedIds(all);
    forall id | id in PostedIds(posted)
      ensures id in PostedIds(all)
    {
      var i :| 0 <= i < |posted| && posted[i].id == id;
      assert all[i].id == id;
    }
  }

  lemma AddToPartition(pending: map<nat, Registration>, posted: seq<Posting>, n: nat, r: Registration)
    requires Partition(pending, posted, n)
    ensures n !in pending && Partition(pending[n := r], posted, n + 1)
  {
  }

  lemma AddToFaithful(pending: map<nat, Registration>, posted: seq<Posting>, history: seq<Registration>,
                      r: Registration)
    requires Faithful(pending, posted, history)
    ensures Faithful(pending[|history| := r], posted, history + [r])
  {
  }

  lemma EnrolledAccounted(s: State, history: seq<Registration>, r: Registration)
    requires Accounted(s, history) && |history| + 1 < IDS
    ensures Accounted(Enrolled(s, r), history + [r])
  {
    AddToPartition(s.pending, s.posted, |history|, r);
    AddToFaithful(s.pending, s.posted, history, r);
    assert Enrolled(s, r).pending == s.pending[|history| := r];
  }

  lemma TransmitAccounted(s: State, history: seq<Registration>, service: ServiceType, frame: seq<Byte>)
    requires Accounted(s, history)
    ensures Accounted(Transmit(s, service, frame), history)
  {
  }

  lemma RequestAccounted(e: Engine, s: State, history: seq<Registration>, r: Registration, message: StreamValue)
    requires Accounted(s, history) && |history| + 1 < IDS && message.readPosition <= |message.buffer|
    ensures Accounted(Registered(e, s, r, message), history + [r])
  {
    EnrolledAccounted(s, history, r);
    TransmitAccounted(Enrolled(s, r), history + [r], r.service, Frame(Signed(e, s.counter, REQUEST, message)));
  }

  lemma PostFromPartition(pending: map<nat, Registration>, posted: seq<Posting>, n: nat, p: Posting)
    requires Partition(pending, posted, n) && p.id in pending
    ensures Partition(pending - {p.id}, posted + [p], n)
  {
    PostedSnoc(posted, p);
    forall i | 0 <= i < |posted|
      ensures posted[i].id != p.id
    {
      assert posted[i].id in PostedIds(posted);
    }
  }

  lemma IncomingAccounted(e: Engine, s: State, history: seq<Registration>, data: seq<Byte>)
    requires Accounted(s, history)
    ensures Accounted(Received(e, s, data).1, history)
  {
    var outcome := Feed(e, [], data).0;
    if outcome.Delivered? && outcome.sender in s.pending {
      var p := Posting(outcome.sender, s.pending[outcome.sender], StreamValue(outcome.payload, 0));
      PostAccounted(s, history, p);
    }
  }

  lemma PostAccounted(s: State, history: seq<Registration>, p: Posting)
    requires Accounted(s, history) && p.id in s.pending && p.registration == s.pending[p.id]
    ensures Accounted(s.(pending := s.pending - {p.id}, posted := s.posted + [p]), history)
  {
    PostFromPartition(s.pending, s.posted, |history|, p);
    PostFromFaithful(s.pending, s.posted, history, p);
  }

  lemma PostFromFaithful(pending: map<nat, Registration>, posted: seq<Posting>, history: seq<Registration>, p: Posting)
    requires Faithful(pending, posted, history) && p.id in pending && p.registration == pending[p.id]
    ensures Faithful(pending - {p.id}, posted + [p], history)
  {
  }

  /** Over every run of link changes, sends, requests (fewer than 2^64) and received data, every
      id handed out is accounted for. The data are any bytes; where the code would read past
      them the state is taken to be unchanged. */
  lemma {:induction false} EveryRunAccounted(e: Engine, events: seq<Event>)
    requires forall i :: 0 <= i < |events| ==> Proper(events[i])
    requires |History(events)| < IDS
    ensures Accounted(Run(e, events), History(events))
  {
    if events != [] {
      var before, last := events[..|events| - 1], events[|events| - 1];
      EveryRunAccounted(e, before);
      match last {
        case Link(_, _) =>
        case Send(_, _) =>
        case Request(r, message) =>
          RequestAccounted(e, Run(e, before), History(before), r, message);
        case Incoming(data) => IncomingAccounted(e, Run(e, before), History(before), data);
      }
    }
  }
}
