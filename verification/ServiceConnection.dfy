/** The server side of the RPC: src/include/keycap/root/network/service_connection.hpp. */
module ServiceConnection {
  import opened Bytes
  import opened MemoryStream
  import opened Crc32
  import opened RegisteredMessage

  /** What one chunk of received data leads to. Thrown is the exception for a stream that ends in
      front of a field; Overread is a read past the bytes buffered, within a field, which the
      code does not guard against. */
  datatype Outcome =
    | Waiting
    | Delivered(sender: nat, payload: seq<Byte>)
    | Rejected
    | Thrown
    | Overread

  function Accept(e: Engine, m: Message): Outcome
    requires m.payload.readPosition <= |m.payload.buffer|
  {
    if m.crc == MessageCrc(e, m.sender, m.command, m.payload) then Delivered(m.sender, m.payload.buffer)
    else Rejected
  }

  /** The outcome of a chunk arriving behind `pending`, and the bytes still buffered after it. */
  function Feed(e: Engine, pending: seq<Byte>, chunk: seq<Byte>): (Outcome, seq<Byte>)
  {
    var q := pending + chunk;
    if q == [] then (Thrown, q)
    else if |q| < 8 then (Overread, q)
    else if LengthField(q) > |q| then (Waiting, q)
    else if !EndsAtField(|q|) then (Overread, q)
    else if |q| < HEADER then (Thrown, [])
    else (Accept(e, Parsed(q)), [])
  }

  class ServiceConnection {
    const inputStream: MemoryStream
    const crc: Accumulator
    /** What was handed to `connection::send`. */
    var sent: seq<seq<Byte>>

    ghost predicate Valid()
      reads this, inputStream
    {
      inputStream.Valid()
    }

    constructor (engine: Engine)
      ensures Valid() && fresh(inputStream) && fresh(crc)
      ensures inputStream.Queue() == [] && sent == [] && crc.engine == engine
    {
      inputStream := new MemoryStream();
      crc := new Accumulator(engine);
      sent := [];
    }

    /** A Delivered outcome is the call of the derived class's `on_data`. Where the code would
        read past the bytes buffered, the method stops. */
    method OnData(data: seq<Byte>) returns (outcome: Outcome)
      requires Valid()
      modifies inputStream, crc
      ensures Valid()
      ensures outcome == Feed(crc.engine, old(inputStream.Queue()), data).0
      ensures inputStream.Queue() == Feed(crc.engine, old(inputStream.Queue()), data).1
    {
      inputStream.Put(data);
      var ready := CanDecode(inputStream);
      var size := inputStream.Size();
      if ready == Empty {
        return Thrown;
      }
      if ready == NotReady {
        return Waiting;
      }
      if ready == Partial || !EndsAtField(size) {
        return Overread;
      }
      var decoded := Decode(inputStream);
      if decoded.None? {
        return Thrown;
      }
      var m := decoded.value;
      var ok := crc.Validate(m.crc, CrcPieces(m.sender, m.command, m.payload));
      if !ok {
        return Rejected;
      }
      outcome := Delivered(m.sender, m.payload.buffer);
    }

    method SendAnswer(receiver: nat, payload: StreamValue)
      requires payload.readPosition <= |payload.buffer|
      modifies this, crc
      ensures sent == old(sent) + [Frame(Signed(crc.engine, receiver, REQUEST, payload))]
    {
      var c := crc.Compute(CrcPieces(receiver, REQUEST, payload));
      var stream := RegisteredMessage.Encode(Message(c, receiver, REQUEST, payload));
      var size := stream.Size();
      assert stream.buffer[..size] == stream.buffer;
      sent := sent + [stream.buffer[..size]];
    }
  }

  // -------------------------------------------------------------------- one frame

  lemma SignedIsSendable(e: Engine, sender: nat, command: nat, payload: StreamValue)
    requires payload.readPosition == 0 && |payload.buffer| < 0x1_0000_0000_0000_0000 - HEADER
    requires sender < 0x1_0000_0000_0000_0000 && command < 0x1_0000
    ensures Sendable(e, Signed(e, sender, command, payload))
  {
  }

  /** A whole frame is delivered exactly when its checksum field matches its whole payload
      buffer; either way nothing stays buffered. */
  lemma WholeFrame(e: Engine, m: Message)
    requires Representable(m)
    ensures Feed(e, [], Frame(m)) ==
            (Accept(e, m.(payload := StreamValue(m.payload.buffer, 0))), [])
  {
    DecodeUndoesEncode(m);
    CanDecodePrefix(m, |Frame(m)|);
    assert Frame(m)[..|Frame(m)|] == Frame(m) && [] + Frame(m) == Frame(m);
  }

  /** Every chunk a stream can hold, in bytes: the service is handed the bytes from 22 on, under the
      sender at 12, exactly if there are at least 22, the length at 0 is at most their number, and
      the checksum at 8 is that of everything behind it. */
  lemma FeedInBytes(e: Engine, c: seq<Byte>)
    ensures Feed(e, [], c).0.Delivered? <==>
            |c| >= 22 && LeValue(c[..8]) <= |c| && LeValue(c[8..12]) == Checksum(e, c[12..])
    ensures Feed(e, [], c).0.Delivered? ==> Feed(e, [], c) == (Delivered(LeValue(c[12..20]), c[22..]), [])
    ensures Feed(e, [], c).0.Rejected? <==>
            |c| >= 22 && LeValue(c[..8]) <= |c| && LeValue(c[8..12]) != Checksum(e, c[12..])
    ensures Feed(e, [], c).0.Waiting? <==> |c| >= 8 && LeValue(c[..8]) > |c|
    ensures Feed(e, [], c).0.Waiting? ==> Feed(e, [], c).1 == c
    ensures Feed(e, [], c).0.Thrown? <==>
            |c| == 0 || ((|c| == 8 || |c| == 12 || |c| == 20) && LeValue(c[..8]) <= |c|)
  {
    assert [] + c == c;
    if |c| >= 22 {
      CrcOfParsed(e, c);
    }
  }

  lemma CrcOfParsed(e: Engine, c: seq<Byte>)
    requires |c| >= HEADER
    ensures var m := Parsed(c);
            MessageCrc(e, m.sender, m.command, m.payload) == Checksum(e, c[12..])
  {
    var m := Parsed(c);
    CrcInBytes(e, m.sender, m.command, m.payload);
    LeValueBytes(c[12..20]);
    LeValueBytes(c[20..22]);
    assert c[12..20] + c[20..22] + c[22..] == c[12..];
  }

  /** A frame with any checksum field and any payload is delivered exactly if that field is the
      checksum of the sender, the command and its whole payload buffer; else it is refused. */
  lemma FrameDelivered(e: Engine, m: Message)
    requires Representable(m)
    ensures m.crc == Checksum(e, LeBytes(m.sender, 8) + LeBytes(m.command, 2) + m.payload.buffer) ==>
              Feed(e, [], Frame(m)) == (Delivered(m.sender, m.payload.buffer), [])
    ensures m.crc != Checksum(e, LeBytes(m.sender, 8) + LeBytes(m.command, 2) + m.payload.buffer) ==>
              Feed(e, [], Frame(m)) == (Rejected, [])
  {
    WholeFrame(e, m);
    CrcInBytes(e, m.sender, m.command, StreamValue(m.payload.buffer, 0));
  }

  /** A payload altered on the way, to one of any length, with the frame's length field adjusted, is
      delivered exactly if it has the same checksum as the one sent. */
  lemma AlteredPayload(e: Engine, sender: nat, command: nat, sent: StreamValue, arrived: seq<Byte>)
    requires sent.readPosition == 0 && |arrived| < 0x1_0000_0000_0000_0000 - HEADER
    requires sender < 0x1_0000_0000_0000_0000 && command < 0x1_0000
    ensures var m := Signed(e, sender, command, sent).(payload := StreamValue(arrived, 0));
            var head := LeBytes(sender, 8) + LeBytes(command, 2);
            (Feed(e, [], Frame(m)).0.Delivered? <==> Checksum(e, head + sent.buffer) == Checksum(e, head + arrived))
  {
    CrcInBytes(e, sender, command, sent);
    FrameDelivered(e, Signed(e, sender, command, sent).(payload := StreamValue(arrived, 0)));
  }

  /** With a checksum that no single byte escapes, a frame one of whose payload bytes was altered is
      refused. */
  lemma AlteredByteRefused(e: Engine, sender: nat, command: nat, before: seq<Byte>, b: Byte, b': Byte,
                           after: seq<Byte>)
    requires Sensitive(e) && b != b'
    requires |before| + 1 + |after| < 0x1_0000_0000_0000_0000 - HEADER
    requires sender < 0x1_0000_0000_0000_0000 && command < 0x1_0000
    ensures var m := Signed(e, sender, command, StreamValue(before + [b] + after, 0));
            Feed(e, [], Frame(m.(payload := StreamValue(before + [b'] + after, 0)))) == (Rejected, [])
  {
    var head := LeBytes(sender, 8) + LeBytes(command, 2);
    var sent := StreamValue(before + [b] + after, 0);
    CrcInBytes(e, sender, command, sent);
    OneByteDetected(e, head + before, b, b', after);
    assert head + (before + [b] + after) == (head + before) + [b] + after;
    assert head + (before + [b'] + after) == (head + before) + [b'] + after;
    FrameDelivered(e, Signed(e, sender, command, sent).(payload := StreamValue(before + [b'] + after, 0)));
  }

  /** A message as senders build it: nothing of the payload read yet, checksum over all of it. */
  predicate Sendable(e: Engine, m: Message)
  {
    && Representable(m)
    && m.payload.readPosition == 0
    && m.crc == MessageCrc(e, m.sender, m.command, m.payload)
  }

  function Delivery(m: Message): Outcome
  {
    Delivered(m.sender, m.payload.buffer)
  }

  lemma LastChunk(e: Engine, m: Message)
    requires Sendable(e, m)
    ensures Feed(e, [], Frame(m)) == (Delivery(m), [])
  {
    WholeFrame(e, m);
    assert m.(payload := StreamValue(m.payload.buffer, 0)) == m;
  }

  // ------------------------------------------------------------------- reassembly

  /** The outcomes of consecutive chunks. The connection closes at the first chunk that is
      neither kept for later nor delivered. */
  function FeedAll(e: Engine, pending: seq<Byte>, chunks: seq<seq<Byte>>): (seq<Outcome>, seq<Byte>)
    decreases |chunks|
  {
    if chunks == [] then ([], pending)
    else
      var (outcome, pending') := Feed(e, pending, chunks[0]);
      if !outcome.Waiting? && !outcome.Delivered? then ([outcome], pending')
      else
        var (rest, end) := FeedAll(e, pending', chunks[1..]);
        ([outcome] + rest, end)
  }

  /** The connection closes: nothing follows an outcome that is neither waiting nor a delivery. */
  lemma {:induction false} ClosesAtRefusal(e: Engine, pending: seq<Byte>, chunks: seq<seq<Byte>>, i: nat)
    requires i < |FeedAll(e, pending, chunks).0|
    ensures FeedAll(e, pending, chunks).0[i].Waiting? || FeedAll(e, pending, chunks).0[i].Delivered?
            || i == |FeedAll(e, pending, chunks).0| - 1
    ensures |FeedAll(e, pending, chunks).0| <= |chunks|
    decreases |chunks|
  {
    var (outcome, pending') := Feed(e, pending, chunks[0]);
    if outcome.Waiting? || outcome.Delivered? {
      var rest := FeedAll(e, pending', chunks[1..]).0;
      assert FeedAll(e, pending, chunks).0 == [outcome] + rest;
      if i > 0 {
        ClosesAtRefusal(e, pending', chunks[1..], i - 1);
      } else if rest != [] {
        ClosesAtRefusal(e, pending', chunks[1..], 0);
      }
    }
  }

  /** What a correct reassembly of the messages leads to: every message delivered once, in
      order, and between the deliveries nothing but waiting. */
  predicate Served(trace: seq<Outcome>, ms: seq<Message>)
    decreases |trace|
  {
    if trace == [] then ms == []
    else if trace[0].Waiting? then Served(trace[1..], ms)
    else ms != [] && trace[0] == Delivery(ms[0]) && Served(trace[1..], ms[1..])
  }

  predicate AllSendable(e: Engine, ms: seq<Message>)
  {
    ms == [] || (Sendable(e, ms[0]) && AllSendable(e, ms[1..]))
  }

  /** The bytes of all frames, one after the other. */
  function Stream(e: Engine, ms: seq<Message>): seq<Byte>
    requires AllSendable(e, ms)
  {
    if ms == [] then [] else Frame(ms[0]) + Stream(e, ms[1..])
  }

  /** Every proper nonempty prefix of the cut holds the length field but not yet 14 + n bytes. */
  predicate CleanCut(m: Message, cut: seq<seq<Byte>>)
  {
    forall k :: 0 < k < |cut| ==> 8 <= |Flatten(cut[..k])| < COUNTED + |m.payload.buffer|
  }

  /** Each message has its own chunks, and they cut its frame cleanly. */
  predicate CleanCuts(e: Engine, ms: seq<Message>, cuts: seq<seq<seq<Byte>>>)
    requires AllSendable(e, ms)
  {
    if ms == [] then cuts == []
    else
      && cuts != [] && cuts[0] != []
      && Flatten(cuts[0]) == Frame(ms[0])
      && CleanCut(ms[0], cuts[0])
      && CleanCuts(e, ms[1..], cuts[1..])
  }

  /** The same by lengths alone, after `kept` bytes of the first frame: each chunk completes the
      current frame or leaves it at 8 to 13 + n bytes. */
  predicate InStep(ms: seq<Message>, kept: nat, chunks: seq<seq<Byte>>)
    decreases |chunks|
  {
    if chunks == [] then ms == [] && kept == 0
    else
      && ms != []
      && var n, q := |ms[0].payload.buffer|, kept + |chunks[0]|;
         if q == HEADER + n then InStep(ms[1..], 0, chunks[1..])
         else 8 <= q < COUNTED + n && InStep(ms, q, chunks[1..])
  }

  /** A buffer that starts like a sendable frame but is shorter or longer: it is kept exactly when
      it holds 8 to 13 + n bytes, and never delivers the message. */
  lemma WrongLength(e: Engine, m: Message, q: seq<Byte>)
    requires Sendable(e, m) && (q <= Frame(m) || Frame(m) <= q) && |q| != |Frame(m)|
    ensures Feed(e, [], q).0 == Waiting <==> 8 <= |q| < COUNTED + |m.payload.buffer|
    ensures Feed(e, [], q).0 != Delivery(m)
  {
    assert [] + q == q;
    FrameParts(m);
    if |q| >= 8 {
      WordBounds();
      LeBytesValue(COUNTED + Unread(m.payload), 8);
      assert q[..8] == Frame(m)[..8];
    }
  }

  lemma FeedFromPrefix(e: Engine, done: seq<Byte>, chunk: seq<Byte>)
    ensures Feed(e, done, chunk) == Feed(e, [], done + chunk)
  {
    assert [] + (done + chunk) == done + chunk;
  }

  lemma WaitingKeeps(e: Engine, pending: seq<Byte>, chunk: seq<Byte>)
    requires Feed(e, pending, chunk).0 == Waiting
    ensures Feed(e, pending, chunk).1 == pending + chunk
  {
  }

  lemma FlattenFirst(done: seq<Byte>, cut: seq<seq<Byte>>)
    requires cut != []
    ensures done + Flatten(cut) == (done + cut[0]) + Flatten(cut[1..])
    ensures cut[1..] == [] ==> done + Flatten(cut) == done + cut[0]
  {
    Associate(done, cut[0], Flatten(cut[1..]));
    AppendNothing(done + cut[0]);
  }

  lemma ServedCons(x: Outcome, rest: seq<Outcome>, ms: seq<Message>)
    ensures Served([x] + rest, ms) <==>
            if x.Waiting? then Served(rest, ms)
            else ms != [] && x == Delivery(ms[0]) && Served(rest, ms[1..])
  {
    assert ([x] + rest)[1..] == rest;
  }

  lemma FirstNotServed(e: Engine, pending: seq<Byte>, chunks: seq<seq<Byte>>, ms: seq<Message>)
    requires chunks != []
    requires var first := Feed(e, pending, chunks[0]).0;
             first != Waiting && (ms == [] || first != Delivery(ms[0]))
    ensures !Served(FeedAll(e, pending, chunks).0, ms)
  {
    assert FeedAll(e, pending, chunks).0[0] == Feed(e, pending, chunks[0]).0;
  }

  /** Two prefixes of one string: the shorter is a prefix of the longer, and what follows. */
  lemma Prefixes(a: seq<Byte>, x: seq<Byte>, b: seq<Byte>, y: seq<Byte>)
    requires a + x == b + y
    ensures a <= b || b <= a
    ensures |a| == |b| ==> a == b && x == y
  {
    assert forall i :: 0 <= i < |a| && i < |b| ==> (a + x)[i] == a[i] && (b + y)[i] == b[i];
    if |a| == |b| {
      assert x == (a + x)[|a|..] && y == (b + y)[|b|..];
    }
  }

  /** One chunk of a stream of frames, arriving after `done` bytes of the first. */
  lemma ChunkStep(e: Engine, ms: seq<Message>, done: seq<Byte>, chunks: seq<seq<Byte>>)
    requires AllSendable(e, ms) && ms != [] && chunks != []
    requires done + Flatten(chunks) == Stream(e, ms)
    ensures var n, q := |ms[0].payload.buffer|, done + chunks[0];
            if |q| == HEADER + n then
              Feed(e, done, chunks[0]) == (Delivery(ms[0]), []) && Flatten(chunks[1..]) == Stream(e, ms[1..])
            else if 8 <= |q| < COUNTED + n then
              Feed(e, done, chunks[0]) == (Waiting, q) && q + Flatten(chunks[1..]) == Stream(e, ms)
            else Feed(e, done, chunks[0]).0 != Waiting && Feed(e, done, chunks[0]).0 != Delivery(ms[0])
  {
    var m, q := ms[0], done + chunks[0];
    FeedFromPrefix(e, done, chunks[0]);
    FlattenFirst(done, chunks);
    Prefixes(q, Flatten(chunks[1..]), Frame(m), Stream(e, ms[1..]));
    FrameParts(m);
    if |q| == |Frame(m)| {
      LastChunk(e, m);
    } else {
      WrongLength(e, m, q);
      if Feed(e, done, chunks[0]).0 == Waiting {
        WaitingKeeps(e, done, chunks[0]);
      }
    }
  }

  lemma {:induction false} ServedIffInStep(e: Engine, ms: seq<Message>, done: seq<Byte>, chunks: seq<seq<Byte>>)
    requires AllSendable(e, ms) && done + Flatten(chunks) == Stream(e, ms)
    ensures Served(FeedAll(e, done, chunks).0, ms) <==> InStep(ms, |done|, chunks)
    ensures InStep(ms, |done|, chunks) ==> FeedAll(e, done, chunks).1 == []
    decreases |chunks|
  {
    if chunks != [] && ms != [] {
      ChunkStep(e, ms, done, chunks);
      var m, q, rest := ms[0], done + chunks[0], chunks[1..];
      if |q| == HEADER + |m.payload.buffer| {
        assert [] + Flatten(rest) == Flatten(rest);
        ServedIffInStep(e, ms[1..], [], rest);
        ServedCons(Delivery(m), FeedAll(e, [], rest).0, ms);
      } else if Feed(e, done, chunks[0]).0 == Waiting {
        ServedIffInStep(e, ms, q, rest);
        ServedCons(Waiting, FeedAll(e, q, rest).0, ms);
      } else {
        FirstNotServed(e, done, chunks, ms);
      }
    } else if chunks != [] {
      NothingExpected(e, done, chunks);
    }
  }

  /** With no message left, the empty chunk makes the code throw. */
  lemma NothingExpected(e: Engine, done: seq<Byte>, chunks: seq<seq<Byte>>)
    requires chunks != [] && done + Flatten(chunks) == []
    ensures !Served(FeedAll(e, done, chunks).0, [])
  {
    FlattenFirst(done, chunks);
    FirstNotServed(e, done, chunks, []);
  }

  // ---------------------------------------------------------- in step, chunk by chunk

  /** The cut after `done` bytes have already been kept. */
  predicate CleanRest(m: Message, done: seq<Byte>, cut: seq<seq<Byte>>)
    decreases |cut|
  {
    |cut| <= 1
    || (8 <= |done + cut[0]| < COUNTED + |m.payload.buffer| && CleanRest(m, done + cut[0], cut[1..]))
  }

  lemma {:induction false} CleanRestIsCleanCut(m: Message, done: seq<Byte>, cut: seq<seq<Byte>>)
    ensures CleanRest(m, done, cut) <==>
            forall k :: 0 < k < |cut| ==> 8 <= |done + Flatten(cut[..k])| < COUNTED + |m.payload.buffer|
    decreases |cut|
  {
    if |cut| > 1 {
      CleanRestIsCleanCut(m, done + cut[0], cut[1..]);
      forall k | 0 < k < |cut|
        ensures done + Flatten(cut[..k]) == (done + cut[0]) + Flatten(cut[1..][..k - 1])
      {
        assert cut[..k][1..] == cut[1..][..k - 1];
      }
      var lim := COUNTED + |m.payload.buffer|;
      assert Flatten(cut[..1]) == cut[0] by { assert cut[..1][1..] == []; }
      if CleanRest(m, done, cut) {
        forall k | 0 < k < |cut|
          ensures 8 <= |done + Flatten(cut[..k])| < lim
        {
          if k > 1 {
            assert 8 <= |(done + cut[0]) + Flatten(cut[1..][..k - 1])| < lim;
          } else {
            assert cut[..k] == cut[..1];
          }
        }
      } else if forall k :: 0 < k < |cut| ==> 8 <= |done + Flatten(cut[..k])| < lim {
        assert 8 <= |done + Flatten(cut[..1])| < lim;
        forall k | 0 < k < |cut[1..]|
          ensures 8 <= |(done + cut[0]) + Flatten(cut[1..][..k])| < lim
        {
          assert 8 <= |done + Flatten(cut[..k + 1])| < lim;
        }
      }
    }
  }

  lemma CleanCutFromStart(m: Message, cut: seq<seq<Byte>>)
    ensures CleanCut(m, cut) <==> CleanRest(m, [], cut)
  {
    CleanRestIsCleanCut(m, [], cut);
    assert forall k :: 0 < k < |cut| ==> [] + Flatten(cut[..k]) == Flatten(cut[..k]);
  }

  /** A clean cut of the rest of one frame keeps the stream in step for the messages after it. */
  lemma {:induction false} InStepAfterCut(ms: seq<Message>, done: seq<Byte>, cut: seq<seq<Byte>>, later: seq<seq<Byte>>)
    requires ms != [] && cut != []
    requires |done + Flatten(cut)| == HEADER + |ms[0].payload.buffer| && CleanRest(ms[0], done, cut)
    ensures InStep(ms, |done|, cut + later) <==> InStep(ms[1..], 0, later)
    decreases |cut|
  {
    ConcatFirst(cut, later);
    FlattenFirst(done, cut);
    if |cut| == 1 {
      assert cut[1..] == [] && [] + later == later;
    } else {
      InStepAfterCut(ms, done + cut[0], cut[1..], later);
    }
  }

  lemma {:induction false} CleanCutsInStep(e: Engine, ms: seq<Message>, cuts: seq<seq<seq<Byte>>>)
    requires AllSendable(e, ms) && CleanCuts(e, ms, cuts)
    ensures InStep(ms, 0, Flatten(cuts))
    decreases |ms|
  {
    if ms != [] {
      CleanCutsInStep(e, ms[1..], cuts[1..]);
      FrameParts(ms[0]);
      CleanCutFromStart(ms[0], cuts[0]);
      assert [] + Flatten(cuts[0]) == Flatten(cuts[0]);
      InStepAfterCut(ms, [], cuts[0], Flatten(cuts[1..]));
    }
  }

  /** The chunks grouped by the message they belong to. */
  function Grouped(ms: seq<Message>, kept: nat, chunks: seq<seq<Byte>>): (cuts: seq<seq<seq<Byte>>>)
    requires InStep(ms, kept, chunks)
    ensures |cuts| == |ms| && Flatten(cuts) == chunks
    decreases |chunks|
  {
    if chunks == [] then []
    else
      var n, q := |ms[0].payload.buffer|, kept + |chunks[0]|;
      if q == HEADER + n then
        Regroup(chunks[0], [], Grouped(ms[1..], 0, chunks[1..]));
        [[chunks[0]]] + Grouped(ms[1..], 0, chunks[1..])
      else
        var cuts := Grouped(ms, q, chunks[1..]);
        Regroup(chunks[0], cuts[0], cuts[1..]);
        [[chunks[0]] + cuts[0]] + cuts[1..]
  }

  lemma Regroup(chunk: seq<Byte>, cut: seq<seq<Byte>>, cuts: seq<seq<seq<Byte>>>)
    ensures Flatten([[chunk] + cut] + cuts) == [chunk] + (cut + Flatten(cuts))
    ensures Flatten([[chunk]] + cuts) == [chunk] + Flatten(cuts)
    ensures cut + Flatten(cuts) == Flatten([cut] + cuts)
  {
    assert ([[chunk] + cut] + cuts)[1..] == cuts && ([[chunk]] + cuts)[1..] == cuts && ([cut] + cuts)[1..] == cuts;
  }

  /** The rest of the first frame is cut cleanly, and so are the frames after it. */
  predicate CleanFrom(e: Engine, ms: seq<Message>, done: seq<Byte>, cuts: seq<seq<seq<Byte>>>)
    requires AllSendable(e, ms)
  {
    if ms == [] then cuts == []
    else
      && cuts != [] && cuts[0] != []
      && done + Flatten(cuts[0]) == Frame(ms[0])
      && CleanRest(ms[0], done, cuts[0])
      && CleanCuts(e, ms[1..], cuts[1..])
  }

  lemma CleanFromStart(e: Engine, ms: seq<Message>, cuts: seq<seq<seq<Byte>>>)
    requires AllSendable(e, ms)
    ensures CleanFrom(e, ms, [], cuts) <==> CleanCuts(e, ms, cuts)
  {
    if ms != [] && cuts != [] {
      CleanCutFromStart(ms[0], cuts[0]);
      assert [] + Flatten(cuts[0]) == Flatten(cuts[0]);
    }
  }

  lemma CompletesFrame(e: Engine, ms: seq<Message>, done: seq<Byte>, chunks: seq<seq<Byte>>)
    requires AllSendable(e, ms) && ms != [] && chunks != []
    requires done + Flatten(chunks) == Stream(e, ms)
    requires |done + chunks[0]| == HEADER + |ms[0].payload.buffer|
    ensures done + Flatten([chunks[0]]) == Frame(ms[0]) && Flatten(chunks[1..]) == Stream(e, ms[1..])
  {
    FlattenFirst(done, chunks);
    FrameParts(ms[0]);
    Prefixes(done + chunks[0], Flatten(chunks[1..]), Frame(ms[0]), Stream(e, ms[1..]));
    FlattenFirst(done, [chunks[0]]);
  }

  lemma {:induction false} GroupedIsClean(e: Engine, ms: seq<Message>, done: seq<Byte>, chunks: seq<seq<Byte>>)
    requires AllSendable(e, ms) && done + Flatten(chunks) == Stream(e, ms)
    requires InStep(ms, |done|, chunks)
    ensures CleanFrom(e, ms, done, Grouped(ms, |done|, chunks))
    decreases |chunks|
  {
    if chunks != [] {
      var m, q, rest := ms[0], done + chunks[0], chunks[1..];
      if |q| == HEADER + |m.payload.buffer| {
        CompletesFrame(e, ms, done, chunks);
        assert [] + Flatten(rest) == Flatten(rest);
        GroupedIsClean(e, ms[1..], [], rest);
        CleanFromStart(e, ms[1..], Grouped(ms[1..], 0, rest));
        var cuts := [[chunks[0]]] + Grouped(ms[1..], 0, rest);
        assert cuts[1..] == Grouped(ms[1..], 0, rest);
      } else {
        FlattenFirst(done, chunks);
        GroupedIsClean(e, ms, q, rest);
        ExtendCut(e, ms, done, chunks[0], Grouped(ms, |q|, rest));
      }
    }
  }

  lemma ExtendCut(e: Engine, ms: seq<Message>, done: seq<Byte>, chunk: seq<Byte>, cuts: seq<seq<seq<Byte>>>)
    requires AllSendable(e, ms) && ms != [] && CleanFrom(e, ms, done + chunk, cuts)
    requires 8 <= |done + chunk| < COUNTED + |ms[0].payload.buffer|
    ensures CleanFrom(e, ms, done, [[chunk] + cuts[0]] + cuts[1..])
  {
    ConcatFirst([chunk], cuts[0]);
    assert [] + cuts[0] == cuts[0];
    FlattenFirst(done, [chunk] + cuts[0]);
    assert ([[chunk] + cuts[0]] + cuts[1..])[1..] == cuts[1..];
  }

  /** A stream is in step exactly when its chunks can be grouped into clean cuts of the frames:
      every frame ends where a chunk ends, and no cut within a frame misleads the length test. */
  lemma InStepIffCleanCuts(e: Engine, ms: seq<Message>, chunks: seq<seq<Byte>>)
    requires AllSendable(e, ms) && Flatten(chunks) == Stream(e, ms)
    ensures InStep(ms, 0, chunks) <==> exists cuts :: Flatten(cuts) == chunks && CleanCuts(e, ms, cuts)
  {
    if InStep(ms, 0, chunks) {
      assert [] + Flatten(chunks) == Flatten(chunks);
      GroupedIsClean(e, ms, [], chunks);
      CleanFromStart(e, ms, Grouped(ms, 0, chunks));
    }
    if cuts :| Flatten(cuts) == chunks && CleanCuts(e, ms, cuts) {
      CleanCutsInStep(e, ms, cuts);
    }
  }

  /** Reassembly of any messages whose frames arrive in any chunks whatever: every message is
      delivered once, in order, with nothing but waiting in between, exactly when every frame
      ends where a chunk ends and every frame is cut cleanly; then nothing stays buffered. */
  lemma Reassembly(e: Engine, ms: seq<Message>, chunks: seq<seq<Byte>>)
    requires AllSendable(e, ms) && Flatten(chunks) == Stream(e, ms)
    ensures Served(FeedAll(e, [], chunks).0, ms) <==>
            exists cuts :: Flatten(cuts) == chunks && CleanCuts(e, ms, cuts)
    ensures Served(FeedAll(e, [], chunks).0, ms) ==> FeedAll(e, [], chunks).1 == []
  {
    InStepIffCleanCuts(e, ms, chunks);
    assert [] + Flatten(chunks) == Flatten(chunks);
    ServedIffInStep(e, ms, [], chunks);
  }

  /** Two frames in one chunk: neither message is ever delivered, and all bytes are used up. The
      same goes for any bytes behind a frame in its last chunk. */
  lemma CoalescedFramesLost(e: Engine, m: Message, extra: seq<Byte>)
    requires Sendable(e, m) && extra != []
    ensures var (outcome, buffered) := Feed(e, [], Frame(m) + extra);
            outcome != Waiting && outcome != Delivery(m) && buffered == []
  {
    FrameParts(m);
    WrongLength(e, m, Frame(m) + extra);
    assert [] + (Frame(m) + extra) == Frame(m) + extra;
  }

  /** Every frame has a cut into two chunks that is not reassembled: after byte 14 + n the first
      chunk is taken for the whole. */
  lemma EveryFrameHasABadCut(e: Engine, m: Message)
    requires Sendable(e, m)
    ensures |Frame(m)| > COUNTED + |m.payload.buffer|
    ensures var k := COUNTED + |m.payload.buffer|;
            !Served(FeedAll(e, [], [Frame(m)[..k], Frame(m)[k..]]).0, [m])
  {
    FrameParts(m);
    var k := COUNTED + |m.payload.buffer|;
    WrongLength(e, m, Frame(m)[..k]);
    FirstNotServed(e, [], [Frame(m)[..k], Frame(m)[k..]], [m]);
  }

  // ------------------------------------------------------------------ reads of a socket

  /** The size of the buffer of `connection::do_read`: no chunk is longer. */
  const READ_BUFFER := 1024

  /** Bytes that arrive in reads as long as possible. */
  function Reads(bytes: seq<Byte>): (chunks: seq<seq<Byte>>)
    ensures chunks != [] && Flatten(chunks) == bytes
    ensures forall i :: 0 <= i < |chunks| ==> |chunks[i]| <= READ_BUFFER
    ensures |bytes| <= READ_BUFFER <==> chunks == [bytes]
    decreases |bytes|
  {
    if |bytes| <= READ_BUFFER then
      FlattenFirst([], [bytes]);
      [bytes]
    else
      [bytes[..READ_BUFFER]] + Reads(bytes[READ_BUFFER..])
  }

  /** The length of the last of them. */
  function LastRead(length: nat): nat
    requires length > 0
  {
    (length - 1) % READ_BUFFER + 1
  }

  lemma LastReadOfRest(length: nat)
    requires length > READ_BUFFER
    ensures LastRead(length - READ_BUFFER) == LastRead(length)
    ensures length - READ_BUFFER <= READ_BUFFER ==> LastRead(length) == length - READ_BUFFER
  {
  }

  lemma {:induction false} FullReadsInStep(m: Message, kept: nat, bytes: seq<Byte>)
    requires kept + |bytes| == HEADER + |m.payload.buffer| && bytes != []
    ensures InStep([m], kept, Reads(bytes)) <==> |bytes| <= READ_BUFFER || LastRead(|bytes|) > HEADER - COUNTED
    decreases |bytes|
  {
    var chunks := Reads(bytes);
    if |bytes| <= READ_BUFFER {
      assert chunks[1..] == [];
    } else {
      var rest := bytes[READ_BUFFER..];
      assert chunks[1..] == Reads(rest);
      FullReadsInStep(m, kept + READ_BUFFER, rest);
      LastReadOfRest(|bytes|);
    }
  }

  /** A payload of n bytes whose frame arrives in reads as long as possible is delivered exactly
      when one read takes the whole frame or the last read takes more than eight bytes. */
  predicate ReadCleanly(n: nat)
  {
    HEADER + n <= READ_BUFFER || LastRead(HEADER + n) > HEADER - COUNTED
  }

  lemma FullReads(e: Engine, m: Message)
    requires Sendable(e, m)
    ensures Served(FeedAll(e, [], Reads(Frame(m))).0, [m]) <==> ReadCleanly(|m.payload.buffer|)
  {
    FrameParts(m);
    AppendNothing(Frame(m));
    assert [m][1..] == [] && Stream(e, [m]) == Frame(m) + [];
    assert [] + Flatten(Reads(Frame(m))) == Frame(m);
    ServedIffInStep(e, [m], [], Reads(Frame(m)));
    FullReadsInStep(m, 0, Frame(m));
  }
}
