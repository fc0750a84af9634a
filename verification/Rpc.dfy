/** Requests and answers end to end, across the locator and the service connection. */
module Rpc {
  import opened Bytes
  import opened MemoryStream
  import opened Crc32
  import opened RegisteredMessage
  import opened ServiceConnection
  import opened ServiceLocator

  /** A stream nothing has been read from, of a size its frame's length field can hold. */
  predicate Fresh(s: StreamValue)
  {
    s.readPosition == 0 && |s.buffer| < 0x1_0000_0000_0000_0000 - HEADER
  }

  function AnswerFrame(e: Engine, id: nat, reply: StreamValue): seq<Byte>
    requires Fresh(reply)
  {
    Frame(Signed(e, id, REQUEST, reply))
  }

  lemma SignedFrameDelivered(e: Engine, sender: nat, command: nat, payload: StreamValue)
    requires Fresh(payload) && sender < IDS && command < 0x1_0000
    ensures Feed(e, [], Frame(Signed(e, sender, command, payload))) == (Delivered(sender, payload.buffer), [])
  {
    var m := Signed(e, sender, command, payload);
    SignedIsSendable(e, sender, command, payload);
    LastChunk(e, m);
  }

  /** An answer posts exactly the callback registered under its id, once, with its bytes;
      for an id not pending it changes nothing. */
  lemma AnswerReceived(e: Engine, s: State, id: nat, reply: StreamValue)
    requires Fresh(reply) && id < IDS
    ensures Received(e, s, AnswerFrame(e, id, reply)) ==
            if id in s.pending then
              (Returned(true),
               s.(pending := s.pending - {id}, posted := s.posted + [Posting(id, s.pending[id], reply)]))
            else (Returned(false), s)
  {
    SignedFrameDelivered(e, id, REQUEST, reply);
    assert StreamValue(reply.buffer, 0) == reply;
  }

  lemma ShortDelivery(e: Engine, data: seq<Byte>)
    ensures var outcome := Feed(e, [], data).0;
            outcome.Delivered? ==> |outcome.payload| == |data| - HEADER
  {
    assert [] + data == data;
  }

  /** The locator does not reassemble: of an answer cut short anywhere after its length field,
      only the whole frame posts the callback with the exact reply. */
  lemma OnlyWholeAnswersPost(e: Engine, s: State, id: nat, reply: StreamValue, k: nat)
    requires Fresh(reply) && id < IDS && id in s.pending
    requires 8 <= k <= |AnswerFrame(e, id, reply)|
    ensures Received(e, s, AnswerFrame(e, id, reply)[..k]).1.posted == s.posted + [Posting(id, s.pending[id], reply)]
       <==> k == |AnswerFrame(e, id, reply)|
  {
    var frame := AnswerFrame(e, id, reply);
    if k == |frame| {
      assert frame[..k] == frame;
      AnswerReceived(e, s, id, reply);
    } else {
      FrameParts(Signed(e, id, REQUEST, reply));
      ShortDelivery(e, frame[..k]);
      var posted := Received(e, s, frame[..k]).1.posted;
      if |posted| > |s.posted| {
        assert |posted[|s.posted|].payload.buffer| < |reply.buffer|;
      }
    }
  }

  // ----------------------------------------------------------- what one read can hold

  /** The payload bytes of a frame that one read takes whole. */
  const ROOM := READ_BUFFER - HEADER

  /** Received data as a connection hands them over: no read is longer than its buffer. */
  predicate Readable(ev: Event)
  {
    ev.Incoming? ==> |ev.data| <= READ_BUFFER
  }

  lemma ReceivedFits(e: Engine, s: State, data: seq<Byte>)
    requires |data| <= READ_BUFFER
    ensures var posted := Received(e, s, data).1.posted;
            posted == s.posted
            || (|posted| == |s.posted| + 1 && s.posted <= posted && |posted[|s.posted|].payload.buffer| <= ROOM)
  {
    ShortDelivery(e, data);
  }

  lemma ApplyFits(e: Engine, s: State, ev: Event)
    requires Proper(ev) && Readable(ev)
    ensures var posted := Apply(e, s, ev).posted;
            posted == s.posted
            || (|posted| == |s.posted| + 1 && s.posted <= posted && |posted[|s.posted|].payload.buffer| <= ROOM)
  {
    if ev.Incoming? {
      ReceivedFits(e, s, ev.data);
    }
  }

  /** The locator keeps nothing from one read to the next, so no run ever hands a callback more
      than 1002 bytes. */
  lemma {:induction false} PostedPayloadsFit(e: Engine, s: State, events: seq<Event>)
    requires forall i :: 0 <= i < |events| ==> Proper(events[i]) && Readable(events[i])
    ensures s.posted <= RunFrom(e, s, events).posted
    ensures forall k :: |s.posted| <= k < |RunFrom(e, s, events).posted| ==>
              |RunFrom(e, s, events).posted[k].payload.buffer| <= ROOM
  {
    if events != [] {
      var before := events[..|events| - 1];
      PostedPayloadsFit(e, s, before);
      ApplyFits(e, RunFrom(e, s, before), events[|events| - 1]);
    }
  }

  /** A pending request can be answered with a reply by some read exactly when the reply has at
      most 1002 bytes; the first read of the answer's frame then does it. */
  lemma AnswerFits(e: Engine, s: State, id: nat, reply: StreamValue)
    requires Fresh(reply) && id < IDS && id in s.pending
    ensures |reply.buffer| <= ROOM <==>
            exists data :: |data| <= READ_BUFFER
                           && Received(e, s, data).1.posted == s.posted + [Posting(id, s.pending[id], reply)]
    ensures |reply.buffer| <= ROOM <==>
            Received(e, s, Reads(AnswerFrame(e, id, reply))[0]).1.posted
              == s.posted + [Posting(id, s.pending[id], reply)]
  {
    var frame, whole := AnswerFrame(e, id, reply), s.posted + [Posting(id, s.pending[id], reply)];
    FrameParts(Signed(e, id, REQUEST, reply));
    AnswerReceived(e, s, id, reply);
    if |reply.buffer| <= ROOM {
      assert Reads(frame)[0] == frame && Received(e, s, frame).1.posted == whole;
    } else {
      forall data | |data| <= READ_BUFFER
        ensures Received(e, s, data).1.posted != whole
      {
        ReceivedFits(e, s, data);
      }
    }
  }

  lemma RequestDelivered(e: Engine, id: nat, request: StreamValue)
    requires Fresh(request) && id < IDS
    ensures var m := Signed(e, id, REQUEST, request);
            && Parsed(Frame(m)) == m
            && (Served(FeedAll(e, [], Reads(Frame(m))).0, [m]) <==> ReadCleanly(|request.buffer|))
  {
    SignedIsSendable(e, id, REQUEST, request);
    FullReads(e, Signed(e, id, REQUEST, request));
    DecodeUndoesEncode(Signed(e, id, REQUEST, request));
  }

  lemma AnswerRead(e: Engine, s: State, id: nat, reply: StreamValue)
    requires Fresh(reply) && id < IDS && id in s.pending
    ensures Received(e, s, Reads(AnswerFrame(e, id, reply))[0]) ==
            (Returned(true), s.(pending := s.pending - {id}, posted := s.posted + [Posting(id, s.pending[id], reply)]))
       <==> |reply.buffer| <= ROOM
  {
    AnswerFits(e, s, id, reply);
    AnswerReceived(e, s, id, reply);
    FrameParts(Signed(e, id, REQUEST, reply));
  }

  /** A request to a live service goes out as a request under a new id, and reaches it in reads as
      long as possible exactly when their last is long enough (`ReadCleanly`). Answering that id
      posts the callback registered with the request, with its service type and the exact reply,
      everything else in the locator's tables being as before the request, exactly when the
      reply has at most 1002 bytes. */
  lemma EndToEnd(e: Engine, s: State, r: Registration, request: StreamValue, reply: StreamValue)
    requires Fresh(request) && Fresh(reply)
    requires s.counter < IDS && s.counter !in s.pending
    requires r.service in s.services && s.services[r.service]
    ensures var m := Signed(e, s.counter, REQUEST, request);
            && Registered(e, s, r, request).sent == s.sent + [(r.service, Frame(m))]
            && Parsed(Frame(m)) == m
            && (Served(FeedAll(e, [], Reads(Frame(m))).0, [m]) <==> ReadCleanly(|request.buffer|))
    ensures var s1 := Registered(e, s, r, request);
            (Received(e, s1, Reads(AnswerFrame(e, s.counter, reply))[0]) ==
             (Returned(true), s.(counter := (s.counter + 1) % IDS,
                                 sent := s1.sent,
                                 posted := s.posted + [Posting(s.counter, r, reply)]))
             <==> |reply.buffer| <= ROOM)
  {
    RequestDelivered(e, s.counter, request);
    AnswerRead(e, Registered(e, s, r, request), s.counter, reply);
    EnteredAndRemoved(e, s, r, request, reply);
  }

  lemma EnteredAndRemoved(e: Engine, s: State, r: Registration, request: StreamValue, reply: StreamValue)
    requires Fresh(request) && s.counter !in s.pending
    ensures var id, s1 := s.counter, Registered(e, s, r, request);
            && id in s1.pending
            && s1.(pending := s1.pending - {id}, posted := s1.posted + [Posting(id, s1.pending[id], reply)]) ==
               s.(counter := (id + 1) % IDS, sent := s1.sent, posted := s.posted + [Posting(id, r, reply)])
  {
    assert s.pending[s.counter := r] - {s.counter} == s.pending;
  }

  datatype Answer = Answer(id: nat, reply: StreamValue)

  predicate Answerable(pending: map<nat, Registration>, answers: seq<Answer>)
  {
    && (forall i :: 0 <= i < |answers| ==> Fresh(answers[i].reply) && answers[i].id < IDS && answers[i].id in pending)
    && (forall i, j :: 0 <= i < j < |answers| ==> answers[i].id != answers[j].id)
  }

  function Incomings(chunks: seq<seq<Byte>>): (events: seq<Event>)
    ensures |events| == |chunks| && forall i :: 0 <= i < |chunks| ==> events[i] == Incoming(chunks[i])
  {
    seq(|chunks|, i requires 0 <= i < |chunks| => Incoming(chunks[i]))
  }

  /** Received chunks, on any connections. */
  function ReceiveAll(e: Engine, s: State, chunks: seq<seq<Byte>>): State
  {
    RunFrom(e, s, Incomings(chunks))
  }

  lemma ReceiveLast(e: Engine, s: State, chunks: seq<seq<Byte>>)
    requires chunks != []
    ensures ReceiveAll(e, s, chunks) ==
            Received(e, ReceiveAll(e, s, chunks[..|chunks| - 1]), chunks[|chunks| - 1]).1
  {
    assert Incomings(chunks)[..|chunks| - 1] == Incomings(chunks[..|chunks| - 1]);
  }

  function AnswerFrames(e: Engine, answers: seq<Answer>): (frames: seq<seq<Byte>>)
    requires forall i :: 0 <= i < |answers| ==> Fresh(answers[i].reply)
    ensures |frames| == |answers|
  {
    seq(|answers|, i requires 0 <= i < |answers| => AnswerFrame(e, answers[i].id, answers[i].reply))
  }

  function Postings(pending: map<nat, Registration>, answers: seq<Answer>): seq<Posting>
    requires forall i :: 0 <= i < |answers| ==> answers[i].id in pending
  {
    seq(|answers|, i requires 0 <= i < |answers| => Posting(answers[i].id, pending[answers[i].id], answers[i].reply))
  }

  function AnsweredIds(answers: seq<Answer>): set<nat>
  {
    set i | 0 <= i < |answers| :: answers[i].id
  }

  /** The locator once all the answers have posted their callbacks. */
  function Answered(s: State, answers: seq<Answer>): State
    requires forall i :: 0 <= i < |answers| ==> answers[i].id in s.pending
  {
    s.(pending := s.pending - AnsweredIds(answers), posted := s.posted + Postings(s.pending, answers))
  }

  lemma AnsweredSnoc(s: State, answers: seq<Answer>, last: Answer)
    requires Answerable(s.pending, answers + [last])
    ensures Answerable(s.pending, answers) && Fresh(last.reply) && last.id < IDS
    ensures last.id in s.pending && last.id in Answered(s, answers).pending
    ensures Answered(s, answers + [last]).posted ==
            Answered(s, answers).posted + [Posting(last.id, s.pending[last.id], last.reply)]
    ensures Answered(s, answers + [last]).pending == Answered(s, answers).pending - {last.id}
  {
    var all := answers + [last];
    assert forall i :: 0 <= i < |answers| ==> all[i] == answers[i];
    assert all[|answers|] == last;
    assert AnsweredIds(all) == AnsweredIds(answers) + {last.id} by {
      assert all[|answers|].id in AnsweredIds(all);
      forall i | 0 <= i < |answers|
        ensures answers[i].id in AnsweredIds(all)
      {
        assert all[i].id in AnsweredIds(all);
      }
    }
    assert Postings(s.pending, all) ==
           Postings(s.pending, answers) + [Posting(last.id, s.pending[last.id], last.reply)];
  }

  lemma AnsweredNothing(s: State)
    ensures Answered(s, []) == s
  {
    assert s.pending - {} == s.pending && s.posted + [] == s.posted;
  }

  lemma LastAnswer(e: Engine, s: State, answers: seq<Answer>, last: Answer)
    requires Answerable(s.pending, answers + [last])
    ensures Answerable(s.pending, answers) && Fresh(last.reply)
    ensures Received(e, Answered(s, answers), AnswerFrame(e, last.id, last.reply)).0 == Returned(true)
    ensures Received(e, Answered(s, answers), AnswerFrame(e, last.id, last.reply)).1 == Answered(s, answers + [last])
  {
    AnsweredSnoc(s, answers, last);
    AnswerReceived(e, Answered(s, answers), last.id, last.reply);
  }

  /** Frames that arrive one by one, each in a chunk of its own, post their callbacks. */
  lemma {:induction false} FramesAnswered(e: Engine, s: State, answers: seq<Answer>)
    requires Answerable(s.pending, answers)
    ensures ReceiveAll(e, s, AnswerFrames(e, answers)) == Answered(s, answers)
  {
    if answers == [] {
      AnsweredNothing(s);
    } else {
      var before, last := answers[..|answers| - 1], answers[|answers| - 1];
      assert answers == before + [last];
      LastAnswer(e, s, before, last);
      FramesAnswered(e, s, before);
      assert AnswerFrames(e, answers)[..|answers| - 1] == AnswerFrames(e, before);
      ReceiveLast(e, s, AnswerFrames(e, answers));
    }
  }

  // --------------------------------------------------------- answers in arbitrary chunks

  function NonEmpty(chunks: seq<seq<Byte>>): seq<seq<Byte>>
  {
    if chunks == [] then []
    else
      NonEmpty(chunks[..|chunks| - 1]) + if chunks[|chunks| - 1] == [] then [] else [chunks[|chunks| - 1]]
  }

  lemma FlattenLast(chunks: seq<seq<Byte>>)
    requires chunks != []
    ensures Flatten(chunks) == Flatten(chunks[..|chunks| - 1]) + chunks[|chunks| - 1]
  {
    FlattenSnoc(chunks[..|chunks| - 1], chunks[|chunks| - 1]);
    assert chunks[..|chunks| - 1] + [chunks[|chunks| - 1]] == chunks;
  }

  lemma {:induction false} FlattenNonEmpty(chunks: seq<seq<Byte>>)
    ensures Flatten(NonEmpty(chunks)) == Flatten(chunks)
  {
    if chunks != [] {
      var before, last := chunks[..|chunks| - 1], chunks[|chunks| - 1];
      FlattenNonEmpty(before);
      FlattenLast(chunks);
      AppendNothing(NonEmpty(before));
      AppendNothing(Flatten(before));
      FlattenSnoc(NonEmpty(before), last);
    }
  }

  /** An empty chunk makes the code throw and changes no table. */
  lemma {:induction false} EmptyChunksIgnored(e: Engine, s: State, chunks: seq<seq<Byte>>)
    ensures ReceiveAll(e, s, NonEmpty(chunks)) == ReceiveAll(e, s, chunks)
  {
    if chunks != [] {
      var before, last := chunks[..|chunks| - 1], chunks[|chunks| - 1];
      EmptyChunksIgnored(e, s, before);
      ReceiveLast(e, s, chunks);
      if last == [] {
        AppendNothing(NonEmpty(before));
      } else {
        ReceiveLast(e, s, NonEmpty(chunks));
        assert NonEmpty(chunks)[..|NonEmpty(before)|] == NonEmpty(before);
      }
    }
  }

  /** The bytes of the frames that the postings came from. */
  function Used(posted: seq<Posting>): nat
  {
    if posted == [] then 0
    else Used(posted[..|posted| - 1]) + HEADER + |posted[|posted| - 1].payload.buffer|
  }

  lemma UsedSnoc(posted: seq<Posting>, p: Posting)
    ensures Used(posted + [p]) == Used(posted) + HEADER + |p.payload.buffer|
  {
    assert (posted + [p])[..|posted|] == posted;
  }

  /** Each piece has the size of the frame its posting came from. */
  predicate Sized(pieces: seq<seq<Byte>>, posted: seq<Posting>)
  {
    && |pieces| == |posted|
    && forall i :: 0 <= i < |pieces| ==> |pieces[i]| == HEADER + |posted[i].payload.buffer|
  }

  lemma {:induction false} SizedTotal(pieces: seq<seq<Byte>>, posted: seq<Posting>)
    requires Sized(pieces, posted)
    ensures |Flatten(pieces)| == Used(posted)
  {
    if pieces != [] {
      SizedTotal(pieces[..|pieces| - 1], posted[..|posted| - 1]);
      FlattenLast(pieces);
    }
  }

  /** A chunk posts at most one callback, and then it is as long as that one's frame. */
  lemma ReceivedUses(e: Engine, s: State, data: seq<Byte>) returns (news: seq<Posting>)
    ensures Received(e, s, data).1.posted == s.posted + news
    ensures news == [] || (|news| == 1 && |data| == HEADER + |news[0].payload.buffer|)
  {
    ShortDelivery(e, data);
    news := Received(e, s, data).1.posted[|s.posted|..];
  }

  /** The postings use up no more bytes than have been received; if they use up all of them, every
      nonempty chunk has posted one. */
  lemma {:induction false} PostingsUseChunks(e: Engine, s: State, chunks: seq<seq<Byte>>) returns (news: seq<Posting>)
    ensures ReceiveAll(e, s, chunks).posted == s.posted + news
    ensures Used(news) <= |Flatten(chunks)|
    ensures Used(news) == |Flatten(chunks)| ==> Sized(NonEmpty(chunks), news)
  {
    if chunks == [] {
      news := [];
      AppendNothing(s.posted);
    } else {
      var before, last := chunks[..|chunks| - 1], chunks[|chunks| - 1];
      var earlier := PostingsUseChunks(e, s, before);
      ReceiveLast(e, s, chunks);
      var added := ReceivedUses(e, ReceiveAll(e, s, before), last);
      Associate(s.posted, earlier, added);
      FlattenLast(chunks);
      news := earlier + added;
      UseOneMore(before, last, earlier, added);
    }
  }

  lemma UseOneMore(before: seq<seq<Byte>>, last: seq<Byte>, earlier: seq<Posting>, added: seq<Posting>)
    requires Used(earlier) <= |Flatten(before)|
    requires Used(earlier) == |Flatten(before)| ==> Sized(NonEmpty(before), earlier)
    requires added == [] || (|added| == 1 && |last| == HEADER + |added[0].payload.buffer|)
    ensures Used(earlier + added) <= |Flatten(before)| + |last|
    ensures Used(earlier + added) == |Flatten(before)| + |last| ==>
              Sized(NonEmpty(before) + if last == [] then [] else [last], earlier + added)
  {
    if added == [] {
      AppendNothing(earlier);
      AppendNothing(NonEmpty(before));
    } else {
      assert added == [added[0]];
      UsedSnoc(earlier, added[0]);
    }
  }

  lemma {:induction false} SamePieces(a: seq<seq<Byte>>, b: seq<seq<Byte>>)
    requires |a| == |b| && Flatten(a) == Flatten(b)
    requires forall i :: 0 <= i < |a| ==> |a[i]| == |b[i]|
    ensures a == b
    decreases |a|
  {
    if a != [] {
      Prefixes(a[0], Flatten(a[1..]), b[0], Flatten(b[1..]));
      SamePieces(a[1..], b[1..]);
      assert a == [a[0]] + a[1..] && b == [b[0]] + b[1..];
    }
  }

  lemma FramesSized(e: Engine, pending: map<nat, Registration>, answers: seq<Answer>)
    requires Answerable(pending, answers)
    ensures Sized(AnswerFrames(e, answers), Postings(pending, answers))
  {
    forall i | 0 <= i < |answers|
      ensures |AnswerFrame(e, answers[i].id, answers[i].reply)| == HEADER + |answers[i].reply.buffer|
    {
      FrameParts(Signed(e, answers[i].id, REQUEST, answers[i].reply));
    }
  }

  lemma SizesDecide(frames: seq<seq<Byte>>, chunks: seq<seq<Byte>>, news: seq<Posting>)
    requires Sized(frames, news) && Used(news) <= |Flatten(chunks)| <= |Flatten(frames)|
    requires Used(news) == |Flatten(chunks)| ==> Sized(NonEmpty(chunks), news)
    ensures |Flatten(chunks)| == |Flatten(frames)|
    ensures Flatten(chunks) == Flatten(frames) ==> NonEmpty(chunks) == frames
  {
    SizedTotal(frames, news);
    FlattenNonEmpty(chunks);
    if Flatten(chunks) == Flatten(frames) {
      SamePieces(NonEmpty(chunks), frames);
    }
  }

  lemma SameAddition<T>(a: seq<T>, x: seq<T>, y: seq<T>)
    requires a + x == a + y
    ensures x == y
  {
    assert (a + x)[|a|..] == x && (a + y)[|a|..] == y;
  }

  lemma OnlyFramesPost(e: Engine, s: State, answers: seq<Answer>, chunks: seq<seq<Byte>>)
    requires Answerable(s.pending, answers) && |Flatten(chunks)| <= |Flatten(AnswerFrames(e, answers))|
    requires ReceiveAll(e, s, chunks).posted == s.posted + Postings(s.pending, answers)
    ensures |Flatten(chunks)| == |Flatten(AnswerFrames(e, answers))|
    ensures Flatten(chunks) == Flatten(AnswerFrames(e, answers)) ==> NonEmpty(chunks) == AnswerFrames(e, answers)
  {
    var news := PostingsUseChunks(e, s, chunks);
    SameAddition(s.posted, news, Postings(s.pending, answers));
    FramesSized(e, s.pending, answers);
    SizesDecide(AnswerFrames(e, answers), chunks, news);
  }

  /** Any number of outstanding requests answered in any order, the frames of the answers arriving in
      any chunks whatever: each callback is posted once, in the order of the answers, with its own
      reply, exactly when the nonempty chunks are the frames, one each; and then nothing else
      has changed. */
  lemma AnswersInAnyOrder(e: Engine, s: State, answers: seq<Answer>, chunks: seq<seq<Byte>>)
    requires Answerable(s.pending, answers) && Flatten(chunks) == Flatten(AnswerFrames(e, answers))
    ensures ReceiveAll(e, s, chunks).posted == s.posted + Postings(s.pending, answers)
       <==> NonEmpty(chunks) == AnswerFrames(e, answers)
    ensures NonEmpty(chunks) == AnswerFrames(e, answers) ==> ReceiveAll(e, s, chunks) == Answered(s, answers)
  {
    if NonEmpty(chunks) == AnswerFrames(e, answers) {
      FramesAnswered(e, s, answers);
      EmptyChunksIgnored(e, s, chunks);
    } else if ReceiveAll(e, s, chunks).posted == s.posted + Postings(s.pending, answers) {
      OnlyFramesPost(e, s, answers, chunks);
    }
  }

  /** Chunks that carry the frames of the answers, none longer than a read, and post them all. */
  ghost predicate PostedByReads(e: Engine, s: State, answers: seq<Answer>, chunks: seq<seq<Byte>>)
    requires Answerable(s.pending, answers)
  {
    && (forall i :: 0 <= i < |chunks| ==> |chunks[i]| <= READ_BUFFER)
    && Flatten(chunks) == Flatten(AnswerFrames(e, answers))
    && ReceiveAll(e, s, chunks).posted == s.posted + Postings(s.pending, answers)
  }

  lemma LongAnswersLost(e: Engine, s: State, answers: seq<Answer>, chunks: seq<seq<Byte>>, i: nat)
    requires Answerable(s.pending, answers) && i < |answers| && |answers[i].reply.buffer| > ROOM
    ensures !PostedByReads(e, s, answers, chunks)
  {
    assert (s.posted + Postings(s.pending, answers))[|s.posted| + i].payload == answers[i].reply;
    if forall k :: 0 <= k < |chunks| ==> |chunks[k]| <= READ_BUFFER {
      PostedPayloadsFit(e, s, Incomings(chunks));
    }
  }

  /** So there are reads that answer all of them exactly when no reply has more than 1002 bytes. */
  lemma AnswersFitReads(e: Engine, s: State, answers: seq<Answer>)
    requires Answerable(s.pending, answers)
    ensures (exists chunks :: PostedByReads(e, s, answers, chunks))
       <==> forall i :: 0 <= i < |answers| ==> |answers[i].reply.buffer| <= ROOM
  {
    if forall i :: 0 <= i < |answers| ==> |answers[i].reply.buffer| <= ROOM {
      FramesSized(e, s.pending, answers);
      FramesAnswered(e, s, answers);
      assert PostedByReads(e, s, answers, AnswerFrames(e, answers));
    } else {
      var i :| 0 <= i < |answers| && |answers[i].reply.buffer| > ROOM;
      forall chunks
        ensures !PostedByReads(e, s, answers, chunks)
      {
        LongAnswersLost(e, s, answers, chunks, i);
      }
    }
  }

  /** Two answers or more in one read, however short, are never all posted. */
  lemma CoalescedAnswersLost(e: Engine, s: State, answers: seq<Answer>)
    requires Answerable(s.pending, answers) && |answers| >= 2
    ensures Received(e, s, Flatten(AnswerFrames(e, answers))).1.posted != s.posted + Postings(s.pending, answers)
  {
    var news := ReceivedUses(e, s, Flatten(AnswerFrames(e, answers)));
    assert |s.posted + Postings(s.pending, answers)| == |s.posted| + |answers|;
  }

  // ---------------------------------------------------------- answers on one connection

  /** Chunks received on one connection, which is closed after the first that `on_data` does not
      accept; and whether it is still open. */
  function Heard(e: Engine, s: State, chunks: seq<seq<Byte>>): (bool, State)
  {
    if chunks == [] then (true, s)
    else
      var (open, before) := Heard(e, s, chunks[..|chunks| - 1]);
      if !open then (false, before)
      else
        var (verdict, after) := Received(e, before, chunks[|chunks| - 1]);
        (verdict == Returned(true), after)
  }

  lemma HeardLast(e: Engine, s: State, chunks: seq<seq<Byte>>)
    requires chunks != [] && Heard(e, s, chunks[..|chunks| - 1]).0
    ensures var before, last := Heard(e, s, chunks[..|chunks| - 1]).1, chunks[|chunks| - 1];
            && Heard(e, s, chunks).0 == (Received(e, before, last).0 == Returned(true))
            && Heard(e, s, chunks).1 == Received(e, before, last).1
  {
  }

  lemma FrameHeard(e: Engine, s: State, before: seq<Answer>, last: Answer)
    requires Answerable(s.pending, before + [last]) && Answerable(s.pending, before)
    requires Heard(e, s, AnswerFrames(e, before)).0
    requires Heard(e, s, AnswerFrames(e, before)).1 == Answered(s, before)
    ensures Heard(e, s, AnswerFrames(e, before + [last])).0
    ensures Heard(e, s, AnswerFrames(e, before + [last])).1 == Answered(s, before + [last])
  {
    var frames := AnswerFrames(e, before + [last]);
    LastAnswer(e, s, before, last);
    assert frames[..|before|] == AnswerFrames(e, before);
    HeardLast(e, s, frames);
  }

  lemma {:induction false} FramesHeard(e: Engine, s: State, answers: seq<Answer>)
    requires Answerable(s.pending, answers)
    ensures Heard(e, s, AnswerFrames(e, answers)).0
    ensures Heard(e, s, AnswerFrames(e, answers)).1 == Answered(s, answers)
  {
    if answers == [] {
      AnsweredNothing(s);
    } else {
      var before, last := answers[..|answers| - 1], answers[|answers| - 1];
      InitIsPrefix(answers);
      FramesHeard(e, s, before);
      FrameHeard(e, s, before, last);
    }
  }

  /** Empty chunks behind the frames. */
  lemma {:induction false} FramesThenNothing(e: Engine, s: State, answers: seq<Answer>, chunks: seq<seq<Byte>>)
    requires Answerable(s.pending, answers) && AnswerFrames(e, answers) <= chunks
    requires forall i :: |answers| <= i < |chunks| ==> chunks[i] == []
    ensures Heard(e, s, chunks).1 == Answered(s, answers)
    decreases |chunks|
  {
    if |chunks| == |answers| {
      assert chunks == AnswerFrames(e, answers);
      FramesHeard(e, s, answers);
    } else {
      FramesThenNothing(e, s, answers, chunks[..|chunks| - 1]);
    }
  }

  /** What was heard is what the locator received up to some chunk, all chunks before that one
      having been accepted and so not being empty. */
  lemma {:induction false} HeardIsPrefix(e: Engine, s: State, chunks: seq<seq<Byte>>) returns (k: nat)
    ensures k <= |chunks| && Heard(e, s, chunks).1 == ReceiveAll(e, s, chunks[..k])
    ensures Heard(e, s, chunks).0 ==> k == |chunks| && forall i :: 0 <= i < k ==> chunks[i] != []
    ensures forall i :: 0 <= i < k - 1 ==> chunks[i] != []
  {
    if chunks == [] {
      k := 0;
    } else {
      var before := chunks[..|chunks| - 1];
      k := HeardIsPrefix(e, s, before);
      assert before[..k] == chunks[..k];
      if Heard(e, s, before).0 {
        assert before[..k] == before && chunks[..|chunks|] == chunks;
        ReceiveLast(e, s, chunks);
        k := |chunks|;
      }
    }
  }

  lemma {:induction false} AllNonEmpty(chunks: seq<seq<Byte>>)
    requires forall i :: 0 <= i < |chunks| ==> chunks[i] != []
    ensures NonEmpty(chunks) == chunks
  {
    if chunks != [] {
      AllNonEmpty(chunks[..|chunks| - 1]);
      assert chunks == chunks[..|chunks| - 1] + [chunks[|chunks| - 1]];
    }
  }

  lemma InitIsPrefix<T>(s: seq<T>)
    requires s != []
    ensures s[..|s| - 1] + [s[|s| - 1]] == s && s[..|s| - 1] <= s
  {
  }

  lemma NonEmptyIsPrefix(chunks: seq<seq<Byte>>)
    requires forall i :: 0 <= i < |chunks| - 1 ==> chunks[i] != []
    ensures NonEmpty(chunks) <= chunks
  {
    if chunks != [] {
      InitIsPrefix(chunks);
      AllNonEmpty(chunks[..|chunks| - 1]);
      NonEmptyOfLast(chunks);
    }
  }

  lemma NonEmptyOfLast(chunks: seq<seq<Byte>>)
    requires chunks != []
    ensures var before, last := chunks[..|chunks| - 1], chunks[|chunks| - 1];
            NonEmpty(chunks) == if last == [] then NonEmpty(before) else NonEmpty(before) + [last]
  {
    AppendNothing(NonEmpty(chunks[..|chunks| - 1]));
  }

  lemma FlattenSplit(chunks: seq<seq<Byte>>, k: nat)
    requires k <= |chunks|
    ensures Flatten(chunks) == Flatten(chunks[..k]) + Flatten(chunks[k..])
  {
    FlattenConcat(chunks[..k], chunks[k..]);
    assert chunks[..k] + chunks[k..] == chunks;
  }

  lemma {:induction false} NothingLeft(chunks: seq<seq<Byte>>, i: nat)
    requires Flatten(chunks) == [] && i < |chunks|
    ensures chunks[i] == []
    decreases i
  {
    if i > 0 {
      NothingLeft(chunks[1..], i - 1);
    }
  }

  lemma HeardOnlyFrames(e: Engine, s: State, answers: seq<Answer>, chunks: seq<seq<Byte>>)
    requires Answerable(s.pending, answers) && Flatten(chunks) == Flatten(AnswerFrames(e, answers))
    requires Heard(e, s, chunks).1.posted == s.posted + Postings(s.pending, answers)
    ensures AnswerFrames(e, answers) <= chunks
  {
    var k := HeardIsPrefix(e, s, chunks);
    FlattenSplit(chunks, k);
    OnlyFramesPost(e, s, answers, chunks[..k]);
    assert Flatten(chunks[..k]) == Flatten(chunks)[..|Flatten(chunks[..k])|] == Flatten(chunks);
    NonEmptyIsPrefix(chunks[..k]);
  }

  /** The same on one connection, which a chunk that is refused or throws closes: all are posted
      exactly when the chunks are the frames, with at most empty ones behind them. */
  lemma AnswersOnOneConnection(e: Engine, s: State, answers: seq<Answer>, chunks: seq<seq<Byte>>)
    requires Answerable(s.pending, answers) && Flatten(chunks) == Flatten(AnswerFrames(e, answers))
    ensures Heard(e, s, chunks).1.posted == s.posted + Postings(s.pending, answers)
       <==> AnswerFrames(e, answers) <= chunks
    ensures AnswerFrames(e, answers) <= chunks ==> Heard(e, s, chunks).1 == Answered(s, answers)
  {
    var frames := AnswerFrames(e, answers);
    if frames <= chunks {
      FlattenSplit(chunks, |frames|);
      assert chunks[..|frames|] == frames && |Flatten(chunks[|frames|..])| == 0;
      forall i | |frames| <= i < |chunks|
        ensures chunks[i] == []
      {
        NothingLeft(chunks[|frames|..], i - |frames|);
      }
      FramesThenNothing(e, s, answers, chunks);
    } else if Heard(e, s, chunks).1.posted == s.posted + Postings(s.pending, answers) {
      HeardOnlyFrames(e, s, answers, chunks);
    }
  }

  /** Updates travel under sender 0, the number of the first request: an answer to an update
      posts that request's callback exactly when it is still pending. */
  lemma AnswerToUpdate(e: Engine, s: State, update: StreamValue, reply: StreamValue)
    requires Fresh(update) && Fresh(reply)
    ensures Feed(e, [], Frame(Signed(e, 0, UPDATE, update))).0 == Delivered(0, update.buffer)
    ensures Received(e, s, AnswerFrame(e, 0, reply)).1 != s <==> 0 in s.pending
    ensures 0 in s.pending ==>
              Received(e, s, AnswerFrame(e, 0, reply)).1.posted == s.posted + [Posting(0, s.pending[0], reply)]
  {
    SignedFrameDelivered(e, 0, UPDATE, update);
    AnswerReceived(e, s, 0, reply);
    if 0 in s.pending {
      assert |s.posted + [Posting(0, s.pending[0], reply)]| != |s.posted|;
    }
  }

  /** A stream sent after part of it was read: the frame carries the whole buffer, so the other
      side is handed the unread rest exactly when nothing had been read. */
  lemma UnreadRestDelivered(e: Engine, sender: nat, command: nat, payload: StreamValue)
    requires payload.readPosition <= |payload.buffer| < 0x1_0000_0000_0000_0000 - HEADER
    requires sender < IDS && command < 0x1_0000
    ensures Feed(e, [], Frame(Signed(e, sender, command, payload))).0
         == Delivered(sender, payload.buffer[payload.readPosition..])
       <==> payload.readPosition == 0
  {
    WholeFrame(e, Signed(e, sender, command, payload));
    if payload.readPosition == 0 {
      SignedFrameDelivered(e, sender, command, payload);
      assert payload.buffer[0..] == payload.buffer;
    } else {
      assert |payload.buffer[payload.readPosition..]| < |payload.buffer|;
    }
  }

  /** The locator sends a request and the server takes the first read of it. */
  method Ask(locator: ServiceLocator, server: ServiceConnection, r: Registration, request: StreamValue)
    returns (outcome: Outcome)
    requires server.Valid() && server.inputStream.Queue() == []
    requires locator.crc != server.crc && locator.crc.engine == server.crc.engine
    requires Fresh(request) && locator.counter < IDS
    requires r.service in locator.services && locator.services[r.service]
    modifies locator, locator.crc, server.inputStream, server.crc
    ensures server.Valid() && locator.Contents() == Registered(locator.crc.engine, old(locator.Contents()), r, request)
    ensures |request.buffer| <= ROOM ==>
              outcome == Delivered(old(locator.counter), request.buffer) && server.inputStream.Queue() == []
  {
    SignedFrameDelivered(locator.crc.engine, locator.counter, REQUEST, request);
    FrameParts(Signed(locator.crc.engine, locator.counter, REQUEST, request));
    locator.SendRegistered(r.service, request, r.ioService, r.callback);
    outcome := server.OnData(Reads(locator.sent[|locator.sent| - 1].1)[0]);
  }

  /** The server answers and the locator takes the first read of the answer. */
  method Reply(locator: ServiceLocator, server: ServiceConnection, id: nat, reply: StreamValue)
    requires locator.crc != server.crc && locator.crc.engine == server.crc.engine
    requires Fresh(reply)
    modifies locator, locator.crc, server, server.crc
    ensures locator.Contents() ==
            Received(locator.crc.engine, old(locator.Contents()),
                     Reads(AnswerFrame(locator.crc.engine, id, reply))[0]).1
  {
    server.SendAnswer(id, reply);
    var verdict := locator.OnData(Reads(server.sent[|server.sent| - 1])[0]);
  }

  /** One exchange on the two objects: request sent, delivered, answered, posted. Request and
      reply each travel in a single read. */
  method Exchange(locator: ServiceLocator, server: ServiceConnection, r: Registration, request: StreamValue,
                  reply: StreamValue)
    requires server.Valid() && server.inputStream.Queue() == []
    requires locator.crc != server.crc && locator.crc.engine == server.crc.engine
    requires Fresh(request) && Fresh(reply)
    requires locator.counter < IDS && locator.counter !in locator.callbacks
    requires r.service in locator.services && locator.services[r.service]
    modifies locator, locator.crc, server, server.inputStream, server.crc
    ensures server.Valid()
    ensures |request.buffer| <= ROOM && |reply.buffer| <= ROOM ==>
              && server.inputStream.Queue() == []
              && locator.posted == old(locator.posted) + [Posting(old(locator.counter), r, reply)]
              && locator.callbacks == old(locator.callbacks)
              && locator.counter == (old(locator.counter) + 1) % IDS
  {
    ghost var e, s := locator.crc.engine, locator.Contents();
    AnswerRead(e, Registered(e, s, r, request), s.counter, reply);
    EnteredAndRemoved(e, s, r, request, reply);
    var outcome := Ask(locator, server, r, request);
    if outcome.Delivered? {
      Reply(locator, server, outcome.sender, reply);
    }
  }
}
