/** The RPC frame of src/include/keycap/root/network/registered_message.hpp. */
module RegisteredMessage {
  import opened Bytes
  import opened MemoryStream
  import opened Crc32

  const UPDATE := 0
  const REQUEST := 1

  /** Bytes in front of the payload, and those of them the length field counts. */
  const HEADER := 22
  const COUNTED := 14

  datatype Message = Message(crc: nat, sender: nat, command: nat, payload: StreamValue)

  function Unread(s: StreamValue): nat
    requires s.readPosition <= |s.buffer|
  {
    |s.buffer| - s.readPosition
  }

  /** The fields fit their C++ types and the payload its `size_t`. */
  predicate Representable(m: Message)
  {
    && m.crc < 0x1_0000_0000
    && m.sender < 0x1_0000_0000_0000_0000
    && m.command < 0x1_0000
    && m.payload.readPosition <= |m.payload.buffer| < 0x1_0000_0000_0000_0000 - HEADER
  }

  function Frame(m: Message): seq<Byte>
    requires m.payload.readPosition <= |m.payload.buffer|
  {
    LeBytes(COUNTED + Unread(m.payload), 8) + LeBytes(m.crc, 4) + LeBytes(m.sender, 8) + LeBytes(m.command, 2)
    + m.payload.buffer
  }

  function Parsed(bytes: seq<Byte>): Message
    requires |bytes| >= HEADER
  {
    Message(LeValue(bytes[8..12]), LeValue(bytes[12..20]), LeValue(bytes[20..22]), StreamValue(bytes[22..], 0))
  }

  function LengthField(bytes: seq<Byte>): nat
    requires |bytes| >= 8
  {
    LeValue(bytes[..8])
  }

  function MessageCrc(e: Engine, sender: nat, command: nat, payload: StreamValue): nat
    requires payload.readPosition <= |payload.buffer|
  {
    Checksum(e, LeBytes(sender, 8) + LeBytes(command, 2) + HashedBytes(payload))
  }

  /** A message as the senders build it, with its checksum. */
  function Signed(e: Engine, sender: nat, command: nat, payload: StreamValue): Message
    requires payload.readPosition <= |payload.buffer|
  {
    Message(MessageCrc(e, sender, command, payload), sender, command, payload)
  }

  /** The arguments of the checksum of a message, in order. */
  function CrcPieces(sender: nat, command: nat, payload: StreamValue): (pieces: seq<seq<Byte>>)
    requires payload.readPosition <= |payload.buffer|
    ensures Flatten(pieces) == LeBytes(sender, 8) + LeBytes(command, 2) + HashedBytes(payload)
  {
    var pieces := [LeBytes(sender, 8), LeBytes(command, 2), HashedBytes(payload)];
    FlattenThree(pieces);
    pieces
  }

  lemma FlattenThree(pieces: seq<seq<Byte>>)
    requires |pieces| == 3
    ensures Flatten(pieces) == pieces[0] + pieces[1] + pieces[2]
  {
    assert pieces[1..][1..] == pieces[2..] && pieces[2..][1..] == [];
    assert Flatten(pieces[2..]) == pieces[2] + [];
    assert Flatten(pieces[1..]) == pieces[1] + pieces[2];
  }

  method Encode(m: Message) returns (encoder: MemoryStream)
    requires m.payload.readPosition <= |m.payload.buffer|
    ensures fresh(encoder) && encoder.Valid()
    ensures encoder.readPosition == 0 && encoder.buffer == Frame(m)
  {
    encoder := new MemoryStream();
    encoder.PutInteger(8, COUNTED + Unread(m.payload));
    assert encoder.buffer == LeBytes(COUNTED + Unread(m.payload), 8);
    encoder.PutInteger(4, m.crc);
    encoder.PutInteger(8, m.sender);
    encoder.PutInteger(2, m.command);
    encoder.PutStream(m.payload);
  }

  /** Whether reading the fields off so many bytes ends at a field, or after all of them: the
      stream then throws at the end of the bytes instead of reading past it. */
  predicate EndsAtField(size: nat)
  {
    size >= HEADER || size == 0 || size == 8 || size == 12 || size == 20
  }

  /** None is the exception of a stream that ends in front of a field; it is then used up. */
  method Decode(decoder: MemoryStream) returns (m: Option<Message>)
    requires decoder.Valid() && EndsAtField(|decoder.Queue()|)
    modifies decoder
    ensures m == if |old(decoder.Queue())| >= HEADER then Some(Parsed(old(decoder.Queue()))) else None
    ensures decoder.Valid() && decoder.Queue() == []
    ensures m.Some? ==> decoder.buffer == [] && decoder.readPosition == 0
  {
    ghost var q := decoder.Queue();
    var length := decoder.Get(8);
    if length == PastEnd {
      return None;
    }
    assert decoder.Queue() == q[8..];
    var crc := decoder.Get(4);
    if crc == PastEnd {
      return None;
    }
    assert decoder.Queue() == q[12..] && q[8..][..4] == q[8..12];
    var sender := decoder.Get(8);
    if sender == PastEnd {
      return None;
    }
    assert decoder.Queue() == q[20..] && q[12..][..8] == q[12..20];
    var command := decoder.Get(2);
    if command == PastEnd {
      return None;
    }
    assert decoder.Queue() == q[22..] && q[20..][..2] == q[20..22];
    var payload := decoder.GetRemaining();
    decoder.Shrink();
    m := Some(Message(crc.n, sender.n, command.n, payload));
  }

  /** The answer of `can_decode`. Empty stands for the exception it throws then; Partial for the
      read of a length field of which only some bytes are there, which the code does not notice. */
  datatype Readiness = Ready | NotReady | Empty | Partial

  method CanDecode(decoder: MemoryStream) returns (r: Readiness)
    requires decoder.Valid()
    ensures var q := decoder.Queue();
            && (r == Empty <==> q == [])
            && (r == Partial <==> 0 < |q| < 8)
            && (r == Ready <==> |q| >= 8 && LengthField(q) <= |q|)
  {
    var size := decoder.Size();
    if 0 < size < 8 {
      return Partial;
    }
    var length := decoder.Peek(8, 0);
    if length == PastEnd {
      return Empty;
    }
    r := if length.n <= size then Ready else NotReady;
  }

  lemma FrameParts(m: Message)
    requires m.payload.readPosition <= |m.payload.buffer|
    ensures var f := Frame(m);
            && |f| == HEADER + |m.payload.buffer|
            && f[..8] == LeBytes(COUNTED + Unread(m.payload), 8)
            && f[8..12] == LeBytes(m.crc, 4)
            && f[12..20] == LeBytes(m.sender, 8)
            && f[20..22] == LeBytes(m.command, 2)
            && f[22..] == m.payload.buffer
  {
  }

  /** The checksum senders put into a message, in bytes: over the sender, the command and as much of
      the payload's buffer, from its start, as is unread. */
  lemma CrcInBytes(e: Engine, sender: nat, command: nat, payload: StreamValue)
    requires payload.readPosition <= |payload.buffer|
    ensures Signed(e, sender, command, payload).crc ==
            Checksum(e, LeBytes(sender, 8) + LeBytes(command, 2)
                        + payload.buffer[..|payload.buffer| - payload.readPosition])
    ensures payload.readPosition == 0 ==>
              Signed(e, sender, command, payload).crc ==
              Checksum(e, LeBytes(sender, 8) + LeBytes(command, 2) + payload.buffer)
  {
    assert payload.buffer[..|payload.buffer|] == payload.buffer;
  }

  /** The length field of a frame of a fresh payload is the length of the frame less eight; requests
      are marked 1 and updates 0. */
  lemma FrameInBytes(e: Engine, sender: nat, payload: StreamValue)
    requires payload.readPosition == 0 && |payload.buffer| < 0x1_0000_0000_0000_0000 - HEADER
    ensures var f, g := Frame(Signed(e, sender, REQUEST, payload)), Frame(Signed(e, sender, UPDATE, payload));
            && |f| == |g| == 22 + |payload.buffer|
            && LeValue(f[..8]) == LeValue(g[..8]) == |f| - 8
            && f[20..22] == [1, 0] && g[20..22] == [0, 0]
  {
    FrameParts(Signed(e, sender, REQUEST, payload));
    FrameParts(Signed(e, sender, UPDATE, payload));
    WordBounds();
    LeBytesValue(COUNTED + |payload.buffer|, 8);
    SmallWord(REQUEST);
    SmallWord(UPDATE);
  }

  lemma SmallWord(n: Byte)
    ensures LeBytes(n, 2) == [n, 0]
  {
    assert LeBytes(0, 1) == [0] + LeBytes(0, 0);
    assert LeBytes(n, 2) == [n % 256] + LeBytes(n / 256, 1);
  }

  /** Decoding a frame gives every field back, and as payload the whole buffer of the sent
      stream: the sent payload itself exactly when none of it had been read. */
  lemma DecodeUndoesEncode(m: Message)
    requires Representable(m)
    ensures |Frame(m)| == HEADER + |m.payload.buffer|
    ensures Parsed(Frame(m)) == m.(payload := StreamValue(m.payload.buffer, 0))
    ensures Parsed(Frame(m)) == m <==> m.payload.readPosition == 0
  {
    FrameParts(m);
    WordBounds();
    LeBytesValue(m.crc, 4);
    LeBytesValue(m.sender, 8);
    LeBytesValue(m.command, 2);
  }

  /** A prefix that holds the length field passes the test from byte 14 + n on, n being the
      unread payload: eight bytes before the frame of a fresh payload is complete. */
  lemma CanDecodePrefix(m: Message, k: nat)
    requires Representable(m) && 8 <= k <= |Frame(m)|
    ensures LengthField(Frame(m)[..k]) <= k <==> k >= COUNTED + Unread(m.payload)
  {
    FrameParts(m);
    WordBounds();
    LeBytesValue(COUNTED + Unread(m.payload), 8);
    assert Frame(m)[..k][..8] == Frame(m)[..8];
  }
}
