/** The FIFO byte stream of src/include/keycap/root/network/memory_stream.hpp, and the plain
    byte queue it refines. */
module MemoryStream {
  import opened Numbers
  import opened Bytes

  /** The two fields of a stream as a value: what copying a stream copies. */
  datatype StreamValue = StreamValue(buffer: seq<Byte>, readPosition: nat)

  datatype Op =
    | Put(bytes: seq<Byte>)
    | PutIntegers(width: nat, ns: seq<nat>)
    | Get(width: nat)
    | GetArray(width: nat, count: nat)
    | GetString(size: nat)
    | GetTerminated
    | GetRemaining
    | Peek(width: nat, where: nat)
    | ToVector
    | WriteTo(limit: Option<nat>)
    | Size
    | Shrink
    | Clear

  /** What an operation answers; PastEnd is the "past buffer end" exception. */
  datatype Reply = Done | Number(n: nat) | Numbers(ns: seq<nat>) | Data(bytes: seq<Byte>) | PastEnd

  // --------------------------------------------------------------- the plain queue

  /** The memory images of integers of one width, in order. */
  function Images(width: nat, ns: seq<nat>): seq<Byte>
  {
    if ns == [] then [] else LeBytes(ns[0], width) + Images(width, ns[1..])
  }

  lemma {:induction false} ImagesSnoc(width: nat, ns: seq<nat>, n: nat)
    ensures Images(width, ns + [n]) == Images(width, ns) + LeBytes(n, width)
  {
    if ns == [] {
      assert [] + [n] == [n] && [n][1..] == [];
    } else {
      ImagesSnoc(width, ns[1..], n);
      assert (ns + [n])[0] == ns[0] && (ns + [n])[1..] == ns[1..] + [n];
      Associate(LeBytes(ns[0], width), Images(width, ns[1..]), LeBytes(n, width));
    }
  }

  function Prepend(n: nat, r: Reply): Reply
  {
    if r.Numbers? then Numbers([n] + r.ns) else r
  }

  function QueueGetArray(q: seq<Byte>, width: nat, count: nat): (Reply, seq<Byte>)
    requires ArrayAllowed(q, width, count)
  {
    if count == 0 then (Numbers([]), q)
    else if q == [] then (PastEnd, q)
    else
      var (r, rest) := QueueGetArray(q[width..], width, count - 1);
      (Prepend(LeValue(q[..width]), r), rest)
  }

  /** Never asks for part of an element: each element read finds the queue empty or long enough. */
  predicate ArrayAllowed(q: seq<Byte>, width: nat, count: nat)
    decreases count
  {
    count == 0 || q == [] || (0 < width <= |q| && ArrayAllowed(q[width..], width, count - 1))
  }

  lemma DropOfConcat(a: seq<Byte>, b: seq<Byte>, n: nat)
    requires n <= |a|
    ensures (a + b)[n..] == a[n..] + b
  {
  }

  lemma ArrayStep(q: seq<Byte>, width: nat, count: nat)
    requires ArrayAllowed(q, width, count) && count > 0 && q != []
    ensures ArrayAllowed(q[width..], width, count - 1)
    ensures var (r, rest) := QueueGetArray(q[width..], width, count - 1);
            QueueGetArray(q, width, count) == (Prepend(LeValue(q[..width]), r), rest)
  {
  }

  /** A reply with the elements read before it. */
  function Extend(ns: seq<nat>, r: Reply): Reply
  {
    if r.Numbers? then Numbers(ns + r.ns) else r
  }

  lemma ExtendOne(ns: seq<nat>, n: nat, r: Reply)
    ensures Extend(ns, Prepend(n, r)) == Extend(ns + [n], r)
  {
    if r.Numbers? {
      Associate(ns, [n], r.ns);
    }
  }

  /** The index of the first zero byte, or the length. */
  function ZeroIndex(q: seq<Byte>): (i: nat)
    ensures i <= |q|
  {
    if q == [] || q[0] == 0 then 0 else 1 + ZeroIndex(q[1..])
  }

  /** The reads for which the stream's one-byte "has remaining" test is enough. */
  predicate Allowed(q: seq<Byte>, op: Op)
  {
    match op
    case Get(width) => q == [] || 0 < width <= |q|
    case GetArray(width, count) => ArrayAllowed(q, width, count)
    case GetString(size) => q == [] || size <= |q|
    case Peek(width, where) => q == [] || where + width <= |q|
    case WriteTo(Some(n)) => q == [] || n <= |q|
    case _ => true
  }

  function QueueStep(q: seq<Byte>, op: Op): (Reply, seq<Byte>)
    requires Allowed(q, op)
  {
    match op
    case Put(bytes) => (Done, q + bytes)
    case PutIntegers(width, ns) => (Done, q + Images(width, ns))
    case Get(width) => if q == [] then (PastEnd, q) else (Number(LeValue(q[..width])), q[width..])
    case GetArray(width, count) => QueueGetArray(q, width, count)
    case GetString(size) =>
      if size == 0 then (Data([]), q)
      else if q == [] then (PastEnd, q)
      else (Data(q[..size]), q[size..])
    case GetTerminated =>
      var z := ZeroIndex(q);
      (Data(q[..z]), if z < |q| then q[z + 1..] else [])
    case GetRemaining => (Data(q), [])
    case Peek(width, where) => if q == [] then (PastEnd, q) else (Number(LeValue(q[where..where + width])), q)
    case ToVector => (Data(q), [])
    case WriteTo(None) => (Data(q), [])
    case WriteTo(Some(n)) => if q == [] then (PastEnd, q) else (Data(q[..n]), q[n..])
    case Size => (Number(|q|), q)
    case Shrink => (Done, q)
    case Clear => (Done, [])
  }

  /** Reading takes bytes off the front and loses none: what was read, as bytes, in front of the rest
      gives the queue back. */
  lemma GetSplits(q: seq<Byte>, width: nat)
    requires Allowed(q, Op.Get(width)) && q != []
    ensures var (r, rest) := QueueStep(q, Op.Get(width));
            r.Number? && LeBytes(r.n, width) + rest == q
  {
    LeValueBytes(q[..width]);
    assert q[..width] + q[width..] == q;
  }

  lemma DataSplits(q: seq<Byte>, n: nat)
    requires n <= |q| && q != []
    ensures var (r, rest) := QueueStep(q, GetString(n));
            r.Data? && |r.bytes| == n && r.bytes + rest == q
    ensures QueueStep(q, WriteTo(Some(n))) == QueueStep(q, GetString(n))
  {
    assert q[..n] + q[n..] == q && q[..0] == [] && q[0..] == q;
  }

  lemma {:induction false} NoZeroBefore(q: seq<Byte>)
    ensures 0 !in q[..ZeroIndex(q)] && (ZeroIndex(q) < |q| ==> q[ZeroIndex(q)] == 0)
  {
    if q != [] && q[0] != 0 {
      NoZeroBefore(q[1..]);
      assert q[..ZeroIndex(q)] == [q[0]] + q[1..][..ZeroIndex(q) - 1];
    }
  }

  /** A terminated string ends in front of the first zero, which goes with it, or takes everything. */
  lemma TerminatedSplits(q: seq<Byte>)
    ensures var (r, rest) := QueueStep(q, GetTerminated);
            && r.Data? && 0 !in r.bytes
            && (r.bytes + [0] + rest == q || (r.bytes == q && rest == []))
  {
    NoZeroBefore(q);
    var z := ZeroIndex(q);
    if z < |q| {
      assert q[..z] + [0] + q[z + 1..] == q;
    } else {
      assert q[..z] == q;
    }
  }

  /** Peeking at an offset is reading after that many bytes, without taking anything. */
  lemma PeekIsLaterGet(q: seq<Byte>, width: nat, where: nat)
    requires width > 0 && where + width <= |q|
    ensures QueueStep(q, Op.Peek(width, where)).1 == q
    ensures QueueStep(q, Op.Peek(width, where)).0 == QueueStep(QueueStep(q, GetString(where)).1, Op.Get(width)).0
  {
    assert q[where..][..width] == q[where..where + width] && q[0..] == q;
  }

  predicate RunAllowed(q: seq<Byte>, ops: seq<Op>)
    decreases |ops|
  {
    ops == [] || (Allowed(q, ops[0]) && RunAllowed(QueueStep(q, ops[0]).1, ops[1..]))
  }

  function QueueRun(q: seq<Byte>, ops: seq<Op>): (seq<Reply>, seq<Byte>)
    requires RunAllowed(q, ops)
    decreases |ops|
  {
    if ops == [] then ([], q)
    else
      var (r, q') := QueueStep(q, ops[0]);
      var (rs, q'') := QueueRun(q', ops[1..]);
      ([r] + rs, q'')
  }

  /** The size counts what has been put and not read; clearing leaves nothing to be read. */
  lemma SizeCounts(q: seq<Byte>, bytes: seq<Byte>, n: nat)
    requires n <= |q|
    ensures QueueStep(QueueStep(q, Op.Put(bytes)).1, Size) == (Number(|q| + |bytes|), q + bytes)
    ensures q != [] ==> QueueStep(QueueStep(q, GetString(n)).1, Size).0 == Number(|q| - n)
    ensures QueueStep(QueueStep(q, Clear).1, Size).0 == Number(0)
    ensures QueueStep(QueueStep(QueueStep(q, Clear).1, Op.Put(bytes)).1, GetRemaining) == (Data(bytes), [])
  {
    assert [] + bytes == bytes;
  }

  lemma ZeroStep(q: seq<Byte>, n: nat)
    requires n < |q| && ZeroIndex(q) == n + ZeroIndex(q[n..])
    ensures q[n] == 0 ==> ZeroIndex(q) == n
    ensures q[n] != 0 ==> ZeroIndex(q) == n + 1 + ZeroIndex(q[n + 1..])
  {
    assert q[n..][1..] == q[n + 1..];
  }

  lemma SingleByte(q: seq<Byte>)
    requires q != []
    ensures LeValue(q[..1]) == q[0]
  {
    assert q[..1][1..] == [];
  }

  // -------------------------------------------------------------------- the stream

  class MemoryStream {
    var buffer: seq<Byte>
    var readPosition: nat

    ghost predicate Valid()
      reads this
    {
      readPosition <= |buffer|
    }

    /** The abstract queue: the bytes not read yet. */
    ghost function Queue(): seq<Byte>
      requires Valid()
      reads this
    {
      buffer[readPosition..]
    }

    constructor ()
      ensures Valid() && buffer == [] && readPosition == 0
    {
      buffer, readPosition := [], 0;
    }

    constructor FromBytes(bytes: seq<Byte>)
      ensures Valid() && buffer == bytes && readPosition == 0
    {
      buffer, readPosition := bytes, 0;
    }

    predicate HasRemaining(bytes: nat)
      reads this
    {
      readPosition < |buffer|
    }

    method Put(bytes: seq<Byte>)
      requires Valid()
      modifies this
      ensures Valid() && buffer == old(buffer) + bytes && readPosition == old(readPosition)
      ensures Queue() == old(Queue()) + bytes
    {
      buffer := buffer + bytes;
    }

    method PutInteger(width: nat, n: nat)
      requires Valid()
      modifies this
      ensures Valid() && buffer == old(buffer) + LeBytes(n, width) && readPosition == old(readPosition)
    {
      Put(LeBytes(n, width));
    }

    /** A vector is put element by element. */
    method PutIntegers(width: nat, ns: seq<nat>)
      requires Valid()
      modifies this
      ensures Valid() && readPosition == old(readPosition)
      ensures Queue() == old(Queue()) + Images(width, ns)
    {
      for i := 0 to |ns|
        invariant Valid() && readPosition == old(readPosition)
        invariant Queue() == old(Queue()) + Images(width, ns[..i])
      {
        ImagesSnoc(width, ns[..i], ns[i]);
        assert ns[..i + 1] == ns[..i] + [ns[i]];
        ghost var b := buffer;
        PutInteger(width, ns[i]);
        DropOfConcat(b, LeBytes(ns[i], width), readPosition);
        Associate(old(Queue()), Images(width, ns[..i]), LeBytes(ns[i], width));
      }
      assert ns[..|ns|] == ns;
    }

    /** Another stream is appended with its whole buffer, read part included. */
    method PutStream(s: StreamValue)
      requires Valid()
      modifies this
      ensures Valid() && buffer == old(buffer) + s.buffer && readPosition == old(readPosition)
    {
      buffer := buffer + s.buffer;
    }

    method Get(width: nat) returns (r: Reply)
      requires Valid() && Allowed(Queue(), Op.Get(width))
      modifies this
      ensures Valid() && buffer == old(buffer)
      ensures r == QueueStep(old(Queue()), Op.Get(width)).0 && Queue() == QueueStep(old(Queue()), Op.Get(width)).1
    {
      if !HasRemaining(width) {
        return PastEnd;
      }
      r := Number(LeValue(buffer[readPosition..readPosition + width]));
      readPosition := readPosition + width;
      assert old(Queue())[..width] == buffer[old(readPosition)..readPosition];
    }

    method GetArray(width: nat, count: nat) returns (r: Reply)
      requires Valid() && ArrayAllowed(Queue(), width, count)
      modifies this
      ensures Valid() && buffer == old(buffer)
      ensures r == QueueGetArray(old(Queue()), width, count).0 && Queue() == QueueGetArray(old(Queue()), width, count).1
    {
      var ns := [];
      var i := 0;
      while i < count
        invariant 0 <= i <= count && Valid() && buffer == old(buffer)
        invariant ArrayAllowed(Queue(), width, count - i)
        invariant Extend(ns, QueueGetArray(Queue(), width, count - i).0) == QueueGetArray(old(Queue()), width, count).0
        invariant QueueGetArray(Queue(), width, count - i).1 == QueueGetArray(old(Queue()), width, count).1
      {
        ghost var q := Queue();
        var one := Get(width);
        if one == PastEnd {
          return PastEnd;
        }
        ArrayStep(q, width, count - i);
        ExtendOne(ns, one.n, QueueGetArray(Queue(), width, count - i - 1).0);
        ns := ns + [one.n];
        i := i + 1;
      }
      AppendNothing(ns);
      r := Numbers(ns);
    }

    method GetString(size: nat) returns (r: Reply)
      requires Valid() && Allowed(Queue(), Op.GetString(size))
      modifies this
      ensures Valid() && buffer == old(buffer)
      ensures r == QueueStep(old(Queue()), Op.GetString(size)).0
      ensures Queue() == QueueStep(old(Queue()), Op.GetString(size)).1
    {
      if size == 0 {
        return Data([]);
      }
      if !HasRemaining(size) {
        return PastEnd;
      }
      r := Data(buffer[readPosition..readPosition + size]);
      readPosition := readPosition + size;
    }

    method GetTerminated() returns (r: Reply)
      requires Valid()
      modifies this
      ensures Valid() && buffer == old(buffer)
      ensures r == QueueStep(old(Queue()), Op.GetTerminated).0 && Queue() == QueueStep(old(Queue()), Op.GetTerminated).1
    {
      var str := [];
      ghost var q0 := Queue();
      while readPosition < |buffer|
        invariant Valid() && buffer == old(buffer)
        invariant |str| <= |q0| && Queue() == q0[|str|..] && str == q0[..|str|]
        invariant ZeroIndex(q0) == |str| + ZeroIndex(q0[|str|..])
        decreases |buffer| - readPosition
      {
        SingleByte(Queue());
        ZeroStep(q0, |str|);
        var c := Get(1);
        if c.n == 0 {
          break;
        }
        str := str + [c.n];
      }
      r := Data(str);
    }

    method GetRemaining() returns (rest: StreamValue)
      requires Valid()
      modifies this
      ensures Valid() && buffer == old(buffer) && Queue() == []
      ensures rest == StreamValue(old(Queue()), 0)
    {
      var oldPosition := readPosition;
      readPosition := |buffer|;
      rest := StreamValue(buffer[oldPosition..], 0);
    }

    method Peek(width: nat, where: nat) returns (r: Reply)
      requires Valid() && Allowed(Queue(), Op.Peek(width, where))
      ensures r == QueueStep(Queue(), Op.Peek(width, where)).0 && Queue() == QueueStep(Queue(), Op.Peek(width, where)).1
    {
      if !HasRemaining(width + where) {
        return PastEnd;
      }
      var at := where + readPosition;
      r := Number(LeValue(buffer[at..at + width]));
      assert Queue()[where..where + width] == buffer[at..at + width];
    }

    method Size() returns (n: nat)
      requires Valid()
      ensures n == |Queue()|
    {
      n := |buffer| - readPosition;
    }

    /** Drops the bytes already read; the queue is the same before and after. */
    method Shrink()
      requires Valid()
      modifies this
      ensures Valid() && readPosition == 0 && buffer == old(Queue()) && Queue() == old(Queue())
    {
      if readPosition == 0 {
        return;
      }
      buffer := buffer[readPosition..];
      readPosition := 0;
    }

    method Clear()
      requires Valid()
      modifies this
      ensures Valid() && buffer == [] && readPosition == 0
    {
      buffer, readPosition := [], 0;
    }

    method ToVector() returns (bytes: seq<Byte>)
      requires Valid()
      modifies this
      ensures Valid() && buffer == old(buffer) && Queue() == [] && bytes == old(Queue())
    {
      var position := readPosition;
      readPosition := |buffer|;
      bytes := buffer[|buffer| - (|buffer| - position)..];
    }

    method WriteTo(limit: Option<nat>) returns (r: Reply)
      requires Valid() && Allowed(Queue(), Op.WriteTo(limit))
      modifies this
      ensures Valid() && buffer == old(buffer)
      ensures r == QueueStep(old(Queue()), Op.WriteTo(limit)).0
      ensures Queue() == QueueStep(old(Queue()), Op.WriteTo(limit)).1
    {
      var end := |buffer|;
      if limit.Some? {
        if !HasRemaining(limit.value) {
          return PastEnd;
        }
        end := readPosition + limit.value;
      }
      r := Data(buffer[readPosition..end]);
      readPosition := end;
    }

    method Execute(op: Op) returns (r: Reply)
      requires Valid() && Allowed(Queue(), op)
      modifies this
      ensures Valid() && r == QueueStep(old(Queue()), op).0 && Queue() == QueueStep(old(Queue()), op).1
    {
      match op {
        case Put(bytes) => Put(bytes); r := Done;
        case PutIntegers(width, ns) => PutIntegers(width, ns); r := Done;
        case Get(width) => r := Get(width);
        case GetArray(width, count) => r := GetArray(width, count);
        case GetString(size) => r := GetString(size);
        case GetTerminated => r := GetTerminated();
        case GetRemaining => var rest := GetRemaining(); r := Data(rest.buffer);
        case Peek(width, where) => r := Peek(width, where);
        case ToVector => var bytes := ToVector(); r := Data(bytes);
        case WriteTo(limit) => r := WriteTo(limit);
        case Size => var n := Size(); r := Number(n);
        case Shrink => Shrink(); r := Done;
        case Clear => Clear(); r := Done;
      }
    }

    /** Every run of operations answers as the plain queue does. */
    method Run(ops: seq<Op>) returns (replies: seq<Reply>)
      requires Valid() && RunAllowed(Queue(), ops)
      modifies this
      ensures Valid() && replies == QueueRun(old(Queue()), ops).0 && Queue() == QueueRun(old(Queue()), ops).1
    {
      replies := [];
      assert ops[0..] == ops;
      for i := 0 to |ops|
        invariant Valid() && RunAllowed(Queue(), ops[i..])
        invariant replies + QueueRun(Queue(), ops[i..]).0 == QueueRun(old(Queue()), ops).0
        invariant QueueRun(Queue(), ops[i..]).1 == QueueRun(old(Queue()), ops).1
      {
        assert ops[i..][1..] == ops[i + 1..];
        ghost var later := QueueRun(Queue(), ops[i..]).0;
        var r := Execute(ops[i]);
        assert replies + later == (replies + [r]) + later[1..];
        replies := replies + [r];
      }
      assert replies + [] == replies;
    }
  }

  // ---------------------------------------------------------------- typed contents

  /** Something put with one type and read back with the same type. */
  datatype Item =
    | Integer(width: nat, n: nat)
    | Integers(width: nat, ns: seq<nat>)
    | Text(bytes: seq<Byte>)
    | Terminated(bytes: seq<Byte>)

  predicate Typed(item: Item)
  {
    match item
    case Integer(width, n) => width > 0 && n < Pow(256, width)
    case Integers(width, ns) => width > 0 && forall i :: 0 <= i < |ns| ==> ns[i] < Pow(256, width)
    case Text(_) => true
    case Terminated(bytes) => 0 !in bytes
  }

  function WriteOp(item: Item): Op
  {
    match item
    case Integer(width, n) => PutIntegers(width, [n])
    case Integers(width, ns) => PutIntegers(width, ns)
    case Text(bytes) => Put(bytes)
    case Terminated(bytes) => Put(bytes + [0])
  }

  function ReadOp(item: Item): Op
  {
    match item
    case Integer(width, _) => Get(width)
    case Integers(width, ns) => GetArray(width, |ns|)
    case Text(bytes) => GetString(|bytes|)
    case Terminated(_) => GetTerminated
  }

  function Content(item: Item): Reply
  {
    match item
    case Integer(_, n) => Number(n)
    case Integers(_, ns) => Numbers(ns)
    case Text(bytes) => Data(bytes)
    case Terminated(bytes) => Data(bytes)
  }

  function Acknowledgement(item: Item): Reply
  {
    Done
  }

  function Image(item: Item): seq<Byte>
  {
    match item
    case Integer(width, n) => LeBytes(n, width)
    case Integers(width, ns) => Images(width, ns)
    case Text(bytes) => bytes
    case Terminated(bytes) => bytes + [0]
  }

  function AllImages(items: seq<Item>): seq<Byte>
  {
    if items == [] then [] else Image(items[0]) + AllImages(items[1..])
  }

  function Each<T, U>(f: T -> U, s: seq<T>): seq<U>
  {
    if s == [] then [] else [f(s[0])] + Each(f, s[1..])
  }

  lemma {:induction false} ArrayReadBack(width: nat, ns: seq<nat>, tail: seq<Byte>)
    requires width > 0 && forall i :: 0 <= i < |ns| ==> ns[i] < Pow(256, width)
    ensures ArrayAllowed(Images(width, ns) + tail, width, |ns|)
    ensures QueueGetArray(Images(width, ns) + tail, width, |ns|) == (Numbers(ns), tail)
    decreases |ns|
  {
    if ns == [] {
      assert [] + tail == tail;
    } else {
      var first, rest := LeBytes(ns[0], width), Images(width, ns[1..]) + tail;
      var q := Images(width, ns) + tail;
      assert q == first + rest;
      assert q[..width] == first && q[width..] == rest;
      ArrayReadBack(width, ns[1..], tail);
      LeBytesValue(ns[0], width);
      assert Prepend(ns[0], Numbers(ns[1..])) == Numbers(ns) by { assert [ns[0]] + ns[1..] == ns; }
    }
  }

  lemma {:induction false} ZeroIndexAfter(bytes: seq<Byte>, tail: seq<Byte>)
    requires 0 !in bytes
    ensures ZeroIndex(bytes + [0] + tail) == |bytes|
  {
    if bytes != [] {
      ZeroIndexAfter(bytes[1..], tail);
      assert (bytes + [0] + tail)[1..] == bytes[1..] + [0] + tail;
    }
  }

  lemma ItemReadBack(item: Item, tail: seq<Byte>)
    requires Typed(item)
    ensures Allowed(Image(item) + tail, ReadOp(item))
    ensures QueueStep(Image(item) + tail, ReadOp(item)) == (Content(item), tail)
  {
    var q := Image(item) + tail;
    match item {
      case Integer(width, n) =>
        LeBytesValue(n, width);
        assert q[..width] == LeBytes(n, width) && q[width..] == tail;
      case Integers(width, ns) =>
        ArrayReadBack(width, ns, tail);
      case Text(bytes) =>
        assert q[..|bytes|] == bytes && q[|bytes|..] == tail;
      case Terminated(bytes) =>
        ZeroIndexAfter(bytes, tail);
        assert q[..|bytes|] == bytes && q[|bytes| + 1..] == tail;
    }
  }

  lemma ItemWritten(q: seq<Byte>, item: Item)
    ensures Allowed(q, WriteOp(item)) && QueueStep(q, WriteOp(item)) == (Done, q + Image(item))
  {
    if item.Integer? {
      ImagesSnoc(item.width, [], item.n);
      assert [] + [item.n] == [item.n] && [] + LeBytes(item.n, item.width) == LeBytes(item.n, item.width);
    }
  }

  lemma RunCons(q: seq<Byte>, op: Op, ops: seq<Op>, r: Reply, q': seq<Byte>, rs: seq<Reply>, end: seq<Byte>)
    requires Allowed(q, op) && QueueStep(q, op) == (r, q')
    requires RunAllowed(q', ops) && QueueRun(q', ops) == (rs, end)
    ensures RunAllowed(q, [op] + ops) && QueueRun(q, [op] + ops) == ([r] + rs, end)
  {
    assert ([op] + ops)[1..] == ops;
  }

  lemma {:induction false} AllReadBack(items: seq<Item>, tail: seq<Byte>)
    requires forall i :: 0 <= i < |items| ==> Typed(items[i])
    ensures var q, ops := AllImages(items) + tail, Each(ReadOp, items);
            RunAllowed(q, ops) && QueueRun(q, ops) == (Each(Content, items), tail)
    decreases |items|
  {
    if items == [] {
      assert [] + tail == tail;
    } else {
      var rest := AllImages(items[1..]) + tail;
      AllReadBack(items[1..], tail);
      ItemReadBack(items[0], rest);
      Associate(Image(items[0]), AllImages(items[1..]), tail);
      RunCons(Image(items[0]) + rest, ReadOp(items[0]), Each(ReadOp, items[1..]),
              Content(items[0]), rest, Each(Content, items[1..]), tail);
    }
  }

  lemma {:induction false} AllWritten(q: seq<Byte>, items: seq<Item>)
    ensures var ops := Each(WriteOp, items);
            RunAllowed(q, ops) && QueueRun(q, ops) == (Each(Acknowledgement, items), q + AllImages(items))
    decreases |items|
  {
    if items == [] {
      assert q + [] == q;
    } else {
      var q' := q + Image(items[0]);
      ItemWritten(q, items[0]);
      AllWritten(q', items[1..]);
      Associate(q, Image(items[0]), AllImages(items[1..]));
      RunCons(q, WriteOp(items[0]), Each(WriteOp, items[1..]),
              Done, q', Each(Acknowledgement, items[1..]), q' + AllImages(items[1..]));
    }
  }

  lemma {:induction false} RunConcat(q: seq<Byte>, a: seq<Op>, b: seq<Op>)
    requires RunAllowed(q, a) && RunAllowed(QueueRun(q, a).1, b)
    ensures RunAllowed(q, a + b)
    ensures QueueRun(q, a + b).0 == QueueRun(q, a).0 + QueueRun(QueueRun(q, a).1, b).0
    ensures QueueRun(q, a + b).1 == QueueRun(QueueRun(q, a).1, b).1
    decreases |a|
  {
    if a == [] {
      assert a + b == b;
    } else {
      var (r, q') := QueueStep(q, a[0]);
      var (rs, middle) := QueueRun(q', a[1..]);
      var (rs', end) := QueueRun(middle, b);
      RunConcat(q', a[1..], b);
      RunCons(q, a[0], a[1..] + b, r, q', rs + rs', end);
      assert a + b == [a[0]] + (a[1..] + b);
      Associate([r], rs, rs');
    }
  }

  /** First in, first out, for every list of typed values: writing them all and reading them
      with the same types returns exactly those values and empties the stream. */
  lemma TypedRoundTrip(items: seq<Item>)
    requires forall i :: 0 <= i < |items| ==> Typed(items[i])
    ensures var ops := Each(WriteOp, items) + Each(ReadOp, items);
            RunAllowed([], ops)
            && QueueRun([], ops) == (Each(Acknowledgement, items) + Each(Content, items), [])
  {
    AllWritten([], items);
    assert [] + AllImages(items) == AllImages(items) + [];
    AllReadBack(items, []);
    RunConcat([], Each(WriteOp, items), Each(ReadOp, items));
  }
}
