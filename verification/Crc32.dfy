/** `crc32` and `validate_crc32` of src/include/keycap/root/utility/crc32.hpp. */
module Crc32 {
  import opened Bytes
  import opened MemoryStream

  /** The underlying checksum: a start value, a step per byte and a final transformation. */
  datatype Engine = Engine(initial: nat, step: (nat, Byte) -> nat, finish: nat -> nat)

  function Fold(e: Engine, remainder: nat, bytes: seq<Byte>): nat
    decreases |bytes|
  {
    if bytes == [] then remainder else Fold(e, e.step(remainder, bytes[0]), bytes[1..])
  }

  lemma {:induction false} FoldConcat(e: Engine, remainder: nat, a: seq<Byte>, b: seq<Byte>)
    ensures Fold(e, remainder, a + b) == Fold(e, Fold(e, remainder, a), b)
    decreases |a|
  {
    if a == [] {
      assert a + b == b;
    } else {
      FoldConcat(e, e.step(remainder, a[0]), a[1..], b);
      assert (a + b)[1..] == a[1..] + b;
    }
  }

  /** The 32-bit checksum of one byte string. */
  function Checksum(e: Engine, bytes: seq<Byte>): nat
  {
    e.finish(Fold(e, e.initial, bytes)) % 0x1_0000_0000
  }

  /** Remainders that start at the engine's and take its step at every byte. */
  ghost predicate Remainders(e: Engine, bytes: seq<Byte>, rs: seq<nat>)
  {
    && |rs| == |bytes| + 1
    && rs[0] == e.initial
    && forall i :: 0 <= i < |bytes| ==> rs[i + 1] == e.step(rs[i], bytes[i])
  }

  lemma {:induction false} FoldIsLastRemainder(e: Engine, bytes: seq<Byte>, rs: seq<nat>)
    requires Remainders(e, bytes, rs)
    ensures Fold(e, e.initial, bytes) == rs[|bytes|]
  {
    if bytes != [] {
      var n := |bytes| - 1;
      FoldIsLastRemainder(e, bytes[..n], rs[..n + 1]);
      FoldConcat(e, e.initial, bytes[..n], bytes[n..]);
      assert bytes[..n] + bytes[n..] == bytes && bytes[n..][1..] == [];
    }
  }

  /** The checksum is what the engine makes of the last of these remainders. */
  lemma ChecksumByRemainders(e: Engine, bytes: seq<Byte>, rs: seq<nat>)
    requires Remainders(e, bytes, rs)
    ensures Checksum(e, bytes) == e.finish(rs[|bytes|]) % 0x1_0000_0000
  {
    FoldIsLastRemainder(e, bytes, rs);
  }

  // ------------------------------------------------------------- one altered byte

  /** On 32-bit remainders no step forgets its remainder or its byte, and neither does the end. */
  ghost predicate Sensitive(e: Engine)
  {
    && e.initial < WORD
    && (forall r: nat, b: Byte :: r < WORD ==> e.step(r, b) < WORD)
    && (forall r: nat, r': nat, b: Byte :: r < WORD && r' < WORD && e.step(r, b) == e.step(r', b) ==> r == r')
    && (forall r: nat, b: Byte, b': Byte :: r < WORD && e.step(r, b) == e.step(r, b') ==> b == b')
    && (forall r: nat :: r < WORD ==> e.finish(r) < WORD)
    && (forall r: nat, r': nat :: r < WORD && r' < WORD && e.finish(r) == e.finish(r') ==> r == r')
  }

  const WORD: nat := 0x1_0000_0000

  lemma {:induction false} FoldKeepsApart(e: Engine, r: nat, r': nat, bytes: seq<Byte>)
    requires Sensitive(e) && r < WORD && r' < WORD && r != r'
    ensures Fold(e, r, bytes) < WORD && Fold(e, r', bytes) < WORD && Fold(e, r, bytes) != Fold(e, r', bytes)
    decreases |bytes|
  {
    if bytes != [] {
      FoldKeepsApart(e, e.step(r, bytes[0]), e.step(r', bytes[0]), bytes[1..]);
    }
  }

  lemma {:induction false} FoldBounded(e: Engine, r: nat, bytes: seq<Byte>)
    requires Sensitive(e) && r < WORD
    ensures Fold(e, r, bytes) < WORD
    decreases |bytes|
  {
    if bytes != [] {
      FoldBounded(e, e.step(r, bytes[0]), bytes[1..]);
    }
  }

  /** Altering one byte, wherever it stands, alters the checksum. */
  lemma OneByteDetected(e: Engine, before: seq<Byte>, b: Byte, b': Byte, after: seq<Byte>)
    requires Sensitive(e) && b != b'
    ensures Checksum(e, before + [b] + after) != Checksum(e, before + [b'] + after)
  {
    var r := Fold(e, e.initial, before);
    FoldBounded(e, e.initial, before);
    FoldThrough(e, before, b, after);
    FoldThrough(e, before, b', after);
    FoldKeepsApart(e, e.step(r, b), e.step(r, b'), after);
  }

  lemma FoldThrough(e: Engine, before: seq<Byte>, b: Byte, after: seq<Byte>)
    ensures Fold(e, e.initial, before + [b] + after) == Fold(e, e.step(Fold(e, e.initial, before), b), after)
  {
    FoldConcat(e, e.initial, before + [b], after);
    FoldConcat(e, e.initial, before, [b]);
    assert [b][1..] == [];
  }

  /** What hashing a stream feeds the checksum: as many bytes as are unread, but taken from
      the start of the buffer. */
  function HashedBytes(s: StreamValue): seq<Byte>
    requires s.readPosition <= |s.buffer|
  {
    s.buffer[..|s.buffer| - s.readPosition]
  }

  /** The thread-local accumulator, which survives from one computation to the next. */
  class Accumulator {
    const engine: Engine
    var remainder: nat

    constructor (engine: Engine)
      ensures this.engine == engine
    {
      this.engine, remainder := engine, engine.initial;
    }

    /** Each argument's bytes are processed in turn after a reset: the result is the checksum
        of their concatenation, whatever was computed before. */
    method Compute(args: seq<seq<Byte>>) returns (crc: nat)
      modifies this
      ensures crc == Checksum(engine, Flatten(args))
    {
      remainder := engine.initial;
      for i := 0 to |args|
        invariant remainder == Fold(engine, engine.initial, Flatten(args[..i]))
      {
        FlattenSnoc(args[..i], args[i]);
        assert args[..i + 1] == args[..i] + [args[i]];
        FoldConcat(engine, engine.initial, Flatten(args[..i]), args[i]);
        remainder := Fold(engine, remainder, args[i]);
      }
      assert args[..|args|] == args;
      crc := engine.finish(remainder) % 0x1_0000_0000;
    }

    method Validate(crc: nat, args: seq<seq<Byte>>) returns (ok: bool)
      modifies this
      ensures ok <==> crc == Checksum(engine, Flatten(args))
    {
      var computed := Compute(args);
      ok := crc == computed;
    }
  }
}
