/** The ARC4 stream cipher of src/libs/cryptography/ARC4.cpp. */
module Arc4 {
  import opened Numbers
  import opened Bytes
  import opened Keystream

  type Block = s: seq<Byte> | |s| == 256 witness seq(256, _ => 0)

  /** The values of `block_`, `x` and `y`. */
  datatype State = State(block: Block, x: Byte, y: Byte)

  /** 8-bit arithmetic wraps. */
  function Add(a: Byte, b: Byte): Byte
  {
    if a + b < 256 then a + b else a + b - 256
  }

  function Sub(a: Byte, b: Byte): Byte
  {
    if a >= b then a - b else a - b + 256
  }

  lemma SubUndoesAdd(a: Byte, b: Byte)
    ensures Sub(Add(a, b), a) == b && Add(a, Sub(b, a)) == b && Sub(Add(b, a), a) == b && Add(Sub(b, a), a) == b
  {
  }

  /** A permutation of 0..255: no value twice, every value present. */
  ghost predicate Permutation(block: seq<Byte>)
  {
    && |block| == 256
    && (forall i, j :: 0 <= i < j < 256 ==> block[i] != block[j])
    && (forall v: Byte :: v in block)
  }

  function Swap(block: Block, i: Byte, j: Byte): Block
  {
    block[i := block[j]][j := block[i]]
  }

  lemma SwapTwice(block: Block, i: Byte, j: Byte)
    ensures Swap(Swap(block, i, j), i, j) == block
  {
  }

  lemma SwapKeepsPermutation(block: Block, i: Byte, j: Byte)
    requires Permutation(block)
    ensures Permutation(Swap(block, i, j))
  {
    var r := Swap(block, i, j);
    forall v: Byte
      ensures v in r
    {
      assert v in block;
      var k: Byte :| block[k] == v;
      assert r[if k == i then j else if k == j then i else k] == v;
    }
  }

  // ------------------------------------------------------------------ key schedule

  function Identity(): Block
  {
    seq(256, i requires 0 <= i < 256 => i)
  }

  /** The textbook schedule after `rounds` rounds: round i adds key byte i mod |key|
      and the block entry to the running index, then swaps. */
  function Scheduled(key: seq<Byte>, rounds: nat): (Block, Byte)
    requires key != [] && rounds <= 256
  {
    if rounds == 0 then (Identity(), 0)
    else
      var (block, k) := Scheduled(key, rounds - 1);
      var k' := Add(Add(key[(rounds - 1) % |key|], block[rounds - 1]), k);
      (Swap(block, rounds - 1, k'), k')
  }

  function Initial(key: seq<Byte>): State
    requires key != []
  {
    State(Scheduled(key, 256).0, 0, 0)
  }

  lemma {:induction false} ScheduleIsPermutation(key: seq<Byte>, rounds: nat)
    requires key != [] && rounds <= 256
    ensures Permutation(Scheduled(key, rounds).0)
  {
    if rounds == 0 {
      var id := Identity();
      forall v: Byte
        ensures v in id
      {
        assert id[v] == v;
      }
    } else {
      ScheduleIsPermutation(key, rounds - 1);
      SwapKeepsPermutation(Scheduled(key, rounds - 1).0, rounds - 1, Scheduled(key, rounds).1);
    }
  }

  /** The wrapping 8-bit index runs through i mod |key| in every round that reads it. */
  lemma NextKeyIndex(i: nat, n: nat)
    requires n > 0 && i < 255
    ensures (i % n + 1) % n % 256 == (i + 1) % n
  {
    ResidueCongruent(i, n);
    CongruentSum(i % n, i, 1, 1, n);
    var next := (i + 1) % n;
    assert next < n;
    if n > 256 {
      ResidueUnique(i + 1, 0, i + 1, n);
    }
    ResidueUnique(next, 0, next, 256);
  }

  // --------------------------------------------------------------------- keystream

  function Step(s: State): State
  {
    var x := Add(s.x, 1);
    var y := Add(s.block[x], s.y);
    State(Swap(s.block, x, y), x, y)
  }

  /** The keystream byte read off the state after a step. */
  function Output(s: State): Byte
  {
    s.block[Add(s.block[s.x], s.block[s.y])]
  }

  const ARC4 := Generator(Step, Output)

  class Arc4 {
    const block: array<Byte>
    var x: Byte
    var y: Byte

    ghost predicate Valid()
      reads this, block
    {
      Permutation(block[..])
    }

    ghost function Contents(): State
      requires block.Length == 256
      reads this, block
    {
      State(block[..], x, y)
    }

    constructor (key: seq<Byte>)
      requires key != []
      ensures Valid() && fresh(block)
      ensures Contents() == Initial(key)
    {
      block := new Byte[256](i requires 0 <= i < 256 => i);
      x, y := 0, 0;
      new;
      var j: Byte := 0;
      var k: Byte := 0;
      assert block[..] == Identity();
      for i := 0 to 256
        invariant x == 0 && y == 0
        invariant i < 256 ==> j == i % |key|
        invariant (block[..], k) == Scheduled(key, i)
      {
        k := ScheduleRound(i, key[j], k);
        if i < 255 {
          NextKeyIndex(i, |key|);
        }
        j := ((j + 1) % |key|) % 256;
      }
      ScheduleIsPermutation(key, 256);
    }

    /** One turn of the schedule loop: add to the running index, swap. */
    method ScheduleRound(i: Byte, keyByte: Byte, k: Byte) returns (k': Byte)
      requires block.Length == 256
      modifies block
      ensures k' == Add(Add(keyByte, old(block[i])), k)
      ensures block[..] == Swap(old(block[..]), i, k')
    {
      k' := Add(Add(keyByte, block[i]), k);
      block[i], block[k'] := block[k'], block[i];
    }

    /** One turn of the keystream loop: advance x and y, swap, read the output byte. */
    method Next() returns (k: Byte)
      requires Valid()
      modifies this, block
      ensures Valid()
      ensures Contents() == Step(old(Contents())) && k == Output(Contents())
    {
      ghost var before := Contents();
      x := Add(x, 1);
      y := Add(block[x], y);
      SwapKeepsPermutation(block[..], x, y);
      block[x], block[y] := block[y], block[x];
      assert block[..] == Swap(before.block, x, y);
      var j := Add(block[x], block[y]);
      k := block[j];
    }

    method Process(data: array<Byte>)
      requires Valid() && data != block
      modifies this, block, data
      ensures Valid()
      ensures data[..] == Crypt(ARC4, old(Contents()), old(data[..]))
      ensures Contents() == After(ARC4, old(Contents()), data.Length)
    {
      ghost var s0, d0 := Contents(), data[..];
      for i := 0 to data.Length
        invariant Valid()
        invariant Contents() == After(ARC4, s0, i)
        invariant data[..] == Crypt(ARC4, s0, d0[..i]) + d0[i..]
      {
        var k := Next();
        XorAt(data, i, k);
        ReplaceNext(Crypt(ARC4, s0, d0[..i]), d0, i, XorByte(d0[i], k));
        CryptNext(s0, d0, i);
      }
      assert d0[..data.Length] == d0 && d0[data.Length..] == [];
    }
  }

  method XorAt(data: array<Byte>, i: nat, k: Byte)
    requires i < data.Length
    modifies data
    ensures data[..] == old(data[..])[i := XorByte(old(data[i]), k)]
  {
    data[i] := XorByte(data[i], k);
  }

  lemma CryptNext(s: State, data: seq<Byte>, i: nat)
    requires i < |data|
    ensures Crypt(ARC4, s, data[..i + 1])
         == Crypt(ARC4, s, data[..i]) + [XorByte(data[i], Output(After(ARC4, s, i + 1)))]
  {
    TakeSnoc(data, i);
    MaskedSnoc(XorByte, ARC4, s, data[..i], data[i]);
  }

  lemma ReplaceNext(done: seq<Byte>, all: seq<Byte>, i: nat, b: Byte)
    requires |done| == i < |all|
    ensures (done + all[i..])[i] == all[i] && (done + all[i..])[i := b] == (done + [b]) + all[i + 1..]
  {
  }

  // ------------------------------------------------------------ the cipher in numbers

  function Sum(a: int, b: int): Byte
  {
    (a + b) % 256
  }

  /** `after` is `before` with the entries i and j exchanged. */
  predicate Exchanged(before: Block, after: Block, i: Byte, j: Byte)
  {
    && after[i] == before[j] && after[j] == before[i]
    && forall k :: 0 <= k < 256 && k != i && k != j ==> after[k] == before[k]
  }

  lemma SwapExchanges(before: Block, after: Block, i: Byte, j: Byte)
    ensures Exchanged(before, after, i, j) <==> after == Swap(before, i, j)
  {
  }

  /** One turn of the keystream loop, all indices modulo 256. */
  predicate Turn(s: State, t: State)
  {
    && t.x == Sum(s.x, 1)
    && t.y == Sum(s.y, s.block[t.x])
    && Exchanged(s.block, t.block, t.x, t.y)
  }

  /** The byte a turn yields, read off the state after it. */
  function Yield(t: State): Byte
  {
    t.block[Sum(t.block[t.x], t.block[t.y])]
  }

  lemma StepIsTurn(s: State, t: State)
    ensures Turn(s, t) <==> t == Step(s)
    ensures Output(t) == Yield(t)
  {
    var u := Step(s);
    SwapExchanges(s.block, t.block, u.x, u.y);
  }

  ghost predicate Turns(states: seq<State>)
  {
    states != [] && forall i :: 0 < i < |states| ==> Turn(states[i - 1], states[i])
  }

  lemma {:induction false} RunByTurns(states: seq<State>, n: nat)
    requires Turns(states) && n < |states|
    ensures After(ARC4, states[0], n) == states[n]
  {
    if n > 0 {
      RunByTurns(states, n - 1);
      assert Turn(states[n - 1], states[n]);
      StepIsTurn(states[n - 1], states[n]);
    }
  }

  /** Processing data combines its byte i with the byte that turn i + 1 yields, bit by bit. */
  lemma {:induction false} CryptByTurns(states: seq<State>, data: seq<Byte>, i: nat)
    requires Turns(states) && |states| == |data| + 1 && i < |data|
    ensures Crypt(ARC4, states[0], data)[i] == Xor(data[i], Yield(states[i + 1]))
    ensures After(ARC4, states[0], |data|) == states[|data|]
    decreases |data|
  {
    var n := |data| - 1;
    RunByTurns(states, |data|);
    assert data == data[..n] + [data[n]];
    MaskedSnoc(XorByte, ARC4, states[0], data[..n], data[n]);
    if i < n {
      TurnsPrefix(states, n + 1);
      CryptByTurns(states[..n + 1], data[..n], i);
    } else {
      StepIsTurn(states[n], states[n + 1]);
    }
  }

  lemma TurnsPrefix(states: seq<State>, n: nat)
    requires Turns(states) && 0 < n <= |states|
    ensures Turns(states[..n]) && states[..n][0] == states[0]
  {
    forall i | 0 < i < n
      ensures Turn(states[..n][i - 1], states[..n][i])
    {
      assert Turn(states[i - 1], states[i]);
    }
  }

  /** The rounds of the key schedule: blocks and running indices, from the identity and 0. */
  ghost predicate Rounds(key: seq<Byte>, blocks: seq<Block>, ks: seq<Byte>)
    requires key != []
  {
    && |blocks| == |ks| == 257
    && ks[0] == 0 && (forall v :: 0 <= v < 256 ==> blocks[0][v] == v)
    && forall i :: 0 <= i < 256 ==> Round(key, blocks, ks, i)
  }

  ghost predicate Round(key: seq<Byte>, blocks: seq<Block>, ks: seq<Byte>, i: nat)
    requires key != [] && |blocks| == |ks| == 257 && i < 256
  {
    && ks[i + 1] == Sum(ks[i], Sum(blocks[i][i], key[i % |key|]))
    && Exchanged(blocks[i], blocks[i + 1], i, ks[i + 1])
  }

  lemma AddThree(a: Byte, b: Byte, c: Byte)
    ensures Add(Add(a, b), c) == Sum(c, Sum(b, a))
  {
  }

  lemma RoundIsScheduled(key: seq<Byte>, n: nat, block: Block, k: Byte)
    requires key != [] && n < 256
    requires k == Sum(Scheduled(key, n).1, Sum(Scheduled(key, n).0[n], key[n % |key|]))
    requires Exchanged(Scheduled(key, n).0, block, n, k)
    ensures Scheduled(key, n + 1).0 == block && Scheduled(key, n + 1).1 == k
  {
    AddThree(key[n % |key|], Scheduled(key, n).0[n], Scheduled(key, n).1);
    SwapExchanges(Scheduled(key, n).0, block, n, k);
  }

  lemma {:induction false} ScheduledByRounds(key: seq<Byte>, blocks: seq<Block>, ks: seq<Byte>, n: nat)
    requires key != [] && Rounds(key, blocks, ks) && n <= 256
    ensures Scheduled(key, n).0 == blocks[n] && Scheduled(key, n).1 == ks[n]
  {
    if n == 0 {
      assert blocks[0] == Identity();
    } else {
      ScheduledByRounds(key, blocks, ks, n - 1);
      assert Round(key, blocks, ks, n - 1);
      RoundIsScheduled(key, n - 1, blocks[n], ks[n]);
    }
  }

  /** A new cipher starts from the last block of the 256 rounds, at x = y = 0. */
  lemma InitialByRounds(key: seq<Byte>, blocks: seq<Block>, ks: seq<Byte>)
    requires key != [] && Rounds(key, blocks, ks)
    ensures Initial(key) == State(blocks[256], 0, 0)
  {
    ScheduledByRounds(key, blocks, ks, 256);
  }

  // ------------------------------------------------------- properties of every run

  /** The inverse of `Step`. */
  function Unstep(s: State): State
  {
    var block := Swap(s.block, s.x, s.y);
    State(block, Sub(s.x, 1), Sub(s.y, block[s.x]))
  }

  lemma UnstepUndoesStep(s: State)
    ensures Unstep(Step(s)) == s
  {
    var t := Step(s);
    SwapTwice(s.block, t.x, t.y);
    SubUndoesAdd(s.block[t.x], s.y);
    SubUndoesAdd(1, s.x);
  }

  lemma StepUndoesUnstep(s: State)
    ensures Step(Unstep(s)) == s
  {
    var t := Unstep(s);
    SubUndoesAdd(1, s.x);
    SubUndoesAdd(t.block[s.x], s.y);
    SwapTwice(s.block, s.x, s.y);
  }

  lemma StepInjective(s: State, t: State)
    requires Step(s) == Step(t)
    ensures s == t
  {
    UnstepUndoesStep(s);
    UnstepUndoesStep(t);
  }

  function Before(s: State, n: nat): State
    decreases n
  {
    if n == 0 then s else Before(Unstep(s), n - 1)
  }

  /** Any number of steps can be taken back, so a run never forgets its start. */
  lemma {:induction false} RunIsReversible(s: State, n: nat)
    ensures Before(After(ARC4, s, n), n) == s
  {
    if n > 0 {
      var t := After(ARC4, s, n - 1);
      UnstepUndoesStep(t);
      assert Before(Step(t), n) == Before(t, n - 1);
      RunIsReversible(s, n - 1);
    }
  }

  /** Finney's cycle of short-period states. */
  predicate Finney(s: State)
  {
    s.y == Add(s.x, 1) && s.block[s.y] == 1
  }

  lemma FinneyBothWays(s: State)
    ensures Finney(Step(s)) <==> Finney(s)
  {
  }

  ghost predicate Sound(s: State)
  {
    Permutation(s.block) && !Finney(s)
  }

  lemma StepKeepsSound(s: State)
    requires Sound(s)
    ensures Sound(Step(s))
  {
    var x := Add(s.x, 1);
    SwapKeepsPermutation(s.block, x, Add(s.block[x], s.y));
    FinneyBothWays(s);
  }

  /** Every state of every run, from any key and after any number of bytes, holds a
      permutation and is not a Finney state. */
  lemma {:induction false} RunInvariant(key: seq<Byte>, n: nat)
    requires key != []
    ensures Sound(After(ARC4, Initial(key), n))
  {
    if n == 0 {
      ScheduleIsPermutation(key, 256);
    } else {
      RunInvariant(key, n - 1);
      StepKeepsSound(After(ARC4, Initial(key), n - 1));
    }
  }

  /** Encrypting under one object and decrypting under another with the same key, the
      ciphertext arriving in arbitrary pieces, gives the plaintext back. */
  lemma DecryptInPieces(key: seq<Byte>, data: seq<Byte>, pieces: seq<seq<Byte>>)
    requires key != [] && Flatten(pieces) == Crypt(ARC4, Initial(key), data)
    ensures Flatten(CryptAll(ARC4, Initial(key), pieces).0) == data
  {
    SplitDoesNotMatter(ARC4, Initial(key), pieces);
    CryptTwice(ARC4, Initial(key), data);
  }
}
