/** Stream ciphers in general: a state that steps and yields one byte after each step. */
module Keystream {
  import opened Numbers
  import opened Bytes

  datatype Generator<!S> = Generator(step: S -> S, output: S -> Byte)

  function After<S>(g: Generator<S>, s: S, n: nat): S
  {
    if n == 0 then s else g.step(After(g, s, n - 1))
  }

  /** The data combined with the keystream: its i-th byte (from 0) with the output of the
      (i+1)-st state after s. */
  function Masked<S>(op: (Byte, Byte) -> Byte, g: Generator<S>, s: S, data: seq<Byte>): (r: seq<Byte>)
    ensures |r| == |data|
    decreases |data|
  {
    if data == [] then []
    else
      var n := |data| - 1;
      Masked(op, g, s, data[..n]) + [op(data[n], g.output(After(g, s, n + 1)))]
  }

  function Crypt<S>(g: Generator<S>, s: S, data: seq<Byte>): (r: seq<Byte>)
    ensures |r| == |data|
  {
    Masked(XorByte, g, s, data)
  }

  lemma {:induction false} AfterSum<S>(g: Generator<S>, s: S, m: nat, n: nat)
    ensures After(g, After(g, s, m), n) == After(g, s, m + n)
  {
    if n > 0 {
      AfterSum(g, s, m, n - 1);
    }
  }

  lemma MaskedSnoc<S>(op: (Byte, Byte) -> Byte, g: Generator<S>, s: S, a: seq<Byte>, c: Byte)
    ensures Masked(op, g, s, a + [c]) == Masked(op, g, s, a) + [op(c, g.output(After(g, s, |a| + 1)))]
  {
    assert (a + [c])[..|a|] == a;
  }

  lemma {:induction false} MaskedConcat<S>(op: (Byte, Byte) -> Byte, g: Generator<S>, s: S, a: seq<Byte>, b: seq<Byte>)
    ensures Masked(op, g, s, a + b) == Masked(op, g, s, a) + Masked(op, g, After(g, s, |a|), b)
    decreases |b|
  {
    if b == [] {
      assert a + b == a;
    } else {
      var n := |b| - 1;
      var t, c := b[..n], b[n];
      MaskedConcat(op, g, s, a, t);
      AfterSum(g, s, |a|, n + 1);
      assert a + b == (a + t) + [c];
      MaskedSnoc(op, g, s, a + t, c);
      Associate(Masked(op, g, s, a), Masked(op, g, After(g, s, |a|), t), [op(c, g.output(After(g, s, |a| + n + 1)))]);
    }
  }

  lemma CryptConcat<S>(g: Generator<S>, s: S, a: seq<Byte>, b: seq<Byte>)
    ensures Crypt(g, s, a + b) == Crypt(g, s, a) + Crypt(g, After(g, s, |a|), b)
  {
    MaskedConcat(XorByte, g, s, a, b);
  }

  /** The outputs and the final state of consecutive calls. */
  function CryptAll<S>(g: Generator<S>, s: S, pieces: seq<seq<Byte>>): (seq<seq<Byte>>, S)
    decreases |pieces|
  {
    if pieces == [] then ([], s)
    else
      var (rest, t) := CryptAll(g, After(g, s, |pieces[0]|), pieces[1..]);
      ([Crypt(g, s, pieces[0])] + rest, t)
  }

  /** Cutting the input into any number of calls changes neither the bytes nor the state. */
  lemma {:induction false} SplitDoesNotMatter<S>(g: Generator<S>, s: S, pieces: seq<seq<Byte>>)
    ensures Flatten(CryptAll(g, s, pieces).0) == Crypt(g, s, Flatten(pieces))
    ensures CryptAll(g, s, pieces).1 == After(g, s, |Flatten(pieces)|)
    decreases |pieces|
  {
    if pieces != [] {
      var s' := After(g, s, |pieces[0]|);
      SplitDoesNotMatter(g, s', pieces[1..]);
      CryptConcat(g, s, pieces[0], Flatten(pieces[1..]));
      AfterSum(g, s, |pieces[0]|, |Flatten(pieces[1..])|);
      var rest := CryptAll(g, s', pieces[1..]).0;
      assert ([Crypt(g, s, pieces[0])] + rest)[1..] == rest;
    }
  }

  /** Processing twice from equal states restores the input. */
  lemma {:induction false} CryptTwice<S>(g: Generator<S>, s: S, data: seq<Byte>)
    ensures Crypt(g, s, Crypt(g, s, data)) == data
    decreases |data|
  {
    if data != [] {
      var n := |data| - 1;
      var t, c := data[..n], data[n];
      var k := g.output(After(g, s, n + 1));
      CryptTwice(g, s, t);
      MaskedSnoc(XorByte, g, s, Crypt(g, s, t), XorByte(c, k));
      XorTwice(c, k);
      assert data == t + [c];
    }
  }
}
