/** The checksum behind src/include/keycap/root/utility/crc32.hpp: the reflected CRC-32 of ISO 3309, with
    polynomial 0x04C11DB7, all ones as start value and as final mask. */
module CrcPolynomial {
  import opened Numbers
  import opened Bytes
  import opened Crc32

  /** The polynomial with its bits reversed. */
  const REVERSED: nat := 0xEDB8_8320
  const ALL_ONES: nat := 0xFFFF_FFFF

  /** One bit is shifted out; the polynomial is subtracted if it was set. */
  function Shift(r: nat): nat
  {
    if r % 2 == 1 then Xor(r / 2, REVERSED) else r / 2
  }

  function Shifts(r: nat, n: nat): nat
  {
    if n == 0 then r else Shift(Shifts(r, n - 1))
  }

  const CRC32 := Engine(ALL_ONES, (r: nat, b: Byte) => Shifts(Xor(r, b), 8), r => Xor(r, ALL_ONES))

  lemma WordIsPower()
    ensures Pow(2, 31) == 0x8000_0000 && Pow(2, 32) == WORD
  {
    assert Pow(2, 4) == 16;
    PowAdd(2, 4, 4);
    PowAdd(2, 8, 8);
    PowAdd(2, 16, 16);
    assert Pow(2, 32) == 2 * Pow(2, 31);
  }

  lemma XorWord(a: nat, b: nat)
    requires a < WORD && b < WORD
    ensures Xor(a, b) < WORD
  {
    WordIsPower();
    XorBound(a, b, 32);
  }

  lemma {:induction false} XorCommutes(a: nat, b: nat)
    ensures Xor(a, b) == Xor(b, a)
    decreases a + b
  {
    if a != 0 || b != 0 {
      XorCommutes(a / 2, b / 2);
    }
  }

  lemma XorCancels(a: nat, a': nat, b: nat)
    requires Xor(a, b) == Xor(a', b)
    ensures a == a'
  {
    XorTwice(a, b);
    XorTwice(a', b);
  }

  /** Xor with a number whose bit k is set sets bit k of a number below 2^k. */
  lemma {:induction false} XorSetsTop(a: nat, b: nat, k: nat)
    requires a < Pow(2, k) <= b < Pow(2, k + 1)
    ensures Xor(a, b) >= Pow(2, k)
    decreases k
  {
    if k == 0 {
      assert a == 0 && b == 1;
      assert Xor(0, 1) == 1 + 2 * Xor(0, 0);
    } else {
      assert Pow(2, k + 1) == 2 * Pow(2, k) && Pow(2, k) == 2 * Pow(2, k - 1);
      XorSetsTop(a / 2, b / 2, k - 1);
    }
  }

  lemma ShiftBounds(r: nat)
    requires r < WORD
    ensures Shift(r) < WORD && (Shift(r) >= 0x8000_0000 <==> r % 2 == 1)
  {
    WordIsPower();
    if r % 2 == 1 {
      XorWord(r / 2, REVERSED);
      XorSetsTop(r / 2, REVERSED, 31);
    }
  }

  lemma ShiftInjective(r: nat, r': nat)
    requires r < WORD && r' < WORD && Shift(r) == Shift(r')
    ensures r == r'
  {
    ShiftBounds(r);
    ShiftBounds(r');
    if r % 2 == 1 {
      XorCancels(r / 2, r' / 2, REVERSED);
    }
  }

  lemma {:induction false} ShiftsBound(r: nat, n: nat)
    requires r < WORD
    ensures Shifts(r, n) < WORD
  {
    if n > 0 {
      ShiftsBound(r, n - 1);
      ShiftBounds(Shifts(r, n - 1));
    }
  }

  lemma {:induction false} ShiftsInjective(r: nat, r': nat, n: nat)
    requires r < WORD && r' < WORD && Shifts(r, n) == Shifts(r', n)
    ensures r == r'
  {
    if n > 0 {
      ShiftsBound(r, n - 1);
      ShiftsBound(r', n - 1);
      ShiftInjective(Shifts(r, n - 1), Shifts(r', n - 1));
      ShiftsInjective(r, r', n - 1);
    }
  }

  lemma StepBound(r: nat, b: Byte)
    requires r < WORD
    ensures CRC32.step(r, b) < WORD
  {
    XorWord(r, b);
    ShiftsBound(Xor(r, b), 8);
  }

  lemma StepKeepsRemainder(r: nat, r': nat, b: Byte)
    requires r < WORD && r' < WORD && CRC32.step(r, b) == CRC32.step(r', b)
    ensures r == r'
  {
    XorWord(r, b);
    XorWord(r', b);
    ShiftsInjective(Xor(r, b), Xor(r', b), 8);
    XorCancels(r, r', b);
  }

  lemma StepKeepsByte(r: nat, b: Byte, b': Byte)
    requires r < WORD && CRC32.step(r, b) == CRC32.step(r, b')
    ensures b == b'
  {
    XorWord(r, b);
    XorWord(r, b');
    ShiftsInjective(Xor(r, b), Xor(r, b'), 8);
    XorCommutes(r, b);
    XorCommutes(r, b');
    XorCancels(b, b', r);
  }

  /** So no single altered byte escapes CRC-32. */
  lemma Crc32IsSensitive()
    ensures Sensitive(CRC32)
  {
    forall r: nat, b: Byte | r < WORD
      ensures CRC32.step(r, b) < WORD
    {
      StepBound(r, b);
    }
    forall r: nat, r': nat, b: Byte | r < WORD && r' < WORD && CRC32.step(r, b) == CRC32.step(r', b)
      ensures r == r'
    {
      StepKeepsRemainder(r, r', b);
    }
    forall r: nat, b: Byte, b': Byte | r < WORD && CRC32.step(r, b) == CRC32.step(r, b')
      ensures b == b'
    {
      StepKeepsByte(r, b, b');
    }
    forall r: nat | r < WORD
      ensures CRC32.finish(r) < WORD
    {
      XorWord(r, ALL_ONES);
    }
    forall r: nat, r': nat | r < WORD && r' < WORD && CRC32.finish(r) == CRC32.finish(r')
      ensures r == r'
    {
      XorCancels(r, r', ALL_ONES);
    }
  }
}
