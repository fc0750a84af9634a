/** One-time passwords: src/libs/cryptography/OTP.cpp. */
module Otp {
  import opened Numbers
  import opened Bytes
  import opened Decimal

  /** Integers up to here pass unchanged through the `double` of `std::floor`. */
  const EXACT_IN_DOUBLE := 0x20_0000_0000_0000

  const COUNTERS := 0x1_0000_0000_0000_0000

  /** HMAC-SHA-1 under the decoded key: any function from texts to 20 bytes. */
  type Hmac = seq<Byte> -> Digest

  // -------------------------------------------------------------------- truncation

  /** The low four bits of the last byte. */
  function Offset(hash: Digest): (offset: nat)
    ensures offset <= 15
  {
    NibbleMask(hash[19]);
    And(hash[19], 0x0F)
  }

  lemma NibbleMask(b: Byte)
    ensures And(b, 0x0F) == b % 16
  {
    assert Pow(2, 4) == 16;
    MaskIsResidue(b, 4);
  }

  /** Four masked bytes, shifted left by 24, 16, 8 and 0 bits and or-ed together. */
  function Assemble(a: Byte, b: Byte, c: Byte, d: Byte): nat
  {
    Or(Or(Or(And(a, 0x7f) * 0x100_0000, And(b, 0xff) * 0x1_0000), And(c, 0xff) * 0x100), And(d, 0xff))
  }

  function Binary(hash: Digest): nat
  {
    var offset := Offset(hash);
    Assemble(hash[offset], hash[offset + 1], hash[offset + 2], hash[offset + 3])
  }

  lemma PowersOfTwo()
    ensures Pow(2, 7) == 0x80 && Pow(2, 8) == 0x100 && Pow(2, 16) == 0x1_0000 && Pow(2, 24) == 0x100_0000
  {
    PowEight();
    assert Pow(2, 8) == 2 * Pow(2, 7);
    PowAdd(2, 8, 8);
    PowAdd(2, 16, 8);
  }

  function Word(a: nat, b: nat, c: nat, d: nat): nat
  {
    a * 0x100_0000 + b * 0x1_0000 + c * 0x100 + d
  }

  lemma OrOfBytes(a: nat, b: nat, c: nat, d: nat)
    requires a < 128 && b < 256 && c < 256 && d < 256
    ensures Or(Or(Or(a * 0x100_0000, b * 0x1_0000), c * 0x100), d) == Word(a, b, c, d)
  {
    PowersOfTwo();
    OrDisjoint(a, b * 0x1_0000, 24);
    OrDisjoint(a * 0x100 + b, c * 0x100, 16);
    OrDisjoint((a * 0x100 + b) * 0x100 + c, d, 8);
  }

  lemma BeValueOfFour(s: seq<Byte>)
    requires |s| == 4
    ensures BeValue(s) == Word(s[0], s[1], s[2], s[3])
  {
    assert s == [] + [s[0]] + [s[1]] + [s[2]] + [s[3]];
    BeValueSnoc([], s[0]);
    BeValueSnoc([] + [s[0]], s[1]);
    BeValueSnoc([] + [s[0]] + [s[1]], s[2]);
    BeValueSnoc([] + [s[0]] + [s[1]] + [s[2]], s[3]);
  }

  /** Dynamic truncation, section 5.3 of RFC 4226: the four bytes at the offset given by the
      low nibble of the last byte, read big-endian, less the top bit. */
  function Truncated(hash: Digest): nat
  {
    var offset := hash[19] % 16;
    BeValue(hash[offset..offset + 4]) % 0x8000_0000
  }

  lemma BinaryIsTruncation(hash: Digest)
    ensures Binary(hash) == Truncated(hash) < 0x8000_0000
  {
    var offset := Offset(hash);
    NibbleMask(hash[19]);
    AssembleIsWord(hash[offset], hash[offset + 1], hash[offset + 2], hash[offset + 3]);
    BeValueOfFour(hash[offset..offset + 4]);
  }

  lemma AssembleIsWord(a: Byte, b: Byte, c: Byte, d: Byte)
    ensures Assemble(a, b, c, d) == Word(a, b, c, d) % 0x8000_0000
  {
    SevenBits(a);
    EightBits(b);
    EightBits(c);
    EightBits(d);
    OrOfBytes(a % 128, b, c, d);
    WordModulo(a, b, c, d);
  }

  lemma SevenBits(b: Byte)
    ensures And(b, 0x7f) == b % 128
  {
    PowersOfTwo();
    LowBits(b, 7, 0x7f);
  }

  lemma EightBits(b: Byte)
    ensures And(b, 0xff) == b
  {
    PowersOfTwo();
    AllBits(b, 8, 0xff);
  }

  lemma AllBits(n: nat, k: nat, mask: nat)
    requires n <= mask && mask + 1 == Pow(2, k)
    ensures And(n, mask) == n
  {
    LowBits(n, k, mask);
    ResidueUnique(n, 0, n, mask + 1);
  }

  lemma LowBits(n: nat, k: nat, mask: nat)
    requires mask + 1 == Pow(2, k)
    ensures And(n, mask) == n % (mask + 1)
  {
    MaskIsResidue(n, k);
  }

  lemma WordModulo(a: Byte, b: Byte, c: Byte, d: Byte)
    ensures Word(a, b, c, d) % 0x8000_0000 == Word(a % 128, b, c, d)
  {
    ResidueUnique(Word(a, b, c, d), a / 128, Word(a % 128, b, c, d), 0x8000_0000);
  }

  // -------------------------------------------------------------------------- HOTP

  const DIGITS_POWER: seq<nat> := [1, 10, 100, 1000, 10000, 100000, 1000000, 10000000, 100000000]

  lemma {:induction false} DigitsPowerIsPower(digits: nat)
    requires digits < |DIGITS_POWER|
    ensures DIGITS_POWER[digits] == Pow(10, digits)
  {
    if digits > 0 {
      DigitsPowerIsPower(digits - 1);
    }
  }

  function Pad(s: string, digits: nat): string
    decreases digits - |s|
  {
    if |s| < digits then Pad("0" + s, digits) else s
  }

  lemma {:induction false} PadValue(s: string, digits: nat)
    requires IsNumeral(s) && |s| <= digits
    ensures |Pad(s, digits)| == digits && IsNumeral(Pad(s, digits)) && NumeralValue(Pad(s, digits)) == NumeralValue(s)
    decreases digits - |s|
  {
    if |s| < digits {
      LeadingZero(s);
      PadValue("0" + s, digits);
    }
  }

  function TenTo(digits: nat): (p: nat)
    ensures p > 0
  {
    PowPositive(10, digits);
    Pow(10, digits)
  }

  /** The counter as eight big-endian bytes. */
  function CounterText(counter: nat): seq<Byte>
  {
    Reverse(LeBytes(counter, 8))
  }

  function Hotp(hmac: Hmac, counter: nat, digits: nat): string
  {
    Pad(ToString(Truncated(hmac(CounterText(counter))) % TenTo(digits)), digits)
  }

  method Generate(hmac: Hmac, counter: nat, digits: nat) returns (result: string)
    requires digits < |DIGITS_POWER|
    ensures result == Hotp(hmac, counter, digits)
  {
    var text := LeBytes(counter, 8);
    text := Reverse(text);
    var hash := hmac(text);
    var binary := Binary(hash);
    BinaryIsTruncation(hash);
    DigitsPowerIsPower(digits);
    result := ToString(binary % DIGITS_POWER[digits]);
    ghost var full := Pad(result, digits);
    while |result| < digits
      invariant Pad(result, digits) == full
      decreases digits - |result|
    {
      result := "0" + result;
    }
  }

  /** For a positive number of digits the code has exactly that many, and denotes the truncated HMAC of the
      big-endian counter modulo that power of ten. */
  lemma HotpFollowsRfc4226(hmac: Hmac, counter: nat, digits: nat)
    requires digits > 0 && counter < COUNTERS
    ensures var code := Hotp(hmac, counter, digits);
            var text := CounterText(counter);
            && |text| == 8 && BeValue(text) == counter
            && |code| == digits && IsNumeral(code)
            && NumeralValue(code) == Truncated(hmac(text)) % TenTo(digits)
  {
    WordBounds();
    LeBytesValue(counter, 8);
    BeValueReverse(LeBytes(counter, 8));
    PaddedNumeral(Truncated(hmac(CounterText(counter))) % TenTo(digits), digits);
  }

  lemma PaddedNumeral(n: nat, digits: nat)
    requires digits > 0 && n < Pow(10, digits)
    ensures var s := Pad(ToString(n), digits);
            |s| == digits && IsNumeral(s) && NumeralValue(s) == n
  {
    ToStringValue(n);
    ToStringLength(n, digits);
    PadValue(ToString(n), digits);
  }

  // -------------------------------------------------------------------------- TOTP

  /** C++ integer division truncates towards zero. */
  function Quotient(a: int, b: int): int
    requires b != 0
  {
    if a >= 0 then a / b else -((-a) / b)
  }

  function Totp(hmac: Hmac, now: int, start: int, step: int, digits: nat): string
    requires step != 0
  {
    Hotp(hmac, Quotient(now - start, step) % COUNTERS, digits)
  }

  /** The code of the step i steps away from `now`. */
  function WindowCode(hmac: Hmac, now: nat, i: int, digits: nat): string
  {
    Hotp(hmac, (now / 30 + i) % COUNTERS, digits)
  }

  /** The code of the step before, at or after `now`. */
  predicate Acceptable(hmac: Hmac, code: string, now: nat)
  {
    || code == WindowCode(hmac, now, -1, |code|)
    || code == WindowCode(hmac, now, 0, |code|)
    || code == WindowCode(hmac, now, 1, |code|)
  }

  /** The three codes by their counters: the step before wraps around at time 0. */
  lemma AcceptableCodes(hmac: Hmac, code: string, now: nat)
    requires now / 30 < EXACT_IN_DOUBLE
    ensures Acceptable(hmac, code, now) <==>
            || code == Hotp(hmac, (now / 30 + COUNTERS - 1) % COUNTERS, |code|)
            || code == Hotp(hmac, now / 30, |code|)
            || code == Hotp(hmac, now / 30 + 1, |code|)
  {
    WindowCodes(hmac, now, |code|);
  }

  lemma WindowCodes(hmac: Hmac, now: nat, digits: nat)
    requires now / 30 < EXACT_IN_DOUBLE
    ensures WindowCode(hmac, now, -1, digits) == Hotp(hmac, (now / 30 + COUNTERS - 1) % COUNTERS, digits)
    ensures WindowCode(hmac, now, 0, digits) == Hotp(hmac, now / 30, digits)
    ensures WindowCode(hmac, now, 1, digits) == Hotp(hmac, now / 30 + 1, digits)
  {
    WindowCounters(now / 30);
  }

  lemma WindowCounters(step: nat)
    requires step < EXACT_IN_DOUBLE
    ensures (step - 1) % COUNTERS == (step + COUNTERS - 1) % COUNTERS
    ensures step % COUNTERS == step && (step + 1) % COUNTERS == step + 1
  {
  }

  /** None for a code longer than the table of powers reaches: the code reads past its end then. */
  method Validate(hmac: Hmac, code: string, now: nat) returns (ok: Option<bool>)
    requires now / 30 < EXACT_IN_DOUBLE
    ensures ok.None? <==> |code| > 8
    ensures ok == Some(true) <==>
            |code| <= 8
            && (|| code == Hotp(hmac, (now / 30 + COUNTERS - 1) % COUNTERS, |code|)
                || code == Hotp(hmac, now / 30, |code|)
                || code == Hotp(hmac, now / 30 + 1, |code|))
  {
    if |code| >= |DIGITS_POWER| {
      return None;
    }
    var found := TryWindow(hmac, code, now);
    AcceptableCodes(hmac, code, now);
    ok := Some(found);
  }

  /** The loop. */
  method TryWindow(hmac: Hmac, code: string, now: nat) returns (ok: bool)
    requires |code| < |DIGITS_POWER|
    ensures ok <==> Acceptable(hmac, code, now)
  {
    var i := -1;
    while i < 2
      invariant -1 <= i <= 2
      invariant i > -1 ==> code != WindowCode(hmac, now, -1, |code|)
      invariant i > 0 ==> code != WindowCode(hmac, now, 0, |code|)
      invariant i > 1 ==> code != WindowCode(hmac, now, 1, |code|)
    {
      var step := (now / 30 + i) % COUNTERS;
      var current := Generate(hmac, step, |code|);
      assert current == WindowCode(hmac, now, i, |code|);
      if code == current {
        return true;
      }
      i := i + 1;
    }
    ok := false;
  }

  /** Only a request for no digits at all is not met: it yields "0". */
  lemma HotpLength(hmac: Hmac, counter: nat, digits: nat)
    ensures |Hotp(hmac, counter, digits)| == digits <==> digits > 0
    ensures digits == 0 ==> Hotp(hmac, counter, digits) == "0"
  {
    if digits > 0 {
      PaddedNumeral(Truncated(hmac(CounterText(counter))) % TenTo(digits), digits);
    } else {
      assert TenTo(digits) == 1;
    }
  }

  lemma TotpIsWindowCode(hmac: Hmac, t: nat, now: nat, digits: nat)
    ensures Totp(hmac, t, 0, 30, digits) == WindowCode(hmac, now, t / 30 - now / 30, digits)
  {
    assert now / 30 + (t / 30 - now / 30) == Quotient(t - 0, 30);
  }

  lemma NeighbourStep(t: nat, now: nat)
    requires -30 <= t - now <= 30
    ensures t / 30 - now / 30 == -1 || t / 30 - now / 30 == 0 || t / 30 - now / 30 == 1
  {
  }

  /** A code generated for time t with start 0 and step 30 is accepted at
      every time at most 30 seconds before or after. */
  lemma CodeAcceptedWithin30Seconds(hmac: Hmac, t: nat, now: nat, digits: nat)
    requires digits > 0
    requires -30 <= t - now <= 30
    ensures var code := Totp(hmac, t, 0, 30, digits);
            |code| == digits && Acceptable(hmac, code, now)
  {
    var i := t / 30 - now / 30;
    NeighbourStep(t, now);
    TotpIsWindowCode(hmac, t, now, digits);
    WindowCodeLength(hmac, now, i, digits);
  }

  lemma WindowCodeLength(hmac: Hmac, now: nat, i: int, digits: nat)
    requires digits > 0
    ensures |WindowCode(hmac, now, i, digits)| == digits
  {
    HotpLength(hmac, (now / 30 + i) % COUNTERS, digits);
  }

  // ------------------------------------------------------------- what is not accepted

  ghost predicate CodeNear(hmac: Hmac, code: string, now: nat, t: nat)
  {
    -1 <= t / 30 - now / 30 <= 1 && code == Totp(hmac, t, 0, 30, |code|)
  }

  /** From the second step on, a code is accepted exactly if it is the one generated, with start 0 and
      step 30, for some time in the step of now or one next to it. */
  lemma AcceptedIffNear(hmac: Hmac, code: string, now: nat)
    requires 30 <= now && now / 30 < EXACT_IN_DOUBLE
    ensures Acceptable(hmac, code, now) <==> exists t: nat :: CodeNear(hmac, code, now, t)
  {
    if Acceptable(hmac, code, now) {
      var t := TimeOfCode(hmac, code, now);
    }
    if t: nat :| CodeNear(hmac, code, now, t) {
      NearIsAcceptable(hmac, code, now, t);
    }
  }

  lemma TimeOfCode(hmac: Hmac, code: string, now: nat) returns (t: nat)
    requires 30 <= now && now / 30 < EXACT_IN_DOUBLE && Acceptable(hmac, code, now)
    ensures CodeNear(hmac, code, now, t)
  {
    var i := if code == WindowCode(hmac, now, -1, |code|) then -1
             else if code == WindowCode(hmac, now, 0, |code|) then 0 else 1;
    t := (now / 30 + i) * 30;
    TotpIsWindowCode(hmac, t, now, |code|);
  }

  lemma NearIsAcceptable(hmac: Hmac, code: string, now: nat, t: nat)
    requires CodeNear(hmac, code, now, t)
    ensures Acceptable(hmac, code, now)
  {
    TotpIsWindowCode(hmac, t, now, |code|);
  }

  /** A text with a character that is no digit is refused at every time. */
  lemma NonNumeralRefused(hmac: Hmac, code: string, now: nat)
    requires now / 30 < EXACT_IN_DOUBLE && !IsNumeral(code)
    ensures !Acceptable(hmac, code, now)
  {
    AcceptableCodes(hmac, code, now);
    HotpIsNumeral(hmac, (now / 30 + COUNTERS - 1) % COUNTERS, |code|);
    HotpIsNumeral(hmac, now / 30, |code|);
    HotpIsNumeral(hmac, now / 30 + 1, |code|);
  }

  lemma HotpIsNumeral(hmac: Hmac, counter: nat, digits: nat)
    ensures IsNumeral(Hotp(hmac, counter, digits))
  {
    if digits > 0 {
      PaddedNumeral(Truncated(hmac(CounterText(counter))) % TenTo(digits), digits);
    } else {
      HotpLength(hmac, counter, digits);
    }
  }

  /** The empty text is refused at every time, the codes for no digits being "0". */
  lemma EmptyRefused(hmac: Hmac, now: nat)
    requires now / 30 < EXACT_IN_DOUBLE
    ensures !Acceptable(hmac, "", now)
  {
    AcceptableCodes(hmac, "", now);
    HotpLength(hmac, (now / 30 + COUNTERS - 1) % COUNTERS, 0);
    HotpLength(hmac, now / 30, 0);
    HotpLength(hmac, now / 30 + 1, 0);
  }

  /** The code of any step is accepted at most if it equals one of the three current ones: those
      of the truncated HMACs modulo that power of ten. */
  lemma OldCodeAcceptedIffEqual(hmac: Hmac, step: nat, now: nat, digits: nat)
    requires digits > 0 && now / 30 < EXACT_IN_DOUBLE
    ensures var n := Truncated(hmac(CounterText(step))) % TenTo(digits);
            Acceptable(hmac, Hotp(hmac, step, digits), now) <==>
            || n == Truncated(hmac(CounterText((now / 30 + COUNTERS - 1) % COUNTERS))) % TenTo(digits)
            || n == Truncated(hmac(CounterText(now / 30))) % TenTo(digits)
            || n == Truncated(hmac(CounterText(now / 30 + 1))) % TenTo(digits)
  {
    var code := Hotp(hmac, step, digits);
    HotpLength(hmac, step, digits);
    AcceptableCodes(hmac, code, now);
    SameCode(hmac, step, (now / 30 + COUNTERS - 1) % COUNTERS, digits);
    SameCode(hmac, step, now / 30, digits);
    SameCode(hmac, step, now / 30 + 1, digits);
  }

  lemma SameCode(hmac: Hmac, c: nat, d: nat, digits: nat)
    requires digits > 0
    ensures Hotp(hmac, c, digits) == Hotp(hmac, d, digits) <==>
            Truncated(hmac(CounterText(c))) % TenTo(digits) == Truncated(hmac(CounterText(d))) % TenTo(digits)
  {
    PaddedNumeral(Truncated(hmac(CounterText(c))) % TenTo(digits), digits);
    PaddedNumeral(Truncated(hmac(CounterText(d))) % TenTo(digits), digits);
  }

  /** The counter of a time-based code: the whole steps since the start, modulo 2^64; before the start,
      the whole steps until it, negated. */
  lemma TotpCounter(hmac: Hmac, start: int, step: int, digits: nat, k: int, rest: nat)
    requires k >= 0 && rest < step
    ensures Totp(hmac, start + (k * step + rest), start, step, digits) == Hotp(hmac, k % COUNTERS, digits)
    ensures Totp(hmac, start - (k * step + rest), start, step, digits) == Hotp(hmac, (-k) % COUNTERS, digits)
  {
    var d := k * step + rest;
    assert d >= 0 by { MonotonicTimes(0, k, step); }
    QuotientUnique(d, k, rest, step);
    assert Quotient(d, step) == k;
    assert Quotient(-d, step) == -k;
  }

  const EXAMPLE: Digest := [0x1f, 0x86, 0x98, 0x69, 0x0e, 0x02, 0xca, 0x16, 0x61, 0x85,
                            0x50, 0xef, 0x7f, 0x19, 0xda, 0x8e, 0x94, 0x5b, 0x55, 0x5a]

  /** The example of section 5.4 of RFC 4226. */
  lemma TruncationExample()
    ensures Truncated(EXAMPLE) == 0x50ef7f19
  {
    assert EXAMPLE[10..14] == [0x50, 0xef, 0x7f, 0x19];
    BeValueOfFour(EXAMPLE[10..14]);
  }

  lemma CodeExample(hmac: Hmac, counter: nat)
    requires hmac(CounterText(counter)) == EXAMPLE
    ensures IsNumeral(Hotp(hmac, counter, 6)) && NumeralValue(Hotp(hmac, counter, 6)) == 872921
  {
    TruncationExample();
    SixDigits();
    PaddedNumeral(872921, 6);
  }

  lemma SixDigits()
    ensures TenTo(6) == 1000000 && 0x50ef7f19 % TenTo(6) == 872921
  {
    DigitsPowerIsPower(6);
  }
}
