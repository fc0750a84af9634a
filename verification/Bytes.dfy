/** Byte strings and the base-256 encodings used on the wire and by the hashes. */
module Bytes {
  import opened Numbers

  type Byte = n: int | 0 <= n < 256

  /** The output of SHA-1 and HMAC-SHA-1. */
  type Digest = s: seq<Byte> | |s| == 20 witness seq(20, _ => 0)

  datatype Option<+T> = None | Some(value: T)

  datatype Result<+T> = Success(value: T) | Failure

  function Reverse<T>(s: seq<T>): (r: seq<T>)
    ensures |r| == |s| && forall i :: 0 <= i < |s| ==> r[i] == s[|s| - 1 - i]
  {
    seq(|s|, i requires 0 <= i < |s| => s[|s| - 1 - i])
  }

  lemma ReverseConcat<T>(a: seq<T>, b: seq<T>)
    ensures Reverse(a + b) == Reverse(b) + Reverse(a)
  {
  }

  lemma ReverseTwice<T>(s: seq<T>)
    ensures Reverse(Reverse(s)) == s
  {
  }

  function Flatten<T>(ss: seq<seq<T>>): seq<T>
  {
    if ss == [] then [] else ss[0] + Flatten(ss[1..])
  }

  lemma TakeSnoc<T>(s: seq<T>, i: nat)
    requires i < |s|
    ensures s[..i + 1] == s[..i] + [s[i]]
  {
  }

  lemma InitOfTake<T>(s: seq<T>, i: nat)
    requires i < |s|
    ensures s[..i + 1][..i] == s[..i] && s[..i + 1][i] == s[i]
  {
  }

  lemma ConcatFirst<T>(a: seq<T>, b: seq<T>)
    requires a != []
    ensures (a + b)[0] == a[0] && (a + b)[1..] == a[1..] + b
  {
  }

  lemma AppendNothing<T>(s: seq<T>)
    ensures s + [] == s
  {
  }

  lemma Associate<T>(a: seq<T>, b: seq<T>, c: seq<T>)
    ensures a + (b + c) == (a + b) + c
  {
  }

  lemma {:induction false} FlattenConcat<T>(a: seq<seq<T>>, b: seq<seq<T>>)
    ensures Flatten(a + b) == Flatten(a) + Flatten(b)
  {
    if a == [] {
      assert a + b == b;
    } else {
      FlattenConcat(a[1..], b);
      ConcatFirst(a, b);
      Associate(a[0], Flatten(a[1..]), Flatten(b));
    }
  }

  lemma FlattenSnoc<T>(ss: seq<seq<T>>, s: seq<T>)
    ensures Flatten(ss + [s]) == Flatten(ss) + s
  {
    FlattenConcat(ss, [s]);
    assert [s][1..] == [];
  }

  function XorByte(a: Byte, b: Byte): Byte
  {
    PowEight();
    XorBound(a, b, 8);
    Xor(a, b)
  }

  lemma PowEight()
    ensures Pow(2, 8) == 256
  {
    assert Pow(2, 4) == 16;
    PowAdd(2, 4, 4);
  }

  /** Bounds of the unsigned integer widths. */
  lemma WordBounds()
    ensures Pow(256, 2) == 0x1_0000
    ensures Pow(256, 4) == 0x1_0000_0000
    ensures Pow(256, 8) == 0x1_0000_0000_0000_0000
  {
    assert Pow(256, 2) == 256 * (256 * Pow(256, 0));
    PowAdd(256, 2, 2);
    PowAdd(256, 4, 4);
  }

  // ---------------------------------------------------------------- little-endian

  /** The number a little-endian byte string denotes. */
  function LeValue(s: seq<Byte>): nat
  {
    if s == [] then 0 else s[0] + 256 * LeValue(s[1..])
  }

  /** The low `width` bytes of n, least significant first: an integer's image in memory. */
  function LeBytes(n: nat, width: nat): (s: seq<Byte>)
    ensures |s| == width
  {
    if width == 0 then [] else [n % 256] + LeBytes(n / 256, width - 1)
  }

  lemma {:induction false} LeBytesValue(n: nat, width: nat)
    requires n < Pow(256, width)
    ensures LeValue(LeBytes(n, width)) == n
  {
    if width > 0 {
      LeBytesValue(n / 256, width - 1);
      assert LeBytes(n, width)[1..] == LeBytes(n / 256, width - 1);
    }
  }

  lemma LeastDigit(c: Byte, v: nat)
    ensures (c + 256 * v) % 256 == c && (c + 256 * v) / 256 == v
  {
  }

  lemma LeBytesStep(c: Byte, v: nat, width: nat)
    ensures LeBytes(c + 256 * v, width + 1) == [c] + LeBytes(v, width)
  {
    LeastDigit(c, v);
  }

  lemma {:induction false} LeValueBytes(s: seq<Byte>)
    ensures LeBytes(LeValue(s), |s|) == s
  {
    if s != [] {
      LeValueBytes(s[1..]);
      LeBytesStep(s[0], LeValue(s[1..]), |s| - 1);
      assert s == [s[0]] + s[1..];
    }
  }

  /** Byte i of the image is digit i to the base 256. */
  lemma {:induction false} LeBytesDigit(n: nat, width: nat, i: nat)
    requires i < width
    ensures Pow(256, i) > 0 && LeBytes(n, width)[i] == n / Pow(256, i) % 256
  {
    PowPositive(256, i);
    if i > 0 {
      LeBytesDigit(n / 256, width - 1, i - 1);
      PowPositive(256, i - 1);
      DivideTwice(n, 256, Pow(256, i - 1));
    }
  }

  lemma DivideTwice(n: nat, a: nat, b: nat)
    requires a > 0 && b > 0
    ensures a * b > 0 && n / a / b == n / (a * b)
  {
    var m, r := n / a, n % a;
    var q, t := m / b, m % b;
    SplitTwice(n, a, b, m, r, q, t);
    QuotientUnique(n, q, t * a + r, a * b);
  }

  lemma SplitTwice(n: nat, a: nat, b: nat, m: nat, r: nat, q: nat, t: nat)
    requires r < a && t < b && n == m * a + r && m == q * b + t
    ensures 0 <= t * a + r < a * b && n == q * (a * b) + (t * a + r)
  {
    assert (q * b + t) * a == q * (a * b) + t * a;
    MonotonicTimes(t, b - 1, a);
    assert (b - 1) * a == a * b - a;
    MonotonicTimes(0, t, a);
  }

  lemma MonotonicTimes(x: nat, y: nat, a: nat)
    requires x <= y
    ensures x * a <= y * a
  {
    assert (y - x) * a >= 0;
  }

  lemma QuotientUnique(n: nat, q: nat, r: nat, d: nat)
    requires r < d && n == q * d + r
    ensures n / d == q
  {
    ResidueUnique(n, q, r, d);
    assert (n / d) * d == q * d;
    var k := n / d - q;
    assert k * d == 0;
    MultipleGrows(k, d);
  }

  /** Strings of one length that denote the same number are equal, in both byte orders. */
  lemma {:induction false} LeValueInjective(s: seq<Byte>, t: seq<Byte>)
    requires |s| == |t| && LeValue(s) == LeValue(t)
    ensures s == t
  {
    LeValueBytes(s);
    LeValueBytes(t);
  }

  lemma BeValueInjective(s: seq<Byte>, t: seq<Byte>)
    requires |s| == |t| && BeValue(s) == BeValue(t)
    ensures s == t
  {
    ReverseTwice(s);
    ReverseTwice(t);
    BeValueReverse(Reverse(s));
    BeValueReverse(Reverse(t));
    LeValueInjective(Reverse(s), Reverse(t));
  }

  // ------------------------------------------------------------------- big-endian

  /** The number a big-endian byte string denotes (`BigInt::decode`). */
  function BeValue(s: seq<Byte>): nat
  {
    if s == [] then 0 else BeValue(s[..|s| - 1]) * 256 + s[|s| - 1]
  }

  /** Minimal big-endian bytes (`BigInt::encode`); zero has none. */
  function Encode(n: nat): seq<Byte>
  {
    if n == 0 then [] else Encode(n / 256) + [n % 256]
  }

  lemma BeValueSnoc(s: seq<Byte>, c: Byte)
    ensures BeValue(s + [c]) == BeValue(s) * 256 + c
  {
    assert (s + [c])[..|s|] == s;
  }

  lemma {:induction false} BeValueReverse(s: seq<Byte>)
    ensures BeValue(Reverse(s)) == LeValue(s)
  {
    if s != [] {
      BeValueReverse(s[1..]);
      assert Reverse(s) == Reverse(s[1..]) + [s[0]];
      BeValueSnoc(Reverse(s[1..]), s[0]);
    }
  }

  lemma {:induction false} BeValueEncode(n: nat)
    ensures BeValue(Encode(n)) == n
  {
    if n != 0 {
      BeValueEncode(n / 256);
      BeValueSnoc(Encode(n / 256), n % 256);
    }
  }

  function TrimLeadingZeros(s: seq<Byte>): seq<Byte>
  {
    if s != [] && s[0] == 0 then TrimLeadingZeros(s[1..]) else s
  }

  /** What trimming leaves is the suffix from the first nonzero byte on. */
  lemma {:induction false} TrimIsSuffix(s: seq<Byte>)
    ensures |TrimLeadingZeros(s)| <= |s|
    ensures s == Zeros(|s| - |TrimLeadingZeros(s)|) + TrimLeadingZeros(s)
    ensures TrimLeadingZeros(s) != [] ==> TrimLeadingZeros(s)[0] != 0
  {
    if s != [] && s[0] == 0 {
      TrimIsSuffix(s[1..]);
      assert s == [0] + s[1..];
    }
  }

  lemma {:induction false} TrimSnoc(s: seq<Byte>, c: Byte)
    ensures TrimLeadingZeros(s + [c]) ==
            if TrimLeadingZeros(s) != [] then TrimLeadingZeros(s) + [c] else if c == 0 then [] else [c]
  {
    if s == [] {
      assert s + [c] == [c];
    } else if s[0] == 0 {
      TrimSnoc(s[1..], c);
      assert (s + [c])[1..] == s[1..] + [c];
    }
  }

  lemma {:induction false} TrimEmptyIffZero(s: seq<Byte>)
    ensures TrimLeadingZeros(s) == [] <==> BeValue(s) == 0
  {
    if s != [] {
      var t, c := s[..|s| - 1], s[|s| - 1];
      assert s == t + [c];
      TrimEmptyIffZero(t);
      TrimSnoc(t, c);
    }
  }

  /** Encoding what a byte string denotes drops exactly its leading zero bytes. */
  lemma {:induction false} EncodeBeValue(s: seq<Byte>)
    ensures Encode(BeValue(s)) == TrimLeadingZeros(s)
  {
    if s != [] {
      var t, c := s[..|s| - 1], s[|s| - 1];
      assert s == t + [c];
      EncodeBeValue(t);
      TrimSnoc(t, c);
      TrimEmptyIffZero(t);
      var v := BeValue(t);
      assert (v * 256 + c) / 256 == v && (v * 256 + c) % 256 == c;
    }
  }

  function Zeros(n: nat): (s: seq<Byte>)
    ensures |s| == n && forall i :: 0 <= i < n ==> s[i] == 0
  {
    seq(n, _ => 0)
  }

  lemma {:induction false} BeValueLeadingZeros(k: nat, s: seq<Byte>)
    ensures BeValue(Zeros(k) + s) == BeValue(s)
  {
    if s == [] {
      assert Zeros(k) + s == Zeros(k);
      if k > 0 {
        BeValueLeadingZeros(k - 1, s);
        assert Zeros(k) == Zeros(k - 1) + [0] && Zeros(k - 1) + s == Zeros(k - 1);
        BeValueSnoc(Zeros(k - 1), 0);
      }
    } else {
      var t, c := s[..|s| - 1], s[|s| - 1];
      BeValueLeadingZeros(k, t);
      assert Zeros(k) + s == (Zeros(k) + t) + [c] && s == t + [c];
      BeValueSnoc(Zeros(k) + t, c);
    }
  }

  /** `BigInt::encode_1363`: exactly `width` bytes, or an error when n needs more. */
  function Encode1363(n: nat, width: nat): Result<seq<Byte>>
  {
    var e := Encode(n);
    if |e| > width then Failure else Success(Zeros(width - |e|) + e)
  }

  lemma {:induction false} EncodeLength(n: nat, width: nat)
    ensures |Encode(n)| <= width <==> n < Pow(256, width)
  {
    if n == 0 {
      PowPositive(256, width);
    } else if width > 0 {
      EncodeLength(n / 256, width - 1);
    }
  }
}
