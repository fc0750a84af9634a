/** Powers, residues and bit operations on unbounded naturals. */
module Numbers {

  function Pow(b: int, e: nat): int
  {
    if e == 0 then 1 else b * Pow(b, e - 1)
  }

  lemma {:induction false} PowPositive(b: int, e: nat)
    requires b > 0
    ensures Pow(b, e) > 0
  {
    if e > 0 {
      PowPositive(b, e - 1);
    }
  }

  lemma {:induction false} PowAdd(b: int, m: nat, n: nat)
    ensures Pow(b, m + n) == Pow(b, m) * Pow(b, n)
  {
    if m > 0 {
      PowAdd(b, m - 1, n);
      assert Pow(b, m + n) == b * Pow(b, (m - 1) + n);
      assert b * (Pow(b, m - 1) * Pow(b, n)) == (b * Pow(b, m - 1)) * Pow(b, n);
    }
  }

  lemma {:induction false} PowPow(b: int, m: nat, n: nat)
    ensures Pow(Pow(b, m), n) == Pow(b, m * n)
  {
    if n == 0 {
      assert m * n == 0;
    } else {
      PowPow(b, m, n - 1);
      assert m * n == m + m * (n - 1);
      PowAdd(b, m, m * (n - 1));
    }
  }

  /** Two integers with the same Euclidean residue. */
  ghost predicate Congruent(a: int, b: int, n: int)
    requires n > 0
  {
    a % n == b % n
  }

  lemma MultipleGrows(d: int, n: int)
    requires n > 0
    ensures d >= 1 ==> d * n >= n
    ensures d <= -1 ==> d * n <= -n
  {
    if d >= 1 {
      assert (d - 1) * n >= 0;
    } else if d <= -1 {
      assert (-d - 1) * n >= 0;
    }
  }

  lemma ResidueUnique(a: int, q: int, r: int, n: int)
    requires 0 <= r < n && a == q * n + r
    ensures a % n == r
  {
    var d := q - a / n;
    assert a == (a / n) * n + a % n;
    assert d * n == a % n - r;
    MultipleGrows(d, n);
  }

  lemma CongruentByDifference(a: int, b: int, k: int, n: int)
    requires n > 0 && a == b + k * n
    ensures Congruent(a, b, n)
  {
    assert b == (b / n) * n + b % n;
    assert (b / n + k) * n == (b / n) * n + k * n;
    ResidueUnique(a, b / n + k, b % n, n);
  }

  lemma ResidueCongruent(a: int, n: int)
    requires n > 0
    ensures Congruent(a % n, a, n)
  {
    CongruentByDifference(a, a % n, a / n, n);
  }

  lemma DifferenceOfCongruent(a: int, b: int, n: int) returns (k: int)
    requires n > 0 && Congruent(a, b, n)
    ensures a == b + k * n
  {
    k := a / n - b / n;
    assert a == (a / n) * n + a % n && b == (b / n) * n + b % n;
    assert k * n == (a / n) * n - (b / n) * n;
  }

  lemma CongruentSum(a: int, b: int, c: int, d: int, n: int)
    requires n > 0 && Congruent(a, b, n) && Congruent(c, d, n)
    ensures Congruent(a + c, b + d, n)
  {
    var k := DifferenceOfCongruent(a, b, n);
    var l := DifferenceOfCongruent(c, d, n);
    assert (k + l) * n == k * n + l * n;
    CongruentByDifference(a + c, b + d, k + l, n);
  }

  lemma CongruentScale(a: int, b: int, c: int, n: int)
    requires n > 0 && Congruent(a, b, n)
    ensures Congruent(a * c, b * c, n) && Congruent(c * a, c * b, n)
  {
    var k := DifferenceOfCongruent(a, b, n);
    assert (b + k * n) * c == b * c + (k * n) * c;
    assert (k * n) * c == (k * c) * n;
    CongruentByDifference(a * c, b * c, k * c, n);
    assert a * c == c * a && b * c == c * b;
  }

  lemma CongruentProduct(a: int, b: int, c: int, d: int, n: int)
    requires n > 0 && Congruent(a, b, n) && Congruent(c, d, n)
    ensures Congruent(a * c, b * d, n)
  {
    CongruentScale(a, b, c, n);
    CongruentScale(c, d, b, n);
  }

  lemma {:induction false} CongruentPow(a: int, b: int, e: nat, n: int)
    requires n > 0 && Congruent(a, b, n)
    ensures Congruent(Pow(a, e), Pow(b, e), n)
  {
    if e > 0 {
      CongruentPow(a, b, e - 1, n);
      CongruentProduct(a, b, Pow(a, e - 1), Pow(b, e - 1), n);
    }
  }

  ghost predicate Prime(p: int)
  {
    p > 1 && forall d :: 1 < d < p ==> p % d != 0
  }

  /** Euclid's lemma for a reduced factor, by descent on that factor. */
  lemma {:induction false} EuclidReduced(p: int, a: int, b: int)
    requires Prime(p) && 0 < a < p && (a * b) % p == 0
    ensures b % p == 0
    decreases a
  {
    if a == 1 {
      assert a * b == b;
    } else {
      var q, r := p / a, p % a;
      assert p == q * a + r && 0 < r < a;
      var k := DifferenceOfCongruent(a * b, 0, p);
      calc {
        r * b;
        (p - q * a) * b;
        p * b - (q * a) * b;
        { assert (q * a) * b == q * (a * b); }
        p * b - q * (k * p);
        { assert q * (k * p) == (q * k) * p; }
        0 + (b - q * k) * p;
      }
      CongruentByDifference(r * b, 0, b - q * k, p);
      EuclidReduced(p, r, b);
    }
  }

  lemma EuclidLemma(p: int, a: int, b: int)
    requires Prime(p) && (a * b) % p == 0
    ensures a % p == 0 || b % p == 0
  {
    if a % p != 0 {
      ResidueCongruent(a, p);
      CongruentProduct(a % p, a, b, b, p);
      EuclidReduced(p, a % p, b);
    }
  }

  /** A prime divides a positive power exactly when it divides the base. */
  lemma {:induction false} PrimeDividesPower(p: int, b: int, e: nat)
    requires Prime(p)
    ensures Pow(b, e) % p == 0 <==> e > 0 && b % p == 0
  {
    if e == 0 {
      assert 1 % p == 1 by { ResidueUnique(1, 0, 1, p); }
    } else {
      PrimeDividesPower(p, b, e - 1);
      if Pow(b, e) % p == 0 {
        EuclidLemma(p, b, Pow(b, e - 1));
      }
      if b % p == 0 {
        CongruentProduct(b, 0, Pow(b, e - 1), Pow(b, e - 1), p);
      }
    }
  }

  /** Bitwise operations, least significant bit first. */
  function Xor(a: nat, b: nat): nat
    decreases a + b
  {
    if a == 0 && b == 0 then 0 else (if a % 2 == b % 2 then 0 else 1) + 2 * Xor(a / 2, b / 2)
  }

  function And(a: nat, b: nat): nat
    decreases a + b
  {
    if a == 0 && b == 0 then 0 else (if a % 2 == 1 && b % 2 == 1 then 1 else 0) + 2 * And(a / 2, b / 2)
  }

  function Or(a: nat, b: nat): nat
    decreases a + b
  {
    if a == 0 && b == 0 then 0 else (if a % 2 == 1 || b % 2 == 1 then 1 else 0) + 2 * Or(a / 2, b / 2)
  }

  lemma XorBits(a: nat, b: nat)
    ensures Xor(a, b) % 2 == if a % 2 == b % 2 then 0 else 1
    ensures Xor(a, b) / 2 == Xor(a / 2, b / 2)
  {
  }

  lemma {:induction false} XorTwice(a: nat, b: nat)
    ensures Xor(Xor(a, b), b) == a
    decreases a + b
  {
    if a != 0 || b != 0 {
      XorBits(a, b);
      XorTwice(a / 2, b / 2);
      XorBits(Xor(a, b), b);
    }
  }

  lemma {:induction false} XorBound(a: nat, b: nat, k: nat)
    requires a < Pow(2, k) && b < Pow(2, k)
    ensures Xor(a, b) < Pow(2, k)
  {
    if k > 0 {
      XorBound(a / 2, b / 2, k - 1);
    }
  }

  lemma AndOddMask(a: nat, m: nat)
    ensures And(a, 2 * m + 1) == a % 2 + 2 * And(a / 2, m)
  {
  }

  lemma HalveResidue(a: nat, m: nat)
    requires m > 0
    ensures a % (2 * m) == a % 2 + 2 * ((a / 2) % m)
  {
    var q, r := (a / 2) / m, (a / 2) % m;
    assert a / 2 == q * m + r;
    assert 2 * (q * m) == q * (2 * m);
    ResidueUnique(a, q, 2 * r + a % 2, 2 * m);
  }

  /** Masking with k one bits is reduction modulo 2^k. */
  lemma {:induction false} MaskIsResidue(a: nat, k: nat)
    ensures Pow(2, k) > 0 && And(a, Pow(2, k) - 1) == a % Pow(2, k)
    decreases k
  {
    if k == 0 {
      AndZero(a);
    } else {
      PowPositive(2, k - 1);
      var m := Pow(2, k - 1);
      MaskIsResidue(a / 2, k - 1);
      AndOddMask(a, m - 1);
      HalveResidue(a, m);
    }
  }

  lemma {:induction false} AndZero(a: nat)
    ensures And(a, 0) == 0
    decreases a
  {
    if a != 0 {
      AndZero(a / 2);
    }
  }

  /** Or of a multiple of 2^k and a number below 2^k is their sum. */
  lemma {:induction false} OrDisjoint(h: nat, l: nat, k: nat)
    requires l < Pow(2, k)
    ensures h * Pow(2, k) >= 0 && Or(h * Pow(2, k), l) == h * Pow(2, k) + l
    decreases k
  {
    PowPositive(2, k);
    var a := h * Pow(2, k);
    assert a >= 0;
    if k == 0 {
      OrZero(h);
    } else {
      PowPositive(2, k - 1);
      var m := Pow(2, k - 1);
      assert a == 2 * (h * m);
      OrDisjoint(h, l / 2, k - 1);
      assert a / 2 == h * m && a % 2 == 0;
    }
  }

  lemma {:induction false} OrZero(a: nat)
    ensures Or(a, 0) == a
    decreases a
  {
    if a != 0 {
      OrZero(a / 2);
    }
  }
}
