/** What SRP-6 hashes and raises to powers, written out in bytes and numbers, and what that implies. */
module Srp6Bytes {
  import opened Numbers
  import opened Bytes
  import opened Srp6Encoding
  import opened Srp6Interleave
  import opened Srp6

  // ---------------------------------------------------------------------- hashing

  /** The bytes a number is hashed as, and the number a digest is read as. */
  function Image(mode: Compliance, n: nat): seq<Byte>
  {
    if mode.Wow? then Reverse(Encode(n)) else Encode(n)
  }

  function Denoted(mode: Compliance, digest: seq<Byte>): nat
  {
    if mode.Wow? then LeValue(digest) else BeValue(digest)
  }

  lemma ReadDigest(mode: Compliance, digest: seq<Byte>)
    ensures Denoted(mode, digest) == if mode.Wow? then DecodeFlip(digest) else BeValue(digest)
  {
    BeValueReverse(digest);
  }

  /** Of one length, digests that denote the same number are the same. */
  lemma DenotedInjective(mode: Compliance, p: Digest, q: Digest)
    requires Denoted(mode, p) == Denoted(mode, q)
    ensures p == q
  {
    if mode.Wow? {
      LeValueInjective(p, q);
    } else {
      BeValueInjective(p, q);
    }
  }

  lemma HashOfOne(sha: Sha1, mode: Compliance, a: HashInput)
    ensures Sha1Value(sha, mode, [a]) == Denoted(mode, sha(InputBytes(mode, a)))
  {
    assert [a][..0] == [] && [] + InputBytes(mode, a) == InputBytes(mode, a);
    assert AllInputBytes(mode, [a]) == InputBytes(mode, a);
    ReadDigest(mode, sha(InputBytes(mode, a)));
  }

  lemma HashOfTwo(sha: Sha1, mode: Compliance, a: HashInput, b: HashInput)
    ensures Sha1Value(sha, mode, [a, b]) == Denoted(mode, sha(InputBytes(mode, a) + InputBytes(mode, b)))
  {
    assert [a, b][..1] == [a] && [a][..0] == [] && [] + InputBytes(mode, a) == InputBytes(mode, a);
    assert AllInputBytes(mode, [a]) == InputBytes(mode, a);
    ReadDigest(mode, sha(InputBytes(mode, a) + InputBytes(mode, b)));
  }

  lemma HashOfThree(sha: Sha1, mode: Compliance, a: HashInput, b: HashInput, c: HashInput)
    ensures Sha1Value(sha, mode, [a, b, c]) ==
            Denoted(mode, sha(InputBytes(mode, a) + InputBytes(mode, b) + InputBytes(mode, c)))
  {
    assert [a, b, c][..2] == [a, b] && [a, b][..1] == [a] && [a][..0] == [];
    assert AllInputBytes(mode, [a]) == [] + InputBytes(mode, a) == InputBytes(mode, a);
    assert AllInputBytes(mode, [a, b]) == InputBytes(mode, a) + InputBytes(mode, b);
    ReadDigest(mode, sha(InputBytes(mode, a) + InputBytes(mode, b) + InputBytes(mode, c)));
  }

  /** x = H(salt | H(user | ":" | password)), the inner digest being read as a number and encoded
      again, big-endian in the one mode and little-endian in the other. */
  lemma PrivateKeyInBytes(sha: Sha1, user: seq<Byte>, pass: seq<Byte>, salt: nat)
    ensures PrivateKey(sha, Rfc5054, user, pass, salt) ==
            BeValue(sha(Encode(salt) + Encode(BeValue(sha(user + [58] + pass)))))
    ensures PrivateKey(sha, Wow, user, pass, salt) ==
            LeValue(sha(Reverse(Encode(salt)) + Reverse(Encode(LeValue(sha(user + [58] + pass))))))
  {
    PrivateKeyInMode(sha, Rfc5054, user, pass, salt);
    PrivateKeyInMode(sha, Wow, user, pass, salt);
  }

  lemma PrivateKeyInMode(sha: Sha1, mode: Compliance, user: seq<Byte>, pass: seq<Byte>, salt: nat)
    ensures PrivateKey(sha, mode, user, pass, salt) ==
            Denoted(mode, sha(Image(mode, salt) + Image(mode, Denoted(mode, sha(user + [58] + pass)))))
  {
    HashOfThree(sha, mode, Text(user), Text([58]), Text(pass));
    HashOfTwo(sha, mode, Number(salt), Number(Denoted(mode, sha(user + [58] + pass))));
  }

  lemma ImageInjective(mode: Compliance, m: nat, n: nat)
    requires Image(mode, m) == Image(mode, n)
    ensures m == n
  {
    ReverseTwice(Encode(m));
    ReverseTwice(Encode(n));
    BeValueEncode(m);
    BeValueEncode(n);
  }

  /** What the outer hash is taken of. */
  function Outer(sha: Sha1, mode: Compliance, text: seq<Byte>, salt: nat): seq<Byte>
  {
    Image(mode, salt) + Image(mode, Denoted(mode, sha(text)))
  }

  /** Equal private keys for credentials whose texts differ exhibit two different strings with the same
      digest: the texts, or what the outer hash is taken of. */
  lemma SamePrivateKey(sha: Sha1, mode: Compliance, user: seq<Byte>, pass: seq<Byte>,
                       user': seq<Byte>, pass': seq<Byte>, salt: nat)
    requires PrivateKey(sha, mode, user, pass, salt) == PrivateKey(sha, mode, user', pass', salt)
    requires user + [58] + pass != user' + [58] + pass'
    ensures var t, t' := user + [58] + pass, user' + [58] + pass';
            || sha(t) == sha(t')
            || (Outer(sha, mode, t, salt) != Outer(sha, mode, t', salt)
                && sha(Outer(sha, mode, t, salt)) == sha(Outer(sha, mode, t', salt)))
  {
    var t, t' := user + [58] + pass, user' + [58] + pass';
    PrivateKeyInMode(sha, mode, user, pass, salt);
    PrivateKeyInMode(sha, mode, user', pass', salt);
    DenotedInjective(mode, sha(Outer(sha, mode, t, salt)), sha(Outer(sha, mode, t', salt)));
    if Outer(sha, mode, t, salt) == Outer(sha, mode, t', salt) {
      SameSuffix(Image(mode, salt), Image(mode, Denoted(mode, sha(t))), Image(mode, Denoted(mode, sha(t'))));
      ImageInjective(mode, Denoted(mode, sha(t)), Denoted(mode, sha(t')));
      DenotedInjective(mode, sha(t), sha(t'));
    }
  }

  lemma SameSuffix(a: seq<Byte>, x: seq<Byte>, y: seq<Byte>)
    requires a + x == a + y
    ensures x == y
  {
    assert (a + x)[|a|..] == x && (a + y)[|a|..] == y;
  }

  /** The password counts: with one user name, different passwords make different texts. */
  lemma PasswordCounts(sha: Sha1, mode: Compliance, user: seq<Byte>, pass: seq<Byte>, pass': seq<Byte>, salt: nat)
    requires pass != pass' && PrivateKey(sha, mode, user, pass, salt) == PrivateKey(sha, mode, user, pass', salt)
    ensures var t, t' := user + [58] + pass, user + [58] + pass';
            && t != t'
            && (sha(t) == sha(t')
                || (Outer(sha, mode, t, salt) != Outer(sha, mode, t', salt)
                    && sha(Outer(sha, mode, t, salt)) == sha(Outer(sha, mode, t', salt))))
  {
    TextsDiffer(user + [58], pass, pass');
    SamePrivateKey(sha, mode, user, pass, user, pass', salt);
  }

  lemma TextsDiffer(a: seq<Byte>, x: seq<Byte>, y: seq<Byte>)
    requires x != y
    ensures a + x != a + y
  {
    if a + x == a + y {
      SameSuffix(a, x, y);
    }
  }

  /** Upper-casing changes letters only in case, and leaves no lower-case one. */
  lemma UpperHasNoLower(s: seq<Byte>)
    ensures SameUpToCase(s, ToUpper(s)) && forall i :: 0 <= i < |ToUpper(s)| ==> !(97 <= ToUpper(s)[i] <= 122)
  {
  }

  // ------------------------------------------------------------------ the protocol

  lemma PowOfResidue(base: int, exponent: nat, N: nat)
    requires N > 0
    ensures Pow(base % N, exponent) % N == Pow(base, exponent) % N
  {
    ResidueCongruent(base, N);
    CongruentPow(base % N, base, exponent, N);
  }

  /** B = 3v + g^b modulo N. */
  function Blinded(N: nat, g: nat, v: nat, b: nat): nat
    requires N > 0
  {
    (3 * v + Pow(g, b)) % N
  }

  /** The client's S = (B - 3g^x)^(a + ux) modulo N. */
  function ClientSecret(N: nat, g: nat, a: nat, B: nat, u: nat, x: nat): nat
    requires N > 0
  {
    Pow(B - 3 * Pow(g, x), a + u * x) % N
  }

  /** The server's S = (A v^u)^b modulo N. */
  function ServerSecret(N: nat, v: nat, b: nat, A: int, u: nat): nat
    requires N > 0
  {
    Pow(A * Pow(v, u), b) % N
  }

  /** u = H(A | B). */
  function Scrambler(sha: Sha1, mode: Compliance, A: nat, B: nat): nat
  {
    Denoted(mode, sha(Image(mode, A) + Image(mode, B)))
  }

  /** K of a premaster secret: its interleaved digests, or its digest. */
  function KeyOf(sha: Sha1, mode: Compliance, S: nat): nat
  {
    if mode.Wow? then LeValue(Interleaved(sha, S)) else BeValue(sha(Encode(S)))
  }

  lemma EphemeralInNumbers(N: nat, g: nat, v: nat, b: nat)
    requires N > 0
    ensures ServerEphemeral(N, g, v, b) == Blinded(N, g, v, b)
  {
    ResidueCongruent(Pow(g, b), N);
    CongruentSum(3 * v, 3 * v, Pow(g, b) % N, Pow(g, b), N);
  }

  lemma ClientPremasterInNumbers(N: nat, g: nat, a: nat, B: nat, u: nat, x: nat)
    requires N > 0
    ensures ClientPremaster(N, g, a, B, u, x) == ClientSecret(N, g, a, B, u, x)
  {
    var p := Pow(g, x);
    ResidueCongruent(p, N);
    CongruentScale(p % N, p, -3, N);
    CongruentSum(B, B, -3 * (p % N), -3 * p, N);
    CongruentPow(B - 3 * (p % N), B - 3 * p, a + u * x, N);
  }

  lemma ServerPremasterInNumbers(N: nat, v: nat, b: nat, A: int, u: nat)
    requires N > 0
    ensures ServerPremaster(N, v, b, A, u) == ServerSecret(N, v, b, A, u)
  {
    var p := Pow(v, u);
    ResidueCongruent(p, N);
    CongruentScale(p % N, p, A, N);
    CongruentPow(A * (p % N), A * p, b, N);
  }

  lemma KeyInBytes(sha: Sha1, mode: Compliance, S: nat)
    ensures SessionKey(sha, mode, S) == KeyOf(sha, mode, S)
  {
    HashOfOne(sha, Rfc5054, Number(S));
    BeValueReverse(Interleaved(sha, S));
  }

  function Times(k: int, n: int): int
  {
    k * n
  }

  /** The guard on the client's value, for every integer. */
  lemma GuardRejects(sha: Sha1, mode: Compliance, N: nat, g: nat, v: nat, b: nat, A: int)
    requires N > 0
    ensures ServerSessionKey(sha, mode, N, g, v, b, A).Failure? <==> A <= 0 || exists k: int :: A == Times(k, N)
  {
    if A % N == 0 {
      assert A == Times(A / N, N);
    }
    if k: int :| A == Times(k, N) {
      ResidueUnique(A, k, 0, N);
    }
  }

  lemma ScramblerInBytes(sha: Sha1, mode: Compliance, A: nat, B: nat)
    ensures Sha1Value(sha, mode, [Number(A), Number(B)]) == Scrambler(sha, mode, A, B)
  {
    HashOfTwo(sha, mode, Number(A), Number(B));
  }

  /** Every accepted A, honest or not, gives the key of the premaster secret (A v^u)^b, where u hashes A
      and B = 3v + g^b. */
  lemma ServerKeyInBytes(sha: Sha1, mode: Compliance, N: nat, g: nat, v: nat, b: nat, A: int)
    requires N > 0 && A > 0 && A % N != 0
    ensures ServerSessionKey(sha, mode, N, g, v, b, A) ==
            Success(KeyOf(sha, mode, ServerSecret(N, v, b, A, Scrambler(sha, mode, A, Blinded(N, g, v, b)))))
  {
    var u := Scrambler(sha, mode, A, Blinded(N, g, v, b));
    EphemeralInNumbers(N, g, v, b);
    ScramblerInBytes(sha, mode, A, Blinded(N, g, v, b));
    ServerPremasterInNumbers(N, v, b, A, u);
    KeyInBytes(sha, mode, ServerSecret(N, v, b, A, u));
  }

  /** The client's key, for every B: u hashes A = g^a and B. */
  lemma ClientKeyInBytes(sha: Sha1, mode: Compliance, N: nat, g: nat, a: nat, B: nat, x: nat)
    requires N > 0
    ensures var u := Scrambler(sha, mode, Pow(g, a) % N, B);
            ClientSessionKey(sha, mode, N, g, a, B, x) == KeyOf(sha, mode, ClientSecret(N, g, a, B, u, x))
  {
    var u := Scrambler(sha, mode, PowerMod(g, a, N), B);
    ScramblerInBytes(sha, mode, PowerMod(g, a, N), B);
    ClientPremasterInNumbers(N, g, a, B, u, x);
    KeyInBytes(sha, mode, ClientSecret(N, g, a, B, u, x));
  }

  /** For a prime modulus no multiple of which is the verifier, no accepted A, honest or not, leads to
      the premaster secret 0, whatever u and b. */
  lemma AcceptedNeverZero(sha: Sha1, mode: Compliance, N: nat, g: nat, v: nat, b: nat, A: int, u: nat)
    requires Prime(N) && v % N != 0
    requires ServerSessionKey(sha, mode, N, g, v, b, A).Success?
    ensures 0 < ServerPremaster(N, v, b, A, u) < N
  {
    PrimeDividesPower(N, v, u);
    ServerPremasterInNumbers(N, v, b, A, u);
    if (A * Pow(v, u)) % N == 0 {
      EuclidLemma(N, A, Pow(v, u));
    }
    PrimeDividesPower(N, A * Pow(v, u), b);
  }

  /** The verifier as a number: g^x of the upper-cased credentials. */
  lemma VerifierInNumbers(sha: Sha1, mode: Compliance, user: seq<Byte>, pass: seq<Byte>, N: nat, g: nat, salt: nat)
    requires N > 0
    ensures var text := ToUpper(user) + [58] + ToUpper(pass);
            var x := Denoted(mode, sha(Image(mode, salt) + Image(mode, Denoted(mode, sha(text)))));
            Verifier(sha, mode, user, pass, N, g, salt) == Pow(g, x) % N
  {
    PrivateKeyInMode(sha, mode, ToUpper(user), ToUpper(pass), salt);
  }

  // ------------------------------------------------------------------------ proofs

  /** The string whose digest is the client's proof, `mask` being the digests of N and g combined. */
  function ProofText(sha: Sha1, mask: seq<Byte>, salt: nat, I: seq<Byte>, A: nat, B: nat, key: nat): seq<Byte>
  {
    mask + sha(I) + Reverse(Encode(salt)) + Reverse(Encode(A)) + Reverse(Encode(B)) + Reverse(Encode(key))
  }

  predicate XorOf(mask: seq<Byte>, p: seq<Byte>, q: seq<Byte>)
    requires |p| == |q|
  {
    |mask| == |p| && forall i :: 0 <= i < |p| ==> mask[i] == Xor(p[i], q[i])
  }

  lemma ClientProofInBytes(sha: Sha1, N: nat, g: nat, salt: nat, I: seq<Byte>, A: nat, B: nat, key: nat,
                           mask: seq<Byte>)
    requires XorOf(mask, sha(Reverse(Encode(N))), sha(Reverse(Encode(g))))
    ensures ClientProof(sha, N, g, salt, I, A, B, key) == LeValue(sha(ProofText(sha, mask, salt, I, A, B, key)))
  {
    var d := XorDigests(sha(EncodeFlip(N)), sha(EncodeFlip(g)));
    assert mask == d;
    BeValueReverse(sha(ProofText(sha, mask, salt, I, A, B, key)));
  }

  /** Two proofs for the same N and g are equal exactly when their texts have equal digests. */
  lemma SameProof(sha: Sha1, N: nat, g: nat, salt: nat, I: seq<Byte>, A: nat, B: nat, key: nat,
                  salt': nat, I': seq<Byte>, A': nat, B': nat, key': nat, mask: seq<Byte>)
    requires XorOf(mask, sha(Reverse(Encode(N))), sha(Reverse(Encode(g))))
    ensures ClientProof(sha, N, g, salt, I, A, B, key) == ClientProof(sha, N, g, salt', I', A', B', key')
       <==> sha(ProofText(sha, mask, salt, I, A, B, key)) == sha(ProofText(sha, mask, salt', I', A', B', key'))
  {
    ClientProofInBytes(sha, N, g, salt, I, A, B, key, mask);
    ClientProofInBytes(sha, N, g, salt', I', A', B', key', mask);
    var p, q := sha(ProofText(sha, mask, salt, I, A, B, key)), sha(ProofText(sha, mask, salt', I', A', B', key'));
    if LeValue(p) == LeValue(q) {
      LeValueInjective(p, q);
    }
  }

  /** The key counts: of different keys, all else being equal, the texts differ. */
  lemma KeyCounts(sha: Sha1, mask: seq<Byte>, salt: nat, I: seq<Byte>, A: nat, B: nat, key: nat, key': nat)
    requires key != key'
    ensures ProofText(sha, mask, salt, I, A, B, key) != ProofText(sha, mask, salt, I, A, B, key')
  {
    var head := mask + sha(I) + Reverse(Encode(salt)) + Reverse(Encode(A)) + Reverse(Encode(B));
    if ProofText(sha, mask, salt, I, A, B, key) == ProofText(sha, mask, salt, I, A, B, key') {
      SameSuffix(head, Reverse(Encode(key)), Reverse(Encode(key')));
      ImageInjective(Wow, key, key');
    }
  }

  /** The server's proof in bytes. */
  lemma ServerProofInBytes(sha: Sha1, A: nat, proof: nat, key: nat)
    ensures Sha1Value(sha, Rfc5054, [Number(A), Number(proof), Number(key)]) ==
            BeValue(sha(Encode(A) + Encode(proof) + Encode(key)))
    ensures Sha1Value(sha, Wow, [Number(A), Number(proof), Number(key)]) ==
            LeValue(sha(Reverse(Encode(A)) + Reverse(Encode(proof)) + Reverse(Encode(key))))
  {
    HashOfThree(sha, Rfc5054, Number(A), Number(proof), Number(key));
    HashOfThree(sha, Wow, Number(A), Number(proof), Number(key));
  }
}
