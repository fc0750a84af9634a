/** The SRP-6 client, server and shared hashing of src/libs/network/srp6. */
module Srp6 {
  import opened Numbers
  import opened Bytes
  import opened Srp6Encoding
  import opened Srp6Interleave

  /** The multiplier k, 3 in both compliance modes. */
  const MULTIPLIER := 3

  /** `Botan::power_mod`: the residue in [0, N), also for a negative base. */
  function PowerMod(base: int, exponent: nat, N: nat): nat
    requires N > 0
  {
    Pow(base, exponent) % N
  }

  // ---------------------------------------------------------------------- hashing

  datatype HashInput = Number(n: nat) | Text(bytes: seq<Byte>)

  function InputBytes(mode: Compliance, arg: HashInput): seq<Byte>
  {
    match arg
    case Number(n) => if mode.Wow? then EncodeFlip(n) else Encode(n)
    case Text(bytes) => bytes
  }

  function AllInputBytes(mode: Compliance, args: seq<HashInput>): seq<Byte>
  {
    if args == [] then []
    else AllInputBytes(mode, args[..|args| - 1]) + InputBytes(mode, args[|args| - 1])
  }

  function Sha1Value(sha: Sha1, mode: Compliance, args: seq<HashInput>): nat
  {
    var digest := sha(AllInputBytes(mode, args));
    if mode.Wow? then DecodeFlip(digest) else BeValue(digest)
  }

  /** `Botan::HashFunction`: input accumulates until `Final` digests it and starts over. */
  class HashFunction {
    const sha: Sha1
    var pending: seq<Byte>

    constructor (sha: Sha1)
      ensures this.sha == sha && pending == []
    {
      this.sha := sha;
      pending := [];
    }

    method Update(bytes: seq<Byte>)
      modifies this
      ensures pending == old(pending) + bytes
    {
      pending := pending + bytes;
    }

    method Final() returns (digest: Digest)
      modifies this
      ensures digest == sha(old(pending)) && pending == []
    {
      digest := sha(pending);
      pending := [];
    }

    method Process(bytes: seq<Byte>) returns (digest: Digest)
      modifies this
      ensures digest == sha(old(pending) + bytes) && pending == []
    {
      Update(bytes);
      digest := Final();
    }
  }

  method HashOne(hash: HashFunction, arg: HashInput, mode: Compliance)
    modifies hash
    ensures hash.pending == old(hash.pending) + InputBytes(mode, arg)
  {
    match arg {
      case Number(n) =>
        if mode == Wow {
          hash.Update(EncodeFlip(n));
        } else {
          hash.Update(Encode(n));
        }
      case Text(bytes) =>
        hash.Update(bytes);
    }
  }

  method Sha1Hash(sha: Sha1, mode: Compliance, args: seq<HashInput>) returns (n: nat)
    ensures n == Sha1Value(sha, mode, args)
  {
    var hash := new HashFunction(sha);
    for i := 0 to |args|
      invariant hash.pending == AllInputBytes(mode, args[..i]) && fresh(hash)
    {
      HashOne(hash, args[i], mode);
      assert args[..i + 1][..i] == args[..i];
    }
    assert args[..|args|] == args;
    var digest := hash.Final();
    n := if mode == Wow then DecodeFlip(digest) else BeValue(digest);
  }

  function PrivateKey(sha: Sha1, mode: Compliance, username: seq<Byte>, password: seq<Byte>, salt: nat): nat
  {
    Sha1Value(sha, mode, [Number(salt), Number(Sha1Value(sha, mode, [Text(username), Text([58]), Text(password)]))])
  }

  method GenerateX(sha: Sha1, mode: Compliance, username: seq<Byte>, password: seq<Byte>, salt: nat) returns (x: nat)
    ensures x == PrivateKey(sha, mode, username, password, salt)
  {
    var hash := Sha1Hash(sha, mode, [Text(username), Text([58]), Text(password)]);
    x := Sha1Hash(sha, mode, [Number(salt), Number(hash)]);
  }

  /** `utility::to_upper` in the "C" locale. */
  function ToUpper(s: seq<Byte>): (r: seq<Byte>)
    ensures |r| == |s|
  {
    seq(|s|, i requires 0 <= i < |s| => if 97 <= s[i] <= 122 then s[i] - 32 else s[i])
  }

  method GenerateVerifier(sha: Sha1, mode: Compliance, username: seq<Byte>, password: seq<Byte>, N: nat, g: nat,
                          salt: nat)
    returns (v: nat)
    requires N > 0
    ensures v == Verifier(sha, mode, username, password, N, g, salt)
  {
    var x := GenerateX(sha, mode, ToUpper(username), ToUpper(password), salt);
    v := PowerMod(g, x, N);
  }

  function Verifier(sha: Sha1, mode: Compliance, username: seq<Byte>, password: seq<Byte>, N: nat, g: nat,
                    salt: nat): nat
    requires N > 0
  {
    PowerMod(g, PrivateKey(sha, mode, ToUpper(username), ToUpper(password), salt), N)
  }

  // ------------------------------------------------------------------ the protocol

  function ServerEphemeral(N: nat, g: nat, v: nat, b: nat): nat
    requires N > 0
  {
    (MULTIPLIER * v + PowerMod(g, b, N)) % N
  }

  function ClientPremaster(N: nat, g: nat, a: nat, B: nat, u: nat, x: nat): nat
    requires N > 0
  {
    PowerMod(B - MULTIPLIER * PowerMod(g, x, N), a + u * x, N)
  }

  function ServerPremaster(N: nat, v: nat, b: nat, A: int, u: nat): nat
    requires N > 0
  {
    PowerMod(A * PowerMod(v, u, N), b, N)
  }

  function SessionKey(sha: Sha1, mode: Compliance, S: nat): nat
  {
    if mode.Wow? then BeValue(Reverse(Interleaved(sha, S))) else Sha1Value(sha, mode, [Number(S)])
  }

  function ClientSessionKey(sha: Sha1, mode: Compliance, N: nat, g: nat, a: nat, B: nat, x: nat): nat
    requires N > 0
  {
    var u := Sha1Value(sha, mode, [Number(PowerMod(g, a, N)), Number(B)]);
    SessionKey(sha, mode, ClientPremaster(N, g, a, B, u, x))
  }

  /** Failure is the thrown exception. */
  function ServerSessionKey(sha: Sha1, mode: Compliance, N: nat, g: nat, v: nat, b: nat, A: int): Result<nat>
    requires N > 0
  {
    if A % N == 0 || A <= 0 then Failure
    else
      var u := Sha1Value(sha, mode, [Number(A), Number(ServerEphemeral(N, g, v, b))]);
      Success(SessionKey(sha, mode, ServerPremaster(N, v, b, A, u)))
  }

  /** The tail both `session_key` methods share. */
  method KeyFromPremaster(sha: Sha1, mode: Compliance, S: nat) returns (key: nat)
    ensures key == SessionKey(sha, mode, S)
  {
    if mode == Wow {
      var K := ShaInterleave(sha, S);
      K := Reverse(K);
      key := BeValue(K);
    } else {
      key := Sha1Hash(sha, mode, [Number(S)]);
    }
  }

  class Client {
    const sha: Sha1
    const mode: Compliance
    const N: nat
    const g: nat
    const username: seq<Byte>
    const a: nat
    const A: nat

    ghost predicate Valid()
    {
      N > 0 && A == PowerMod(g, a, N)
    }

    constructor (sha: Sha1, N: nat, g: nat, username: seq<Byte>, mode: Compliance, a: nat)
      requires N > 0
      ensures Valid()
      ensures this.sha == sha && this.mode == mode && this.N == N && this.g == g && this.a == a
      ensures this.username == username
    {
      this.sha, this.mode, this.N, this.g, this.username, this.a := sha, mode, N, g, username, a;
      this.A := PowerMod(g, a, N);
    }

    method SessionKey(B: nat, username: seq<Byte>, password: seq<Byte>, salt: nat) returns (key: nat)
      requires Valid()
      ensures key == ClientSessionKey(sha, mode, N, g, a, B, PrivateKey(sha, mode, username, password, salt))
    {
      var x := GenerateX(sha, mode, username, password, salt);
      var u := Sha1Hash(sha, mode, [Number(A), Number(B)]);
      var S := ClientPremaster(N, g, a, B, u, x);
      key := KeyFromPremaster(sha, mode, S);
    }
  }

  class Server {
    const sha: Sha1
    const mode: Compliance
    const N: nat
    const g: nat
    const v: nat
    const b: nat
    var B: nat
    var A: nat

    ghost predicate Valid()
      reads this
    {
      N > 0 && B == ServerEphemeral(N, g, v, b)
    }

    constructor (sha: Sha1, N: nat, g: nat, v: nat, mode: Compliance, b: nat)
      requires N > 0
      ensures Valid() && A == 0
      ensures this.sha == sha && this.mode == mode && this.N == N && this.g == g && this.v == v && this.b == b
    {
      this.sha, this.mode, this.N, this.g, this.v, this.b := sha, mode, N, g, v, b;
      A := 0;
      B := (MULTIPLIER * v + PowerMod(g, b, N)) % N;
    }

    method SessionKey(A: int) returns (key: Result<nat>)
      requires Valid()
      modifies this
      ensures Valid()
      ensures key == ServerSessionKey(sha, mode, N, g, v, b, A)
      ensures this.A == if key.Success? then A else old(this.A)
    {
      if A % N == 0 || A <= 0 {
        return Failure;
      }
      this.A := A;
      var u := Sha1Hash(sha, mode, [Number(A), Number(B)]);
      var S := ServerPremaster(N, v, b, A, u);
      var K := KeyFromPremaster(sha, mode, S);
      key := Success(K);
    }

    method Proof(clientProof: nat, sessionKey: nat) returns (proof: nat)
      requires Valid()
      ensures proof == Sha1Value(sha, mode, [Number(A), Number(clientProof), Number(sessionKey)])
    {
      proof := Sha1Hash(sha, mode, [Number(A), Number(clientProof), Number(sessionKey)]);
    }
  }

  // --------------------------------------------------------------------- agreement

  /** The server's blinded value minus the client's recomputed term is g^b modulo N,
      whether or not the integer difference is negative. */
  lemma UnblindedBase(N: nat, g: nat, b: nat, x: nat)
    requires N > 0
    ensures Congruent(ServerEphemeral(N, g, PowerMod(g, x, N), b) - MULTIPLIER * PowerMod(g, x, N), Pow(g, b), N)
  {
    var v, w := PowerMod(g, x, N), PowerMod(g, b, N);
    ResidueCongruent(MULTIPLIER * v + w, N);
    CongruentSum((MULTIPLIER * v + w) % N, MULTIPLIER * v + w, -(MULTIPLIER * v), -(MULTIPLIER * v), N);
    ResidueCongruent(Pow(g, b), N);
  }

  lemma ClientReaches(N: nat, g: nat, a: nat, b: nat, u: nat, x: nat)
    requires N > 0
    ensures ClientPremaster(N, g, a, ServerEphemeral(N, g, PowerMod(g, x, N), b), u, x) ==
            PowerMod(g, b * (a + u * x), N)
  {
    UnblindedBase(N, g, b, x);
    var base := ServerEphemeral(N, g, PowerMod(g, x, N), b) - MULTIPLIER * PowerMod(g, x, N);
    CongruentPow(base, Pow(g, b), a + u * x, N);
    PowPow(g, b, a + u * x);
  }

  lemma ServerReaches(N: nat, g: nat, a: nat, b: nat, u: nat, x: nat)
    requires N > 0
    ensures ServerPremaster(N, PowerMod(g, x, N), b, PowerMod(g, a, N), u) == PowerMod(g, b * (a + u * x), N)
  {
    var A, v := PowerMod(g, a, N), PowerMod(g, x, N);
    ResidueCongruent(Pow(g, a), N);
    ResidueCongruent(Pow(g, x), N);
    CongruentPow(v, Pow(g, x), u, N);
    ResidueCongruent(Pow(v, u), N);
    PowPow(g, x, u);
    assert x * u == u * x;
    CongruentProduct(A, Pow(g, a), PowerMod(v, u, N), Pow(g, u * x), N);
    PowAdd(g, a, u * x);
    CongruentPow(A * PowerMod(v, u, N), Pow(g, a + u * x), b, N);
    PowPow(g, a + u * x, b);
    assert (a + u * x) * b == b * (a + u * x);
  }

  /** Both formulas reach g^(b(a+ux)) for every modulus, generator, secrets, u and x. */
  lemma PremastersAgree(N: nat, g: nat, a: nat, b: nat, u: nat, x: nat)
    requires N > 0
    ensures var v := PowerMod(g, x, N);
            var S := ServerPremaster(N, v, b, PowerMod(g, a, N), u);
            S == ClientPremaster(N, g, a, ServerEphemeral(N, g, v, b), u, x) == PowerMod(g, b * (a + u * x), N)
  {
    ClientReaches(N, g, a, b, u, x);
    ServerReaches(N, g, a, b, u, x);
  }

  /** Agreement: with the verifier of (user, pass) on the server and the upper-cased credentials
      on the client, the server's key is the client's, unless it throws; it throws exactly
      when N divides g^a. */
  lemma SessionKeysAgree(sha: Sha1, mode: Compliance, N: nat, g: nat, a: nat, b: nat, salt: nat,
                         user: seq<Byte>, pass: seq<Byte>)
    requires N > 0
    ensures var v := Verifier(sha, mode, user, pass, N, g, salt);
            var x := PrivateKey(sha, mode, ToUpper(user), ToUpper(pass), salt);
            ServerSessionKey(sha, mode, N, g, v, b, PowerMod(g, a, N)) ==
            if Pow(g, a) % N == 0 then Failure
            else Success(ClientSessionKey(sha, mode, N, g, a, ServerEphemeral(N, g, v, b), x))
  {
    var v := Verifier(sha, mode, user, pass, N, g, salt);
    var x := PrivateKey(sha, mode, ToUpper(user), ToUpper(pass), salt);
    var A := PowerMod(g, a, N);
    assert A % N == A by { ResidueUnique(A, 0, A, N); }
    var u := Sha1Value(sha, mode, [Number(A), Number(ServerEphemeral(N, g, v, b))]);
    PremastersAgree(N, g, a, b, u, x);
  }

  /** For a prime modulus: the guard rejects the honest client exactly when N divides g
      and a > 0, and when N does not divide g the agreed premaster is never 0. */
  lemma HonestClientAccepted(N: nat, g: nat, a: nat, b: nat, u: nat, x: nat)
    requires Prime(N)
    ensures var A := PowerMod(g, a, N);
            (A % N == 0 || A <= 0 <==> a > 0 && g % N == 0)
            && (g % N != 0 ==>
                  1 <= A <= N - 1
                  && ServerPremaster(N, PowerMod(g, x, N), b, A, u) != 0)
  {
    var A := PowerMod(g, a, N);
    assert A % N == A by { ResidueUnique(A, 0, A, N); }
    PrimeDividesPower(N, g, a);
    PremastersAgree(N, g, a, b, u, x);
    PrimeDividesPower(N, g, b * (a + u * x));
  }

  predicate SameLetter(a: Byte, b: Byte)
  {
    || a == b
    || (97 <= a <= 122 && b == a - 32)
    || (97 <= b <= 122 && a == b - 32)
  }

  /** Equal but for the case of ASCII letters. */
  predicate SameUpToCase(s: seq<Byte>, t: seq<Byte>)
  {
    |s| == |t| && forall i :: 0 <= i < |s| ==> SameLetter(s[i], t[i])
  }

  lemma UpperIffSame(s: seq<Byte>, t: seq<Byte>)
    ensures ToUpper(s) == ToUpper(t) <==> SameUpToCase(s, t)
  {
    if ToUpper(s) == ToUpper(t) {
      assert |s| == |ToUpper(s)| && |t| == |ToUpper(t)|;
      forall i | 0 <= i < |s|
        ensures SameLetter(s[i], t[i])
      {
        assert ToUpper(s)[i] == ToUpper(t)[i];
      }
    }
  }

  /** Credentials that differ only in the case of ASCII letters have the same verifier, which is
      the one of the upper-cased credentials. */
  lemma VerifierIgnoresCase(sha: Sha1, mode: Compliance, user: seq<Byte>, pass: seq<Byte>,
                            user': seq<Byte>, pass': seq<Byte>, N: nat, g: nat, salt: nat)
    requires N > 0 && SameUpToCase(user, user') && SameUpToCase(pass, pass')
    ensures Verifier(sha, mode, user, pass, N, g, salt) == Verifier(sha, mode, user', pass', N, g, salt)
    ensures Verifier(sha, mode, user, pass, N, g, salt)
         == Verifier(sha, mode, ToUpper(user), ToUpper(pass), N, g, salt)
  {
    UpperIffSame(user, user');
    UpperIffSame(pass, pass');
    assert ToUpper(ToUpper(user)) == ToUpper(user) && ToUpper(ToUpper(pass)) == ToUpper(pass);
  }

  // ------------------------------------------------------------------------ proofs

  function XorDigests(p: Digest, q: Digest): Digest
  {
    seq(20, i requires 0 <= i < 20 => XorByte(p[i], q[i]))
  }

  /** M = H(H(N) xor H(g) | H(I) | s | A | B | K), section 3 of RFC 2945, little-endian in
      both compliance modes. */
  function ClientProof(sha: Sha1, N: nat, g: nat, salt: nat, I: seq<Byte>, A: nat, B: nat, key: nat): nat
  {
    DecodeFlip(sha(XorDigests(sha(EncodeFlip(N)), sha(EncodeFlip(g))) + sha(I)
                   + EncodeFlip(salt) + EncodeFlip(A) + EncodeFlip(B) + EncodeFlip(key)))
  }

  method GenerateClientProof(sha: Sha1, N: nat, g: nat, salt: nat, I: seq<Byte>, A: nat, B: nat, key: nat,
                             mode: Compliance)
    returns (proof: nat)
    ensures proof == ClientProof(sha, N, g, salt, I, A, B, key)
  {
    var sha1 := new HashFunction(sha);
    var nHash := sha1.Process(EncodeFlip(N));
    var gHash := sha1.Process(EncodeFlip(g));
    var iHash := sha1.Process(I);
    assert [] + EncodeFlip(N) == EncodeFlip(N) && [] + EncodeFlip(g) == EncodeFlip(g) && [] + I == I;
    ghost var n0 := nHash;
    var i := 0;
    while i < |nHash|
      invariant 0 <= i <= 20
      invariant forall k :: 0 <= k < 20 ==> nHash[k] == if k < i then XorByte(n0[k], gHash[k]) else n0[k]
    {
      nHash := nHash[i := XorByte(nHash[i], gHash[i])];
      i := i + 1;
    }
    assert nHash == XorDigests(n0, gHash);
    sha1.Update(nHash);
    assert sha1.pending == nHash;
    sha1.Update(iHash);
    sha1.Update(EncodeFlip(salt));
    sha1.Update(EncodeFlip(A));
    sha1.Update(EncodeFlip(B));
    sha1.Update(EncodeFlip(key));
    var digest := sha1.Final();
    proof := DecodeFlip(digest);
  }

  /** A whole login: both sides run on their own objects. When the server does not throw,
      keys and client proofs agree and the server proof is the one the client can compute
      from its own A. */
  method Handshake(sha: Sha1, mode: Compliance, N: nat, g: nat, a: nat, b: nat, salt: nat,
                   user: seq<Byte>, pass: seq<Byte>)
    returns (clientKey: nat, serverKey: Result<nat>, clientProof: nat, serverView: nat, serverProof: nat)
    requires N > 0
    ensures serverKey == if Pow(g, a) % N == 0 then Failure else Success(clientKey)
    ensures Prime(N) && g % N != 0 ==> serverKey == Success(clientKey)
    ensures serverKey.Success? ==> serverView == clientProof
    ensures serverKey.Success? ==>
              serverProof == Sha1Value(sha, mode, [Number(PowerMod(g, a, N)), Number(clientProof), Number(clientKey)])
  {
    var v := GenerateVerifier(sha, mode, user, pass, N, g, salt);
    var server := new Server(sha, N, g, v, mode, b);
    var client := new Client(sha, N, g, ToUpper(user), mode, a);
    clientKey := client.SessionKey(server.B, ToUpper(user), ToUpper(pass), salt);
    serverKey := server.SessionKey(client.A);
    SessionKeysAgree(sha, mode, N, g, a, b, salt, user, pass);
    if Prime(N) {
      HonestClientAccepted(N, g, a, b, 0, 0);
      assert Pow(g, a) % N == PowerMod(g, a, N);
    }
    clientProof := GenerateClientProof(sha, N, g, salt, ToUpper(user), client.A, server.B, clientKey, mode);
    serverView, serverProof := 0, 0;
    if serverKey.Success? {
      serverView := GenerateClientProof(sha, N, g, salt, ToUpper(user), server.A, server.B, serverKey.value, mode);
      serverProof := server.Proof(serverView, serverKey.value);
    }
  }
}
