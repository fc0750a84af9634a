/** `sha_interleave` of src/libs/network/srp6/utility.hpp against section 3.1 of RFC 2945. */
module Srp6Interleave {
  import opened Bytes
  import opened Srp6Encoding

  /** SHA-1 is any function from byte strings to 20 bytes. */
  type Sha1 = seq<Byte> -> Digest

  /** The stable partition of s by the parity of each element's index, `first` being the
      index of s[0]: even-indexed elements in order, then odd-indexed ones in order. */
  function KeepParity(s: seq<Byte>, first: nat, parity: nat): seq<Byte>
  {
    if s == [] then []
    else (if first % 2 == parity then [s[0]] else []) + KeepParity(s[1..], first + 1, parity)
  }

  /** The hashed part of the input: leading zeros dropped, then one more byte if the rest is odd. */
  function Trimmed(s: seq<Byte>): seq<Byte>
  {
    var t := TrimLeadingZeros(s);
    if |t| % 2 == 1 then t[1..] else t
  }

  function Weave(g: seq<Byte>, h: seq<Byte>): seq<Byte>
    requires |g| == |h|
  {
    seq(2 * |g|, i requires 0 <= i < 2 * |g| => if i % 2 == 0 then g[i / 2] else h[i / 2])
  }

  function Interleaved(sha: Sha1, S: nat): seq<Byte>
  {
    var t := Trimmed(EncodeFlip(S));
    Weave(sha(KeepParity(t, 0, 0)), sha(KeepParity(t, 0, 1)))
  }

  method ShaInterleave(sha: Sha1, S: nat) returns (result: seq<Byte>)
    ensures |result| == 40
    ensures result == Interleaved(sha, S)
  {
    var s := EncodeFlip(S);
    var rest := TrimLeadingZeros(s);
    if |rest| % 2 == 1 {
      rest := rest[1..];
    }
    var even, odd := KeepParity(rest, 0, 0), KeepParity(rest, 0, 1);
    var G, H := sha(even), sha(odd);
    result := [];
    var i := 0;
    while i < |G|
      invariant 0 <= i <= 20
      invariant result == Weave(G[..i], H[..i])
    {
      WeaveSnoc(G[..i], H[..i], G[i], H[i]);
      assert G[..i + 1] == G[..i] + [G[i]] && H[..i + 1] == H[..i] + [H[i]];
      result := result + [G[i]];
      result := result + [H[i]];
      i := i + 1;
    }
    assert G[..20] == G && H[..20] == H;
  }

  lemma WeaveSnoc(g: seq<Byte>, h: seq<Byte>, a: Byte, b: Byte)
    requires |g| == |h|
    ensures Weave(g + [a], h + [b]) == Weave(g, h) + [a] + [b]
  {
  }

  lemma KeepParityTwo(s: seq<Byte>, first: nat, parity: nat)
    requires |s| >= 2 && first % 2 == 0 && parity < 2
    ensures KeepParity(s, first, parity) == [s[parity]] + KeepParity(s[2..], first + 2, parity)
  {
    assert s[1..][1..] == s[2..];
    if parity == 0 {
      assert KeepParity(s[1..], first + 1, 0) == [] + KeepParity(s[2..], first + 2, 0);
    } else {
      assert KeepParity(s, first, 1) == [] + KeepParity(s[1..], first + 1, 1);
    }
  }

  lemma {:induction false} KeepParityHalf(s: seq<Byte>, first: nat, parity: nat)
    requires |s| % 2 == 0 && first % 2 == 0 && parity < 2
    ensures var kept := KeepParity(s, first, parity);
            |kept| == |s| / 2 && forall i :: 0 <= i < |kept| ==> kept[i] == s[2 * i + parity]
  {
    if s != [] {
      KeepParityTwo(s, first, parity);
      KeepParityHalf(s[2..], first + 2, parity);
      var kept, rest := KeepParity(s, first, parity), KeepParity(s[2..], first + 2, parity);
      forall i | 0 <= i < |kept|
        ensures kept[i] == s[2 * i + parity]
      {
        if i > 0 {
          assert kept[i] == rest[i - 1] == s[2..][2 * (i - 1) + parity];
        }
      }
    }
  }

  /** s starts with exactly n zero bytes. */
  ghost predicate LeadingZeros(s: seq<Byte>, n: nat)
  {
    n <= |s| && (forall i :: 0 <= i < n ==> s[i] == 0) && (n < |s| ==> s[n] != 0)
  }

  /** Section 3.1 of RFC 2945 for every premaster secret: what is hashed is the input without
      its leading zeros, less one byte if that is odd; E and F are its even- and odd-numbered
      bytes, which weave back to it; the output alternates the two digests. */
  lemma InterleaveFollowsRfc2945(sha: Sha1, S: nat)
    ensures var s := EncodeFlip(S);
            var t := Trimmed(s);
            var E, F := KeepParity(t, 0, 0), KeepParity(t, 0, 1);
            && |t| % 2 == 0 && |t| <= |s| && t == s[|s| - |t|..]
            && (exists zeros: nat :: LeadingZeros(s, zeros) && |s| - |t| == zeros + (|s| - zeros) % 2)
            && |E| == |F| == |t| / 2
            && (forall i :: 0 <= i < |E| ==> E[i] == t[2 * i] && F[i] == t[2 * i + 1])
            && Weave(E, F) == t
            && |Interleaved(sha, S)| == 40
            && (forall i :: 0 <= i < 20 ==>
                  Interleaved(sha, S)[2 * i] == sha(E)[i] && Interleaved(sha, S)[2 * i + 1] == sha(F)[i])
  {
    var t := Trimmed(EncodeFlip(S));
    TrimmedShape(EncodeFlip(S));
    PartitionWeavesBack(t);
    KeepParityHalf(t, 0, 0);
    KeepParityHalf(t, 0, 1);
    var G, H := sha(KeepParity(t, 0, 0)), sha(KeepParity(t, 0, 1));
    assert forall i :: 0 <= i < 20 ==> Weave(G, H)[2 * i] == G[i] && Weave(G, H)[2 * i + 1] == H[i];
  }

  lemma TrimmedShape(s: seq<Byte>)
    ensures var t := Trimmed(s);
            && |t| % 2 == 0 && |t| <= |s| && t == s[|s| - |t|..]
            && (exists zeros: nat :: LeadingZeros(s, zeros) && |s| - |t| == zeros + (|s| - zeros) % 2)
  {
    TrimIsSuffix(s);
    var zeros := |s| - |TrimLeadingZeros(s)|;
    assert zeros < |s| ==> s[zeros] == TrimLeadingZeros(s)[0];
    assert LeadingZeros(s, zeros);
  }

  lemma PartitionWeavesBack(t: seq<Byte>)
    requires |t| % 2 == 0
    ensures var E, F := KeepParity(t, 0, 0), KeepParity(t, 0, 1);
            |E| == |F| == |t| / 2 && Weave(E, F) == t
  {
    KeepParityHalf(t, 0, 0);
    KeepParityHalf(t, 0, 1);
    var E, F := KeepParity(t, 0, 0), KeepParity(t, 0, 1);
    forall i | 0 <= i < |t|
      ensures Weave(E, F)[i] == t[i]
    {
      assert E[i / 2] == t[2 * (i / 2)] && F[i / 2] == t[2 * (i / 2) + 1];
    }
  }
}
