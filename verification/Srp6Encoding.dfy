/** The byte encodings of src/libs/network/srp6/utility.cpp. */
module Srp6Encoding {
  import opened Numbers
  import opened Bytes

  datatype Compliance = Wow | Rfc5054

  function EncodeFlip(n: nat): seq<Byte>
  {
    Reverse(Encode(n))
  }

  function DecodeFlip(s: seq<Byte>): nat
  {
    BeValue(Reverse(s))
  }

  /** `to_array<width>`: fixed-width bytes in the order of the compliance mode. */
  function ToArray(n: nat, width: nat, mode: Compliance): Result<seq<Byte>>
  {
    match Encode1363(n, width)
    case Failure => Failure
    case Success(bytes) => Success(if mode.Rfc5054? then bytes else Reverse(bytes))
  }

  lemma DecodeFlipUndoesEncodeFlip(n: nat)
    ensures DecodeFlip(EncodeFlip(n)) == n
  {
    ReverseTwice(Encode(n));
    BeValueEncode(n);
  }

  lemma EncodeFlipInjective(m: nat, n: nat)
    requires EncodeFlip(m) == EncodeFlip(n)
    ensures m == n
  {
    DecodeFlipUndoesEncodeFlip(m);
    DecodeFlipUndoesEncodeFlip(n);
  }

  /** Re-encoding a decoded string strips exactly its trailing zero bytes. */
  lemma EncodeFlipOfDecodeFlip(s: seq<Byte>)
    ensures var t := EncodeFlip(DecodeFlip(s));
            |t| <= |s| && s == t + Zeros(|s| - |t|) && (t != [] ==> t[|t| - 1] != 0)
  {
    var r := Reverse(s);
    EncodeBeValue(r);
    TrimIsSuffix(r);
    var u := TrimLeadingZeros(r);
    ReverseTwice(s);
    ReverseConcat(Zeros(|r| - |u|), u);
    assert Reverse(Zeros(|r| - |u|)) == Zeros(|r| - |u|);
  }

  /** Hence the round trip gives the string back exactly when it does not end in a zero byte. */
  lemma EncodeFlipOfDecodeFlipExact(s: seq<Byte>)
    ensures EncodeFlip(DecodeFlip(s)) == s <==> s == [] || s[|s| - 1] != 0
  {
    EncodeFlipOfDecodeFlip(s);
  }

  /** The value fits iff `to_array` returns; then both orders denote it and mirror each other. */
  lemma ToArrayDenotes(n: nat, width: nat)
    ensures ToArray(n, width, Wow).Success? <==> n < Pow(256, width)
    ensures ToArray(n, width, Rfc5054).Success? <==> n < Pow(256, width)
    ensures n < Pow(256, width) ==>
              var big, little := ToArray(n, width, Rfc5054).value, ToArray(n, width, Wow).value;
              && |big| == |little| == width
              && little == Reverse(big)
              && BeValue(big) == n && LeValue(little) == n && DecodeFlip(little) == n
  {
    EncodeLength(n, width);
    if n < Pow(256, width) {
      var e := Encode(n);
      var big := Zeros(width - |e|) + e;
      BeValueLeadingZeros(width - |e|, e);
      BeValueEncode(n);
      ReverseTwice(big);
      BeValueReverse(Reverse(big));
    }
  }
}
