/** The runtime half of munger, linked into the obfuscated binary:
    __decode, a decoder memoised through its first argument. */
module MungerBuiltins {

  /** Every byte XOR 0xFF (the C code's `^ -1` on a char). Munger's encode
      applies it at compile time and __decode undoes it at run time. */
  function Xor(b: seq<bv8>): seq<bv8> {
    seq(|b|, i requires 0 <= i < |b| => b[i] ^ 0xFF)
  }

  /** XOR with 0xFF is its own inverse: decoding an encoded string gives it back. */
  lemma XorInvolutive(b: seq<bv8>)
    ensures Xor(Xor(b)) == b
  {
    assert forall i :: 0 <= i < |b| ==> Xor(Xor(b))[i] == b[i];
  }

  /** Encoding changes every byte, so a non-empty literal never survives verbatim. */
  lemma XorChangesEveryByte(b: seq<bv8>)
    ensures |Xor(b)| == |b|
    ensures forall i :: 0 <= i < |b| ==> Xor(b)[i] != b[i]
  {
  }

  /** __decode(decoded, orig, length): a non-null `decoded` is returned as it
      is; otherwise a fresh zeroed buffer of `length` bytes receives orig's
      bytes XOR 0xFF. `orig` is only read. */
  method Decode(decoded: array?<bv8>, orig: array<bv8>, length: nat) returns (r: array<bv8>)
    requires length <= orig.Length
    ensures decoded != null ==> r == decoded
    ensures decoded == null ==> fresh(r) && r.Length == length && r[..] == Xor(orig[..length])
  {
    if decoded != null {
      return decoded;
    }
    r := new bv8[length](_ => 0);
    var i := 0;
    while i < length
      invariant 0 <= i <= length
      invariant forall k :: 0 <= k < i ==> r[k] == orig[k] ^ 0xFF
    {
      r[i] := orig[i] ^ 0xFF;
      i := i + 1;
    }
    assert r[..] == Xor(orig[..length]);
  }

  /** A string that munger encoded is decoded back to its bytes on first use,
      and a second use through the same cache slot returns the same buffer. */
  method DecodeEncodedTwice(s: seq<bv8>) returns (first: array<bv8>, second: array<bv8>)
    ensures first[..] == s
    ensures second == first
  {
    var encoded := new bv8[|s|](i requires 0 <= i < |s| => Xor(s)[i]);
    assert encoded[..] == Xor(s);
    first := Decode(null, encoded, |s|);
    assert encoded[..|s|] == Xor(s);
    XorInvolutive(s);
    second := Decode(first, encoded, |s|);
  }
}
