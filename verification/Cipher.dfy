/** encrypt.c: XOR with a four-byte key whose phase is the byte's position. */
module Cipher {
  import opened Bytes

  const KEY: seq<byte> := [0x12, 0x34, 0x56, 0x78]

  function KeyAt(i: nat): byte { KEY[i % 4] }

  function XorByte(a: byte, k: byte): byte {
    XorBelowByte(a, k);
    Xor(a, k)
  }

  lemma XorBelowByte(a: byte, k: byte)
    ensures Xor(a, k) < 0x100
  {
    assert Pow2(8) == 0x100;
    XorBelow(a, k, 8);
  }

  lemma XorByteFacts(a: byte, k: byte)
    ensures XorByte(XorByte(a, k), k) == a
    ensures XorByte(a, k) == 0 <==> a == k
  {
    XorTwice(a, k);
    XorIsZero(a, k);
  }

  lemma XorByteZero(k: byte)
    ensures XorByte(0, k) == k
  {
    XorWithZero(k);
  }

  function Encrypted(s: seq<byte>): (r: seq<byte>)
    ensures |r| == |s|
    ensures forall i :: 0 <= i < |s| ==> r[i] == XorByte(s[i], KeyAt(i))
  {
    seq(|s|, i requires 0 <= i < |s| => XorByte(s[i], KeyAt(i)))
  }

  /** Encrypting and decrypting are the same operation. */
  lemma EncryptedTwice(s: seq<byte>)
    ensures Encrypted(Encrypted(s)) == s
  {
    hide XorByte, KeyAt;
    forall i | 0 <= i < |s| ensures Encrypted(Encrypted(s))[i] == s[i] {
      XorByteFacts(s[i], KeyAt(i));
    }
  }

  method XorEncryptDecrypt(input: array<byte>, output: array<byte>, length: nat)
    requires length <= input.Length && length <= output.Length
    modifies output
    ensures output[..] == Encrypted(old(input[..length])) + old(output[length..])
  {
    hide XorByte, KeyAt;
    for i := 0 to length
      invariant forall j :: 0 <= j < i ==> output[j] == XorByte(old(input[j]), KeyAt(j))
      invariant forall j :: i <= j < output.Length ==> output[j] == old(output[j])
      invariant forall j :: i <= j < length ==> input[j] == old(input[j])
    {
      output[i] := XorByte(input[i], KeyAt(i));
    }
  }
}
