/** C's fixed-width integers as ranges of `int`, and the byte order of a
    little-endian host: `Get`/`Put` are native loads and stores, `Swap` is
    htons/ntohs/htonl/ntohl, and `Or`/`Xor` are `|` and `^`. */
module Bytes {
  type byte = x: int | 0 <= x < 0x100
  type uint16 = x: int | 0 <= x < 0x1_0000
  type uint32 = x: int | 0 <= x < 0x1_0000_0000

  /** Byte k of v, counted from the least significant one. */
  function Byte0(v: uint32): byte { v % 0x100 }
  function Byte1(v: uint32): byte { v / 0x100 % 0x100 }
  function Byte2(v: uint32): byte { v / 0x1_0000 % 0x100 }
  function Byte3(v: uint32): byte { v / 0x100_0000 }

  function Join16(b1: byte, b0: byte): uint16 { b1 * 0x100 + b0 }

  function Join32(b3: byte, b2: byte, b1: byte, b0: byte): uint32 {
    b3 * 0x100_0000 + b2 * 0x1_0000 + b1 * 0x100 + b0
  }

  lemma BytesOfJoin16(b1: byte, b0: byte)
    ensures Join16(b1, b0) % 0x100 == b0
    ensures Join16(b1, b0) / 0x100 == b1
  {
  }

  lemma Split32(v: uint32)
    ensures v == Join32(Byte3(v), Byte2(v), Byte1(v), Byte0(v))
  {
    assert v / 0x1_0000 == v / 0x100 / 0x100;
    assert v / 0x100_0000 == v / 0x100 / 0x100 / 0x100;
  }

  lemma BytesOfJoin32(b3: byte, b2: byte, b1: byte, b0: byte)
    ensures Byte0(Join32(b3, b2, b1, b0)) == b0
    ensures Byte1(Join32(b3, b2, b1, b0)) == b1
    ensures Byte2(Join32(b3, b2, b1, b0)) == b2
    ensures Byte3(Join32(b3, b2, b1, b0)) == b3
  {
    var v := Join32(b3, b2, b1, b0);
    assert v / 0x100 == b3 * 0x1_0000 + b2 * 0x100 + b1;
    assert v / 0x1_0000 == b3 * 0x100 + b2;
  }

  function Swap16(v: uint16): uint16 { v % 0x100 * 0x100 + v / 0x100 }

  function Swap32(v: uint32): uint32 {
    Join32(Byte0(v), Byte1(v), Byte2(v), Byte3(v))
  }

  lemma Swap16Twice(v: uint16)
    ensures Swap16(Swap16(v)) == v
  {
    BytesOfJoin16(v % 0x100, v / 0x100);
  }

  /** The 16-bit word a big-endian reader finds at offset o. */
  function Word(s: seq<byte>, o: nat): uint16
    requires o + 2 <= |s|
  {
    Join16(s[o], s[o + 1])
  }

  function Get16(s: seq<byte>, o: nat): uint16
    requires o + 2 <= |s|
  {
    Join16(s[o + 1], s[o])
  }

  function Put16(s: seq<byte>, o: nat, v: uint16): (r: seq<byte>)
    requires o + 2 <= |s|
    ensures |r| == |s|
  {
    s[o := v % 0x100][o + 1 := v / 0x100]
  }

  function Get32(s: seq<byte>, o: nat): uint32
    requires o + 4 <= |s|
  {
    Join32(s[o + 3], s[o + 2], s[o + 1], s[o])
  }

  function Put32(s: seq<byte>, o: nat, v: uint32): (r: seq<byte>)
    requires o + 4 <= |s|
    ensures |r| == |s|
  {
    s[o := Byte0(v)][o + 1 := Byte1(v)][o + 2 := Byte2(v)][o + 3 := Byte3(v)]
  }

  lemma GetPut32(s: seq<byte>, o: nat, v: uint32)
    requires o + 4 <= |s|
    ensures Get32(Put32(s, o, v), o) == v
  {
    Split32(v);
  }

  function Zeros(n: nat): (s: seq<byte>)
    ensures |s| == n
  {
    seq(n, i => 0)
  }

  /** recv into a zeroed buffer of n bytes, one whole send at a time. */
  function Deliver(msg: seq<byte>, n: nat): (buf: seq<byte>)
    ensures |buf| == n
    ensures forall i :: 0 <= i < n ==> buf[i] == if i < |msg| then msg[i] else 0
  {
    if |msg| >= n then msg[..n] else msg + Zeros(n - |msg|)
  }

  /** strlen: the index of the first NUL (the length when there is none). */
  function StrLen(s: seq<byte>): (n: nat)
    ensures n <= |s|
    ensures n < |s| ==> s[n] == 0
    ensures forall j :: 0 <= j < n ==> s[j] != 0
  {
    if s == [] || s[0] == 0 then 0 else 1 + StrLen(s[1..])
  }

  lemma StrLenAt(s: seq<byte>, o: nat, n: nat)
    requires o + n <= |s|
    requires o + n < |s| ==> s[o + n] == 0
    requires forall i :: o <= i < o + n ==> s[i] != 0
    ensures StrLen(s[o..]) == n
  {
  }

  /** The C string stored at the start of s. */
  function CStr(s: seq<byte>): seq<byte> {
    s[..StrLen(s)]
  }

  /** The C string at offset o is m when m and a NUL, or m and the end, are there. */
  lemma CStrAt(s: seq<byte>, o: nat, m: seq<byte>)
    requires o + |m| <= |s|
    requires o + |m| < |s| ==> s[o + |m|] == 0
    requires forall j :: 0 <= j < |m| ==> s[o + j] == m[j]
    requires 0 !in m
    ensures StrLen(s[o..]) == |m|
    ensures CStr(s[o..]) == m
  {
    hide StrLen;
    forall i | o <= i < o + |m| ensures s[i] != 0 {
      assert s[o + (i - o)] == m[i - o];
    }
    StrLenAt(s, o, |m|);
  }

  lemma SliceOfSlice(s: seq<byte>, lo: nat, hi: nat, i: nat, j: nat)
    requires lo <= hi <= |s| && i <= j <= hi - lo
    ensures s[lo..hi][i..j] == s[lo + i..lo + j]
  {
    forall k | 0 <= k < j - i ensures s[lo..hi][i..j][k] == s[lo + i..lo + j][k] {
      assert s[lo..hi][i + k] == s[lo + i + k];
    }
  }

  function Or(a: nat, b: nat): nat {
    if a == 0 && b == 0 then 0
    else (if a % 2 == 1 || b % 2 == 1 then 1 else 0) + 2 * Or(a / 2, b / 2)
  }

  function Xor(a: nat, b: nat): nat {
    if a == 0 && b == 0 then 0
    else (if a % 2 != b % 2 then 1 else 0) + 2 * Xor(a / 2, b / 2)
  }

  function Pow2(k: nat): (p: nat)
    ensures p > 0
  {
    if k == 0 then 1 else 2 * Pow2(k - 1)
  }

  lemma {:induction false} OrZero(a: nat)
    ensures Or(a, 0) == a
  {
    if a > 0 {
      OrZero(a / 2);
    }
  }

  /** `h << k | b` is a sum when b fits in the k bits that were freed. */
  lemma {:induction false} OrIsSum(h: nat, b: nat, k: nat)
    requires b < Pow2(k)
    ensures Or(h * Pow2(k), b) == h * Pow2(k) + b
  {
    hide Or, Pow2;
    if k == 0 {
      Pow2Zero();
      OrZero(h);
    } else {
      Pow2Step(k);
      OrIsSum(h, b / 2, k - 1);
      OrShifted(h, b, Pow2(k - 1));
    }
  }

  lemma OrShifted(h: nat, b: nat, p: nat)
    requires Or(h * p, b / 2) == h * p + b / 2
    ensures Or(h * (2 * p), b) == h * (2 * p) + b
  {
    hide Or;
    assert h * (2 * p) == 2 * (h * p);
    OrStep(h * p, b);
  }

  lemma Pow2Zero()
    ensures Pow2(0) == 1
  {
  }

  lemma Pow2Step(k: nat)
    requires k > 0
    ensures Pow2(k) == 2 * Pow2(k - 1)
  {
  }

  lemma OrStep(x: nat, b: nat)
    ensures Or(2 * x, b) == b % 2 + 2 * Or(x, b / 2)
  {
  }

  lemma {:induction false} OrBelow(a: nat, b: nat, k: nat)
    requires a < Pow2(k) && b < Pow2(k)
    ensures Or(a, b) < Pow2(k)
  {
    if k > 0 {
      OrBelow(a / 2, b / 2, k - 1);
    }
  }

  lemma {:induction false} XorBelow(a: nat, b: nat, k: nat)
    requires a < Pow2(k) && b < Pow2(k)
    ensures Xor(a, b) < Pow2(k)
  {
    if k > 0 {
      XorBelow(a / 2, b / 2, k - 1);
    }
  }

  lemma {:induction false} XorTwice(a: nat, b: nat)
    ensures Xor(Xor(a, b), b) == a
  {
    if a != 0 || b != 0 {
      hide Xor;
      XorTwice(a / 2, b / 2);
      XorStep(a, b);
      XorStep(Xor(a, b), b);
    }
  }

  lemma XorStep(a: nat, b: nat)
    ensures Xor(a, b) % 2 == (if a % 2 != b % 2 then 1 else 0)
    ensures Xor(a, b) / 2 == Xor(a / 2, b / 2)
  {
  }

  lemma {:induction false} XorIsZero(a: nat, b: nat)
    ensures Xor(a, b) == 0 <==> a == b
  {
    if a != 0 || b != 0 {
      XorIsZero(a / 2, b / 2);
    }
  }

  lemma {:induction false} XorWithZero(k: nat)
    ensures Xor(0, k) == k && Xor(k, 0) == k
  {
    if k > 0 {
      XorWithZero(k / 2);
    }
  }

  /** Bit k of n. */
  function Bit(n: nat, k: nat): nat { n / Pow2(k) % 2 }

  lemma HalfBit(n: nat, k: nat)
    requires k > 0
    ensures Bit(n, k) == Bit(n / 2, k - 1)
  {
    var p := Pow2(k - 1);
    HalfQuotient(n, p);
  }

  lemma HalfQuotient(n: nat, p: nat)
    requires p > 0
    ensures n / (2 * p) == n / 2 / p
  {
    var q := n / 2 / p;
    var r := n / 2 % p;
    assert n / 2 == q * p + r;
    assert n == (2 * p) * q + (2 * r + n % 2);
    QuotientIs(n, 2 * p, q, 2 * r + n % 2);
  }

  lemma QuotientIs(n: nat, d: nat, q: nat, r: nat)
    requires n == d * q + r && r < d
    ensures n / d == q
  {
    assert n == d * (n / d) + n % d;
    FarMultiple(d, n / d - q);
    assert d * (n / d - q) == r - n % d;
  }

  lemma FarMultiple(d: nat, t: int)
    ensures t > 0 ==> d * t >= d
    ensures t < 0 ==> d * t <= -1 * d
  {
  }

  /** A bit of `a | b` is set exactly when it is in one of them, a bit of `a ^ b`
      exactly when it is in one but not the other. */
  lemma {:induction false} BitwiseMeaning(a: nat, b: nat, k: nat)
    ensures Bit(Or(a, b), k) == 1 <==> Bit(a, k) == 1 || Bit(b, k) == 1
    ensures Bit(Xor(a, b), k) == 1 <==> Bit(a, k) != Bit(b, k)
    decreases k
  {
    OrLastBit(a, b);
    XorStep(a, b);
    if k == 0 {
      Pow2Zero();
      hide Or, Xor, Pow2;
    } else {
      hide Or, Xor, Bit;
      HalfBit(a, k);
      HalfBit(b, k);
      HalfBit(Or(a, b), k);
      HalfBit(Xor(a, b), k);
      BitwiseMeaning(a / 2, b / 2, k - 1);
    }
  }

  lemma OrLastBit(a: nat, b: nat)
    ensures Or(a, b) % 2 == (if a % 2 == 1 || b % 2 == 1 then 1 else 0)
    ensures Or(a, b) / 2 == Or(a / 2, b / 2)
  {
  }
}
