/** The two checksum loops: cksum and verify_checksum of utils.c, and
    calculate_checksum of the Mininet example. `x << 8 | y` on bytes is
    Join16, `(sum >> 16) + (sum & 0xffff)` is Fold, and `~` cut to 16 bits is
    subtraction from 0xffff. */
module Utils {
  import opened Bytes
  import opened OnesComplement

  /** The bytes a pointer and an int length denote; a negative length denotes none. */
  function Window(s: seq<byte>, off: int, len: int): seq<byte>
    requires 0 <= off && off + len <= |s|
  {
    if len <= 0 then [] else s[off..off + len]
  }

  /** One word taken off the front of what is left to sum. */
  lemma SumStep(all: seq<byte>, left: seq<byte>)
    requires |left| >= 2 && WordSum(left) <= WordSum(all)
    ensures 0 <= WordSum(left[2..]) <= WordSum(all)
    ensures (WordSum(all) - WordSum(left[2..])) % WRAP
         == ((WordSum(all) - WordSum(left)) % WRAP + Word(left, 0)) % WRAP
  {
    AddModulo(WordSum(all) - WordSum(left), Word(left, 0));
  }

  lemma OddTail(all: seq<byte>, left: seq<byte>)
    requires |left| == 1 && WordSum(left) <= WordSum(all)
    ensures WordSum(all) % WRAP == ((WordSum(all) - WordSum(left)) % WRAP + Join16(left[0], 0)) % WRAP
  {
    AddModulo(WordSum(all) - WordSum(left), Join16(left[0], 0));
  }

  method Cksum(data: array<byte>, off: int, len: int) returns (c: uint16)
    requires 0 <= off && off + len <= data.Length
    ensures c == WrappingChecksum(Window(data[..], off, len))
    ensures len <= 131074 ==> c == Checksum(Window(data[..], off, len))
  {
    hide WordSum, Checksum;
    ghost var all := Window(data[..], off, len);
    ghost var left := all;
    var sum: uint32 := 0;
    var p, n := off, len;
    while n >= 2
      invariant n <= len && p + n == off + len && p >= off
      invariant left == Window(data[..], p, n)
      invariant WordSum(left) <= WordSum(all)
      invariant sum == (WordSum(all) - WordSum(left)) % WRAP
    {
      SumStep(all, left);
      left := left[2..];
      sum := (sum + Join16(data[p], data[p + 1])) % WRAP;
      p, n := p + 2, n - 2;
    }
    if n > 0 {
      OddTail(all, left);
      sum := (sum + Join16(data[p], 0)) % WRAP;
    } else {
      assert WordSum([]) == 0 by { NothingToSum(); }
    }
    ghost var total := sum;
    assert total == WordSum(all) % WRAP;
    while sum > 0xffff
      invariant OnesSum(sum) == OnesSum(total)
    {
      FoldKeepsOnesSum(sum);
      sum := Fold(sum);
    }
    OnesSumIs(sum, sum, 0);
    sum := Swap16(0xffff - sum);
    c := if sum != 0 then sum else 0xffff;
    if len <= 131074 {
      AccumulatorBound(all);
    }
  }

  lemma NothingToSum()
    ensures WordSum([]) == 0
  {
  }

  lemma AddModulo(n: nat, d: nat)
    ensures (n % WRAP + d) % WRAP == (n + d) % WRAP
  {
  }

  method VerifyChecksum(buf: array<byte>, off: int, len: int, oldCksum: uint16) returns (r: int)
    requires 0 <= off && off + len <= buf.Length
    ensures r == 0 || r == -1
    ensures r == 0 <==> oldCksum == WrappingChecksum(Window(buf[..], off, len))
  {
    var c := Cksum(buf, off, len);
    r := if c == oldCksum then 0 else -1;
  }

  lemma NativeStep(left: seq<byte>)
    ensures left == [] ==> NativeSum(left) == 0
    ensures |left| == 1 ==> NativeSum(left) == Join16(0, left[0])
    ensures |left| >= 2 ==> NativeSum(left) == Join16(left[1], left[0]) + NativeSum(left[2..])
  {
  }

  /** calculate_checksum; a long sum cannot overflow for any int length. */
  method CalculateChecksum(buf: array<byte>, len: int) returns (answer: uint16)
    requires len <= buf.Length && len < 0x8000_0000
    ensures var native := NativeSum(Window(buf[..], 0, len));
      && answer == 0xffff - TwoFolds(native)
      && (answer == 0xffff - OnesSum(native) <==> Fold(Fold(native)) <= 0xffff)
  {
    hide NativeSum, OnesSum, Fold;
    ghost var all := Window(buf[..], 0, len);
    ghost var left := all;
    var sum: int := 0;
    var p, nbytes := 0, len;
    while nbytes > 1
      invariant nbytes <= len && p + nbytes == len && p >= 0
      invariant left == Window(buf[..], p, nbytes)
      invariant sum + NativeSum(left) == NativeSum(all)
    {
      NativeStep(left);
      left := left[2..];
      sum := sum + Join16(buf[p + 1], buf[p]);
      p, nbytes := p + 2, nbytes - 2;
    }
    NativeStep(left);
    if nbytes == 1 {
      var oddbyte := Join16(0, buf[p]);
      sum := sum + oddbyte;
    }
    assert sum == NativeSum(all);
    LongSumFits(all);
    TwoFoldsExact(NativeSum(all));
    sum := Fold(sum);
    sum := sum + sum / 0x1_0000;
    answer := 0xffff - sum % 0x1_0000;
  }

  lemma {:induction false} NativeSumBound(s: seq<byte>)
    ensures 0 <= NativeSum(s) <= (|s| + 1) / 2 * 0xffff
  {
    if |s| > 1 {
      NativeSumBound(s[2..]);
    }
  }

  lemma LongSumFits(s: seq<byte>)
    requires |s| < 0x8000_0000
    ensures 0 <= NativeSum(s) < 0x1_0000_0000_0000
    ensures |s| <= 131074 ==> NativeSum(s) < WRAP
  {
    NativeSumBound(s);
  }

  /** The two algorithms return the same number on every buffer cksum can sum
      without wrapping, odd lengths included, but for 0, which cksum sends as 0xffff. */
  lemma ChecksumsAgree(s: seq<byte>)
    requires |s| <= 131074
    ensures var answer := 0xffff - TwoFolds(NativeSum(s));
      WrappingChecksum(s) == if answer == 0 then 0xffff else answer
  {
    AccumulatorBound(s);
    LongSumFits(s);
    TwoFoldsExact(NativeSum(s));
    ChecksumIsNativeComplement(s);
  }
}
