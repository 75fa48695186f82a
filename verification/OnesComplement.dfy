/** One's-complement sums: what the checksum loops compute, and the modular
    arithmetic behind them (RFC 1071, sections 1 and 2). */
module OnesComplement {
  import opened Bytes

  const WRAP := 0x1_0000_0000

  /** Sum of the big-endian words of s, an odd last byte padded on the right. */
  function WordSum(s: seq<byte>): nat {
    if s == [] then 0
    else if |s| == 1 then Join16(s[0], 0)
    else Word(s, 0) + WordSum(s[2..])
  }

  /** The same sum read natively, as a little-endian `unsigned short *` does. */
  function NativeSum(s: seq<byte>): nat {
    if s == [] then 0
    else if |s| == 1 then Join16(0, s[0])
    else Get16(s, 0) + NativeSum(s[2..])
  }

  /** One carry fold: high part plus low 16 bits. */
  function Fold(n: nat): nat { n / 0x1_0000 + n % 0x1_0000 }

  /** The 16-bit one's-complement value of n: 0xffff is taken away until 16 bits
      are enough, so only 0 gives 0. */
  function OnesSum(n: nat): uint16 {
    if n <= 0xffff then n else OnesSum(n - 0xffff)
  }

  ghost predicate Congruent(a: int, b: int) { (a - b) % 0xffff == 0 }

  /** The tail of cksum: complement, htons, and 0 sent as 0xffff. */
  function Finish(folded: uint16): uint16 {
    var c := Swap16(0xffff - folded);
    if c == 0 then 0xffff else c
  }

  function Checksum(s: seq<byte>): uint16 {
    Finish(OnesSum(WordSum(s)))
  }

  /** What cksum computes with its uint32 accumulator, whatever the length. */
  function WrappingChecksum(s: seq<byte>): uint16 {
    Finish(OnesSum(WordSum(s) % WRAP))
  }

  // ---------- congruence modulo 65535, by witnesses ----------

  lemma CongruentBy(a: int, b: int, k: int)
    requires a == b + 0xffff * k
    ensures Congruent(a, b)
  {
  }

  lemma Witness(a: int, b: int) returns (k: int)
    requires Congruent(a, b)
    ensures a == b + 0xffff * k
  {
    k := (a - b) / 0xffff;
  }

  lemma {:induction false} OnesSumWitness(n: nat) returns (k: int)
    ensures n == OnesSum(n) + 0xffff * k
    ensures OnesSum(n) == 0 <==> n == 0
    decreases n
  {
    if n <= 0xffff {
      k := 0;
    } else {
      k := OnesSumWitness(n - 0xffff);
      k := k + 1;
    }
  }

  lemma {:induction false} OnesSumIs(n: nat, f: uint16, k: int)
    requires n == f + 0xffff * k
    requires f == 0 <==> n == 0
    ensures OnesSum(n) == f
    decreases n
  {
    if n > 0xffff {
      OnesSumIs(n - 0xffff, f, k - 1);
    }
  }

  /** A value between 1 and 65535 congruent to 0 is 65535. */
  lemma OnesSumAllOnes(n: nat)
    ensures OnesSum(n) == 0xffff <==> Congruent(n, 0) && n != 0
  {
    hide OnesSum;
    var k := OnesSumWitness(n);
    if OnesSum(n) == 0xffff {
      CongruentBy(n, 0, k + 1);
    }
    if Congruent(n, 0) && n != 0 {
      var j := Witness(n, 0);
      OnesSumIs(n, 0xffff, j - 1);
    }
  }

  // ---------- folding ----------

  /** A fold above 0xffff shrinks the sum and keeps its one's-complement value,
      and two folds are enough for any uint32. */
  lemma FoldKeepsOnesSum(n: nat)
    ensures OnesSum(Fold(n)) == OnesSum(n)
    ensures n > 0xffff ==> Fold(n) < n
    ensures n < WRAP ==> Fold(Fold(n)) <= 0xffff
  {
    var k := OnesSumWitness(n);
    OnesSumIs(Fold(n), OnesSum(n), k - n / 0x1_0000);
  }

  /** Two sums give the same checksum exactly when they agree modulo 65535. */
  lemma FinishEqual(a: nat, b: nat)
    ensures Finish(OnesSum(a)) == Finish(OnesSum(b)) <==> Congruent(a, b)
    ensures Finish(OnesSum(a)) != 0
  {
    hide OnesSum, Finish;
    var f, g := OnesSum(a), OnesSum(b);
    var j := OnesSumWitness(a);
    var k := OnesSumWitness(b);
    FinishSame(f, g);
    if Finish(f) == Finish(g) {
      var d: int := if f == g then 0 else if f > g then 1 else -1;
      CongruentBy(a, b, d + j - k);
    }
    if Congruent(a, b) {
      var m := Witness(a, b);
      assert f == g + 0xffff * (m - j + k);
    }
  }

  /** A sum that needs no fold is simply complemented. */
  lemma SmallChecksum(s: seq<byte>)
    requires WordSum(s) < 0xffff
    ensures Swap16(Checksum(s)) == 0xffff - WordSum(s)
  {
    hide WordSum;
    Swap16Twice(0xffff - WordSum(s));
  }

  lemma FinishSame(f: uint16, g: uint16)
    ensures Finish(f) == Finish(g) <==> f == g || f - g == 0xffff || g - f == 0xffff
    ensures Finish(f) == 0xffff <==> f == 0 || f == 0xffff
    ensures Finish(f) != 0
  {
    Swap16Twice(0xffff - f);
    Swap16Twice(0xffff - g);
    assert Swap16(0xffff) == 0xffff && Swap16(0) == 0;
  }

  // ---------- word sums ----------

  lemma {:induction false} WordSumConcat(a: seq<byte>, b: seq<byte>)
    requires |a| % 2 == 0
    ensures WordSum(a + b) == WordSum(a) + WordSum(b)
  {
    if a == [] {
      assert a + b == b;
    } else {
      assert (a + b)[2..] == a[2..] + b;
      WordSumConcat(a[2..], b);
    }
  }

  /** Overwriting one aligned word moves the sum by the difference of the words. */
  lemma WordSumUpdate(s: seq<byte>, o: nat, b1: byte, b0: byte)
    requires o % 2 == 0 && o + 2 <= |s|
    ensures WordSum(s[o := b1][o + 1 := b0]) == WordSum(s) - Word(s, o) + Join16(b1, b0)
  {
    var t := s[o := b1][o + 1 := b0];
    assert s == s[..o] + s[o..] && t == s[..o] + t[o..];
    WordSumConcat(s[..o], s[o..]);
    WordSumConcat(s[..o], t[o..]);
    assert s[o..][2..] == s[o + 2..] == t[o..][2..];
  }

  lemma WordSumPut16(s: seq<byte>, o: nat, v: uint16)
    requires o % 2 == 0 && o + 2 <= |s|
    ensures WordSum(Put16(s, o, v)) == WordSum(s) - Word(s, o) + Swap16(v)
  {
    WordSumUpdate(s, o, v % 0x100, v / 0x100);
  }

  lemma {:induction false} WordSumBound(s: seq<byte>)
    ensures WordSum(s) <= (|s| + 1) / 2 * 0xffff
  {
    if |s| > 1 {
      WordSumBound(s[2..]);
    }
  }

  function Repeat(b: byte, n: nat): seq<byte> {
    seq(n, i => b)
  }

  lemma {:induction false} WordSumOfOnes(n: nat)
    ensures WordSum(Repeat(0xff, n)) == n / 2 * 0xffff + n % 2 * 0xff00
  {
    if n > 1 {
      assert Repeat(0xff, n)[2..] == Repeat(0xff, n - 2);
      WordSumOfOnes(n - 2);
    }
  }

  // ---------- the uint32 accumulator ----------

  lemma AccumulatorBound(s: seq<byte>)
    requires |s| <= 131074
    ensures WordSum(s) < WRAP
    ensures WrappingChecksum(s) == Checksum(s)
  {
    hide OnesSum, Finish, WordSum;
    WordSumBound(s);
    NoWrap(WordSum(s));
  }

  lemma NoWrap(w: nat)
    requires w < WRAP
    ensures w % WRAP == w
  {
  }

  /** For every length an int can hold, the uint32 accumulator gives the true
      checksum exactly when it did not wrap: a wrap loses one modulo 65535. */
  lemma WrapIsExact(s: seq<byte>)
    requires |s| < 0x8000_0000
    ensures WrappingChecksum(s) == Checksum(s) <==> WordSum(s) < WRAP
  {
    hide OnesSum, Finish, WordSum;
    WordSumBound(s);
    WrapLoses(WordSum(s));
    FinishEqual(WordSum(s) % WRAP, WordSum(s));
  }

  lemma WrapLoses(w: nat)
    requires w <= 0x4000_0000 * 0xffff
    ensures Congruent(w % WRAP, w) <==> w < WRAP
  {
    var q := w / WRAP;
    assert w % WRAP == w - q * WRAP;
    assert 0 <= q < 0x4000;
    if Congruent(w % WRAP, w) {
      var k := Witness(w % WRAP, w);
      assert q == 0xffff * (-k - 65537 * q);
    }
  }

  /** One byte more than the bound, all ones, already goes wrong. */
  lemma AccumulatorBoundTight()
    ensures WrappingChecksum(Repeat(0xff, 131075)) != Checksum(Repeat(0xff, 131075))
  {
    WordSumOfOnes(131075);
    WrapIsExact(Repeat(0xff, 131075));
  }

  // ---------- what a checksum can tell apart ----------

  /** Two buffers share a checksum exactly when their word sums agree modulo 65535. */
  lemma ChecksumDiscriminates(a: seq<byte>, b: seq<byte>)
    ensures Checksum(a) == Checksum(b) <==> Congruent(WordSum(a), WordSum(b))
    ensures Checksum(a) != 0
  {
    hide OnesSum, Finish, WordSum;
    FinishEqual(WordSum(a), WordSum(b));
  }

  /** A changed aligned word escapes the checksum only as 0x0000 for 0xffff or back. */
  lemma OneWordChange(s: seq<byte>, o: nat, b1: byte, b0: byte)
    requires o % 2 == 0 && o + 2 <= |s|
    ensures var w, v := Word(s, o), Join16(b1, b0);
      Checksum(s[o := b1][o + 1 := b0]) == Checksum(s)
      <==> w == v || (w == 0 && v == 0xffff) || (w == 0xffff && v == 0)
  {
    hide Checksum;
    var w, v := Word(s, o), Join16(b1, b0);
    WordSumUpdate(s, o, b1, b0);
    ChecksumDiscriminates(s[o := b1][o + 1 := b0], s);
    WordsCongruent(WordSum(s), w, v);
  }

  lemma WordsCongruent(n: int, w: uint16, v: uint16)
    ensures Congruent(n - w + v, n) <==> w == v || (w == 0 && v == 0xffff) || (w == 0xffff && v == 0)
  {
    if Congruent(n - w + v, n) {
      var k := Witness(n - w + v, n);
    }
  }

  /** One changed byte never escapes, wherever it is: the padded last byte of an
      odd-length buffer included. */
  lemma OneByteChange(s: seq<byte>, i: nat, b: byte)
    requires i < |s|
    ensures Checksum(s[i := b]) == Checksum(s) <==> s[i] == b
  {
    hide Checksum, WordSum;
    var o := i - i % 2;
    if o + 2 <= |s| {
      var b1, b0 := if i == o then b else s[o], if i == o then s[o + 1] else b;
      OneWordChange(s, o, b1, b0);
      assert s[i := b] == s[o := b1][o + 1 := b0];
    } else {
      var t := s[i := b];
      ChecksumDiscriminates(t, s);
      OddTail(s);
      OddTail(t);
      assert s[..i] == t[..i];
      LastBytesCongruent(WordSum(s[..i]), s[i], b);
    }
  }

  lemma OddTail(s: seq<byte>)
    requires |s| % 2 == 1
    ensures WordSum(s) == WordSum(s[..|s| - 1]) + Join16(s[|s| - 1], 0)
  {
    hide WordSum, Join16;
    var last := s[|s| - 1];
    WordSumConcat(s[..|s| - 1], [last]);
    WordSumOne(last);
    assert s == s[..|s| - 1] + [last];
  }

  lemma WordSumOne(b: byte)
    ensures WordSum([b]) == Join16(b, 0)
  {
  }

  lemma LastBytesCongruent(n: int, w: byte, v: byte)
    ensures Congruent(n + Join16(v, 0), n + Join16(w, 0)) <==> w == v
  {
    if Congruent(n + Join16(v, 0), n + Join16(w, 0)) {
      var k := Witness(n + Join16(v, 0), n + Join16(w, 0));
    }
  }

  /** RFC 1071, section 1: with the checksum stored natively in its zeroed field,
      the whole buffer sums to all ones. */
  lemma SumToAllOnes(s: seq<byte>, o: nat)
    requires o % 2 == 0 && o + 2 <= |s|
    requires s[o] == s[o + 1] == 0
    ensures OnesSum(WordSum(Put16(s, o, Checksum(s)))) == 0xffff
  {
    hide OnesSum, Finish, WordSum;
    WordSumPut16(s, o, Checksum(s));
    AllOnesAfter(WordSum(s));
  }

  lemma AllOnesAfter(w: nat)
    ensures OnesSum(w + Swap16(Finish(OnesSum(w)))) == 0xffff
  {
    hide OnesSum, Finish;
    var c := Swap16(Finish(OnesSum(w)));
    var j := OnesSumWitness(w);
    var k := FinishIsNegation(OnesSum(w));
    CongruentBy(w + c, 0, j + k);
    OnesSumAllOnes(w + c);
  }

  /** Stored natively, Finish(f) is a big-endian word congruent to -f, and never 0. */
  lemma FinishIsNegation(f: uint16) returns (k: int)
    ensures Swap16(Finish(f)) == 0xffff * k - f
    ensures Swap16(Finish(f)) > 0
  {
    Swap16Twice(0xffff - f);
    k := if f == 0xffff then 2 else 1;
  }

  /** The field writers store htons of the checksum instead. Then the buffer
      sums to all ones exactly when 257 divides its word sum. */
  lemma SumToAllOnesSwapped(s: seq<byte>, o: nat)
    requires o % 2 == 0 && o + 2 <= |s|
    requires s[o] == s[o + 1] == 0
    ensures OnesSum(WordSum(Put16(s, o, Swap16(Checksum(s))))) == 0xffff
       <==> WordSum(s) % 257 == 0
  {
    hide OnesSum, Finish, WordSum;
    WordSumPut16(s, o, Swap16(Checksum(s)));
    Swap16Twice(Checksum(s));
    AllOnesAfterSwapped(WordSum(s));
  }

  lemma AllOnesAfterSwapped(w: nat)
    ensures OnesSum(w + Finish(OnesSum(w))) == 0xffff <==> w % 257 == 0
  {
    hide OnesSum, Finish;
    var c := Finish(OnesSum(w));
    var k := FinishWitness(w);
    OnesSumAllOnes(w + c);
    DivisibleBy257(w, w + c, k);
  }

  /** A checksum is congruent to -256 times the word sum, and never 0. */
  lemma FinishWitness(w: nat) returns (k: int)
    ensures Finish(OnesSum(w)) == 0xffff * k - 256 * w
    ensures Finish(OnesSum(w)) > 0
  {
    hide OnesSum, Finish;
    var c := Finish(OnesSum(w));
    var j := OnesSumWitness(w);
    var i := FinishIsNegation(OnesSum(w));
    var m := Swap16Witness(Swap16(c));
    Swap16Twice(c);
    k := m + 256 * i + 256 * j;
  }

  lemma DivisibleBy257(w: int, n: int, k: int)
    requires n == -255 * w + 0xffff * k
    ensures Congruent(n, 0) <==> w % 257 == 0
  {
    if Congruent(n, 0) {
      var j := Witness(n, 0);
      assert w == 257 * (k - j);
    }
    if w % 257 == 0 {
      CongruentBy(n, 0, k - w / 257);
    }
  }

  // ---------- byte order ----------

  /** Swapping the bytes of a word multiplies it by 256 modulo 65535. */
  lemma Swap16Witness(v: uint16) returns (k: int)
    ensures Swap16(v) == 256 * v + 0xffff * k
    ensures Swap16(v) == 0 <==> v == 0
  {
    k := -(v / 0x100);
  }

  lemma {:induction false} NativeSumWitness(s: seq<byte>) returns (k: int)
    ensures NativeSum(s) == 256 * WordSum(s) + 0xffff * k
    ensures NativeSum(s) == 0 <==> WordSum(s) == 0
  {
    if s == [] {
      k := 0;
    } else if |s| == 1 {
      k := Swap16Witness(Join16(s[0], 0));
      SwapJoin16(s[0], 0);
    } else {
      var m := NativeSumWitness(s[2..]);
      k := Swap16Witness(Word(s, 0));
      SwapJoin16(s[0], s[1]);
      k := k + m;
    }
  }

  lemma SwapJoin16(b1: byte, b0: byte)
    ensures Swap16(Join16(b1, b0)) == Join16(b0, b1)
  {
    BytesOfJoin16(b1, b0);
  }

  /** RFC 1071, section 2(B): the native one's-complement sum is the byte swap
      of the big-endian one. */
  lemma NativeOnesSumIsSwapped(s: seq<byte>)
    ensures OnesSum(NativeSum(s)) == Swap16(OnesSum(WordSum(s)))
  {
    hide OnesSum, WordSum, NativeSum;
    var f := OnesSum(WordSum(s));
    var k := NativeSumWitness(s);
    var j := OnesSumWitness(WordSum(s));
    var m := Swap16Witness(f);
    OnesSumIs(NativeSum(s), Swap16(f), k + 256 * j - m);
  }

  /** The big-endian checksum and the complement of the native sum are the same
      number, but for the two forms of zero. */
  lemma ChecksumIsNativeComplement(s: seq<byte>)
    ensures var n := 0xffff - OnesSum(NativeSum(s));
      Checksum(s) == if n == 0 then 0xffff else n
  {
    hide OnesSum, WordSum, NativeSum;
    NativeOnesSumIsSwapped(s);
    SwapOfComplement(OnesSum(WordSum(s)));
  }

  lemma SwapOfComplement(f: uint16)
    ensures Swap16(0xffff - f) == 0xffff - Swap16(f)
  {
    var q, r := f / 0x100, f % 0x100;
    assert 0xffff - f == Join16(0xff - q, 0xff - r);
    SwapJoin16(0xff - q, 0xff - r);
  }

  /** Two fixed folds, the second adding only the carry, then a cut to 16 bits. */
  function TwoFolds(n: nat): uint16 {
    (Fold(n) + Fold(n) / 0x1_0000) % 0x1_0000
  }

  /** Two fixed folds of a sum below 2^48 give its one's-complement value exactly
      when the second fold leaves no carry, as it never does below 2^32. */
  lemma TwoFoldsExact(n: nat)
    requires n < 0x1_0000_0000_0000
    ensures TwoFolds(n) == OnesSum(n) <==> Fold(Fold(n)) <= 0xffff
    ensures n < WRAP ==> Fold(Fold(n)) <= 0xffff
  {
    hide Fold, TwoFolds, OnesSum;
    FoldKeepsOnesSum(n);
    FoldKeepsOnesSum(Fold(n));
    TwoFoldsValue(n);
    OnesSumOfFold(Fold(Fold(n)));
  }

  lemma TwoFoldsValue(n: nat)
    requires n < 0x1_0000_0000_0000
    ensures var t := Fold(Fold(n));
      t < 0x2_0001 && TwoFolds(n) == if t <= 0xffff then t else t - 0x1_0000
  {
  }

  lemma OnesSumOfFold(t: nat)
    requires t < 0x2_0001
    ensures OnesSum(t) == if t <= 0xffff then t else if t - 0xffff <= 0xffff then t - 0xffff else t - 0x1_fffe
  {
  }

}
