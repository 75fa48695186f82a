/** host_info.c: the host table, and the dotted-quad parser and printer. */
module HostInfo {
  import opened Bytes

  datatype Option<+T> = None | Some(value: T)

  // ---------- C text ----------

  /** The text before the first NUL. */
  function TextLen(s: string): (n: nat)
    ensures n <= |s|
    ensures n < |s| ==> s[n] == '\0'
    ensures forall j :: 0 <= j < n ==> s[j] != '\0'
  {
    if s == "" || s[0] == '\0' then 0 else 1 + TextLen(s[1..])
  }

  function Text(s: string): string { s[..TextLen(s)] }

  lemma TextOfLiteral(t: string, rest: string)
    requires '\0' !in t
    ensures Text(t + "\0" + rest) == t
  {
    var s := t + "\0" + rest;
    assert s[|t|] == '\0' && s[..|t|] == t;
    assert forall j :: 0 <= j < |t| ==> s[j] == t[j];
    assert TextLen(s) == |t|;
  }

  /** `*start - '0'` with the signed char of an x86 host. */
  function DigitValue(c: char): int {
    var code := c as int % 0x100;
    (if code < 0x80 then code else code - 0x100) - 48
  }

  /** A character stands for its distance from '0' modulo 256, taken between -176
      and 79: a byte above 0x7f is negative. */
  lemma DigitValueRange(c: char)
    ensures -176 <= DigitValue(c) <= 79
    ensures (DigitValue(c) - (c as int - '0' as int)) % 0x100 == 0
  {
    var code := c as int;
    assert code == 0x100 * (code / 0x100) + code % 0x100;
  }

  // ---------- the parser's meaning ----------

  /** Length of the text before the first dot. */
  function FieldLen(t: string): (n: nat)
    ensures n <= |t|
    ensures n < |t| ==> t[n] == '.'
    ensures forall j :: 0 <= j < n ==> t[j] != '.'
  {
    if t == "" || t[0] == '.' then 0 else 1 + FieldLen(t[1..])
  }

  function Field(t: string): string { t[..FieldLen(t)] }

  /** The text after the first dot, empty when there is none. */
  function Rest(t: string): string {
    if FieldLen(t) < |t| then t[FieldLen(t) + 1..] else ""
  }

  function Dots(t: string): nat {
    if t == "" then 0 else (if t[0] == '.' then 1 else 0) + Dots(t[1..])
  }

  /** Decimal reading of f, continued from acc. */
  function Decimal(acc: int, f: string): int
    decreases f
  {
    if f == "" then acc else Decimal(acc * 10 + DigitValue(f[0]), f[1..])
  }

  predicate FitsInt(n: int) { -0x8000_0000 <= n < 0x8000_0000 }

  /** No intermediate value of `octet * 10 + digit` overflows int. */
  predicate FieldFits(acc: int, f: string)
    decreases f
  {
    f == "" ||
    (FitsInt(acc * 10) && FitsInt(acc * 10 + DigitValue(f[0])) && FieldFits(acc * 10 + DigitValue(f[0]), f[1..]))
  }

  predicate FieldsFit(t: string, k: nat)
    decreases k
  {
    k == 0 || (FieldFits(0, Field(t)) && FieldsFit(Rest(t), k - 1))
  }

  /** An int converted to uint32. */
  function ToUint32(n: int): uint32 { n % 0x1_0000_0000 }

  function Or32(a: uint32, b: uint32): uint32 {
    OrIsUint32(a, b);
    Or(a, b)
  }

  lemma OrIsUint32(a: uint32, b: uint32)
    ensures Or(a, b) < 0x1_0000_0000
  {
    Pow2Values();
    OrBelow(a, b, 32);
  }

  lemma Pow2Values()
    ensures Pow2(8) == 0x100
    ensures Pow2(32) == 0x1_0000_0000
  {
    Pow2By8(0);
    Pow2By8(8);
    Pow2By8(16);
    Pow2By8(24);
    assert Pow2(0) == 1;
    hide Pow2;
  }

  lemma Pow2By8(k: nat)
    ensures Pow2(k + 8) == 256 * Pow2(k)
  {
    assert Pow2(k + 2) == 4 * Pow2(k);
    assert Pow2(k + 4) == 4 * Pow2(k + 2);
    assert Pow2(k + 6) == 4 * Pow2(k + 4);
  }

  /** `val << 8 | octet`, on uint32. */
  function ShiftIn(val: uint32, octet: int): uint32 {
    Or32(ToUint32(val * 0x100), ToUint32(octet))
  }

  lemma ShiftInByte(val: uint32, octet: byte)
    requires val < 0x100_0000
    ensures ShiftIn(val, octet) == val * 0x100 + octet
  {
    assert ToUint32(val * 0x100) == val * 0x100 && ToUint32(octet) == octet;
    Pow2Values();
    OrIsSum(val, octet, 8);
    hide Pow2, Or;
  }

  /** The first k fields of t; a field that is not there is empty. */
  function Fields(t: string, k: nat): (fields: seq<string>)
    ensures |fields| == k
    decreases k
  {
    if k == 0 then [] else [Field(t)] + Fields(Rest(t), k - 1)
  }

  /** In turn j of the digit loop neither the product nor the sum overflows. */
  predicate TurnFits(acc: int, f: string, j: nat)
    requires j < |f|
  {
    var octet := Decimal(acc, f[..j]);
    FitsInt(octet * 10) && FitsInt(octet * 10 + DigitValue(f[j]))
  }

  lemma {:induction false} FieldFitsExact(acc: int, f: string)
    ensures FieldFits(acc, f) <==> forall j :: 0 <= j < |f| ==> TurnFits(acc, f, j)
    decreases f
  {
    hide Decimal, DigitValue, FitsInt, TurnFits;
    if f != "" {
      var next := acc * 10 + DigitValue(f[0]);
      FieldFitsExact(next, f[1..]);
      FirstTurn(acc, f);
      forall j | 0 < j < |f| ensures TurnFits(acc, f, j) <==> TurnFits(next, f[1..], j - 1) {
        LaterTurn(acc, f, j);
      }
      forall j | 0 <= j < |f| - 1 ensures TurnFits(next, f[1..], j) <==> TurnFits(acc, f, j + 1) {
      }
    }
  }

  lemma FirstTurn(acc: int, f: string)
    requires f != ""
    ensures TurnFits(acc, f, 0) <==> FitsInt(acc * 10) && FitsInt(acc * 10 + DigitValue(f[0]))
  {
    assert Decimal(acc, f[..0]) == acc;
  }

  lemma LaterTurn(acc: int, f: string, j: nat)
    requires 0 < j < |f|
    ensures TurnFits(acc, f, j) <==> TurnFits(acc * 10 + DigitValue(f[0]), f[1..], j - 1)
  {
    assert f[..j][1..] == f[1..][..j - 1];
  }

  predicate AllTurnsFit(f: string) {
    forall j :: 0 <= j < |f| ==> TurnFits(0, f, j)
  }

  /** The parser's precondition is exact: no product and no sum in any turn of its
      digit loop, in any of its k fields, leaves the range of int. */
  lemma {:induction false} FieldsFitExact(t: string, k: nat)
    ensures FieldsFit(t, k) <==> forall f :: f in Fields(t, k) ==> AllTurnsFit(f)
    decreases k
  {
    hide FieldFits, TurnFits, Field, Rest;
    if k > 0 {
      FieldFitsExact(0, Field(t));
      assert FieldFits(0, Field(t)) <==> AllTurnsFit(Field(t));
      hide AllTurnsFit;
      FieldsFitExact(Rest(t), k - 1);
    }
  }

  function ShiftFields(val: uint32, fields: seq<string>): uint32
    decreases fields
  {
    if fields == [] then val else ShiftFields(ShiftIn(val, Decimal(0, fields[0])), fields[1..])
  }

  function ParseAddr(t: string): uint32 { ShiftFields(0, Fields(t, 4)) }

  // ---------- the printer's meaning ----------

  function DecimalText(n: nat): string {
    if n < 10 then [(48 + n) as char] else DecimalText(n / 10) + [(48 + n % 10) as char]
  }

  function Quad(a: string, b: string, c: string, d: string): string {
    a + "." + b + "." + c + "." + d
  }

  function PrintAddr(a: uint32): string {
    Quad(DecimalText(Byte3(a)), DecimalText(Byte2(a)), DecimalText(Byte1(a)), DecimalText(Byte0(a)))
  }

  predicate AllDigits(f: string) { forall i :: 0 <= i < |f| ==> '0' <= f[i] <= '9' }

  /** A decimal octet as people write it: digits, no leading zero, at most 255. */
  predicate CanonicalOctet(f: string) {
    && f != "" && AllDigits(f)
    && (|f| > 1 ==> f[0] != '0')
    && Decimal(0, f) <= 255
  }

  /** Exactly four canonical octets between three dots. */
  predicate Canonical(t: string) {
    && Dots(t) == 3
    && CanonicalOctet(Field(t))
    && CanonicalOctet(Field(Rest(t)))
    && CanonicalOctet(Field(Rest(Rest(t))))
    && CanonicalOctet(Field(Rest(Rest(Rest(t)))))
  }

  // ---------- fields ----------

  lemma FieldOf(f: string, r: string)
    requires '.' !in f
    ensures Field(f + "." + r) == f
    ensures Rest(f + "." + r) == r
    ensures Field(f) == f && Rest(f) == ""
  {
    FieldLenIs(f + "." + r, |f|);
    FieldLenIs(f, |f|);
  }

  lemma FieldLenIs(t: string, n: nat)
    requires n <= |t| && '.' !in t[..n]
    requires n < |t| ==> t[n] == '.'
    ensures FieldLen(t) == n
  {
  }

  lemma {:induction false} DotsConcat(a: string, b: string)
    ensures Dots(a + b) == Dots(a) + Dots(b)
  {
    if a == "" {
      assert a + b == b;
    } else {
      assert (a + b)[1..] == a[1..] + b;
      DotsConcat(a[1..], b);
    }
  }

  lemma {:induction false} NoDots(t: string)
    ensures Dots(t) == 0 <==> '.' !in t
  {
    if t != "" {
      NoDots(t[1..]);
      assert t == [t[0]] + t[1..];
    }
  }

  /** Splitting at the first dot uses up one dot and rebuilds the text. */
  lemma SplitFirst(t: string)
    requires Dots(t) > 0
    ensures t == Field(t) + "." + Rest(t)
    ensures '.' !in Field(t)
    ensures Dots(Rest(t)) == Dots(t) - 1
  {
    NoDots(t);
    var n := FieldLen(t);
    assert t[..|t|] == t;
    assert t == Field(t) + "." + Rest(t);
    NoDots(Field(t));
    DotsConcat(Field(t) + ".", Rest(t));
    DotsConcat(Field(t), ".");
    assert Dots(".") == 1;
  }

  // ---------- short and long texts ----------

  lemma Regroup(f: string, r: string, x: string)
    ensures f + "." + r + "." + x == f + "." + (r + "." + x)
  {
  }

  /** Appending "." and x leaves the fields before the last dot of t as they were. */
  lemma AppendAfterSplit(t: string, x: string)
    requires Dots(t) > 0
    ensures Field(t + "." + x) == Field(t)
    ensures Rest(t + "." + x) == Rest(t) + "." + x
  {
    SplitFirst(t);
    Regroup(Field(t), Rest(t), x);
    FieldOf(Field(t), Rest(t) + "." + x);
  }

  lemma AppendToLast(t: string, x: string)
    requires Dots(t) == 0
    ensures Field(t + "." + x) == t == Field(t)
    ensures Rest(t + "." + x) == x && Rest(t) == ""
  {
    NoDots(t);
    FieldOf(t, x);
  }

  lemma {:induction false} EmptyFields(k: nat)
    ensures Fields("", k) == seq(k, i => "")
  {
    FieldOf("", "");
    if k > 0 {
      EmptyFields(k - 1);
    }
  }

  lemma FieldsStep(t: string, k: nat)
    requires k > 0
    ensures Fields(t, k) == [Field(t)] + Fields(Rest(t), k - 1)
  {
  }

  /** Appending a dot-free z fills exactly the first missing field. */
  lemma {:induction false} AppendFillsField(t: string, z: string, k: nat)
    requires '.' !in z && Dots(t) + 1 < k
    ensures Fields(t, k)[Dots(t) + 1] == ""
    ensures Fields(t + "." + z, k) == Fields(t, k)[Dots(t) + 1 := z]
    decreases k
  {
    hide *;
    var u := t + "." + z;
    FieldsStep(t, k);
    FieldsStep(u, k);
    if Dots(t) == 0 {
      AppendToLast(t, z);
      FieldOf(z, "");
      FieldsStep(z, k - 1);
      EmptyFields(k - 1);
      EmptyFields(k - 2);
      assert seq(k - 1, i => "") == [""] + seq(k - 2, i => "");
    } else {
      SplitFirst(t);
      AppendAfterSplit(t, z);
      AppendFillsField(Rest(t), z, k - 1);
    }
  }

  lemma {:induction false} ShiftFieldsSame(val: uint32, f: seq<string>, g: seq<string>)
    requires |f| == |g|
    requires forall i :: 0 <= i < |f| ==> Decimal(0, f[i]) == Decimal(0, g[i])
    ensures ShiftFields(val, f) == ShiftFields(val, g)
    decreases f
  {
    if f != [] {
      ShiftFieldsSame(ShiftIn(val, Decimal(0, f[0])), f[1..], g[1..]);
    }
  }

  /** A missing component counts as a zero on the right. */
  lemma MissingIsZero(t: string)
    requires Dots(t) < 3
    ensures ParseAddr(t + "." + "0") == ParseAddr(t)
  {
    hide FieldLen, Dots, ShiftFields, Fields;
    AppendFillsField(t, "0", 4);
    assert Decimal(0, "0") == Decimal(0, "");
    ShiftFieldsSame(0, Fields(t + "." + "0", 4), Fields(t, 4));
  }

  lemma {:induction false} ExtraFieldIsIgnored(t: string, x: string, k: nat)
    requires Dots(t) + 1 >= k
    ensures Fields(t + "." + x, k) == Fields(t, k)
    decreases k
  {
    hide *;
    var u := t + "." + x;
    if k == 0 {
      assert Fields(u, 0) == [] == Fields(t, 0);
    } else {
      FieldsStep(t, k);
      FieldsStep(u, k);
      if Dots(t) == 0 {
        AppendToLast(t, x);
        assert Fields(Rest(u), 0) == [] == Fields(Rest(t), 0);
      } else {
        SplitFirst(t);
        AppendAfterSplit(t, x);
        ExtraFieldIsIgnored(Rest(t), x, k - 1);
      }
    }
  }

  /** Whatever follows the fourth component is ignored. */
  lemma ExtraIsIgnored(t: string, x: string)
    requires Dots(t) >= 3
    ensures ParseAddr(t + "." + x) == ParseAddr(t)
  {
    ExtraFieldIsIgnored(t, x, 4);
  }

  // ---------- octets ----------

  lemma {:induction false} DecimalSnoc(acc: int, f: string, c: char)
    ensures Decimal(acc, f + [c]) == Decimal(acc, f) * 10 + DigitValue(c)
    decreases f
  {
    if f == "" {
      assert f + [c] == [c];
      assert Decimal(acc * 10 + DigitValue(c), "") == acc * 10 + DigitValue(c);
    } else {
      assert (f + [c])[1..] == f[1..] + [c];
      DecimalSnoc(acc * 10 + DigitValue(f[0]), f[1..], c);
    }
  }

  lemma {:induction false} DecimalTextIsCanonical(n: nat)
    requires n <= 255
    ensures Decimal(0, DecimalText(n)) == n
    ensures CanonicalOctet(DecimalText(n))
    ensures 1 <= |DecimalText(n)| <= 3
    ensures n < 100 ==> |DecimalText(n)| <= 2
    ensures n < 10 <==> |DecimalText(n)| == 1
    ensures n > 0 ==> DecimalText(n)[0] != '0'
  {
    hide Decimal, DigitValue;
    if n < 10 {
      TextOfDigit(n);
    } else {
      DecimalTextIsCanonical(n / 10);
      TextOfDigit(n % 10);
      DecimalSnoc(0, DecimalText(n / 10), (48 + n % 10) as char);
    }
  }

  lemma TextOfDigit(d: nat)
    requires d < 10
    ensures var c := (48 + d) as char;
      && DecimalText(d) == [c] && Decimal(0, [c]) == DigitValue(c) == d
      && '0' <= c <= '9' && (c == '0' <==> d == 0)
  {
    assert Decimal(0, [(48 + d) as char]) == Decimal(d, "");
  }

  lemma DigitRange(c: char)
    requires '0' <= c <= '9'
    ensures 0 <= DigitValue(c) <= 9 && c == (48 + DigitValue(c)) as char
    ensures DigitValue(c) == 0 <==> c == '0'
  {
  }

  lemma DecimalOfNothing(acc: int)
    ensures Decimal(acc, "") == acc
  {
  }

  lemma {:induction false} DecimalIsNat(f: string)
    requires AllDigits(f)
    ensures Decimal(0, f) >= 0
    ensures f != "" && f[0] != '0' ==> Decimal(0, f) > 0
  {
    hide Decimal, DigitValue;
    if f == "" {
      DecimalOfNothing(0);
    } else {
      var n := |f| - 1;
      assert f == f[..n] + [f[n]];
      DigitRange(f[n]);
      DecimalIsNat(f[..n]);
      DecimalSnoc(0, f[..n], f[n]);
      if n == 0 {
        assert f[..n] == "";
        DecimalOfNothing(0);
      }
    }
  }

  lemma TextSnoc(n: nat, d: nat)
    requires n > 0 && d < 10
    ensures DecimalText(n * 10 + d) == DecimalText(n) + [(48 + d) as char]
  {
  }

  /** Reading a decimal without leading zeros and printing it gives it back. */
  lemma {:induction false} TextOfDecimal(f: string)
    requires f != "" && AllDigits(f)
    requires |f| > 1 ==> f[0] != '0'
    ensures Decimal(0, f) >= 0
    ensures DecimalText(Decimal(0, f)) == f
  {
    hide Decimal, DecimalText, DigitValue;
    var n := |f| - 1;
    var g, d := f[..n], DigitValue(f[n]);
    assert f == g + [f[n]];
    DigitRange(f[n]);
    DecimalSnoc(0, g, f[n]);
    DecimalIsNat(g);
    if n == 0 {
      assert g == "";
      DecimalOfNothing(0);
      TextOfDigit(d);
    } else {
      TextOfDecimal(g);
      TextSnoc(Decimal(0, g), d);
    }
  }

  lemma OctetHasNoDot(f: string)
    requires CanonicalOctet(f)
    ensures '.' !in f && '\0' !in f
    ensures 0 <= Decimal(0, f) <= 255
  {
    DecimalIsNat(f);
  }

  // ---------- quads ----------

  lemma QuadNests(a: string, b: string, c: string, d: string)
    ensures Quad(a, b, c, d) == a + "." + (b + "." + (c + "." + d))
  {
  }

  lemma QuadFields(a: string, b: string, c: string, d: string)
    requires '.' !in a && '.' !in b && '.' !in c && '.' !in d
    ensures var t := Quad(a, b, c, d);
      && Field(t) == a
      && Field(Rest(t)) == b
      && Field(Rest(Rest(t))) == c
      && Field(Rest(Rest(Rest(t)))) == d
      && Dots(t) == 3
  {
    var t := Quad(a, b, c, d);
    QuadNests(a, b, c, d);
    FieldOf(a, b + "." + (c + "." + d));
    FieldOf(b, c + "." + d);
    FieldOf(c, d);
    FieldOf(d, "");
    NoDots(a); NoDots(b); NoDots(c); NoDots(d);
    DotsConcat(a + "." + b + "." + c + ".", d);
    DotsConcat(a + "." + b + "." + c, ".");
    DotsConcat(a + "." + b + ".", c);
    DotsConcat(a + "." + b, ".");
    DotsConcat(a + ".", b);
    DotsConcat(a, ".");
    assert Dots(".") == 1;
  }

  lemma QuadHasNoNul(a: string, b: string, c: string, d: string)
    requires '\0' !in a && '\0' !in b && '\0' !in c && '\0' !in d
    ensures '\0' !in Quad(a, b, c, d)
  {
  }

  lemma QuadOfFields(t: string)
    requires Dots(t) == 3
    ensures t == Quad(Field(t), Field(Rest(t)), Field(Rest(Rest(t))), Field(Rest(Rest(Rest(t)))))
  {
    var r := Rest(t);
    var q := Rest(r);
    var p := Rest(q);
    SplitFirst(t);
    SplitFirst(r);
    SplitFirst(q);
    NoDots(p);
    FieldOf(p, "");
    QuadNests(Field(t), Field(r), Field(q), p);
  }

  lemma ShiftStep(val: uint32, f: string, more: seq<string>, octet: byte, next: uint32)
    requires val < 0x100_0000 && Decimal(0, f) == octet && next == val * 0x100 + octet
    ensures ShiftFields(val, [f] + more) == ShiftFields(next, more)
  {
    ShiftInByte(val, octet);
    assert ([f] + more)[1..] == more;
  }

  lemma ShiftFour(w: string, x: string, y: string, z: string, a: byte, b: byte, c: byte, d: byte)
    requires Decimal(0, w) == a && Decimal(0, x) == b
    requires Decimal(0, y) == c && Decimal(0, z) == d
    ensures ShiftFields(0, [w] + ([x] + ([y] + ([z] + [])))) == Join32(a, b, c, d)
  {
    ShiftStep(0, w, [x] + ([y] + ([z] + [])), a, a);
    var ab := a * 0x100 + b;
    ShiftStep(a, x, [y] + ([z] + []), b, ab);
    var abc := ab * 0x100 + c;
    ShiftStep(ab, y, [z] + [], c, abc);
    ShiftStep(abc, z, [], d, Join32(a, b, c, d));
    assert ShiftFields(Join32(a, b, c, d), []) == Join32(a, b, c, d);
  }

  lemma FourFields(t: string)
    ensures Fields(t, 4) == [Field(t)] + ([Field(Rest(t))]
                          + ([Field(Rest(Rest(t)))] + ([Field(Rest(Rest(Rest(t))))] + [])))
  {
  }

  /** Four octets are read as the four bytes of the address, most significant first. */
  lemma ParseOctets(t: string, a: byte, b: byte, c: byte, d: byte)
    requires Decimal(0, Field(t)) == a
    requires Decimal(0, Field(Rest(t))) == b
    requires Decimal(0, Field(Rest(Rest(t)))) == c
    requires Decimal(0, Field(Rest(Rest(Rest(t))))) == d
    ensures ParseAddr(t) == Join32(a, b, c, d)
  {
    FourFields(t);
    ShiftFour(Field(t), Field(Rest(t)), Field(Rest(Rest(t))), Field(Rest(Rest(Rest(t)))), a, b, c, d);
  }

  /** Every printed address is canonical, NUL-free, 7 to 15 characters long,
      and parses back to the address. */
  lemma PrintThenParse(a: uint32)
    ensures ParseAddr(PrintAddr(a)) == a
    ensures Canonical(PrintAddr(a)) && '\0' !in PrintAddr(a)
    ensures 7 <= |PrintAddr(a)| <= 15
  {
    hide FieldLen, Dots, Decimal, DecimalText, ParseAddr, Rest, Field;
    var w, x, y, z := DecimalText(Byte3(a)), DecimalText(Byte2(a)), DecimalText(Byte1(a)), DecimalText(Byte0(a));
    DecimalTextIsCanonical(Byte3(a)); OctetHasNoDot(w);
    DecimalTextIsCanonical(Byte2(a)); OctetHasNoDot(x);
    DecimalTextIsCanonical(Byte1(a)); OctetHasNoDot(y);
    DecimalTextIsCanonical(Byte0(a)); OctetHasNoDot(z);
    QuadFields(w, x, y, z);
    QuadHasNoNul(w, x, y, z);
    ParseOctets(PrintAddr(a), Byte3(a), Byte2(a), Byte1(a), Byte0(a));
    Split32(a);
  }

  /** Printing the parse of a canonical text gives the text. */
  lemma ParseThenPrint(t: string)
    requires Canonical(t)
    ensures PrintAddr(ParseAddr(t)) == t
  {
    var w, x, y, z := Field(t), Field(Rest(t)), Field(Rest(Rest(t))), Field(Rest(Rest(Rest(t))));
    OctetHasNoDot(w); OctetHasNoDot(x); OctetHasNoDot(y); OctetHasNoDot(z);
    TextOfDecimal(w); TextOfDecimal(x); TextOfDecimal(y); TextOfDecimal(z);
    ParseOctets(t, Decimal(0, w), Decimal(0, x), Decimal(0, y), Decimal(0, z));
    BytesOfJoin32(Decimal(0, w), Decimal(0, x), Decimal(0, y), Decimal(0, z));
    QuadOfFields(t);
  }

  /** The canonical texts are exactly the printed ones. */
  lemma CanonicalIffPrinted(t: string)
    ensures Canonical(t) <==> PrintAddr(ParseAddr(t)) == t
  {
    if Canonical(t) {
      ParseThenPrint(t);
    }
    PrintThenParse(ParseAddr(t));
  }

  /** Different canonical texts are different addresses. */
  lemma ParseIsInjective(t: string, u: string)
    requires Canonical(t) && Canonical(u)
    ensures ParseAddr(t) == ParseAddr(u) <==> t == u
  {
    ParseThenPrint(t);
    ParseThenPrint(u);
  }

  /** Three digits never overflow an int. */
  lemma {:induction false} DigitsFit(acc: int, f: string)
    requires AllDigits(f)
    requires 0 <= acc
    requires (|f| <= 3 && acc == 0) || (|f| <= 2 && acc <= 9) || (|f| <= 1 && acc <= 99) || f == ""
    ensures FieldFits(acc, f)
    decreases f
  {
    if f != "" {
      DigitsFit(acc * 10 + DigitValue(f[0]), f[1..]);
    }
  }

  lemma OctetFits(f: string)
    requires CanonicalOctet(f)
    ensures FieldFits(0, f)
  {
    TextOfDecimal(f);
    DecimalTextIsCanonical(Decimal(0, f));
    DigitsFit(0, f);
  }

  lemma CanonicalFits(t: string)
    requires Canonical(t)
    ensures FieldsFit(t, 4)
  {
    var r := Rest(t);
    var q := Rest(r);
    var p := Rest(q);
    OctetFits(Field(t));
    OctetFits(Field(r));
    OctetFits(Field(q));
    OctetFits(Field(p));
    assert FieldsFit(p, 1);
    assert FieldsFit(q, 2);
    assert FieldsFit(r, 3);
  }

  // ---------- the C functions ----------

  type int32 = n: int | FitsInt(n)

  /** One turn of the digit loop. */
  lemma DigitStep(octet: int32, t: string)
    requires t != "" && t[0] != '.' && FieldFits(octet, Field(t))
    ensures var next := octet * 10 + DigitValue(t[0]);
      && FitsInt(octet * 10) && FitsInt(next)
      && FieldFits(next, Field(t[1..]))
      && Decimal(next, Field(t[1..])) == Decimal(octet, Field(t))
    ensures Rest(t[1..]) == Rest(t)
  {
    assert Field(t) == [t[0]] + Field(t[1..]);
  }

  lemma DigitsDone(octet: int32, t: string)
    requires t == "" || t[0] == '.'
    ensures Decimal(octet, Field(t)) == octet
    ensures Rest(t) == if t == "" then "" else t[1..]
  {
  }

  /** One turn of the component loop. */
  lemma ComponentStep(val: uint32, t: string, k: nat)
    requires k > 0 && FieldsFit(t, k)
    ensures FieldFits(0, Field(t)) && FieldsFit(Rest(t), k - 1)
    ensures ShiftFields(val, Fields(t, k))
         == ShiftFields(ShiftIn(val, Decimal(0, Field(t))), Fields(Rest(t), k - 1))
  {
  }

  /** The NUL is the only place where the pointer and the text end. */
  lemma AtNul(ip: string, start: nat)
    requires '\0' in ip && start <= |Text(ip)|
    ensures |Text(ip)| < |ip|
    ensures ip[start] == '\0' <==> start == |Text(ip)|
    ensures start < |Text(ip)| ==> Text(ip)[start..][0] == ip[start] && Text(ip)[start..][1..] == Text(ip)[start + 1..]
  {
  }

  /** parse_ip_addr: reads the text before the NUL and nothing after it. */
  method ParseIpAddr(ip: string) returns (val: uint32)
    requires '\0' in ip
    requires FieldsFit(Text(ip), 4)
    ensures val == ParseAddr(Text(ip))
  {
    hide TextLen, Text, FieldLen, Field, Rest, Fields, FieldsFit, FieldFits, Decimal, ShiftFields, Or;
    ghost var text := Text(ip);
    AtNul(ip, 0);
    val := 0;
    var octet: int32 := 0;
    var start := 0;
    assert text[0..] == text;
    for i := 0 to 4
      invariant 0 <= start <= |text| && octet == 0
      invariant FieldsFit(text[start..], 4 - i)
      invariant ShiftFields(val, Fields(text[start..], 4 - i)) == ParseAddr(text)
    {
      ghost var field, rest := Field(text[start..]), Rest(text[start..]);
      ComponentStep(val, text[start..], 4 - i);
      AtNul(ip, start);
      while ip[start] != '.' && ip[start] != '\0'
        invariant 0 <= start <= |text| < |ip|
        invariant FieldFits(octet, Field(text[start..]))
        invariant Decimal(octet, Field(text[start..])) == Decimal(0, field)
        invariant Rest(text[start..]) == rest
        decreases |text| - start
      {
        AtNul(ip, start);
        DigitStep(octet, text[start..]);
        var scaled: int32 := octet * 10;
        octet := scaled + DigitValue(ip[start]);
        start := start + 1;
      }
      AtNul(ip, start);
      DigitsDone(octet, text[start..]);
      if ip[start] == '.' {
        start := start + 1;
      }
      assert text[start..] == rest;
      val := Or32(ToUint32(val * 0x100), ToUint32(octet));
      octet := 0;
    }
    NothingLeft(val, text[start..]);
  }

  lemma NothingLeft(val: uint32, t: string)
    ensures ShiftFields(val, Fields(t, 0)) == val
  {
  }

  /** parse_ip_addr_to_str: sprintf into the caller's buffer, the rest untouched. */
  method ParseIpAddrToStr(str: array<char>, addr: uint32)
    requires str.Length > |PrintAddr(addr)|
    modifies str
    ensures str[..] == PrintAddr(addr) + "\0" + old(str[|PrintAddr(addr)| + 1..])
    ensures Text(str[..]) == PrintAddr(addr) && '\0' in str[..]
  {
    hide *;
    var text := PrintAddr(addr);
    ghost var after := str[|text| + 1..];
    forall i | 0 <= i < |text| {
      str[i] := text[i];
    }
    str[|text|] := '\0';
    assert str[..] == text + "\0" + after;
    PrintThenParse(addr);
    TextOfLiteral(text, after);
  }

  const HOSTS: seq<(string, string)> := [
    ("h1", "10.0.0.1"), ("h2", "10.0.0.2"), ("h3", "10.0.0.3"), ("h4", "10.0.0.4"),
    ("h5", "10.0.0.5"), ("h6", "10.0.0.6"), ("h7", "10.0.0.7")]

  /** Host hk, for k from 1 to 7, has address 10.0.0.k; there are no others. */
  function HostIp(name: string): Option<string> {
    if |name| == 2 && name[0] == 'h' && '1' <= name[1] <= '7' then Some("10.0.0." + [name[1]]) else None
  }

  lemma HostIndex(name: string) returns (k: int)
    ensures HostIp(name).Some? ==> 0 <= k < |HOSTS| && HOSTS[k].0 == name
  {
    k := if HostIp(name).Some? then name[1] as int - '1' as int else 0;
  }

  /** The look-up is the table read as a relation. */
  lemma HostTable(name: string, ip: string)
    ensures HostIp(name) == Some(ip) <==> (name, ip) in HOSTS
  {
    var k := HostIndex(name);
    if HostIp(name).Some? {
      assert HOSTS[k].1 == "10.0.0." + [name[1]];
      assert HOSTS[k] == (name, HostIp(name).value);
    }
    forall i | 0 <= i < |HOSTS| ensures HostIp(HOSTS[i].0) == Some(HOSTS[i].1) {
      assert HOSTS[i].1 == "10.0.0." + [HOSTS[i].0[1]];
    }
  }

  /** "hk". */
  function HostName(k: nat): string
    requires k <= 9
  {
    ['h', (48 + k) as char]
  }

  /** h1 to h7 are known, as 10.0.0.1 to 10.0.0.7, and no other name is. */
  lemma KnownHosts(name: string)
    ensures forall k :: 1 <= k <= 7 ==> HostIp(HostName(k)) == Some(PrintAddr(0x0a00_0000 + k))
    ensures HostIp(name).Some? <==> exists k :: 1 <= k <= 7 && name == HostName(k)
  {
    hide PrintAddr;
    forall k | 1 <= k <= 7 ensures HostIp(HostName(k)) == Some(PrintAddr(0x0a00_0000 + k)) {
      HostIpIsPrinted(HostName(k));
    }
    if HostIp(name).Some? {
      assert name == HostName(HostNumber(name));
    }
  }

  method GetHostIp(hostName: string) returns (ip: Option<string>)
    ensures ip == HostIp(hostName)
    ensures forall a :: ip == Some(a) <==> (hostName, a) in HOSTS
  {
    ghost var k := HostIndex(hostName);
    forall a ensures HostIp(hostName) == Some(a) <==> (hostName, a) in HOSTS {
      HostTable(hostName, a);
    }
    for i := 0 to |HOSTS|
      invariant forall j :: 0 <= j < i ==> HOSTS[j].0 != hostName
    {
      if HOSTS[i].0 == hostName {
        assert HOSTS[i].1 == "10.0.0." + [HOSTS[i].0[1]];
        return Some(HOSTS[i].1);
      }
    }
    return None;
  }

  function HostNumber(name: string): (k: nat)
    requires HostIp(name).Some?
    ensures 1 <= k <= 7
  {
    name[1] as int - '0' as int
  }

  lemma HostIpIsCanonical(name: string)
    requires HostIp(name).Some?
    ensures var ip := HostIp(name).value;
      Canonical(ip) && '\0' !in ip && ParseAddr(ip) == 0x0a00_0000 + HostNumber(name)
  {
    hide *;
    HostIpIsPrinted(name);
    PrintThenParse(0x0a00_0000 + HostNumber(name));
  }

  lemma HostIpIsPrinted(name: string)
    requires HostIp(name).Some?
    ensures HostIp(name).value == PrintAddr(0x0a00_0000 + HostNumber(name))
  {
    var k := HostNumber(name);
    BytesOfJoin32(10, 0, 0, k);
    TextOfDigit(1);
    TextOfDigit(0);
    TextOfDigit(k);
    TextSnoc(1, 0);
    hide DecimalText;
  }

  /** Different host names have different address texts. */
  lemma HostNamesInjective(a: string, b: string)
    requires HostIp(a).Some? && HostIp(b).Some?
    ensures HostIp(a) == HostIp(b) <==> a == b
  {
    assert HostIp(a).value[7] == a[1] && HostIp(b).value[7] == b[1];
    assert a == ['h', a[1]] && b == ['h', b[1]];
  }
}
