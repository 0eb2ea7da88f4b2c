/** Numbers as text: digit strings, the field a number is printed into, and
    the reader that undoes the printing. */
module NumberText {
  import opened CText

  const TWO_TO_64 := 0x1_0000_0000_0000_0000
  const TWO_TO_63 := 0x8000_0000_0000_0000

  newtype uint64 = x: int | 0 <= x < 0x1_0000_0000_0000_0000
  newtype int64 = x: int | -0x8000_0000_0000_0000 <= x < 0x8000_0000_0000_0000

  type Base = b: int | b == 8 || b == 10 || b == 16 witness 10

  function Times(base: Base, v: nat): nat {
    if base == 8 then 8 * v else if base == 10 then 10 * v else 16 * v
  }

  function Quotient(v: nat, base: Base): (q: nat)
    ensures v > 0 ==> q < v
    ensures q == 0 <==> v < base
  {
    if base == 8 then v / 8 else if base == 10 then v / 10 else v / 16
  }

  function Remainder(v: nat, base: Base): (r: nat)
    ensures r < base && Times(base, Quotient(v, base)) + r == v
  {
    if base == 8 then v % 8 else if base == 10 then v % 10 else v % 16
  }

  /** The tables dtable, xtable and Xtable. */
  function DigitChar(d: nat, upper: bool): char
    requires d < 16
  {
    if d < 10 then '0' + d as char else (if upper then 'A' else 'a') + (d - 10) as char
  }

  function DigitValue(c: char): nat {
    if '0' <= c <= '9' then (c - '0') as nat
    else if 'a' <= c <= 'f' then (c - 'a') as nat + 10
    else if 'A' <= c <= 'F' then (c - 'A') as nat + 10
    else 16
  }

  /** And no other character is a digit. */
  lemma DigitValueIs(c: char)
    ensures DigitValue(c) < 16 ==>
      c == "0123456789abcdef"[DigitValue(c)] || c == "0123456789ABCDEF"[DigitValue(c)]
  {
  }

  lemma DigitValueInverse(d: nat, upper: bool)
    requires d < 16
    ensures DigitValue(DigitChar(d, upper)) == d
    ensures DigitChar(d, upper) != ' ' && DigitChar(d, upper) != '+' && DigitChar(d, upper) != '-'
    ensures d < 10 ==> IsDigit(DigitChar(d, upper))
    ensures DigitChar(d, upper) == '0' ==> d == 0
  {
  }

  /** The digits are those of the three tables. */
  lemma DigitCharIs(d: nat)
    requires d < 16
    ensures DigitChar(d, false) == "0123456789abcdef"[d]
    ensures DigitChar(d, true) == "0123456789ABCDEF"[d]
  {
  }

  /** The digits of v, most significant first, with no leading zero. */
  function Digits(v: nat, base: Base, upper: bool): (r: string)
    ensures |r| > 0
    decreases v
  {
    if v < base then [DigitChar(v, upper)]
    else Digits(Quotient(v, base), base, upper) + [DigitChar(Remainder(v, base), upper)]
  }

  function Value(s: string, base: Base): nat {
    if s == [] then 0 else Times(base, Value(s[..|s| - 1], base)) + DigitValue(s[|s| - 1])
  }

  predicate AllDigits(s: string, base: Base) {
    forall i :: 0 <= i < |s| ==> DigitValue(s[i]) < base
  }

  /** Digits are read back, are digits of the base, and are canonical. */
  lemma {:induction false} DigitsInverse(v: nat, base: Base, upper: bool)
    ensures Value(Digits(v, base, upper), base) == v
    ensures AllDigits(Digits(v, base, upper), base)
    ensures v > 0 ==> Digits(v, base, upper)[0] != '0'
    decreases v
  {
    var r := Digits(v, base, upper);
    if v < base {
      DigitValueInverse(v, upper);
      assert r[..0] == [];
    } else {
      DigitsInverse(Quotient(v, base), base, upper);
      DigitValueInverse(Remainder(v, base), upper);
      assert r[..|r| - 1] == Digits(Quotient(v, base), base, upper);
    }
  }

  /** Letters among the digits are all of the case asked for. */
  lemma {:induction false} DigitsCase(v: nat, base: Base, upper: bool)
    ensures forall i :: 0 <= i < |Digits(v, base, upper)| ==>
      var c := Digits(v, base, upper)[i];
      '0' <= c <= '9' || (upper && 'A' <= c <= 'F') || (!upper && 'a' <= c <= 'f')
    decreases v
  {
    if v < base {
    } else {
      DigitsCase(Quotient(v, base), base, upper);
    }
  }

  function Pow(base: Base, k: nat): nat {
    if k == 0 then 1 else Times(base, Pow(base, k - 1))
  }

  /** A number below base^k has at most k digits. */
  lemma {:induction false} DigitsBound(v: nat, base: Base, upper: bool, k: nat)
    requires k > 0 && v < Pow(base, k)
    ensures |Digits(v, base, upper)| <= k
    decreases k
  {
    if v < base {
    } else {
      assert Times(base, Quotient(v, base)) + Remainder(v, base) == v;
      DigitsBound(Quotient(v, base), base, upper, k - 1);
    }
  }

  lemma DigitsBound64(v: nat, base: Base, upper: bool)
    requires v < TWO_TO_64 && base != 8
    ensures |Digits(v, base, upper)| <= 20
  {
    assert Pow(base, 3) == Times(base, Times(base, Times(base, 1)));
    assert Pow(base, 5) == Times(base, Times(base, Pow(base, 3)));
    PowSum(base, 5, 5);
    PowSum(base, 10, 10);
    if base == 10 {
      assert Pow(base, 20) == 100000 * 100000 * (100000 * 100000);
    } else {
      assert Pow(base, 20) == 0x100000 * 0x100000 * (0x100000 * 0x100000);
    }
    DigitsBound(v, base, upper, 20);
  }

  lemma {:induction false} PowSum(base: Base, a: nat, b: nat)
    ensures Pow(base, a + b) == Pow(base, a) * Pow(base, b)
    decreases a
  {
    if a == 0 {
    } else {
      PowSum(base, a - 1, b);
      TimesProduct(base, Pow(base, a - 1), Pow(base, b));
    }
  }

  lemma TimesProduct(base: Base, a: nat, b: nat)
    ensures Times(base, a * b) == Times(base, a) * b
  {
  }

  /** The field a signed digit string is printed into: padded on the left to
      the width, zeros going between the sign and the digits. */
  function Field(zero: bool, width: nat, sign: string, digits: string): string {
    var natural := |sign| + |digits|;
    if width <= natural then sign + digits
    else if zero then sign + Repeat('0', width - natural) + digits
    else Repeat(' ', width - natural) + sign + digits
  }

  lemma FieldLength(zero: bool, width: nat, sign: string, digits: string)
    ensures |Field(zero, width, sign, digits)| == Max(width, |sign| + |digits|)
  {
  }

  /** Where the padding goes, and what it is made of: blanks in front of the
      sign, or zeros behind it. */
  lemma FieldLayout(zero: bool, width: nat, sign: string, digits: string)
    ensures var f := Field(zero, width, sign, digits);
      var n := |f| - |sign| - |digits|;
      && n >= 0 && f[|sign| + n..] == digits
      && (zero ==> f[..|sign|] == sign && forall k :: |sign| <= k < |sign| + n ==> f[k] == '0')
      && (!zero ==> f[n..n + |sign|] == sign && forall k :: 0 <= k < n ==> f[k] == ' ')
  {
    var f, natural := Field(zero, width, sign, digits), |sign| + |digits|;
    var n := |f| - natural;
    if width > natural {
      var pad := Repeat(if zero then '0' else ' ', n);
      assert f == if zero then sign + (pad + digits) else pad + (sign + digits);
      assert zero ==> f[|sign|..] == pad + digits;
      assert !zero ==> f[n..] == sign + digits;
    }
  }

  /** The end of the run of c at the start of s. */
  function RunLength(s: string, c: char): (n: nat)
    ensures n <= |s|
  {
    if s != [] && s[0] == c then 1 + RunLength(s[1..], c) else 0
  }

  lemma {:induction false} RunLengthOfRepeat(c: char, n: nat, rest: string)
    requires rest == [] || rest[0] != c
    ensures RunLength(Repeat(c, n) + rest, c) == n
  {
    if n == 0 {
      assert Repeat(c, 0) + rest == rest;
    } else {
      assert (Repeat(c, n) + rest)[1..] == Repeat(c, n - 1) + rest;
      RunLengthOfRepeat(c, n - 1, rest);
    }
  }

  function Signed(negative: bool, magnitude: int): int {
    if negative then -magnitude else magnitude
  }

  /** Reads a whole field: spaces, an optional sign, then digits only. */
  function ReadField(s: string, base: Base): Option<int> {
    ReadNumber(s[RunLength(s, ' ')..], base)
  }

  lemma {:induction false} ValueOfZeros(n: nat, digits: string, base: Base)
    ensures Value(Repeat('0', n) + digits, base) == Value(digits, base)
    decreases |digits|, n
  {
    var s := Repeat('0', n) + digits;
    if digits != [] {
      assert s[..|s| - 1] == Repeat('0', n) + digits[..|digits| - 1];
      ValueOfZeros(n, digits[..|digits| - 1], base);
    } else if n > 0 {
      assert s[..|s| - 1] == Repeat('0', n - 1) + [];
      ValueOfZeros(n - 1, [], base);
    } else {
      assert s == [];
    }
  }

  /** Neither padding nor a sign. */
  predicate StartsNumber(c: char) {
    c != ' ' && c != '+' && c != '-'
  }

  predicate IsSign(sign: string) {
    sign == "" || sign == "+" || sign == "-"
  }

  function SpaceCount(zero: bool, width: nat, natural: nat): nat {
    if zero || width <= natural then 0 else width - natural
  }

  function ZeroCount(zero: bool, width: nat, natural: nat): nat {
    if zero && width > natural then width - natural else 0
  }

  /** A field is spaces, then the sign, then zeros and digits. */
  lemma FieldShape(zero: bool, width: nat, sign: string, digits: string)
    ensures Field(zero, width, sign, digits)
      == Repeat(' ', SpaceCount(zero, width, |sign| + |digits|))
         + (sign + (Repeat('0', ZeroCount(zero, width, |sign| + |digits|)) + digits))
  {
  }

  lemma BodyIsDigits(zeros: nat, digits: string, base: Base)
    requires |digits| > 0 && AllDigits(digits, base)
    ensures AllDigits(Repeat('0', zeros) + digits, base)
    ensures Value(Repeat('0', zeros) + digits, base) == Value(digits, base)
    ensures StartsNumber((Repeat('0', zeros) + digits)[0])
  {
    ValueOfZeros(zeros, digits, base);
    assert DigitValue(digits[0]) < base;
    assert (Repeat('0', zeros) + digits)[0] == if zeros > 0 then '0' else digits[0];
  }

  /** The number behind the spaces of a field. */
  function ReadNumber(t: string, base: Base): Option<int> {
    var signed := t != [] && (t[0] == '-' || t[0] == '+');
    var digits := if signed then t[1..] else t;
    if digits == [] || !AllDigits(digits, base) then None
    else Some(Signed(signed && t[0] == '-', Value(digits, base)))
  }

  lemma ReadSignedNumber(sign: string, body: string, base: Base)
    requires IsSign(sign) && body != "" && AllDigits(body, base) && StartsNumber(body[0])
    ensures ReadNumber(sign + body, base) == Some(Signed(sign == "-", Value(body, base)))
  {
    if sign == "" {
      assert sign + body == body;
    } else {
      assert (sign + body)[1..] == body;
    }
  }

  lemma ReadSpacedNumber(spaces: nat, sign: string, body: string, base: Base)
    requires IsSign(sign) && body != "" && AllDigits(body, base) && StartsNumber(body[0])
    ensures ReadField(Repeat(' ', spaces) + (sign + body), base) == Some(Signed(sign == "-", Value(body, base)))
  {
    var s := Repeat(' ', spaces) + (sign + body);
    RunLengthOfRepeat(' ', spaces, sign + body);
    assert s[spaces..] == sign + body;
    ReadSignedNumber(sign, body, base);
  }

  /** Printing a magnitude with a sign into any field is undone by reading it. */
  lemma ReadFieldInverse(zero: bool, width: nat, sign: string, v: nat, base: Base, upper: bool)
    requires IsSign(sign)
    ensures ReadField(Field(zero, width, sign, Digits(v, base, upper)), base) == Some(Signed(sign == "-", v))
  {
    var digits := Digits(v, base, upper);
    var zeros := ZeroCount(zero, width, |sign| + |digits|);
    DigitsInverse(v, base, upper);
    FieldShape(zero, width, sign, digits);
    BodyIsDigits(zeros, digits, base);
    ReadSpacedNumber(SpaceCount(zero, width, |sign| + |digits|), sign, Repeat('0', zeros) + digits, base);
  }
}
