/** Which tokens make_a_number of dd_dwconf.c takes for numbers, and for which
    ones: strtoul in base 0 on a whole token. */
module DwConfNumbers {
  import opened CText
  import opened NumberText
  import opened DwConfText

  /** A number as it may be written: in decimal, in octal behind a 0, or in
      hexadecimal behind 0x. */
  datatype Numeral = Numeral(sign: string, base: Base, upper: bool, digits: string) {
    predicate Valid() {
      && IsSign(sign) && AllDigits(digits, base)
      && (base == 10 ==> digits != "" && digits[0] != '0')
      && (base == 16 ==> digits != "")
    }

    function Prefix(): string {
      if base == 10 then "" else if base == 8 then "0" else if upper then "0X" else "0x"
    }

    function Render(): string {
      sign + (Prefix() + digits)
    }

    /** The digits strtoul runs over: the 0 of an octal number is one of them,
        the 0x is skipped. */
    function Body(): string {
      if base == 8 then "0" + digits else digits
    }

    function First(): nat {
      |sign| + if base == 16 then 2 else 0
    }

    function End(): nat {
      First() + |Body()|
    }

    /** The number read: modulo 2^64 behind a minus sign, and never more than
        the greatest unsigned long. */
    function Meaning(): nat {
      var v := Value(digits, base);
      if v > ULONG_MAX then ULONG_MAX
      else if sign == "-" && v > 0 then ULONG_MAX + 1 - v
      else v
    }
  }

  lemma {:induction false} NumberInIsValue(s: string, i: nat, digits: string, base: Base)
    requires i + |digits| <= |s|
    requires s[i..i + |digits|] == digits
    ensures NumberIn(s, i, i + |digits|, base) == Value(digits, base)
    decreases |digits|
  {
    if digits == "" {
    } else {
      var front := digits[..|digits| - 1];
      assert s[i..i + |front|] == s[i..i + |digits|][..|front|] == front;
      assert s[i + |front|] == s[i..i + |digits|][|front|] == digits[|front|];
      NumberInIsValue(s, i, front, base);
    }
  }

  /** The run of digits that starts at i is digits, when no digit follows. */
  lemma {:induction false} DigitRunIs(s: string, i: nat, n: nat, base: Base)
    requires i + n <= |s|
    requires forall k :: i <= k < i + n ==> DigitValue(s[k]) < base
    requires i + n < |s| ==> DigitValue(s[i + n]) >= base
    ensures DigitRun(s, i, base) == i + n
    decreases n
  {
    if n == 0 {
    } else {
      DigitRunIs(s, i + 1, n - 1, base);
    }
  }

  lemma {:induction false} DigitRunDigits(s: string, i: nat, base: Base)
    requires i <= |s|
    ensures forall k :: i <= k < DigitRun(s, i, base) ==> DigitValue(s[k]) < base
    decreases |s| - i
  {
    if i == |s| || DigitValue(s[i]) >= base {
    } else {
      DigitRunDigits(s, i + 1, base);
    }
  }

  /** What may follow a numeral without belonging to it. */
  predicate OtherTail(n: Numeral, tail: string) {
    && tail != "" && DigitValue(tail[0]) >= n.base
    && !(n.base == 8 && n.digits == "" && |tail| > 1 && IsX(tail[0]) && DigitValue(tail[1]) < 16)
  }

  predicate IsX(c: char) {
    c == 'x' || c == 'X'
  }

  /** The characters of s up to the end of the numeral are those of n. */
  predicate StartsWith(n: Numeral, s: string) {
    var i, first, end := |n.sign|, n.First(), n.End();
    && end <= |s| && s[first..end] == n.Body()
    && (n.sign != "" ==> s[0] == n.sign[0])
    && (n.base == 16 ==> s[i] == '0' && IsX(s[i + 1]))
  }

  predicate StopsThere(n: Numeral, s: string)
    requires n.End() <= |s|
  {
    var end := n.End();
    end == |s|
    || (DigitValue(s[end]) >= n.base
        && !(n.base == 8 && n.digits == "" && end + 1 < |s| && IsX(s[end]) && DigitValue(s[end + 1]) < 16))
  }

  lemma FourParts(a: string, b: string, c: string, d: string, s: string)
    requires s == a + (b + (c + d))
    ensures |s| == |a| + |b| + |c| + |d|
    ensures s[..|a|] == a && s[|a|..|a| + |b|] == b
    ensures s[|a| + |b|..|a| + |b| + |c|] == c && s[|a| + |b| + |c|..] == d
  {
    assert s[|a|..] == b + (c + d);
    assert s[|a| + |b|..] == s[|a|..][|b|..] == c + d;
  }

  /** How a numeral with a tail falls into the sign, what is skipped, the body
      and the tail. */
  lemma RenderedParts(n: Numeral, tail: string)
    ensures |n.Render()| == n.End()
    ensures n.Render() + tail == n.sign + ((if n.base == 16 then n.Prefix() else "") + (n.Body() + tail))
  {
    assert n.base == 8 ==> n.Prefix() + n.digits == n.Body();
    assert n.base == 10 ==> n.Prefix() + n.digits == n.Body();
    Assoc(n.sign, n.Prefix() + n.digits, tail);
    Assoc(n.Prefix(), n.digits, tail);
    assert "" + (n.Body() + tail) == n.Body() + tail;
  }

  lemma RenderedStarts(n: Numeral, tail: string)
    requires n.Valid() && (tail == "" || OtherTail(n, tail))
    ensures |n.Render()| == n.End()
    ensures StartsWith(n, n.Render() + tail) && StopsThere(n, n.Render() + tail)
  {
    var s, x := n.Render() + tail, if n.base == 16 then n.Prefix() else "";
    RenderedParts(n, tail);
    FourParts(n.sign, x, n.Body(), tail, s);
    StopsAtTail(n, tail, s);
    assert n.sign != "" ==> s[0] == s[..|n.sign|][0];
    assert n.base == 16 ==> s[|n.sign|] == s[|n.sign|..n.First()][0] && s[|n.sign| + 1] == s[|n.sign|..n.First()][1];
  }

  lemma StopsAtTail(n: Numeral, tail: string, s: string)
    requires (tail == "" || OtherTail(n, tail)) && n.End() <= |s| && s[n.End()..] == tail
    ensures StopsThere(n, s)
  {
    assert tail != "" ==> s[n.End()] == tail[0];
    assert |tail| > 1 ==> s[n.End() + 1] == tail[1];
  }

  /** Which base strtoul finds at the number. */
  lemma BaseFound(n: Numeral, s: string)
    requires n.Valid() && StartsWith(n, s) && StopsThere(n, s)
    ensures BaseAt(s, |n.sign|) == n.base
    ensures (s[0] == '+' || s[0] == '-') <==> n.sign != ""
  {
    var i, body := |n.sign|, n.Body();
    assert s[n.First()] == s[n.First()..n.End()][0] == body[0];
    if n.base == 8 {
      assert n.digits != "" ==> s[i + 1] == s[n.First()..n.End()][1] == n.digits[0];
    }
  }

  /** The run of digits is the body of the numeral. */
  lemma RunFound(n: Numeral, s: string)
    requires n.Valid() && StartsWith(n, s) && StopsThere(n, s)
    ensures DigitRun(s, n.First(), n.base) == n.End()
  {
    var first, end, body := n.First(), n.End(), n.Body();
    forall k | first <= k < end ensures DigitValue(s[k]) < n.base {
      assert s[k] == s[first..end][k - first] == body[k - first];
    }
    DigitRunIs(s, first, |body|, n.base);
  }

  lemma ValueFound(n: Numeral, s: string)
    requires n.Valid() && StartsWith(n, s)
    ensures NumberIn(s, n.First(), n.End(), n.base) == Value(n.digits, n.base)
  {
    NumberInIsValue(s, n.First(), n.Body(), n.base);
    if n.base == 8 {
      assert n.Body() == Repeat('0', 1) + n.digits;
      ValueOfZeros(1, n.digits, n.base);
    }
  }

  /** strtoul reads a numeral up to its end. */
  lemma NumeralIsParsed(n: Numeral, s: string)
    requires n.Valid() && StartsWith(n, s) && StopsThere(n, s)
    ensures StrToUL(s) == Parsed(n.Meaning(), n.End())
  {
    BaseFound(n, s);
    RunFound(n, s);
    ValueFound(n, s);
  }

  /** A numeral is a number. */
  lemma NumeralIsRead(n: Numeral)
    requires n.Valid()
    ensures MakeANumber(n.Render()) == Some(n.Meaning())
  {
    RenderedStarts(n, "");
    assert n.Render() + "" == n.Render();
    NumeralIsParsed(n, n.Render());
  }

  /** A numeral with anything else behind it is none. */
  lemma OtherTailIsRejected(n: Numeral, tail: string)
    requires n.Valid() && OtherTail(n, tail)
    ensures MakeANumber(n.Render() + tail) == None
  {
    RenderedStarts(n, tail);
    NumeralIsParsed(n, n.Render() + tail);
  }

  /** The numeral that a token would have to be. */
  function NumeralOf(tok: string): Numeral
    requires tok != ""
  {
    var i := if tok[0] == '+' || tok[0] == '-' then 1 else 0;
    var base := BaseAt(tok, i);
    var start := if base == 16 then i + 2 else if base == 8 then i + 1 else i;
    Numeral(tok[..i], base, base == 16 && tok[i + 1] == 'X', tok[start..])
  }

  lemma RendersTheToken(tok: string)
    requires tok != ""
    ensures NumeralOf(tok).Render() == tok
  {
    var n, i := NumeralOf(tok), |NumeralOf(tok).sign|;
    var start := i + |n.Prefix()|;
    assert tok[i..start] == n.Prefix();
    assert tok == tok[..i] + (tok[i..start] + tok[start..]);
  }

  /** A number is a run of digits to the end of the token. */
  lemma RunsToTheEnd(tok: string)
    requires MakeANumber(tok).Some?
    ensures tok != "" && NumeralOf(tok).First() < |tok|
    ensures DigitRun(tok, NumeralOf(tok).First(), NumeralOf(tok).base) == |tok|
  {
  }

  /** Nothing but numerals are numbers. */
  lemma OnlyNumeralsAreRead(tok: string)
    requires MakeANumber(tok).Some?
    ensures tok != "" && NumeralOf(tok).Valid() && NumeralOf(tok).Render() == tok
  {
    RunsToTheEnd(tok);
    RendersTheToken(tok);
    DigitRunDigits(tok, NumeralOf(tok).First(), NumeralOf(tok).base);
    RunIsValid(tok);
  }

  lemma RunIsValid(tok: string)
    requires tok != "" && NumeralOf(tok).First() < |tok|
    requires forall k :: NumeralOf(tok).First() <= k < |tok| ==> DigitValue(tok[k]) < NumeralOf(tok).base
    ensures NumeralOf(tok).Valid()
  {
    var n := NumeralOf(tok);
    DigitsBehind(tok, |tok| - |n.digits|, n.base);
  }

  lemma DigitsBehind(tok: string, start: nat, base: Base)
    requires start <= |tok|
    requires forall k :: start <= k < |tok| ==> DigitValue(tok[k]) < base
    ensures AllDigits(tok[start..], base)
  {
  }

  /** What is printed in decimal is read back. */
  lemma DecimalIsRead(v: nat, upper: bool)
    requires v <= ULONG_MAX
    ensures MakeANumber(Digits(v, 10, upper)) == Some(v)
  {
    if v == 0 {
      ZeroIsRead(upper);
    } else {
      DigitsInverse(v, 10, upper);
      ReadAs(Numeral("", 10, upper, Digits(v, 10, upper)), Digits(v, 10, upper));
    }
  }

  /** A lone 0 is octal. */
  lemma ZeroIsRead(upper: bool)
    ensures MakeANumber(Digits(0, 10, upper)) == Some(0)
  {
    var n := Numeral("", 8, upper, "");
    assert n.Render() == "0" == Digits(0, 10, upper);
    NumeralIsRead(n);
  }

  /** And in hexadecimal, behind 0x or 0X. */
  lemma HexadecimalIsRead(v: nat, upper: bool)
    requires v <= ULONG_MAX
    ensures MakeANumber((if upper then "0X" else "0x") + Digits(v, 16, upper)) == Some(v)
  {
    DigitsInverse(v, 16, upper);
    ReadAs(Numeral("", 16, upper, Digits(v, 16, upper)), (if upper then "0X" else "0x") + Digits(v, 16, upper));
  }

  /** And in octal, behind 0. */
  lemma OctalIsRead(v: nat, upper: bool)
    requires v <= ULONG_MAX
    ensures MakeANumber("0" + Digits(v, 8, upper)) == Some(v)
  {
    DigitsInverse(v, 8, upper);
    ReadAs(Numeral("", 8, upper, Digits(v, 8, upper)), "0" + Digits(v, 8, upper));
  }

  /** A minus sign counts down from 2^64. */
  lemma NegativeIsRead(v: nat, upper: bool)
    requires 0 < v <= ULONG_MAX
    ensures MakeANumber("-" + Digits(v, 10, upper)) == Some(TWO_TO_64 - v)
  {
    DigitsInverse(v, 10, upper);
    NegatedIsRead(Digits(v, 10, upper), v, upper);
  }

  lemma NegatedIsRead(digits: string, v: nat, upper: bool)
    requires 0 < v <= ULONG_MAX && AllDigits(digits, 10) && Value(digits, 10) == v
    requires digits != "" && digits[0] != '0'
    ensures MakeANumber("-" + digits) == Some(TWO_TO_64 - v)
  {
    var n := Numeral("-", 10, upper, digits);
    NegatedIsRendered(n);
    ReadAs(n, "-" + digits);
    NegatedMeans(n, v);
  }

  lemma NegatedIsRendered(n: Numeral)
    requires n.sign == "-" && n.base == 10
    ensures n.Render() == "-" + n.digits
  {
    assert "" + n.digits == n.digits;
  }

  lemma NegatedMeans(n: Numeral, v: nat)
    requires n.sign == "-" && 0 < v <= ULONG_MAX && Value(n.digits, n.base) == v
    ensures n.Meaning() == TWO_TO_64 - v
  {
  }

  lemma ReadAs(n: Numeral, tok: string)
    requires n.Valid() && n.Render() == tok
    ensures MakeANumber(tok) == Some(n.Meaning())
  {
    NumeralIsRead(n);
  }
}
