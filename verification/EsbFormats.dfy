/** What the formatted appends of dd_esb.c mean for the formats they document:
    pre % [+] [0] [width] [l] [l] letter suf. */
module EsbFormats {
  import opened CText
  import opened NumberText
  import opened EsbPrintf

  datatype NumFormat = NumFormat(
    pre: string, plus: bool, zero: bool, width: string, ells: nat, letter: char, suf: string)
  {
    ghost predicate Valid() {
      && '%' !in pre
      && (forall i :: 0 <= i < |width| ==> IsDigit(width[i]))
      && (zero || width == "" || width[0] != '0')
      && Value(width, 10) < TWO_TO_63
      && ells <= 2
      && IsConversion(letter)
    }

    function Width(): nat {
      Value(width, 10)
    }

    /** The length letters, the conversion letter and the suffix. */
    function Tail(): string {
      Repeat('l', ells) + [letter] + suf
    }

    function Flags(): string {
      (if plus then "+" else "") + (if zero then "0" else "")
    }

    /** The format string itself. */
    function Render(): string {
      pre + "%" + Flags() + width + Tail()
    }

    /** The first character of the suffix is one the scan for conversion
        letters still looks for after this letter. */
    predicate Captured() {
      CapturedBy(letter, suf)
    }
  }

  predicate IsConversion(c: char) {
    c == 'u' || c == 'x' || c == 'X' || c == 'd'
  }

  /** What can follow the width: a length or a conversion letter. */
  predicate EndsWidth(c: char) {
    c == 'l' || c == 's' || IsConversion(c)
  }

  predicate CapturedBy(letter: char, suf: string) {
    suf != "" &&
    match letter
    case 'u' => suf[0] == 'd' || suf[0] == 'x' || suf[0] == 'X' || suf[0] == 's'
    case 'd' => suf[0] == 'x' || suf[0] == 'X' || suf[0] == 's'
    case 'x' => suf[0] == 'X' || suf[0] == 's'
    case _ => suf[0] == 's'
  }

  lemma {:induction false} PercentFromOf(f: string, i: nat, p: nat)
    requires i <= p < |f| && f[p] == '%'
    requires forall k :: i <= k < p ==> f[k] != '%'
    ensures PercentFrom(f, i) == p
    decreases p - i
  {
    if i >= p {
    } else {
      PercentFromOf(f, i + 1, p);
    }
  }

  lemma {:induction false} DigitsEndOf(f: string, i: nat, end: nat)
    requires i <= end < |f|
    requires forall k :: i <= k < end ==> IsDigit(f[k])
    requires !IsDigit(f[end])
    ensures DigitsEnd(f, i) == end
    decreases end - i
  {
    if i >= end {
    } else {
      DigitsEndOf(f, i + 1, end);
    }
  }

  lemma {:induction false} DecimalInOf(f: string, i: nat, width: string)
    requires i + |width| <= |f|
    requires forall k :: 0 <= k < |width| ==> f[i + k] == width[k]
    ensures DecimalIn(f, i, i + |width|) == Value(width, 10)
    decreases width
  {
    if width == "" {
    } else {
      DecimalInOf(f, i, width[..|width| - 1]);
    }
  }

  /** strtol reads the width of a rendered format. */
  lemma WidthRendered(f: string, i: nat, width: string)
    requires i + |width| < |f|
    requires forall k :: 0 <= k < |width| ==> IsDigit(width[k]) && f[i + k] == width[k]
    requires EndsWidth(f[i + |width|])
    requires Value(width, 10) < TWO_TO_63
    ensures WidthAt(f, i) == (Value(width, 10), i + |width|)
  {
    DecimalInOf(f, i, width);
    assert forall k :: i <= k < i + |width| ==> f[k] == width[k - i];
    DigitsEndOf(f, i, i + |width|);
    assert f[i] == if width == "" then f[i + |width|] else width[0];
  }

  /** The characters at and after j, when f[j..] is the tail of a format. */
  lemma TailCharacters(f: string, j: nat, ells: nat, letter: char, suf: string)
    requires j <= |f| && f[j..] == Repeat('l', ells) + [letter] + suf
    ensures |f| == j + ells + 1 + |suf|
    ensures forall i :: j <= i < j + ells ==> f[i] == 'l'
    ensures f[j + ells] == letter
    ensures suf != "" ==> f[j + ells + 1] == suf[0]
    ensures f[j + ells + 1..] == suf
  {
    var tail := Repeat('l', ells) + [letter] + suf;
    assert forall i :: 0 <= i < |tail| ==> f[j + i] == tail[i];
    assert forall i :: j <= i < j + ells ==> f[i] == tail[i - j];
    assert f[j + ells + 1..] == f[j..][ells + 1..];
    assert tail[ells] == letter;
    assert tail[ells + 1..] == suf;
    assert suf != "" ==> tail[ells + 1] == suf[0];
  }

  /** Where the scan for letters stops, and what it has counted by then. */
  lemma LettersRendered(f: string, j: nat, nf: NumFormat)
    requires nf.Valid() && j <= |f| && f[j..] == nf.Tail()
    ensures var l := LettersAt(f, j);
      && (nf.Captured() ==> At(f, l.upperX) == 's' || l.Count() > 1)
      && (!nf.Captured() ==> LettersExact(f, l, nf.letter, nf.suf))
  {
    TailCharacters(f, j, nf.ells, nf.letter, nf.suf);
    LettersFrom(f, j, nf.ells);
    LettersOnly(f, j + nf.ells, nf.letter, nf.suf, LettersAt(f, j));
  }

  predicate LettersExact(f: string, l: Letters, letter: char, suf: string) {
    && l.upperX <= |f| && At(f, l.upperX) != 's' && l.Count() == 1
    && l.HasU() == (letter == 'u') && l.HasD() == (letter == 'd') && l.HasX() == (letter == 'x')
    && f[l.upperX..] == suf
  }

  lemma LettersOnly(f: string, k: nat, letter: char, suf: string, l: Letters)
    requires IsConversion(letter) && |f| == k + 1 + |suf| && f[k] == letter
    requires suf != "" ==> f[k + 1] == suf[0]
    requires f[k + 1..] == suf
    requires l.ells == k && l.u == Skip(f, k, 'u') && l.d == Skip(f, l.u, 'd')
    requires l.x == Skip(f, l.d, 'x') && l.upperX == Skip(f, l.x, 'X')
    ensures CapturedBy(letter, suf) ==> At(f, l.upperX) == 's' || l.Count() > 1
    ensures !CapturedBy(letter, suf) ==> LettersExact(f, l, letter, suf)
  {
  }

  lemma LettersFrom(f: string, j: nat, ells: nat)
    requires ells <= 2 && j + ells < |f| && f[j + ells] != 'l'
    requires (ells >= 1 ==> f[j] == 'l') && (ells == 2 ==> f[j + 1] == 'l')
    ensures Skip(f, Skip(f, j, 'l'), 'l') == j + ells
  {
  }

  lemma PartsOf(pre: string, flags: string, width: string, tail: string, f: string)
    requires f == pre + "%" + flags + width + tail
    ensures |pre| < |f| && f[|pre|] == '%' && f[..|pre|] == pre
    ensures forall k :: 0 <= k < |pre| ==> f[k] == pre[k]
    ensures f[|pre| + 1..] == flags + (width + tail)
  {
    var rest := flags + (width + tail);
    assert f == pre + ("%" + rest);
    assert f[|pre|..] == "%" + rest;
    assert f[|pre| + 1..] == f[|pre|..][1..];
  }

  /** The parts of a rendered format that start at its '%'. */
  lemma RenderParts(nf: NumFormat, f: string)
    requires nf.Valid() && f == nf.Render()
    ensures PercentFrom(f, 0) == |nf.pre| < |f|
    ensures f[..|nf.pre|] == nf.pre
    ensures f[|nf.pre| + 1..] == nf.Flags() + (nf.width + nf.Tail())
  {
    PartsOf(nf.pre, nf.Flags(), nf.width, nf.Tail(), f);
    PercentFromOf(f, 0, |nf.pre|);
  }

  /** Rejection texts begin with ES. */
  predicate Marked(m: Messages) {
    && |m.sLetter| >= 2 && m.sLetter[0] == 'E' && m.sLetter[1] == 'S'
    && |m.letterCount| >= 2 && m.letterCount[0] == 'E' && m.letterCount[1] == 'S'
    && |m.dLetter| >= 2 && m.dLetter[0] == 'E' && m.dLetter[1] == 'S'
  }

  lemma MessagesAreMarked()
    ensures Marked(MESSAGES_U) && Marked(MESSAGES_I)
  {
  }

  /** Digits are no letters but A to F. */
  lemma DigitIsNoS(c: char, base: Base)
    requires DigitValue(c) < base
    ensures c != 'S' && (c == 'E' ==> base == 16)
  {
  }

  lemma BodyStart(n: nat, digits: string, base: Base)
    requires digits != "" && forall k :: 0 <= k < n + |digits| ==> DigitValue((Repeat('0', n) + digits)[k]) < base
    ensures var body := Repeat('0', n) + digits;
      (body[0] == 'E' ==> base == 16) && (|body| > 1 ==> body[1] != 'S')
  {
    var body := Repeat('0', n) + digits;
    DigitIsNoS(body[0], base);
    if |body| > 1 {
      DigitIsNoS(body[1], base);
    }
  }

  lemma PaddedStart(spaces: nat, sign: string, body: string)
    requires IsSign(sign) && body != "" && (|body| > 1 ==> body[1] != 'S')
    ensures var field := Repeat(' ', spaces) + (sign + body);
      && field != "" && (field[0] == 'E' ==> body[0] == 'E')
      && (|field| > 1 && field[0] == 'E' ==> field[1] != 'S')
  {
    var field := Repeat(' ', spaces) + (sign + body);
    if spaces > 0 {
      assert field[0] == ' ';
    } else if sign != "" {
      assert field[0] == sign[0];
    } else {
      assert field == body;
    }
  }

  /** A printed number is not empty and starts as no message does. */
  lemma FieldStart(zero: bool, width: nat, sign: string, v: nat, base: Base, upper: bool)
    requires IsSign(sign)
    ensures var field := Field(zero, width, sign, Digits(v, base, upper));
      && field != "" && (field[0] == 'E' ==> base == 16)
      && (|field| > 1 && field[0] == 'E' ==> field[1] != 'S')
  {
    var digits := Digits(v, base, upper);
    var n := ZeroCount(zero, width, |sign| + |digits|);
    DigitsInverse(v, base, upper);
    FieldShape(zero, width, sign, digits);
    BodyIsDigits(n, digits, base);
    BodyStart(n, digits, base);
    PaddedStart(SpaceCount(zero, width, |sign| + |digits|), sign, Repeat('0', n) + digits);
  }

  /** A field and a captured suffix never spell a rejection text. */
  lemma FieldIsNoMessage(field: string, suf: string, text: string)
    requires field != "" && suf != "" && suf[0] != 'S'
    requires |field| > 1 && field[0] == 'E' ==> field[1] != 'S'
    requires |text| >= 2 && text[0] == 'E' && text[1] == 'S'
    ensures field + suf != text
  {
    assert (field + suf)[0] == field[0];
    assert (field + suf)[1] == if |field| == 1 then suf[0] else field[1];
  }

  lemma PrefixCancels(pre: string, a: string, b: string)
    requires a != b
    ensures pre + a != pre + b
  {
    assert (pre + a)[|pre|..] == a && (pre + b)[|pre|..] == b;
  }

  /** The characters after the flags of a rendered format, from start on. */
  lemma AfterFlags(f: string, i: nat, start: nat, flags: string, width: string, tail: string)
    requires i <= |f| && f[i..] == flags + (width + tail) && start == i + |flags|
    requires forall k :: 0 <= k < |width| ==> IsDigit(width[k])
    requires tail != "" && EndsWidth(tail[0])
    ensures start + |width| < |f|
    ensures f[start] == if width == "" then tail[0] else width[0]
    ensures flags != "" ==> f[i] == flags[0] && f[start - 1] == flags[|flags| - 1]
    ensures forall k :: 0 <= k < |width| ==> f[start + k] == width[k]
    ensures f[start + |width|] == tail[0] && f[start + |width|..] == tail
  {
    var rest := width + tail;
    assert forall k :: 0 <= k < |flags + rest| ==> f[i + k] == (flags + rest)[k];
    assert flags != "" ==> f[i + 0] == flags[0] && f[i + (|flags| - 1)] == flags[|flags| - 1];
    assert f[start..] == f[i..][|flags|..] == (flags + rest)[|flags|..] == rest;
    forall k | 0 <= k < |width| ensures f[start + k] == width[k] {
      assert f[start..][k] == rest[k];
    }
    assert f[start + |width|..] == f[start..][|width|..] == rest[|width|..] == tail;
    assert f[start..][0] == rest[0];
  }

  /** Where the width of a rendered format starts, and what is found there. */
  lemma WidthStart(f: string, i: nat, nf: NumFormat) returns (start: nat)
    requires nf.Valid() && i <= |f| && f[i..] == nf.Flags() + (nf.width + nf.Tail())
    ensures start == i + (if nf.plus then 1 else 0) + (if nf.zero then 1 else 0)
    ensures nf.plus ==> f[i] == '+'
    ensures nf.zero ==> f[start - 1] == '0'
    ensures start + |nf.width| < |f|
    ensures IsDigit(f[start]) || EndsWidth(f[start])
    ensures !nf.zero ==> f[start] != '0'
    ensures forall k :: 0 <= k < |nf.width| ==> f[start + k] == nf.width[k]
    ensures EndsWidth(f[start + |nf.width|]) && f[start + |nf.width|..] == nf.Tail()
  {
    TailStart(nf);
    start := i + |nf.Flags()|;
    AfterFlags(f, i, start, nf.Flags(), nf.width, nf.Tail());
  }

  function BaseOf(letter: char): Base {
    if letter == 'u' || letter == 'd' then 10 else 16
  }

  // ----- esb_append_printf_u

  function PrintedU(nf: NumFormat, v: uint64): string {
    Field(nf.zero, nf.Width(), "", Digits(v as nat, BaseOf(nf.letter), nf.letter == 'X'))
  }

  lemma ConvertedU(m: Messages, f: string, l: Letters, nf: NumFormat, v: uint64)
    requires Marked(m) && nf.Valid() && nf.letter != 'd' && l.upperX <= |f|
    requires nf.Captured() ==> At(f, l.upperX) == 's' || l.Count() > 1
    requires !nf.Captured() ==> LettersExact(f, l, nf.letter, nf.suf)
    ensures !nf.Captured() <==> TextU4(m, f, l, nf.zero, nf.Width(), v) == PrintedU(nf, v) + nf.suf
  {
    if nf.Captured() {
      FieldStart(nf.zero, nf.Width(), "", v as nat, BaseOf(nf.letter), nf.letter == 'X');
      FieldIsNoMessage(PrintedU(nf, v), nf.suf, m.sLetter);
      FieldIsNoMessage(PrintedU(nf, v), nf.suf, m.letterCount);
    }
  }

  lemma FlagsU(m: Messages, f: string, i: nat, zero: bool, start: nat, v: uint64)
    requires start < |f| && start == (if zero then i + 1 else i)
    requires zero ==> f[i] == '0'
    requires !zero ==> f[start] != '0' && f[start] != ' ' && f[start] != '-'
    ensures TextU1(m, f, i, v) == TextU3(m, f, start, zero, v)
  {
  }

  /** The width and the letters are read as they were rendered. */
  ghost predicate ReadAsRendered(f: string, start: nat, nf: NumFormat)
    requires start <= |f|
  {
    && WidthAt(f, start).0 == nf.Width()
    && var l := LettersAt(f, WidthAt(f, start).1);
       && (nf.Captured() ==> At(f, l.upperX) == 's' || l.Count() > 1)
       && (!nf.Captured() ==> LettersExact(f, l, nf.letter, nf.suf))
  }

  lemma ReadsAsRendered(f: string, start: nat, nf: NumFormat)
    requires nf.Valid() && start + |nf.width| < |f|
    requires forall k :: 0 <= k < |nf.width| ==> f[start + k] == nf.width[k]
    requires EndsWidth(f[start + |nf.width|]) && f[start + |nf.width|..] == nf.Tail()
    ensures ReadAsRendered(f, start, nf)
  {
    WidthRendered(f, start, nf.width);
    var end := start + |nf.width|;
    assert WidthAt(f, start) == (nf.Width(), end);
    LettersRendered(f, end, nf);
  }

  /** The part of RenderedU from the width on. */
  lemma RenderedFromWidthU(m: Messages, f: string, start: nat, nf: NumFormat, v: uint64)
    requires Marked(m) && nf.Valid() && nf.letter != 'd' && start <= |f| && ReadAsRendered(f, start, nf)
    ensures !nf.Captured() <==> TextU3(m, f, start, nf.zero, v) == PrintedU(nf, v) + nf.suf
  {
    ConvertedU(m, f, LettersAt(f, WidthAt(f, start).1), nf, v);
  }

  /** The part of RenderedU after the '%', for any f that ends that way. */
  lemma RenderedAfterPercentU(m: Messages, f: string, i: nat, nf: NumFormat, v: uint64)
    requires Marked(m) && nf.Valid() && nf.letter != 'd' && !nf.plus && i <= |f|
    requires f[i..] == nf.Flags() + (nf.width + nf.Tail())
    ensures !nf.Captured() <==> TextU1(m, f, i, v) == PrintedU(nf, v) + nf.suf
  {
    var start := WidthStart(f, i, nf);
    FlagsU(m, f, i, nf.zero, start, v);
    ReadsAsRendered(f, start, nf);
    RenderedFromWidthU(m, f, start, nf, v);
  }

  /** printf_u prints prefix, field and suffix exactly when the conversion
      letter cannot capture the suffix. */
  lemma RenderedU(m: Messages, nf: NumFormat, v: uint64)
    requires Marked(m) && nf.Valid() && nf.letter != 'd' && !nf.plus
    ensures !nf.Captured() <==>
      TextU(m, nf.Render(), v) == nf.pre + (PrintedU(nf, v) + nf.suf)
  {
    var f := nf.Render();
    RenderParts(nf, f);
    RenderedAfterPercentU(m, f, |nf.pre| + 1, nf, v);
    if nf.Captured() {
      PrefixCancels(nf.pre, TextU1(m, f, |nf.pre| + 1, v), PrintedU(nf, v) + nf.suf);
    }
  }

  lemma TailStart(nf: NumFormat)
    requires nf.Valid()
    ensures nf.Tail() != "" && EndsWidth(nf.Tail()[0])
  {
  }

  // ----- esb_append_printf_i

  function PrintedI(nf: NumFormat, v: int64): string {
    Field(nf.zero, nf.Width(), SignOf(nf.plus, v as int), Digits(Abs(v as int), 10, false))
  }

  lemma ConvertedI(m: Messages, f: string, l: Letters, nf: NumFormat, v: int64)
    requires Marked(m) && nf.Valid() && nf.letter == 'd' && l.upperX <= |f|
    requires nf.Captured() ==> At(f, l.upperX) == 's' || l.Count() > 1
    requires !nf.Captured() ==> LettersExact(f, l, nf.letter, nf.suf)
    ensures !nf.Captured() <==> TextI5(m, f, l, nf.plus, nf.zero, nf.Width(), v) == PrintedI(nf, v) + nf.suf
  {
    if nf.Captured() {
      FieldStart(nf.zero, nf.Width(), SignOf(nf.plus, v as int), Abs(v as int), 10, false);
      FieldIsNoMessage(PrintedI(nf, v), nf.suf, m.sLetter);
      FieldIsNoMessage(PrintedI(nf, v), nf.suf, m.letterCount);
    }
  }

  lemma FlagsI(m: Messages, f: string, i: nat, plus: bool, zero: bool, start: nat, v: int64)
    requires start < |f| && start == i + (if plus then 1 else 0) + (if zero then 1 else 0)
    requires plus ==> f[i] == '+'
    requires zero ==> f[start - 1] == '0'
    requires !zero ==> f[start] != '0'
    requires StartsNumber(f[start])
    ensures TextI1(m, f, i, v) == TextI4(m, f, start, plus, zero, v)
  {
  }

  lemma RenderedFromWidthI(m: Messages, f: string, start: nat, nf: NumFormat, v: int64)
    requires Marked(m) && nf.Valid() && nf.letter == 'd' && start <= |f| && ReadAsRendered(f, start, nf)
    ensures !nf.Captured() <==> TextI4(m, f, start, nf.plus, nf.zero, v) == PrintedI(nf, v) + nf.suf
  {
    ConvertedI(m, f, LettersAt(f, WidthAt(f, start).1), nf, v);
  }

  lemma RenderedAfterPercentI(m: Messages, f: string, i: nat, nf: NumFormat, v: int64)
    requires Marked(m) && nf.Valid() && nf.letter == 'd' && i <= |f|
    requires f[i..] == nf.Flags() + (nf.width + nf.Tail())
    ensures !nf.Captured() <==> TextI1(m, f, i, v) == PrintedI(nf, v) + nf.suf
  {
    var start := WidthStart(f, i, nf);
    FlagsI(m, f, i, nf.plus, nf.zero, start, v);
    ReadsAsRendered(f, start, nf);
    RenderedFromWidthI(m, f, start, nf, v);
  }

  /** printf_i prints prefix, field and suffix exactly when the letter d cannot
      capture the suffix. */
  lemma RenderedI(m: Messages, nf: NumFormat, v: int64)
    requires Marked(m) && nf.Valid() && nf.letter == 'd'
    ensures !nf.Captured() <==>
      TextI(m, nf.Render(), v) == nf.pre + (PrintedI(nf, v) + nf.suf)
  {
    var f := nf.Render();
    RenderParts(nf, f);
    RenderedAfterPercentI(m, f, |nf.pre| + 1, nf, v);
    if nf.Captured() {
      PrefixCancels(nf.pre, TextI1(m, f, |nf.pre| + 1, v), PrintedI(nf, v) + nf.suf);
    }
  }

  // ----- what the printed fields mean

  /** The field is as wide as asked, or as wide as its number needs, and
      reading it gives the number back. */
  lemma PrintedUIsReadBack(nf: NumFormat, v: uint64)
    ensures ReadField(PrintedU(nf, v), BaseOf(nf.letter)) == Some(v as int)
    ensures |PrintedU(nf, v)| == Max(nf.Width(), |Digits(v as nat, BaseOf(nf.letter), nf.letter == 'X')|)
  {
    ReadFieldInverse(nf.zero, nf.Width(), "", v as nat, BaseOf(nf.letter), nf.letter == 'X');
  }

  lemma SignedIs(plus: bool, v: int)
    ensures Signed(SignOf(plus, v) == "-", Abs(v)) == v
  {
  }

  lemma IntegerIsReadBack(zero: bool, width: nat, sign: string, magnitude: nat, v: int)
    requires IsSign(sign) && Signed(sign == "-", magnitude) == v
    ensures ReadField(Field(zero, width, sign, Digits(magnitude, 10, false)), 10) == Some(v)
    ensures |Field(zero, width, sign, Digits(magnitude, 10, false))|
      == Max(width, |sign| + |Digits(magnitude, 10, false)|)
  {
    FieldLength(zero, width, sign, Digits(magnitude, 10, false));
    ReadFieldInverse(zero, width, sign, magnitude, 10, false);
  }

  lemma PrintedIIsReadBack(nf: NumFormat, v: int64)
    ensures ReadField(PrintedI(nf, v), 10) == Some(v as int)
    ensures |PrintedI(nf, v)|
      == Max(nf.Width(), |SignOf(nf.plus, v as int)| + |Digits(Abs(v as int), 10, false)|)
  {
    SignedIs(nf.plus, v as int);
    IntegerIsReadBack(nf.zero, nf.Width(), SignOf(nf.plus, v as int), Abs(v as int), v as int);
  }

  lemma TwoLetters(m: Messages, f: string, l: Letters, v: uint64)
    requires |f| == 3 && f[0] == '%' && f[1] == 'u' && PercentFrom(f, 0) == 0
    requires WidthAt(f, 1) == (0, 1) && LettersAt(f, 1) == l && l.upperX == 3 && l.Count() > 1
    ensures TextU(m, f, v) == m.letterCount
  {
    assert f[..0] + m.letterCount == m.letterCount;
    assert TextU2(m, f, 1, v) == TextU3(m, f, 1, false, v) == m.letterCount;
  }

  /** A concrete captured suffix: %u directly before an x prints a rejection
      text in place of every number. */
  lemma CapturedSuffixPrintsNoNumber(m: Messages, v: uint64)
    ensures TextU(m, "%ux", v) == m.letterCount
  {
    var f, l := "%ux", Letters(1, 2, 2, 3, 3);
    assert WidthAt(f, 1) == (0, 1);
    assert LettersAt(f, 1) == l;
    TwoLetters(m, f, l, v);
  }

  // ----- esb_append_printf_s

  /** printf_s prints prefix, justified string and suffix for pre %[-][width]s suf. */
  lemma RenderedS(m: Messages, pre: string, left: bool, width: string, suf: string, s: string)
    requires '%' !in pre && Value(width, 10) < TWO_TO_63
    requires forall i :: 0 <= i < |width| ==> IsDigit(width[i])
    ensures TextS(m, pre + "%" + (if left then "-" else "") + width + ("s" + suf), s)
      == pre + (Justified(left, Value(width, 10), s) + suf)
    ensures IsJustified(Justified(left, Value(width, 10), s), left, Value(width, 10), s)
  {
    JustifiedIs(left, Value(width, 10), s);
    var flags, tail := if left then "-" else "", "s" + suf;
    var f := pre + "%" + flags + width + tail;
    PartsOf(pre, flags, width, tail, f);
    PercentFromOf(f, 0, |pre|);
    assert tail[1..] == suf;
    RenderedAfterPercentS(m, f, |pre| + 1, left, flags, width, tail, s);
  }

  lemma WidthStartS(f: string, i: nat, left: bool, flags: string, width: string, tail: string) returns (start: nat)
    requires i <= |f| && f[i..] == flags + (width + tail) && tail != "" && tail[0] == 's'
    requires |flags| == (if left then 1 else 0) && (left ==> flags[0] == '-')
    requires forall k :: 0 <= k < |width| ==> IsDigit(width[k])
    ensures start == i + (if left then 1 else 0) && start + |width| < |f|
    ensures left ==> f[i] == '-'
    ensures f[start] != ' ' && f[start] != '-'
    ensures forall k :: 0 <= k < |width| ==> f[start + k] == width[k]
    ensures f[start + |width|] == 's' && f[start + |width|..] == tail
  {
    start := i + |flags|;
    AfterFlags(f, i, start, flags, width, tail);
  }

  /** The width is read as it was rendered, up to the letter s. */
  predicate ReadAsRenderedS(f: string, start: nat, width: nat, suf: string)
    requires start <= |f|
  {
    && WidthAt(f, start).0 == width
    && var end := WidthAt(f, start).1;
       end < |f| && f[end] == 's' && f[end + 1..] == suf
  }

  lemma ReadsAsRenderedS(f: string, start: nat, width: string, tail: string)
    requires start + |width| < |f| && tail != ""
    requires forall k :: 0 <= k < |width| ==> IsDigit(width[k]) && f[start + k] == width[k]
    requires f[start + |width|] == 's' && f[start + |width|..] == tail
    requires Value(width, 10) < TWO_TO_63
    ensures ReadAsRenderedS(f, start, Value(width, 10), tail[1..])
  {
    WidthRendered(f, start, width);
    assert f[start + |width| + 1..] == f[start + |width|..][1..];
  }

  lemma RenderedAfterPercentS(m: Messages, f: string, i: nat, left: bool, flags: string, width: string, tail: string,
                              s: string)
    requires i <= |f| && f[i..] == flags + (width + tail) && tail != "" && tail[0] == 's'
    requires |flags| == (if left then 1 else 0) && (left ==> flags[0] == '-')
    requires forall k :: 0 <= k < |width| ==> IsDigit(width[k])
    requires Value(width, 10) < TWO_TO_63
    ensures TextS1(m, f, i, s) == Justified(left, Value(width, 10), s) + tail[1..]
  {
    var start := WidthStartS(f, i, left, flags, width, tail);
    ReadsAsRenderedS(f, start, width, tail);
    RenderedFromWidthS(m, f, start, left, Value(width, 10), tail[1..], s);
    SkipFlagS(m, f, i, left, start, s);
  }

  lemma RenderedFromWidthS(m: Messages, f: string, start: nat, left: bool, width: nat, suf: string, s: string)
    requires start <= |f| && ReadAsRenderedS(f, start, width, suf)
    ensures TextS2(m, f, start, left, s) == Justified(left, width, s) + suf
  {
  }

  lemma SkipFlagS(m: Messages, f: string, i: nat, left: bool, start: nat, s: string)
    requires start == i + (if left then 1 else 0) && start < |f|
    requires left ==> f[i] == '-'
    requires f[start] != ' ' && f[start] != '-'
    ensures TextS1(m, f, i, s) == TextS2(m, f, start, left, s)
  {
  }
}
