/** The formatted appends of dd_esb.c: esb_append_printf_u, esb_append_printf_i
    and esb_append_printf_s.  Text* functions say what is appended for every
    format, methods append it the way the source does. */
module EsbPrintf {
  import opened CText
  import opened EsbBuffer
  import opened NumberText

  /** The ESBERR texts that a printer appends for a format it rejects. */
  datatype Messages = Messages(
    noPercent: string,
    space: string,
    wrong: string,
    nextEnd: string,
    minus: string,
    sLetter: string,
    letterCount: string,
    dLetter: string)

  const MESSAGES_U := Messages(
    "ESBERR..esb_append_printf_u has no percent operator",
    "ESBERR_pct_followedby_space_in_s",
    "ESBERR_pct_followedby_wrong_in_s",
    "ESBERR_next_followedby_end",
    "ESBERR_printf_u - format not supported",
    "ESBERR_pct_scount_in_u",
    "ESBERR_pct_xcount_etc_u",
    "ESBERR_pct_dcount_error_u")

  const MESSAGES_I := Messages(
    "ESBERR..esb_append_printf_i has no percent operator",
    "ESBERR_pct_followedby_space_in_s",
    "ESBERR_pct_followedby_wrong_in_s",
    "ESBERR_next_followedby_end",
    "ESBERR_printf_i - format not supported",
    "ESBERR_pct_scount_in_i",
    "ESBERR_xcount_etc_i",
    "ESBERR_xcount_etc_i")

  /** In esb_append_printf_s every letter other than s is a missing s. */
  const MESSAGES_S := Messages(
    "ESBERR..esb_append_printf_s has no percent operator",
    "ESBERR_pct_followedby_space_in_s",
    "ESBERR_pct_followedby_wrong_in_s",
    "ESBERR_pct_s_missing_in_s",
    "ESBERR_pct_s_missing_in_s",
    "ESBERR_pct_s_missing_in_s",
    "ESBERR_pct_s_missing_in_s",
    "ESBERR_pct_s_missing_in_s")

  /** Where the first '%' of f at or after i is, or the end of f. */
  function PercentFrom(f: string, i: nat): (n: nat)
    requires i <= |f|
    ensures i <= n <= |f|
    decreases |f| - i
  {
    if i == |f| || f[i] == '%' then i else PercentFrom(f, i + 1)
  }

  /** The end of the white space at i. */
  function SpacesEnd(s: string, i: nat): (n: nat)
    requires i <= |s|
    ensures i <= n <= |s|
    decreases |s| - i
  {
    if i < |s| && IsSpace(s[i]) then SpacesEnd(s, i + 1) else i
  }

  /** The end of the decimal digits at i. */
  function DigitsEnd(s: string, i: nat): (n: nat)
    requires i <= |s|
    ensures i <= n <= |s|
    decreases |s| - i
  {
    if i < |s| && IsDigit(s[i]) then DigitsEnd(s, i + 1) else i
  }

  /** The number that s[i..end] writes. */
  function DecimalIn(s: string, i: nat, end: nat): nat
    requires i <= end <= |s|
    decreases end
  {
    if i == end then 0 else 10 * DecimalIn(s, i, end - 1) + DigitValue(s[end - 1])
  }

  /** strtol(s + i, &end, 10): the value, and where the text of it ends, which
      is i itself when there are no digits. */
  function StrToL(s: string, i: nat): (r: (int, nat))
    requires i <= |s|
    ensures i <= r.1 <= |s|
    ensures -TWO_TO_63 <= r.0 < TWO_TO_63
  {
    var start := SpacesEnd(s, i);
    var signed := start < |s| && (s[start] == '-' || s[start] == '+');
    var first := if signed then start + 1 else start;
    var end := DigitsEnd(s, first);
    var v := Signed(signed && s[start] == '-', DecimalIn(s, first, end));
    if end == first then (0, i) else (Max(-TWO_TO_63, Min(v, TWO_TO_63 - 1)), end)
  }

  /** The conversion from long to size_t. */
  function AsSize(v: int): nat
    requires -TWO_TO_63 <= v
  {
    if v < 0 then v + TWO_TO_64 else v
  }

  /** One optional character at i is stepped over. */
  function Skip(f: string, i: nat, c: char): (j: nat)
    requires i <= |f|
    ensures i <= j <= |f| && j <= i + 1
  {
    if i < |f| && f[i] == c then i + 1 else i
  }

  /** The optional l, l, u, d, x, X after the width: where each one ends. */
  datatype Letters = Letters(ells: nat, u: nat, d: nat, x: nat, upperX: nat) {
    predicate HasU() { u > ells }
    predicate HasD() { d > u }
    predicate HasX() { x > d }
    function Count(): int { upperX - ells }
  }

  function LettersAt(f: string, i: nat): (l: Letters)
    requires i <= |f|
    ensures i <= l.ells <= l.u <= l.d <= l.x <= l.upperX <= |f|
  {
    var ells := Skip(f, Skip(f, i, 'l'), 'l');
    var u := Skip(f, ells, 'u');
    var d := Skip(f, u, 'd');
    var x := Skip(f, d, 'x');
    Letters(ells, u, d, x, Skip(f, x, 'X'))
  }

  /** The width that starts at i (0 when there is none) and where it ends. */
  function WidthAt(f: string, i: nat): (r: (nat, nat))
    requires i <= |f|
    ensures i <= r.1 <= |f|
  {
    var num := StrToL(f, i);
    (if num.1 > i then AsSize(num.0) else 0, num.1)
  }

  // ----- esb_append_printf_u

  function TextU(m: Messages, f: string, v: uint64): string {
    TextU0(m, f, PercentFrom(f, 0), v)
  }

  function TextU0(m: Messages, f: string, p: nat, v: uint64): string
    requires p <= |f|
  {
    f[..p] + if p == |f| then m.noPercent else TextU1(m, f, p + 1, v)
  }

  function TextU1(m: Messages, f: string, i: nat, v: uint64): string
    requires i <= |f|
  {
    if At(f, i) == ' ' then m.space
    else if i == |f| then m.wrong
    else if f[i] == '-' then m.minus + (if i + 1 == |f| then m.nextEnd else TextU2(m, f, i + 1, v))
    else TextU2(m, f, i, v)
  }

  function TextU2(m: Messages, f: string, i: nat, v: uint64): string
    requires i < |f|
  {
    if f[i] != '0' then TextU3(m, f, i, false, v)
    else if i + 1 == |f| then m.nextEnd
    else TextU3(m, f, i + 1, true, v)
  }

  function TextU3(m: Messages, f: string, i: nat, zero: bool, v: uint64): string
    requires i <= |f|
  {
    var width := WidthAt(f, i);
    TextU4(m, f, LettersAt(f, width.1), zero, width.0, v)
  }

  function TextU4(m: Messages, f: string, l: Letters, zero: bool, width: nat, v: uint64): string
    requires l.upperX <= |f|
  {
    if At(f, l.upperX) == 's' then m.sLetter
    else if l.Count() > 1 then m.letterCount
    else if l.HasD() then m.dLetter
    else Field(zero, width, "", DigitsU(l, v)) + f[l.upperX..]
  }

  /** %u is decimal; %x, %X and no letter at all are hexadecimal. */
  function DigitsU(l: Letters, v: uint64): string {
    if l.HasU() then Digits(v as nat, 10, false) else Digits(v as nat, 16, !l.HasX())
  }

  // ----- esb_append_printf_i

  function TextI(m: Messages, f: string, v: int64): string {
    TextI0(m, f, PercentFrom(f, 0), v)
  }

  function TextI0(m: Messages, f: string, p: nat, v: int64): string
    requires p <= |f|
  {
    f[..p] + if p == |f| then m.noPercent else TextI1(m, f, p + 1, v)
  }

  function TextI1(m: Messages, f: string, i: nat, v: int64): string
    requires i <= |f|
  {
    if At(f, i) == ' ' then m.space
    else if i == |f| then m.wrong
    else if f[i] == '-' then m.minus + (if i + 1 == |f| then m.nextEnd else TextI2(m, f, i + 1, v))
    else TextI2(m, f, i, v)
  }

  function TextI2(m: Messages, f: string, i: nat, v: int64): string
    requires i < |f|
  {
    if f[i] != '+' then TextI3(m, f, i, false, v)
    else if i + 1 == |f| then m.nextEnd
    else TextI3(m, f, i + 1, true, v)
  }

  function TextI3(m: Messages, f: string, i: nat, plus: bool, v: int64): string
    requires i < |f|
  {
    if f[i] != '0' then TextI4(m, f, i, plus, false, v)
    else if i + 1 == |f| then m.nextEnd
    else TextI4(m, f, i + 1, plus, true, v)
  }

  function TextI4(m: Messages, f: string, i: nat, plus: bool, zero: bool, v: int64): string
    requires i <= |f|
  {
    var width := WidthAt(f, i);
    TextI5(m, f, LettersAt(f, width.1), plus, zero, width.0, v)
  }

  function TextI5(m: Messages, f: string, l: Letters, plus: bool, zero: bool, width: nat, v: int64): string
    requires l.upperX <= |f|
  {
    if At(f, l.upperX) == 's' then m.sLetter
    else if !l.HasD() || l.Count() > 1 then m.letterCount
    else Field(zero, width, SignOf(plus, v as int), Digits(Abs(v as int), 10, false)) + f[l.upperX..]
  }

  function SignOf(plus: bool, v: int): (sign: string)
    ensures IsSign(sign)
  {
    if v < 0 then "-" else if plus then "+" else ""
  }

  function Abs(v: int): nat {
    if v < 0 then -v else v
  }

  // ----- esb_append_printf_s

  function TextS(m: Messages, f: string, s: string): string {
    TextS0(m, f, PercentFrom(f, 0), s)
  }

  function TextS0(m: Messages, f: string, p: nat, s: string): string
    requires p <= |f|
  {
    f[..p] + if p == |f| then m.noPercent else TextS1(m, f, p + 1, s)
  }

  function TextS1(m: Messages, f: string, i: nat, s: string): string
    requires i <= |f|
  {
    if At(f, i) == ' ' then m.space
    else if i == |f| then m.wrong
    else TextS2(m, f, Skip(f, i, '-'), f[i] == '-', s)
  }

  function TextS2(m: Messages, f: string, i: nat, left: bool, s: string): string
    requires i <= |f|
  {
    var width := WidthAt(f, i);
    if At(f, width.1) != 's' then m.sLetter
    else Justified(left, width.0, s) + f[width.1 + 1..]
  }

  /** The string at one side of a field, and blanks at the other. */
  predicate IsJustified(field: string, left: bool, width: nat, s: string) {
    && |field| == Max(width, |s|)
    && (left ==> field[..|s|] == s && forall k :: |s| <= k < |field| ==> field[k] == ' ')
    && (!left ==> field[|field| - |s|..] == s && forall k :: 0 <= k < |field| - |s| ==> field[k] == ' ')
  }

  lemma JustifiedIs(left: bool, width: nat, s: string)
    ensures IsJustified(Justified(left, width, s), left, width, s)
  {
  }

  function Justified(left: bool, width: nat, s: string): string {
    if width <= |s| then s
    else if left then s + Repeat(' ', width - |s|)
    else Repeat(' ', width - |s|) + s
  }

  // ----- the appends themselves

  const SPACEBUF_SIZE := 39
  const ZEROS_SIZE := 40

  /** esb_appendn_internal of a whole string. */
  method Emit(data: Esb, s: string, allocSize: nat)
    requires data.Valid() && allocSize >= 1
    modifies data, data.str
    ensures data.Valid() && data.appended == old(data.appended) + s && data.Grown()
  {
    data.AppendnInternal(s, |s|, allocSize);
    assert s[..|s|] == s;
  }

  lemma MoreCopies(text: string, c: char, a: nat, b: nat)
    ensures (text + Repeat(c, a)) + Repeat(c, b) == text + Repeat(c, a + b)
  {
    RepeatSplit(c, a, b);
    Assoc(text, Repeat(c, a), Repeat(c, b));
  }

  /** esb_appendn_internal_spaces and esb_appendn_internal_zeros: n copies of
      c, at most chunk of them in one append. */
  method EmitRepeated(data: Esb, c: char, n: nat, chunk: nat, allocSize: nat)
    requires data.Valid() && allocSize >= 1 && chunk > 0
    modifies data, data.str
    ensures data.Valid() && data.appended == old(data.appended) + Repeat(c, n) && data.Grown()
  {
    var l: nat := n;
    ghost var text := data.appended;
    assert text + Repeat(c, 0) == text;
    while l > chunk
      invariant l <= n
      invariant data.Valid() && data.appended == text + Repeat(c, n - l) && data.Grown()
    {
      EmitCopies(data, text, c, n - l, chunk, allocSize);
      l := l - chunk;
    }
    EmitCopies(data, text, c, n - l, l, allocSize);
  }

  method EmitCopies(data: Esb, ghost text: string, c: char, ghost a: nat, b: nat, allocSize: nat)
    requires data.Valid() && allocSize >= 1 && data.appended == text + Repeat(c, a)
    modifies data, data.str
    ensures data.Valid() && data.appended == text + Repeat(c, a + b) && data.Grown()
  {
    MoreCopies(text, c, a, b);
    Emit(data, Repeat(c, b), allocSize);
  }

  /** The division is that of the natural numbers, and makes progress. */
  lemma DivisionStep(v: uint64, base: uint64)
    requires base == 10 || base == 16
    ensures (v % base) as nat == Remainder(v as nat, base as int)
    ensures (v / base) as nat == Quotient(v as nat, base as int)
    ensures v > 0 ==> v / base < v
  {
    if base == 10 {
      assert (v / 10) as nat == v as nat / 10 && (v % 10) as nat == v as nat % 10;
    } else {
      assert (v / 16) as nat == v as nat / 16 && (v % 16) as nat == v as nat % 16;
    }
  }

  /** One turn of the digit loop: the last digit, and the number without it. */
  method LastDigit(v: uint64, base: uint64, upper: bool) returns (c: char, rest: uint64)
    requires base == 10 || base == 16
    ensures Digits(v as nat, base as int, upper)
      == (if rest == 0 then "" else Digits(rest as nat, base as int, upper)) + [c]
    ensures rest == 0 || rest < v
  {
    DivisionStep(v, base);
    c := DigitChar((v % base) as nat, upper);
    rest := v / base;
  }

  /** The digit loop: digits of v are stored right to left, ending at last. */
  method StoreDigits(digbuf: array<char>, last: nat, v: uint64, base: uint64, upper: bool) returns (digptr: nat)
    requires base == 10 || base == 16
    requires 20 < last < digbuf.Length
    modifies digbuf
    ensures last - 20 < digptr <= last
    ensures digbuf[digptr..last + 1] == Digits(v as nat, base as int, upper)
    ensures digbuf[last + 1..] == old(digbuf[last + 1..])
  {
    digptr := last;
    var remaining := v;
    ghost var all := Digits(v as nat, base as int, upper);
    DigitsBound64(v as nat, base as int, upper);
    ghost var done := "";
    while true
      invariant 0 <= digptr <= last && |done| == last - digptr
      invariant all == Digits(remaining as nat, base as int, upper) + done
      invariant digbuf[digptr + 1..last + 1] == done
      invariant digbuf[last + 1..] == old(digbuf[last + 1..])
      decreases remaining
    {
      var dig, rest := LastDigit(remaining, base, upper);
      Assoc(if rest == 0 then "" else Digits(rest as nat, base as int, upper), [dig], done);
      digbuf[digptr] := dig;
      done := [dig] + done;
      assert digbuf[digptr..last + 1] == done;
      remaining := rest;
      if remaining == 0 {
        assert all == done;
        return;
      }
      digptr := digptr - 1;
    }
  }

  /** The scan for '%' that starts each printer. */
  method ScanPrefix(format: string) returns (next: nat)
    ensures next == PercentFrom(format, 0)
  {
    next := 0;
    while next < |format| && format[next] != '%'
      invariant next <= |format| && PercentFrom(format, 0) == PercentFrom(format, next)
    {
      next := next + 1;
    }
  }

  /** The optional letters after the width. */
  method ScanLetters(format: string, start: nat) returns (l: Letters)
    requires start <= |format|
    ensures l == LettersAt(format, start)
  {
    var next := start;
    if next < |format| && format[next] == 'l' {
      next := next + 1;
    }
    if next < |format| && format[next] == 'l' {
      next := next + 1;
    }
    var ells := next;
    if next < |format| && format[next] == 'u' {
      next := next + 1;
    }
    var u := next;
    if next < |format| && format[next] == 'd' {
      next := next + 1;
    }
    var d := next;
    if next < |format| && format[next] == 'x' {
      next := next + 1;
    }
    var x := next;
    if next < |format| && format[next] == 'X' {
      next := next + 1;
    }
    l := Letters(ells, u, d, x, next);
  }

  /** Pads a number on the left, zeros going after the sign, and appends it. */
  method EmitPadded(data: Esb, zero: bool, width: nat, sign: string, digits: string, allocSize: nat)
    requires data.Valid() && allocSize >= 1
    modifies data, data.str
    ensures data.Valid() && data.appended == old(data.appended) + Field(zero, width, sign, digits) && data.Grown()
  {
    ghost var text := data.appended;
    var natural := |sign| + |digits|;
    if width <= natural {
      Emit(data, sign + digits, allocSize);
      return;
    }
    ghost var pad := Repeat(if zero then '0' else ' ', width - natural);
    if !zero {
      EmitRepeated(data, ' ', width - natural, SPACEBUF_SIZE, allocSize);
      Emit(data, sign + digits, allocSize);
      Assoc(text, pad, sign + digits);
      Assoc(pad, sign, digits);
    } else {
      if sign != "" {
        Emit(data, sign, allocSize);
      }
      assert text + "" == text;
      EmitRepeated(data, '0', width - natural, ZEROS_SIZE, allocSize);
      Emit(data, digits, allocSize);
      Assoc(text, sign, pad);
      Assoc(text, sign + pad, digits);
    }
  }

  /** The digits of v, made in the 36-byte scratch array. */
  method MakeDigitsU(l: Letters, v: uint64) returns (digits: string)
    ensures digits == DigitsU(l, v)
  {
    var digbuf := new char[36];
    if l.HasU() {
      digbuf[35] := NUL;
      var digptr := StoreDigits(digbuf, 34, v, 10, false);
      digits := digbuf[digptr..35];
    } else {
      var digptr := StoreDigits(digbuf, 35, v, 16, !l.HasX());
      digits := digbuf[digptr..36];
    }
  }

  /** A printed field and the format's own suffix. */
  method EmitFieldAndSuffix(data: Esb, zero: bool, width: nat, sign: string, digits: string, suffix: string,
                            allocSize: nat)
    requires data.Valid() && allocSize >= 1
    modifies data, data.str
    ensures data.Valid() && data.Grown()
    ensures data.appended == old(data.appended) + (Field(zero, width, sign, digits) + suffix)
  {
    ghost var text, field := data.appended, Field(zero, width, sign, digits);
    EmitPadded(data, zero, width, sign, digits, allocSize);
    if suffix != "" {
      Emit(data, suffix, allocSize);
    }
    Assoc(text, field, suffix);
    assert field + "" == field;
  }

  // ----- esb_append_printf_u

  method AppendPrintfU(m: Messages, data: Esb, format: string, v: uint64, allocSize: nat)
    requires data.Valid() && allocSize >= 1
    modifies data, data.str
    ensures data.Valid() && data.appended == old(data.appended) + TextU(m, format, v) && data.Grown()
  {
    var next := ScanPrefix(format);
    PrefixU(m, data, format, next, v, allocSize);
  }

  /** The prefix, once its end is known, and the rest. */
  method PrefixU(m: Messages, data: Esb, format: string, next: nat, v: uint64, allocSize: nat)
    requires data.Valid() && allocSize >= 1 && next <= |format|
    modifies data, data.str
    ensures data.Valid() && data.appended == old(data.appended) + TextU0(m, format, next, v) && data.Grown()
  {
    ghost var text := data.appended;
    Emit(data, format[..next], allocSize);
    if next == |format| {
      Emit(data, m.noPercent, allocSize);
      Assoc(text, format[..next], m.noPercent);
    } else {
      FlagsU(m, data, format, next + 1, v, allocSize);
      Assoc(text, format[..next], TextU1(m, format, next + 1, v));
    }
  }

  /** From the character after '%' on. */
  method FlagsU(m: Messages, data: Esb, format: string, next: nat, v: uint64, allocSize: nat)
    requires data.Valid() && allocSize >= 1 && next <= |format|
    modifies data, data.str
    ensures data.Valid() && data.appended == old(data.appended) + TextU1(m, format, next, v) && data.Grown()
  {
    ghost var text := data.appended;
    if At(format, next) == ' ' {
      Emit(data, m.space, allocSize);
    } else if next == |format| {
      Emit(data, m.wrong, allocSize);
    } else if format[next] == '-' {
      Emit(data, m.minus, allocSize);
      if next + 1 == |format| {
        Emit(data, m.nextEnd, allocSize);
        Assoc(text, m.minus, m.nextEnd);
      } else {
        ZeroFlagU(m, data, format, next + 1, v, allocSize);
        Assoc(text, m.minus, TextU2(m, format, next + 1, v));
      }
    } else {
      ZeroFlagU(m, data, format, next, v, allocSize);
    }
  }

  /** The leading zero flag, then the rest. */
  method ZeroFlagU(m: Messages, data: Esb, format: string, next: nat, v: uint64, allocSize: nat)
    requires data.Valid() && allocSize >= 1 && next < |format|
    modifies data, data.str
    ensures data.Valid() && data.appended == old(data.appended) + TextU2(m, format, next, v) && data.Grown()
  {
    if format[next] != '0' {
      ConvertU(m, data, format, next, false, v, allocSize);
    } else if next + 1 == |format| {
      Emit(data, m.nextEnd, allocSize);
    } else {
      ConvertU(m, data, format, next + 1, true, v, allocSize);
    }
  }

  /** From the width on. */
  method ConvertU(m: Messages, data: Esb, format: string, start: nat, zero: bool, v: uint64, allocSize: nat)
    requires data.Valid() && allocSize >= 1 && start <= |format|
    modifies data, data.str
    ensures data.Valid() && data.appended == old(data.appended) + TextU3(m, format, start, zero, v) && data.Grown()
  {
    var (fixedlen, next) := WidthAt(format, start);
    var l := ScanLetters(format, next);
    if At(format, l.upperX) == 's' {
      Emit(data, m.sLetter, allocSize);
    } else if l.Count() > 1 {
      Emit(data, m.letterCount, allocSize);
    } else if l.HasD() {
      Emit(data, m.dLetter, allocSize);
    } else {
      var digits := MakeDigitsU(l, v);
      EmitFieldAndSuffix(data, zero, fixedlen, "", digits, format[l.upperX..], allocSize);
    }
  }

  // ----- esb_append_printf_i

  /** The magnitude of v in decimal, and its sign: digits are made from the
      negated value, except that the most negative one is copied whole. */
  method MakeDigitsI(plus: bool, v: int64) returns (sign: string, digits: string)
    ensures sign == SignOf(plus, v as int) && digits == Digits(Abs(v as int), 10, false)
  {
    var digbuf := new char[36];
    digbuf[35] := NUL;
    var remaining := v;
    sign := if v < 0 then "-" else if plus then "+" else "";
    if v < 0 {
      // ~v is the largest value only for the most negative v
      if -(v + 1) == 0x7fff_ffff_ffff_ffff {
        digits := MOST_NEGATIVE[1..];
        MostNegative();
        return;
      }
      remaining := -v;
    }
    var digptr := StoreDigits(digbuf, 34, remaining as uint64, 10, false);
    digits := digbuf[digptr..35];
  }

  const MOST_NEGATIVE := "-9223372036854775808"

  lemma DigitsSnoc(v: nat, d: nat)
    requires v > 0 && d < 10
    ensures Digits(10 * v + d, 10, false) == Digits(v, 10, false) + [DigitChar(d, false)]
  {
  }

  /** The literal v64m is the sign and the digits of the magnitude it names. */
  lemma MostNegative()
    ensures Digits(TWO_TO_63, 10, false) == MOST_NEGATIVE[1..]
  {
    MostNegativeHead();
    MostNegativeTail();
    assert MOST_NEGATIVE[1..] == "9223372036" + "854775808";
  }

  lemma MostNegativeTail()
    ensures Digits(TWO_TO_63, 10, false) == Digits(9223372036, 10, false) + "854775808"
  {
    DigitsSnoc(9223372036, 8);
    DigitsSnoc(92233720368, 5);
    DigitsSnoc(922337203685, 4);
    DigitsSnoc(9223372036854, 7);
    DigitsSnoc(92233720368547, 7);
    DigitsSnoc(922337203685477, 5);
    DigitsSnoc(9223372036854775, 8);
    DigitsSnoc(92233720368547758, 0);
    DigitsSnoc(922337203685477580, 8);
  }

  lemma MostNegativeHead()
    ensures Digits(9223372036, 10, false) == "9223372036"
  {
    DigitsSnoc(9, 2);
    DigitsSnoc(92, 2);
    DigitsSnoc(922, 3);
    DigitsSnoc(9223, 3);
    DigitsSnoc(92233, 7);
    DigitsSnoc(922337, 2);
    DigitsSnoc(9223372, 0);
    DigitsSnoc(92233720, 3);
    DigitsSnoc(922337203, 6);
  }

  // ----- esb_append_printf_i

  method AppendPrintfI(m: Messages, data: Esb, format: string, v: int64, allocSize: nat)
    requires data.Valid() && allocSize >= 1
    modifies data, data.str
    ensures data.Valid() && data.appended == old(data.appended) + TextI(m, format, v) && data.Grown()
  {
    var next := ScanPrefix(format);
    PrefixI(m, data, format, next, v, allocSize);
  }

  method PrefixI(m: Messages, data: Esb, format: string, next: nat, v: int64, allocSize: nat)
    requires data.Valid() && allocSize >= 1 && next <= |format|
    modifies data, data.str
    ensures data.Valid() && data.appended == old(data.appended) + TextI0(m, format, next, v) && data.Grown()
  {
    ghost var text := data.appended;
    Emit(data, format[..next], allocSize);
    if next == |format| {
      Emit(data, m.noPercent, allocSize);
      Assoc(text, format[..next], m.noPercent);
    } else {
      FlagsI(m, data, format, next + 1, v, allocSize);
      Assoc(text, format[..next], TextI1(m, format, next + 1, v));
    }
  }

  method FlagsI(m: Messages, data: Esb, format: string, next: nat, v: int64, allocSize: nat)
    requires data.Valid() && allocSize >= 1 && next <= |format|
    modifies data, data.str
    ensures data.Valid() && data.appended == old(data.appended) + TextI1(m, format, next, v) && data.Grown()
  {
    ghost var text := data.appended;
    if At(format, next) == ' ' {
      Emit(data, m.space, allocSize);
    } else if next == |format| {
      Emit(data, m.wrong, allocSize);
    } else if format[next] == '-' {
      Emit(data, m.minus, allocSize);
      if next + 1 == |format| {
        Emit(data, m.nextEnd, allocSize);
        Assoc(text, m.minus, m.nextEnd);
      } else {
        PlusFlagI(m, data, format, next + 1, v, allocSize);
        Assoc(text, m.minus, TextI2(m, format, next + 1, v));
      }
    } else {
      PlusFlagI(m, data, format, next, v, allocSize);
    }
  }

  method PlusFlagI(m: Messages, data: Esb, format: string, next: nat, v: int64, allocSize: nat)
    requires data.Valid() && allocSize >= 1 && next < |format|
    modifies data, data.str
    ensures data.Valid() && data.appended == old(data.appended) + TextI2(m, format, next, v) && data.Grown()
  {
    if format[next] != '+' {
      ZeroFlagI(m, data, format, next, false, v, allocSize);
    } else if next + 1 == |format| {
      Emit(data, m.nextEnd, allocSize);
    } else {
      ZeroFlagI(m, data, format, next + 1, true, v, allocSize);
    }
  }

  method ZeroFlagI(m: Messages, data: Esb, format: string, next: nat, plus: bool, v: int64, allocSize: nat)
    requires data.Valid() && allocSize >= 1 && next < |format|
    modifies data, data.str
    ensures data.Valid() && data.appended == old(data.appended) + TextI3(m, format, next, plus, v) && data.Grown()
  {
    if format[next] != '0' {
      ConvertI(m, data, format, next, plus, false, v, allocSize);
    } else if next + 1 == |format| {
      Emit(data, m.nextEnd, allocSize);
    } else {
      ConvertI(m, data, format, next + 1, plus, true, v, allocSize);
    }
  }

  method ConvertI(m: Messages, data: Esb, format: string, start: nat, plus: bool, zero: bool, v: int64,
                  allocSize: nat)
    requires data.Valid() && allocSize >= 1 && start <= |format|
    modifies data, data.str
    ensures data.Valid() && data.Grown()
    ensures data.appended == old(data.appended) + TextI4(m, format, start, plus, zero, v)
  {
    var (fixedlen, next) := WidthAt(format, start);
    var l := ScanLetters(format, next);
    if At(format, l.upperX) == 's' {
      Emit(data, m.sLetter, allocSize);
    } else if !l.HasD() || l.Count() > 1 {
      Emit(data, m.letterCount, allocSize);
    } else {
      var sign, digits := MakeDigitsI(plus, v);
      EmitFieldAndSuffix(data, zero, fixedlen, sign, digits, format[l.upperX..], allocSize);
    }
  }

  // ----- esb_append_printf_s

  method AppendPrintfS(m: Messages, data: Esb, format: string, s: string, allocSize: nat)
    requires data.Valid() && allocSize >= 1
    modifies data, data.str
    ensures data.Valid() && data.appended == old(data.appended) + TextS(m, format, s) && data.Grown()
  {
    var next := ScanPrefix(format);
    PrefixS(m, data, format, next, s, allocSize);
  }

  method PrefixS(m: Messages, data: Esb, format: string, next: nat, s: string, allocSize: nat)
    requires data.Valid() && allocSize >= 1 && next <= |format|
    modifies data, data.str
    ensures data.Valid() && data.appended == old(data.appended) + TextS0(m, format, next, s) && data.Grown()
  {
    ghost var text := data.appended;
    Emit(data, format[..next], allocSize);
    if next == |format| {
      Emit(data, m.noPercent, allocSize);
      Assoc(text, format[..next], m.noPercent);
    } else {
      FlagsS(m, data, format, next + 1, s, allocSize);
      Assoc(text, format[..next], TextS1(m, format, next + 1, s));
    }
  }

  method FlagsS(m: Messages, data: Esb, format: string, next: nat, s: string, allocSize: nat)
    requires data.Valid() && allocSize >= 1 && next <= |format|
    modifies data, data.str
    ensures data.Valid() && data.appended == old(data.appended) + TextS1(m, format, next, s) && data.Grown()
  {
    if At(format, next) == ' ' {
      Emit(data, m.space, allocSize);
    } else if next == |format| {
      Emit(data, m.wrong, allocSize);
    } else {
      var leftjustify := format[next] == '-';
      ConvertS(m, data, format, if leftjustify then next + 1 else next, leftjustify, s, allocSize);
    }
  }

  method ConvertS(m: Messages, data: Esb, format: string, start: nat, left: bool, s: string, allocSize: nat)
    requires data.Valid() && allocSize >= 1 && start <= |format|
    modifies data, data.str
    ensures data.Valid() && data.appended == old(data.appended) + TextS2(m, format, start, left, s) && data.Grown()
  {
    var (fixedlen, next) := WidthAt(format, start);
    if At(format, next) != 's' {
      Emit(data, m.sLetter, allocSize);
    } else {
      EmitJustifiedAndRest(data, format, next + 1, left, fixedlen, s, allocSize);
    }
  }

  method EmitJustifiedAndRest(data: Esb, format: string, next: nat, left: bool, fixedlen: nat, s: string,
      allocSize: nat)
    requires data.Valid() && allocSize >= 1 && next <= |format|
    modifies data, data.str
    ensures data.Valid() && data.appended == old(data.appended) + (Justified(left, fixedlen, s) + format[next..])
    ensures data.Grown()
  {
    ghost var text := data.appended;
    EmitJustified(data, left, fixedlen, s, allocSize);
    EmitRest(data, format, next, allocSize);
    Assoc(text, Justified(left, fixedlen, s), format[next..]);
  }

  /** What follows the conversion, when anything does. */
  method EmitRest(data: Esb, format: string, next: nat, allocSize: nat)
    requires data.Valid() && allocSize >= 1 && next <= |format|
    modifies data, data.str
    ensures data.Valid() && data.appended == old(data.appended) + format[next..] && data.Grown()
  {
    if next < |format| {
      Emit(data, format[next..], allocSize);
    } else {
      assert data.appended + format[next..] == data.appended;
    }
  }

  /** The string and its padding: trailing spaces in blocks, leading ones one
      at a time. */
  method EmitJustified(data: Esb, left: bool, fixedlen: nat, s: string, allocSize: nat)
    requires data.Valid() && allocSize >= 1
    modifies data, data.str
    ensures data.Valid() && data.appended == old(data.appended) + Justified(left, fixedlen, s) && data.Grown()
  {
    ghost var text := data.appended;
    var leftjustify := left;
    if fixedlen != 0 && fixedlen <= |s| {
      leftjustify := false;
    }
    if leftjustify {
      Emit(data, s, allocSize);
      if fixedlen != 0 {
        EmitRepeated(data, ' ', fixedlen - |s|, SPACEBUF_SIZE, allocSize);
        Assoc(text, s, Repeat(' ', fixedlen - |s|));
      }
    } else {
      if fixedlen > |s| {
        EmitOneByOne(data, ' ', fixedlen - |s|, allocSize);
        Assoc(text, Repeat(' ', fixedlen - |s|), s);
      }
      Emit(data, s, allocSize);
    }
  }

  method EmitOneByOne(data: Esb, c: char, n: nat, allocSize: nat)
    requires data.Valid() && allocSize >= 1
    modifies data, data.str
    ensures data.Valid() && data.appended == old(data.appended) + Repeat(c, n) && data.Grown()
  {
    ghost var text := data.appended;
    assert text + Repeat(c, 0) == text;
    for k := 0 to n
      invariant data.Valid() && data.appended == text + Repeat(c, k) && data.Grown()
    {
      EmitCopies(data, text, c, k, 1, allocSize);
    }
  }
}
