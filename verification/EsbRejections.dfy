/** What the formatted appends of dd_esb.c append for formats they reject, and
    the parts of a field that reading it back does not show. */
module EsbRejections {
  import opened CText
  import opened NumberText
  import opened EsbPrintf
  import opened EsbFormats

  // ----- the sign and the padding

  /** %u, %x, %X: padded with zeros if the flag asks for them, else with
      blanks, and letters among the digits as the conversion letter says. */
  lemma PrintedULayout(nf: NumFormat, v: uint64)
    ensures var f := PrintedU(nf, v);
      var n := |f| - |Digits(v as nat, BaseOf(nf.letter), nf.letter == 'X')|;
      && n >= 0
      && (forall k :: 0 <= k < n ==> f[k] == if nf.zero then '0' else ' ')
      && (forall k :: n <= k < |f| ==>
        '0' <= f[k] <= '9' || (nf.letter == 'X' && 'A' <= f[k] <= 'F') || (nf.letter != 'X' && 'a' <= f[k] <= 'f'))
  {
    var digits := Digits(v as nat, BaseOf(nf.letter), nf.letter == 'X');
    FieldLayout(nf.zero, nf.Width(), "", digits);
    DigitsCase(v as nat, BaseOf(nf.letter), nf.letter == 'X');
    var f := PrintedU(nf, v);
    assert f[|f| - |digits|..] == digits;
  }

  /** %d: the sign is a minus for a negative number, a plus for another one if
      the flag asks for it; blanks go in front of it, zeros behind. */
  lemma PrintedILayout(nf: NumFormat, v: int64)
    ensures var f := PrintedI(nf, v);
      var sign := if v < 0 then "-" else if nf.plus then "+" else "";
      var digits := Digits(if v < 0 then -(v as int) else v as int, 10, false);
      var n := |f| - |sign| - |digits|;
      && n >= 0 && f[|sign| + n..] == digits
      && (nf.zero ==> f[..|sign|] == sign && forall k :: |sign| <= k < |sign| + n ==> f[k] == '0')
      && (!nf.zero ==> f[n..n + |sign|] == sign && forall k :: 0 <= k < n ==> f[k] == ' ')
  {
    FieldLayout(nf.zero, nf.Width(), SignOf(nf.plus, v as int), Digits(Abs(v as int), 10, false));
  }

  // ----- rejected formats

  lemma {:induction false} NoPercent(f: string, i: nat)
    requires i <= |f| && '%' !in f[i..]
    ensures PercentFrom(f, i) == |f|
    decreases |f| - i
  {
    if i == |f| {
    } else {
      assert f[i] == f[i..][0] && f[i + 1..] == f[i..][1..];
      NoPercent(f, i + 1);
    }
  }

  /** A format up to its first '%', and what follows it. */
  lemma AtPercent(pre: string, rest: string, f: string)
    requires '%' !in pre && f == pre + ("%" + rest)
    ensures PercentFrom(f, 0) == |pre| < |f| && f[..|pre|] == pre && f[|pre| + 1..] == rest
    ensures rest != "" ==> |pre| + 1 < |f| && f[|pre| + 1] == rest[0]
  {
    assert f[|pre|] == '%' && forall k :: 0 <= k < |pre| ==> f[k] == pre[k];
    PercentFromOf(f, 0, |pre|);
  }

  /** Without a '%' the format itself is appended, and the rejection text. */
  lemma NoPercentIsRejected(m: Messages, f: string, u: uint64, i: int64, s: string)
    requires '%' !in f
    ensures TextU(m, f, u) == TextI(m, f, i) == TextS(m, f, s) == f + m.noPercent
  {
    assert f[0..] == f && f[..|f|] == f;
    NoPercent(f, 0);
  }

  /** A '%' at the end, or with a blank behind it. */
  lemma BarePercentIsRejected(m: Messages, pre: string, rest: string, u: uint64, i: int64, s: string)
    requires '%' !in pre && (rest == "" || rest[0] == ' ')
    ensures var f, text := pre + ("%" + rest), if rest == "" then m.wrong else m.space;
      TextU(m, f, u) == TextI(m, f, i) == TextS(m, f, s) == pre + text
  {
    AtPercent(pre, rest, pre + ("%" + rest));
  }

  /** Nothing behind the flags, for unsigned numbers: the minus flag is no flag
      of theirs and leaves its own text. */
  lemma FlagsAloneU(m: Messages, pre: string, v: uint64)
    requires '%' !in pre
    ensures TextU(m, pre + ("%" + "-"), v) == pre + (m.minus + m.nextEnd)
    ensures TextU(m, pre + ("%" + "0"), v) == pre + m.nextEnd
    ensures TextU(m, pre + ("%" + "-0"), v) == pre + (m.minus + m.nextEnd)
  {
    AtPercent(pre, "-", pre + ("%" + "-"));
    AtPercent(pre, "0", pre + ("%" + "0"));
    AtPercent(pre, "-0", pre + ("%" + "-0"));
    var f := pre + ("%" + "-0");
    assert f[|pre| + 2] == f[|pre| + 1..][1] == '0';
  }

  /** For signed numbers plus comes before 0. */
  lemma FlagsAloneI(m: Messages, pre: string, v: int64)
    requires '%' !in pre
    ensures TextI(m, pre + ("%" + "-"), v) == pre + (m.minus + m.nextEnd)
    ensures TextI(m, pre + ("%" + "+"), v) == pre + m.nextEnd
    ensures TextI(m, pre + ("%" + "0"), v) == pre + m.nextEnd
    ensures TextI(m, pre + ("%" + "+0"), v) == pre + m.nextEnd
  {
    AtPercent(pre, "-", pre + ("%" + "-"));
    AtPercent(pre, "+", pre + ("%" + "+"));
    AtPercent(pre, "0", pre + ("%" + "0"));
    AtPercent(pre, "+0", pre + ("%" + "+0"));
    var f := pre + ("%" + "+0");
    assert f[|pre| + 2] == f[|pre| + 1..][1] == '0';
  }

  /** Before a format that is rendered the minus flag only leaves its text. */
  lemma MinusIsNoFlagU(m: Messages, nf: NumFormat, v: uint64)
    requires Marked(m) && nf.Valid() && nf.letter != 'd' && !nf.plus && !nf.Captured()
    ensures TextU(m, nf.pre + ("%" + ("-" + (nf.Flags() + (nf.width + nf.Tail())))), v)
      == nf.pre + (m.minus + (PrintedU(nf, v) + nf.suf))
  {
    var rest := nf.Flags() + (nf.width + nf.Tail());
    var f := nf.pre + ("%" + ("-" + rest));
    AtPercent(nf.pre, "-" + rest, f);
    var i := |nf.pre| + 1;
    assert f[i + 1..] == f[i..][1..] == rest;
    RenderedAfterPercentU(m, f, i + 1, nf, v);
    BehindMinus(f, i, nf);
  }

  lemma MinusIsNoFlagI(m: Messages, nf: NumFormat, v: int64)
    requires Marked(m) && nf.Valid() && nf.letter == 'd' && !nf.Captured()
    ensures TextI(m, nf.pre + ("%" + ("-" + (nf.Flags() + (nf.width + nf.Tail())))), v)
      == nf.pre + (m.minus + (PrintedI(nf, v) + nf.suf))
  {
    var rest := nf.Flags() + (nf.width + nf.Tail());
    var f := nf.pre + ("%" + ("-" + rest));
    AtPercent(nf.pre, "-" + rest, f);
    var i := |nf.pre| + 1;
    assert f[i + 1..] == f[i..][1..] == rest;
    RenderedAfterPercentI(m, f, i + 1, nf, v);
    BehindMinus(f, i, nf);
  }

  lemma BehindMinus(f: string, i: nat, nf: NumFormat)
    requires nf.Valid() && i + 1 <= |f| && f[i + 1..] == nf.Flags() + (nf.width + nf.Tail())
    ensures i + 1 < |f| && f[i + 1] != ' ' && f[i + 1] != '-'
  {
    var start := WidthStart(f, i + 1, nf);
  }

  // ----- letters

  /** None of the letters that the scan looks for. */
  predicate NoLetter(c: char) {
    c != 'l' && c != 'u' && c != 'd' && c != 'x' && c != 'X' && c != 's'
  }

  /** The scan stops where it starts. */
  lemma NoLetterAt(f: string, j: nat)
    requires j <= |f| && (NoLetter(At(f, j)) || At(f, j) == 's')
    ensures LettersAt(f, j) == Letters(j, j, j, j, j)
  {
  }

  /** Without a conversion letter an unsigned number is printed in hexadecimal,
      in upper case; a signed one is rejected. */
  lemma WithoutLetter(m: Messages, f: string, j: nat, plus: bool, zero: bool, width: nat, u: uint64, i: int64)
    requires j <= |f| && NoLetter(At(f, j))
    ensures TextU4(m, f, LettersAt(f, j), zero, width, u) == Field(zero, width, "", Digits(u as nat, 16, true)) + f[j..]
    ensures TextI5(m, f, LettersAt(f, j), plus, zero, width, i) == m.letterCount
  {
    NoLetterAt(f, j);
  }

  /** The letter s is for strings. */
  lemma LetterSIsRejected(m: Messages, f: string, j: nat, plus: bool, zero: bool, width: nat, u: uint64, i: int64)
    requires j < |f| && f[j] == 's'
    ensures TextU4(m, f, LettersAt(f, j), zero, width, u) == m.sLetter
    ensures TextI5(m, f, LettersAt(f, j), plus, zero, width, i) == m.sLetter
  {
    NoLetterAt(f, j);
  }

  /** The letter d alone is for signed numbers, and u, x and X are not. */
  lemma WrongLetterIsRejected(m: Messages, f: string, j: nat, plus: bool, zero: bool, width: nat, u: uint64, i: int64)
    requires j < |f| && (f[j] == 'd' || f[j] == 'u' || f[j] == 'x' || f[j] == 'X')
    requires NoLetter(At(f, j + 1))
    ensures f[j] == 'd' ==> TextU4(m, f, LettersAt(f, j), zero, width, u) == m.dLetter
    ensures f[j] != 'd' ==> TextI5(m, f, LettersAt(f, j), plus, zero, width, i) == m.letterCount
  {
  }

  /** A string format without its s. */
  lemma MissingS(m: Messages, f: string, i: nat, left: bool, s: string)
    requires i <= |f| && At(f, WidthAt(f, i).1) != 's'
    ensures TextS2(m, f, i, left, s) == m.sLetter
  {
  }

  // ----- widths that are not plain digits

  lemma {:induction false} SpacesEndOf(s: string, i: nat, end: nat)
    requires i <= end <= |s| && (end < |s| ==> !IsSpace(s[end]))
    requires forall k :: i <= k < end ==> IsSpace(s[k])
    ensures SpacesEnd(s, i) == end
    decreases end - i
  {
    if i == end {
    } else {
      SpacesEndOf(s, i + 1, end);
    }
  }

  /** strtol in base 10, for blanks, a sign and digits: the value sticks at the
      limits of a long, and a negative one becomes a huge size. */
  lemma WidthOfNumber(f: string, i: nat, start: nat, negative: bool, digits: string)
    requires i <= start && start + |digits| < |f| && digits != ""
    requires forall k :: i <= k < start - 1 ==> IsSpace(f[k])
    requires start > i ==> if negative then f[start - 1] == '-' else f[start - 1] == '+' || IsSpace(f[start - 1])
    requires negative ==> start > i
    requires forall k :: 0 <= k < |digits| ==> IsDigit(digits[k]) && f[start + k] == digits[k]
    requires !IsDigit(f[start + |digits|])
    ensures var v := Value(digits, 10);
      WidthAt(f, i).1 == start + |digits|
      && WidthAt(f, i).0 ==
        if negative then (if v == 0 then 0 else 0x1_0000_0000_0000_0000 - Min(v, 0x8000_0000_0000_0000))
        else Min(v, 0x7fff_ffff_ffff_ffff)
  {
    var first := if start > i && (f[start - 1] == '-' || f[start - 1] == '+') then start - 1 else start;
    assert f[start] == digits[0];
    SpacesEndOf(f, i, first);
    assert forall k :: start <= k < start + |digits| ==> f[k] == digits[k - start];
    DigitsEndOf(f, start, start + |digits|);
    DecimalInOf(f, start, digits);
  }
}
