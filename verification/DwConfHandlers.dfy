/** What the lines of dwarfdump.conf mean: a line written from its words, with
    any white space between them and anything behind them, is taken apart into
    these words. */
module DwConfHandlers {
  import opened CText
  import opened NumberText
  import opened DwConfText
  import opened DwConfNumbers
  import opened DwConfLines

  predicate AllSpace(s: string) {
    forall k :: 0 <= k < |s| ==> IsSpace(s[k])
  }

  /** A word of a line. */
  predicate IsToken(s: string) {
    s != "" && forall k :: 0 <= k < |s| ==> !IsSpace(s[k]) && s[k] != '#'
  }

  /** What may follow a word. */
  predicate EndsToken(rest: string) {
    rest == "" || IsSpace(rest[0]) || rest[0] == '#'
  }

  /** One more word stands here: white space, and then no comment. */
  predicate HasWord(rest: string) {
    exists k :: 0 <= k < |rest| && AllSpace(rest[..k]) && !IsSpace(rest[k]) && rest[k] != '#'
  }

  lemma Split(s: string, i: nat, a: string, b: string)
    requires i <= |s| && s[i..] == a + b
    ensures StandsAt(s, i, a) && s[i + |a|..] == b
  {
    assert s[i..i + |a|] == s[i..][..|a|] == a;
    assert s[i + |a|..] == s[i..][|a|..] == b;
  }

  /** The word behind some white space, from i up to next. */
  lemma TokenBehind(s: string, i: nat, next: nat, blanks: string, token: string, rest: string)
    requires i <= |s| && s[i..] == blanks + (token + rest) && next == i + |blanks| + |token|
    requires AllSpace(blanks) && IsToken(token) && EndsToken(rest)
    ensures next <= |s| && GetToken(s, i) == Token(token, next) && s[next..] == rest
    ensures SkipWhite(s, i) == i + |blanks|
  {
    var j := i + |blanks|;
    Split(s, i, blanks, token + rest);
    Split(s, j, token, rest);
    assert s[i..j] == blanks;
    forall k | i <= k < j ensures IsSpace(s[k]) {
      assert s[k] == s[i..j][k - i];
    }
    assert rest != "" ==> s[j + |token|] == rest[0];
    TokenIs(s, i, j, token);
  }

  /** Whether a word stands there is what the tokenizer finds. */
  lemma NoTokenBehind(s: string, i: nat)
    requires i <= |s|
    ensures GetToken(s, i).text != "" <==> HasWord(s[i..])
  {
    var j, rest := SkipWhite(s, i), s[i..];
    SkipWhiteIsFirst(s, i);
    TokenEndIsFirst(s, j);
    assert forall k :: 0 <= k < |rest| ==> rest[k] == s[i + k];
    if j < |s| && s[j] != '#' {
      assert TokenEnd(s, j) > j;
      assert AllSpace(rest[..j - i]) && rest[j - i] == s[j];
    } else {
      assert TokenEnd(s, j) == j;
      forall k | 0 <= k < |rest| && AllSpace(rest[..k]) && !IsSpace(rest[k]) ensures rest[k] == '#' {
        FirstNonSpace(s, i, j, k);
      }
    }
  }

  lemma FirstNonSpace(s: string, i: nat, j: nat, k: nat)
    requires i <= j < |s| && (forall x :: i <= x < j ==> IsSpace(s[x])) && !IsSpace(s[j])
    requires i + k < |s| && AllSpace(s[i..][..k]) && !IsSpace(s[i + k])
    ensures i + k == j
  {
    assert forall x :: 0 <= x < k ==> s[i..][..k][x] == s[i + x];
  }

  lemma MoreIsWord(s: string, i: nat)
    requires i <= |s|
    ensures HasMore(s, i) == HasWord(s[i..])
  {
    NoTokenBehind(s, i);
  }

  // ----- the command word

  /** Where a line puts its operands: behind the word and the one character that
      ends it, which is stepped over whatever it is. */
  lemma CommandAhead(
      w: Words, s: string, i: nat, blanks: string, word: string, c: char, rest: string, kind: Kind)
    requires s == blanks + (word + ([c] + rest)) && AllSpace(blanks) && IsToken(word) && (IsSpace(c) || c == '#')
    requires Lookup(w.comtable, 0, word) == Some(kind) && i == |blanks| + |word| + 1
    ensures i <= |s| && s[i..] == rest && CommandIsSpaced(w, s)
    ensures ParseLine(w, s) == ParseOperands(kind, s, i)
  {
    RestAhead(s, |blanks|, i, blanks, word, c, rest);
    CommandIs(w, s, |blanks|, i, word, kind);
  }

  lemma RestAhead(s: string, start: nat, i: nat, blanks: string, word: string, c: char, rest: string)
    requires s == blanks + (word + ([c] + rest)) && AllSpace(blanks) && IsToken(word) && (IsSpace(c) || c == '#')
    requires start == |blanks| && i == start + |word| + 1
    ensures SkipWhite(s, 0) == start < |s| && s[start] != '#' && GetToken(s, start).text == word
    ensures i <= |s| && s[i..] == rest
  {
    WordAhead(s, start, start + |word|, blanks, word, [c] + rest);
    Split(s, start + |word|, [c], rest);
  }

  lemma WordAhead(s: string, start: nat, end: nat, blanks: string, word: string, rest: string)
    requires s == blanks + (word + rest) && AllSpace(blanks) && IsToken(word) && EndsToken(rest)
    requires start == |blanks| && end == start + |word|
    ensures SkipWhite(s, 0) == start < |s| && s[start] != '#'
    ensures end <= |s| && s[end..] == rest && GetToken(s, start) == Token(word, end)
  {
    assert s[0..] == s;
    TokenBehind(s, 0, end, blanks, word, rest);
    Split(s, 0, blanks, word + rest);
    TokenBehind(s, start, end, "", word, rest);
    assert s[start] == s[start..][0] == word[0];
  }

  lemma CommandIs(w: Words, s: string, start: nat, i: nat, word: string, kind: Kind)
    requires SkipWhite(s, 0) == start && start < |s| && s[start] != '#' && i <= |s|
    requires GetToken(s, start).text == word && i == start + |word| + 1 && Lookup(w.comtable, 0, word) == Some(kind)
    ensures CommandIsSpaced(w, s) && ParseLine(w, s) == ParseOperands(kind, s, i)
  {
    OperandsOf(w, s, start, i, Min(|s|, i), word, kind);
    assert ParseLine(w, s) == ParseCommand(w, s, start);
  }

  lemma OperandsOf(w: Words, s: string, start: nat, i: nat, from: nat, word: string, kind: Kind)
    requires start < |s| && i <= |s| && GetToken(s, start).text == word && i == start + |word| + 1
    requires Lookup(w.comtable, 0, word) == Some(kind) && from == Min(|s|, i)
    ensures ParseCommand(w, s, start) == ParseOperands(kind, s, from)
  {
  }

  /** White space alone, or a comment. */
  lemma BlankLine(w: Words, s: string)
    requires !HasWord(s)
    ensures ParseLine(w, s) == Ignored
  {
    assert s[0..] == s;
    NoTokenBehind(s, 0);
    TokenEndIsFirst(s, SkipWhite(s, 0));
  }

  /** A word that is no command. */
  lemma UnknownLine(w: Words, s: string, blanks: string, word: string, rest: string)
    requires s == blanks + (word + rest) && AllSpace(blanks) && IsToken(word) && EndsToken(rest)
    requires Lookup(w.comtable, 0, word).None?
    ensures ParseLine(w, s) == Unknown && CommandIsSpaced(w, s)
  {
    WordAhead(s, |blanks|, |blanks| + |word|, blanks, word, rest);
  }

  // ----- the operands

  /** What a word says where a number is expected. */
  function NumberOf(token: string): NumArg {
    match MakeANumber(token)
    case None => Bad
    case Some(v) => Num(v)
  }

  /** reg: and two words: the name of the register first, then its number. */
  lemma RegOperands(s: string, i: nat, j: nat, k: nat, name: string, number: string)
    requires i <= |s| && j <= |s| && k <= |s| && number != ""
    requires GetToken(s, i) == Token(name, j) && GetToken(s, j) == Token(number, k)
    ensures ParseOperands(KReg, s, i) == Reg(name, NumberOf(number), HasWord(s[k..]))
  {
    MoreIsWord(s, k);
  }

  /** With a name alone, or without any word, the number is missing. */
  lemma RegShort(s: string, i: nat, j: nat, name: string)
    requires i <= |s| && j <= |s| && GetToken(s, i) == Token(name, j) && !HasWord(s[j..])
    ensures ParseOperands(KReg, s, i) == Reg(name, Missing, false)
  {
    NoTokensBehind(s, j);
  }

  /** Where no word follows, none follows behind that either. */
  lemma NoTokensBehind(s: string, i: nat)
    requires i <= |s| && !HasWord(s[i..])
    ensures GetToken(s, i).text == "" && !HasWord(s[GetToken(s, i).next..])
    ensures GetToken(s, GetToken(s, i).next).text == ""
  {
    NoTokenBehind(s, i);
    var j := SkipWhite(s, i);
    SkipWhiteIsFirst(s, i);
    assert TokenEnd(s, j) == j;
    assert SkipWhite(s, j) == j;
    NoTokenBehind(s, j);
  }

  /** The commands with one number. */
  lemma NumberOperand(s: string, i: nat, j: nat, field: Field, number: string)
    requires i <= |s| && j <= |s| && GetToken(s, i) == Token(number, j) && number != ""
    ensures ParseOperands(KNumber(field), s, i) == SetNumber(field, NumberOf(number), HasWord(s[j..]))
  {
    MoreIsWord(s, j);
  }

  lemma NumberMissing(s: string, i: nat, field: Field)
    requires i <= |s| && !HasWord(s[i..])
    ensures ParseOperands(KNumber(field), s, i) == SetNumber(field, Missing, false)
  {
    NoTokensBehind(s, i);
  }

  /** The commands with one word. */
  lemma WordOperand(s: string, i: nat, j: nat, name: string)
    requires i <= |s| && j <= |s| && GetToken(s, i) == Token(name, j)
    ensures ParseOperands(KBeginAbi, s, i) == BeginAbi(name, HasWord(s[j..]))
    ensures ParseOperands(KEndAbi, s, i) == EndAbi(name, HasWord(s[j..]))
    ensures ParseOperands(KIncludeAbi, s, i) == IncludeAbi(name, HasWord(s[j..]))
    ensures ParseOperands(KOption, s, i) == OptionLine(name, HasWord(s[j..]))
  {
    MoreIsWord(s, j);
  }

  // ----- lines with numbers

  lemma DigitsAreToken(v: nat)
    ensures IsToken(Digits(v, 10, false))
  {
    DigitsInverse(v, 10, false);
    DigitsCase(v, 10, false);
  }

  /** A printed number is read as itself. */
  lemma DigitsAreNumber(v: nat)
    requires v <= ULONG_MAX
    ensures IsToken(Digits(v, 10, false)) && NumberOf(Digits(v, 10, false)) == Num(v)
  {
    DigitsAreToken(v);
    DecimalIsRead(v, false);
  }

  /** reg: NAME NUMBER: whatever is taken for the number is told by its word. */
  lemma RegWords(
      w: Words, s: string, b0: string, word: string, c: char, b1: string, name: string, b2: string, number: string,
      rest: string)
    requires s == b0 + (word + ([c] + (b1 + (name + (b2 + (number + rest))))))
    requires AllSpace(b0) && IsToken(word) && (IsSpace(c) || c == '#') && Lookup(w.comtable, 0, word) == Some(KReg)
    requires AllSpace(b1) && IsToken(name) && AllSpace(b2) && b2 != "" && IsToken(number) && EndsToken(rest)
    ensures ParseLine(w, s) == Reg(name, NumberOf(number), HasWord(rest)) && CommandIsSpaced(w, s)
  {
    var i := |b0| + |word| + 1;
    var j := i + |b1| + |name|;
    var k := j + |b2| + |number|;
    CommandAhead(w, s, i, b0, word, c, b1 + (name + (b2 + (number + rest))), KReg);
    TokenBehind(s, i, j, b1, name, b2 + (number + rest));
    TokenBehind(s, j, k, b2, number, rest);
    RegOperands(s, i, j, k, name, number);
  }

  /** reg: NAME NUMBER names register NUMBER, with or without more words. */
  lemma RegLine(
      w: Words, s: string, b0: string, word: string, c: char, b1: string, name: string, b2: string, v: nat,
      rest: string)
    requires s == b0 + (word + ([c] + (b1 + (name + (b2 + (Digits(v, 10, false) + rest))))))
    requires AllSpace(b0) && IsToken(word) && (IsSpace(c) || c == '#') && Lookup(w.comtable, 0, word) == Some(KReg)
    requires AllSpace(b1) && IsToken(name) && AllSpace(b2) && b2 != "" && EndsToken(rest) && v <= ULONG_MAX
    ensures ParseLine(w, s) == Reg(name, Num(v), HasWord(rest)) && CommandIsSpaced(w, s)
  {
    DigitsAreNumber(v);
    RegWords(w, s, b0, word, c, b1, name, b2, Digits(v, 10, false), rest);
  }

  /** reg: with a name and no number. */
  lemma RegWithoutNumber(
      w: Words, s: string, b0: string, word: string, c: char, b1: string, name: string, rest: string)
    requires s == b0 + (word + ([c] + (b1 + (name + rest))))
    requires AllSpace(b0) && IsToken(word) && (IsSpace(c) || c == '#') && Lookup(w.comtable, 0, word) == Some(KReg)
    requires AllSpace(b1) && IsToken(name) && EndsToken(rest) && !HasWord(rest)
    ensures ParseLine(w, s) == Reg(name, Missing, false)
  {
    var i := |b0| + |word| + 1;
    CommandAhead(w, s, i, b0, word, c, b1 + (name + rest), KReg);
    TokenBehind(s, i, i + |b1| + |name|, b1, name, rest);
    RegShort(s, i, i + |b1| + |name|, name);
  }

  /** A command with nothing behind it but white space or a comment. */
  lemma BareCommand(w: Words, s: string, b0: string, word: string, c: char, kind: Kind, rest: string)
    requires s == b0 + (word + ([c] + rest)) && !HasWord(rest)
    requires AllSpace(b0) && IsToken(word) && (IsSpace(c) || c == '#') && Lookup(w.comtable, 0, word) == Some(kind)
    ensures kind.KReg? ==> ParseLine(w, s) == Reg("", Missing, false)
    ensures kind.KNumber? ==> ParseLine(w, s) == SetNumber(kind.field, Missing, false)
  {
    var i := |b0| + |word| + 1;
    CommandAhead(w, s, i, b0, word, c, rest, kind);
    NoTokensBehind(s, i);
    if kind.KReg? {
      RegShort(s, i, GetToken(s, i).next, "");
    }
    if kind.KNumber? {
      NumberMissing(s, i, kind.field);
    }
  }

  /** WORD NUMBER for the commands with one number. */
  lemma NumberWord(
      w: Words, s: string, b0: string, word: string, c: char, field: Field, b1: string, number: string, rest: string)
    requires s == b0 + (word + ([c] + (b1 + (number + rest))))
    requires AllSpace(b0) && IsToken(word) && (IsSpace(c) || c == '#')
    requires Lookup(w.comtable, 0, word) == Some(KNumber(field))
    requires AllSpace(b1) && IsToken(number) && EndsToken(rest)
    ensures ParseLine(w, s) == SetNumber(field, NumberOf(number), HasWord(rest)) && CommandIsSpaced(w, s)
  {
    var i := |b0| + |word| + 1;
    var j := i + |b1| + |number|;
    CommandAhead(w, s, i, b0, word, c, b1 + (number + rest), KNumber(field));
    TokenBehind(s, i, j, b1, number, rest);
    NumberOperand(s, i, j, field, number);
  }

  /** WORD NUMBER sets the field of the word to the number. */
  lemma NumberLine(
      w: Words, s: string, b0: string, word: string, c: char, field: Field, b1: string, v: nat, rest: string)
    requires s == b0 + (word + ([c] + (b1 + (Digits(v, 10, false) + rest))))
    requires AllSpace(b0) && IsToken(word) && (IsSpace(c) || c == '#')
    requires Lookup(w.comtable, 0, word) == Some(KNumber(field))
    requires AllSpace(b1) && EndsToken(rest) && v <= ULONG_MAX
    ensures ParseLine(w, s) == SetNumber(field, Num(v), HasWord(rest)) && CommandIsSpaced(w, s)
  {
    DigitsAreNumber(v);
    NumberWord(w, s, b0, word, c, field, b1, Digits(v, 10, false), rest);
  }

  /** beginabi:, endabi:, includeabi: and option: with one word. */
  lemma WordLine(
      w: Words, s: string, b0: string, word: string, c: char, kind: Kind, b1: string, name: string, rest: string)
    requires s == b0 + (word + ([c] + (b1 + (name + rest))))
    requires AllSpace(b0) && IsToken(word) && (IsSpace(c) || c == '#') && Lookup(w.comtable, 0, word) == Some(kind)
    requires AllSpace(b1) && IsToken(name) && EndsToken(rest)
    ensures CommandIsSpaced(w, s)
    ensures kind.KBeginAbi? ==> ParseLine(w, s) == BeginAbi(name, HasWord(rest))
    ensures kind.KEndAbi? ==> ParseLine(w, s) == EndAbi(name, HasWord(rest))
    ensures kind.KIncludeAbi? ==> ParseLine(w, s) == IncludeAbi(name, HasWord(rest))
    ensures kind.KOption? ==> ParseLine(w, s) == OptionLine(name, HasWord(rest))
  {
    var i := |b0| + |word| + 1;
    var j := i + |b1| + |name|;
    CommandAhead(w, s, i, b0, word, c, b1 + (name + rest), kind);
    TokenBehind(s, i, j, b1, name, rest);
    WordOperand(s, i, j, name);
  }
}
