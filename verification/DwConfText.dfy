/** The text layer of dd_dwconf.c: lines, tokens, numbers and command words. */
module DwConfText {
  import opened CText
  import opened NumberText

  /** Where a call fgets(buf, limit + 1, f) that starts at i stops. */
  function LineEnd(text: string, i: nat, limit: nat): (end: nat)
    requires i <= |text|
    ensures i <= end <= |text| && end <= i + limit
    ensures i < |text| && limit > 0 ==> i < end
    decreases |text| - i
  {
    if limit == 0 || i == |text| then i
    else if text[i] == '\n' then i + 1
    else LineEnd(text, i + 1, limit - 1)
  }

  /** It stops behind the first newline, or when the buffer is full, or at the
      end of the file. */
  lemma {:induction false} LineEndIsFirst(text: string, i: nat, limit: nat)
    requires i <= |text|
    ensures var end := LineEnd(text, i, limit);
      && (forall k :: i <= k < end - 1 ==> text[k] != '\n')
      && (end == |text| || end == i + limit || (i < end && text[end - 1] == '\n'))
    decreases limit
  {
    if limit == 0 || i == |text| || text[i] == '\n' {
    } else {
      LineEndIsFirst(text, i + 1, limit - 1);
    }
  }

  /** find_abi_start reads into 100 bytes, parse_abi into 1000. */
  const FIND_LIMIT := 99
  const PARSE_LIMIT := 999

  /** fgets met the end of the file: feof holds after it. */
  predicate HitsEnd(text: string, i: nat, limit: nat)
    requires i < |text|
  {
    var end := LineEnd(text, i, limit);
    end == |text| && end < i + limit && (end == i || text[end - 1] != '\n')
  }

  /** There are fewer characters left than fit, and no newline among them. */
  lemma HitsEndIs(text: string, i: nat, limit: nat)
    requires i < |text|
    ensures HitsEnd(text, i, limit) <==> |text| < i + limit && forall k :: i <= k < |text| ==> text[k] != '\n'
  {
    LineEndIsFirst(text, i, limit);
  }

  /** What the string functions see of the characters read: a NUL ends them. */
  function LineAt(text: string, i: nat, end: nat): string
    requires i <= end <= |text|
  {
    var buf := text[i..end];
    buf[..StrLen(buf)]
  }

  lemma LineAtIsCString(text: string, i: nat, end: nat)
    requires i <= end <= |text|
    ensures IsCString(LineAt(text, i, end))
    ensures IsCString(text[i..end]) ==> LineAt(text, i, end) == text[i..end]
  {
    var buf := text[i..end];
    StrLenIsFirst(buf);
    if IsCString(buf) {
      StrLenOfCString(buf);
    }
  }

  // ----- is_this_text_file

  const SAMPLE := 512
  const SMALLEST := 100
  const LONGEST := 100

  /** The characters allowed in a configuration file. */
  predicate IsText(c: char) {
    c == '\n' || c == '\r' || c == '\t' || ' ' <= c <= '~'
  }

  /** The line that ends at p is short enough: the characters before it, and
      the newline in front of them, are at most 100. */
  predicate LineFits(text: string, p: nat)
    requires p < |text|
  {
    p <= LONGEST || exists q :: p - LONGEST <= q < p && text[q] == '\n'
  }

  /** The first 512 characters are at least 100, all of them text, and no line
      that ends in them is too long. */
  predicate LooksLikeText(text: string) {
    var n := Min(|text|, SAMPLE);
    && SMALLEST <= n
    && (forall k :: 0 <= k < n ==> IsText(text[k]))
    && (forall p :: 0 <= p < n && text[p] == '\n' ==> LineFits(text, p))
  }

  /** skipwhite. */
  function SkipWhite(s: string, i: nat): (n: nat)
    requires i <= |s|
    ensures i <= n <= |s|
    ensures n < |s| ==> !IsSpace(s[n])
    decreases |s| - i
  {
    if i < |s| && IsSpace(s[i]) then SkipWhite(s, i + 1) else i
  }

  lemma {:induction false} SkipWhiteIsFirst(s: string, i: nat)
    requires i <= |s|
    ensures forall k :: i <= k < SkipWhite(s, i) ==> IsSpace(s[k])
    decreases |s| - i
  {
    if i == |s| || !IsSpace(s[i]) {
    } else {
      SkipWhiteIsFirst(s, i + 1);
    }
  }

  /** The end of the token that starts at i: find_token_len past i. */
  function TokenEnd(s: string, i: nat): (n: nat)
    requires i <= |s|
    ensures i <= n <= |s|
    decreases |s| - i
  {
    if i == |s| || IsSpace(s[i]) || s[i] == '#' then i else TokenEnd(s, i + 1)
  }

  /** It is the first white space or '#', or the end. */
  lemma {:induction false} TokenEndIsFirst(s: string, i: nat)
    requires i <= |s|
    ensures var n := TokenEnd(s, i);
      && (forall k :: i <= k < n ==> !IsSpace(s[k]) && s[k] != '#')
      && (n < |s| ==> IsSpace(s[n]) || s[n] == '#')
    decreases |s| - i
  {
    if i == |s| || IsSpace(s[i]) || s[i] == '#' {
    } else {
      TokenEndIsFirst(s, i + 1);
    }
  }

  /** get_token: the token and the place after it. */
  datatype Token = Token(text: string, next: nat)

  function GetToken(s: string, i: nat): (t: Token)
    requires i <= |s|
    ensures i + |t.text| <= t.next <= |s|
  {
    var start := SkipWhite(s, i);
    var end := TokenEnd(s, start);
    Token(s[start..end], end)
  }

  // ----- strtoul(s, &end, 0)

  const ULONG_MAX := 0xffff_ffff_ffff_ffff

  /** The end of the digits of a base at i. */
  function DigitRun(s: string, i: nat, base: Base): (n: nat)
    requires i <= |s|
    ensures i <= n <= |s|
    decreases |s| - i
  {
    if i < |s| && DigitValue(s[i]) < base then DigitRun(s, i + 1, base) else i
  }

  /** The number s[i..end] writes in a base. */
  function NumberIn(s: string, i: nat, end: nat, base: Base): nat
    requires i <= end <= |s|
    decreases end
  {
    if i == end then 0 else Times(base, NumberIn(s, i, end - 1, base)) + DigitValue(s[end - 1])
  }

  /** Base 16 after 0x and a hexadecimal digit, 8 after 0, else 10. */
  function BaseAt(s: string, i: nat): Base
    requires i <= |s|
  {
    if i < |s| && s[i] == '0' then
      if i + 2 < |s| && (s[i + 1] == 'x' || s[i + 1] == 'X') && DigitValue(s[i + 2]) < 16 then 16 else 8
    else 10
  }

  datatype Parsed = Parsed(value: nat, used: nat)

  /** The value and how many characters were used; none means no number. */
  function StrToUL(s: string): (r: Parsed)
    ensures r.used <= |s|
  {
    var signed := s != "" && (s[0] == '+' || s[0] == '-');
    var i := if signed then 1 else 0;
    var base := BaseAt(s, i);
    var first := if base == 16 then i + 2 else i;
    var end := DigitRun(s, first, base);
    var v := NumberIn(s, first, end, base);
    if end == first then Parsed(0, 0)
    else if v > ULONG_MAX then Parsed(ULONG_MAX, end)
    else if signed && s[0] == '-' && v > 0 then Parsed(ULONG_MAX + 1 - v, end)
    else Parsed(v, end)
  }

  /** make_a_number: the whole token must be a number. */
  function MakeANumber(tok: string): Option<nat> {
    var r := StrToUL(tok);
    if r.value == 0 && r.used == 0 then None
    else if r.used != |tok| then None
    else Some(r.value)
  }

  // ----- the commands of a line

  datatype Kind =
    | KReg | KBeginAbi | KEndAbi | KIncludeAbi | KOption
    | KNumber(field: Field)

  /** The commands that set one numeric field. */
  datatype Field = FrameInterface | CfaReg | InitialRegValue | SameValReg | UndefinedValReg | RegTableSize | AddressSize

  datatype ComEntry = ComEntry(kind: Kind, name: string)

  /** The command table and the words find_abi_start looks for itself. */
  datatype Words = Words(comtable: seq<ComEntry>, beginName: string, optionName: string, joinedName: string)

  const DWARFDUMP_WORDS := Words([
    ComEntry(KBeginAbi, "beginabi:"),
    ComEntry(KReg, "reg:"),
    ComEntry(KNumber(FrameInterface), "frame_interface:"),
    ComEntry(KNumber(CfaReg), "cfa_reg:"),
    ComEntry(KNumber(InitialRegValue), "initial_reg_value:"),
    ComEntry(KNumber(SameValReg), "same_val_reg:"),
    ComEntry(KNumber(UndefinedValReg), "undefined_val_reg:"),
    ComEntry(KNumber(RegTableSize), "reg_table_size:"),
    ComEntry(KNumber(AddressSize), "address_size:"),
    ComEntry(KIncludeAbi, "includeabi:"),
    ComEntry(KEndAbi, "endabi:"),
    ComEntry(KOption, "option:")],
    "beginabi:", "option:", "--format-expr-ops-joined")

  /** The first table entry from k on with this name. */
  function Lookup(comtable: seq<ComEntry>, k: nat, name: string): Option<Kind>
    requires k <= |comtable|
    decreases |comtable| - k
  {
    if k == |comtable| then None
    else if comtable[k].name == name then Some(comtable[k].kind)
    else Lookup(comtable, k + 1, name)
  }

  /** A name that stands in the table more than once is the first entry with it. */
  lemma {:induction false} LookupIsFirst(comtable: seq<ComEntry>, k: nat, name: string, j: nat)
    requires k <= j <= |comtable| && (j < |comtable| ==> comtable[j].name == name)
    requires forall i :: k <= i < j ==> comtable[i].name != name
    ensures Lookup(comtable, k, name) == if j == |comtable| then None else Some(comtable[j].kind)
    decreases j - k
  {
    if k == j {
    } else {
      LookupIsFirst(comtable, k + 1, name, j);
    }
  }

  datatype NumArg = Missing | Bad | Num(value: nat)

  function NumArgOf(tok: string): NumArg {
    if tok == "" then Missing
    else match MakeANumber(tok)
      case None => Bad
      case Some(v) => Num(v)
  }

  /** What a line says; extra tells that tokens follow its operands. */
  datatype Line =
    | Ignored
    | Unknown
    | BeginAbi(abi: string, extra: bool)
    | EndAbi(abi: string, extra: bool)
    | IncludeAbi(abi: string, extra: bool)
    | OptionLine(word: string, extra: bool)
    | Reg(name: string, num: NumArg, extra: bool)
    | SetNumber(field: Field, num: NumArg, extra: bool)

  function HasMore(s: string, i: nat): bool
    requires i <= |s|
  {
    GetToken(s, i).text != ""
  }

  /** A line as parse_abi reads it. */
  function ParseLine(w: Words, s: string): Line {
    var start := SkipWhite(s, 0);
    if start == |s| || s[start] == '#' then Ignored else ParseCommand(w, s, start)
  }

  /** The command word at start, and what follows it. */
  function ParseCommand(w: Words, s: string, start: nat): Line
    requires start < |s|
  {
    var tok := GetToken(s, start).text;
    var kind := Lookup(w.comtable, 0, tok);
    if kind.None? then Unknown else ParseOperands(kind.value, s, Min(|s|, start + |tok| + 1))
  }

  /** When something follows the word the operands start behind that. */
  lemma OperandsStart(w: Words, s: string, start: nat, from: nat, tok: string, kind: Option<Kind>)
    requires start < |s| && tok == GetToken(s, start).text && kind == Lookup(w.comtable, 0, tok)
    requires from == start + |tok| + 1 && (kind.Some? ==> from <= |s|)
    ensures ParseCommand(w, s, start) == if kind.None? then Unknown else ParseOperands(kind.value, s, from)
  {
    assert kind.Some? ==> Min(|s|, from) == from;
  }

  /** The operands, from one past the character that ends the command word. */
  function ParseOperands(kind: Kind, s: string, i: nat): Line
    requires i <= |s|
  {
    var first := GetToken(s, i);
    match kind
    case KReg =>
      var second := GetToken(s, first.next);
      Reg(first.text, NumArgOf(second.text), HasMore(s, second.next))
    case KBeginAbi => BeginAbi(first.text, HasMore(s, first.next))
    case KEndAbi => EndAbi(first.text, HasMore(s, first.next))
    case KIncludeAbi => IncludeAbi(first.text, HasMore(s, first.next))
    case KOption => OptionLine(first.text, HasMore(s, first.next))
    case KNumber(field) => SetNumber(field, NumArgOf(first.text), HasMore(s, first.next))
  }

  /** A command word does not end where what was read ends: the handlers step
      over the character behind it. */
  predicate CommandIsSpaced(w: Words, s: string) {
    var start := SkipWhite(s, 0);
    start < |s| && s[start] != '#' ==> WordIsSpaced(w, s, start)
  }

  predicate WordIsSpaced(w: Words, s: string, start: nat)
    requires start < |s|
  {
    var tok := GetToken(s, start).text;
    Lookup(w.comtable, 0, tok).None? || start + |tok| < |s|
  }

  /** What parse_abi reads at i has that.  A terminated line does; a line that
      is cut short, by the end of the file, a full buffer or a NUL, must not be
      cut directly behind a command word. */
  predicate ReadableAt(w: Words, text: string, i: nat)
    requires i <= |text|
  {
    CommandIsSpaced(w, LineAt(text, i, LineEnd(text, i, PARSE_LIMIT)))
  }

  /** No read by parse_abi, wherever it starts, is cut there. */
  ghost predicate Readable(w: Words, text: string) {
    forall i {:trigger ReadableAt(w, text, i)} :: 0 <= i < |text| ==> ReadableAt(w, text, i)
  }

  predicate TerminatedAt(text: string, i: nat)
    requires i < |text|
  {
    text[LineEnd(text, i, PARSE_LIMIT) - 1] == '\n'
  }

  lemma TerminatedIsSpaced(w: Words, s: string)
    requires s != "" && s[|s| - 1] == '\n'
    ensures CommandIsSpaced(w, s)
  {
    var start := SkipWhite(s, 0);
    assert IsSpace(s[|s| - 1]);
    if start < |s| {
      TokenEndIsFirst(s, start);
      assert TokenEnd(s, start) < |s|;
    }
  }

  /** Terminated lines of ordinary length are readable. */
  lemma TerminatedIsReadable(w: Words, text: string)
    requires IsCString(text)
    requires forall i :: 0 <= i < |text| ==> TerminatedAt(text, i)
    ensures Readable(w, text)
  {
    forall i | 0 <= i < |text| ensures ReadableAt(w, text, i) {
      assert TerminatedAt(text, i);
      TerminatedLine(w, text, i, LineEnd(text, i, PARSE_LIMIT));
    }
  }

  lemma TerminatedLine(w: Words, text: string, i: nat, end: nat)
    requires IsCString(text) && i < end <= |text| && text[end - 1] == '\n'
    ensures CommandIsSpaced(w, LineAt(text, i, end))
  {
    LineAtIsCString(text, i, end);
    assert text[i..end] <= text[i..];
    var s := LineAt(text, i, end);
    assert s == text[i..end] && s[|s| - 1] == text[end - 1];
    TerminatedIsSpaced(w, s);
  }
}
