/** The dwarfdump.conf reader of dd_dwconf.c, in the source's own form: the
    configuration record with its growing register table, and the reader that
    re-enters itself on includeabi: lines. */
module DwConf {
  import opened CText
  import opened EsbBuffer
  import opened DwConfText
  import opened DwConfSpec

  const INITIAL_ALLOC := 100
  const ENTRY_BYTES := 8
  const GENERIC_NAMES := 21

  /** struct dwconf_s. The built-in names are those of the null table. */
  class ConfData {
    var interfaceNumber: nat
    var tableEntryCount: nat
    var initialRuleValue: nat
    var sameVal: nat
    var undefinedVal: nat
    var cfaReg: nat
    var addressSize: nat
    var regs: array?<Option<string>>
    var namedRegsTableSize: nat
    var regsMalloced: bool

    ghost predicate Valid()
      reads this, regs
    {
      regsMalloced ==> regs != null && regs.Length == namedRegsTableSize
    }

    ghost function View(): Conf
      reads this, regs
      requires Valid()
    {
      Conf(interfaceNumber, tableEntryCount, initialRuleValue, sameVal, undefinedVal, cfaReg, addressSize,
           if regsMalloced then Named(regs[..]) else Generic)
    }

    /** init_conf_file_data. */
    constructor ()
      ensures Valid() && View() == DEFAULTS && regs == null
    {
      interfaceNumber := 3;
      tableEntryCount := 150;
      initialRuleValue := FRAME_UNDEFINED_VAL;
      cfaReg := FRAME_CFA_COL3;
      addressSize := 0;
      sameVal := FRAME_SAME_VAL;
      undefinedVal := FRAME_UNDEFINED_VAL;
      regs := null;
      namedRegsTableSize := GENERIC_NAMES;
      regsMalloced := false;
    }

    method SetField(field: Field, v: nat)
      requires Valid()
      modifies this
      ensures Valid() && View() == old(View()).Put(field, v) && regs == old(regs)
    {
      match field
      case FrameInterface => interfaceNumber := v;
      case RegTableSize => tableEntryCount := v;
      case InitialRegValue => initialRuleValue := v;
      case SameValReg => sameVal := v;
      case UndefinedValReg => undefinedVal := v;
      case CfaReg => cfaReg := v;
      case AddressSize => addressSize := v;
    }

    /** add_to_reg_table: rval is at most MAX_REGISTER_NUMBER, and then the
        grown table is never over MAX_TABLE_SIZE bytes. */
    method AddToRegTable(rname: string, rval: nat)
      requires Valid() && rval <= MAX_REGISTER_NUMBER
      modifies this, regs
      ensures Valid() && View() == old(View()).(regs := AddName(old(View()).regs, rname, rval))
      ensures regs == old(regs) || fresh(regs)
    {
      if !regsMalloced {
        regs := null;
        namedRegsTableSize := 0;
      }
      if rval >= namedRegsTableSize {
        var newtablen := rval + TABLE_OVERSIZE;
        assert newtablen * ENTRY_BYTES <= MAX_TABLE_SIZE;
        // realloc, then the memset of the new entries
        var newregs := new Option<string>[newtablen](_ => None);
        forall i | 0 <= i < namedRegsTableSize {
          newregs[i] := regs[i];
        }
        namedRegsTableSize := newtablen;
        regs := newregs;
        regsMalloced := true;
      }
      regs[rval] := Some(rname);
    }
  }

  /** build_string: a token copied out through a buffer that starts on the
      stack and moves to the heap when the token is long. */
  method BuildString(cp: string, tlen: nat) returns (r: string)
    requires IsCString(cp) && tlen <= |cp|
    ensures r == cp[..tlen]
  {
    var buffer := new char[32];
    var x := new Esb.Fixed(buffer, 32);
    StrLenOfCString(cp);
    x.Appendn(cp, tlen, INITIAL_ALLOC);
    var mem := x.GetString(INITIAL_ALLOC);
    r := mem[..x.StringLen()];
    assert "" + cp[..tlen] == cp[..tlen];
    x.Destroy();
  }

  /** skipwhite, as a scan. */
  method Skip(s: string, start: nat) returns (i: nat)
    requires start <= |s|
    ensures i == SkipWhite(s, start)
  {
    i := start;
    while i < |s| && IsSpace(s[i])
      invariant start <= i <= |s| && SkipWhite(s, start) == SkipWhite(s, i)
    {
      i := i + 1;
    }
  }

  method FindTokenLen(s: string, start: nat) returns (len: nat)
    requires start <= |s|
    ensures start + len == TokenEnd(s, start)
  {
    len := 0;
    while start + len < |s| && !IsSpace(s[start + len]) && s[start + len] != '#'
      invariant start + len <= |s| && TokenEnd(s, start) == TokenEnd(s, start + len)
    {
      len := len + 1;
    }
  }

  method ScanToken(s: string, i: nat) returns (t: Token)
    requires i <= |s| && IsCString(s)
    ensures t == GetToken(s, i)
  {
    var lcp := Skip(s, i);
    var tlen := FindTokenLen(s, lcp);
    var data := "";
    if tlen > 0 {
      data := BuildString(s[lcp..], tlen);
    }
    assert s[lcp..][..tlen] == s[lcp..lcp + tlen];
    t := Token(data, lcp + tlen);
  }

  /** fgets: reads up to limit characters or through the end of the line. */
  method ReadLine(text: string, start: nat, limit: nat) returns (end: nat)
    requires start <= |text|
    ensures end == LineEnd(text, start, limit)
  {
    end := start;
    ghost var left := limit;
    while end - start < limit && end < |text|
      invariant start <= end <= |text| && end - start <= limit
      invariant LineEnd(text, start, limit) == LineEnd(text, end, limit - (end - start))
    {
      if text[end] == '\n' {
        end := end + 1;
        return;
      }
      end := end + 1;
    }
  }

  /** which_command, for a line that starts with neither '#' nor its end. */
  method WhichCommand(w: Words, tok: string) returns (kind: Option<Kind>)
    ensures kind == Lookup(w.comtable, 0, tok)
  {
    for i := 0 to |w.comtable|
      invariant Lookup(w.comtable, 0, tok) == Lookup(w.comtable, i, tok)
    {
      if |tok| == |w.comtable[i].name| && w.comtable[i].name == tok {
        return Some(w.comtable[i].kind);
      }
    }
    kind := None;
  }

  /** A line as parse_abi's handlers take it apart: the command word, then
      the operands from one past the character that ends it, which must still
      be inside what was read. */
  method ScanLine(w: Words, s: string) returns (line: Line)
    requires IsCString(s) && CommandIsSpaced(w, s)
    ensures line == ParseLine(w, s)
  {
    var start := Skip(s, 0);
    if start == |s| || s[start] == '#' {
      return Ignored;
    }
    line := ScanCommand(w, s, start);
  }

  method ScanCommand(w: Words, s: string, start: nat) returns (line: Line)
    requires IsCString(s) && start < |s|
    requires WordIsSpaced(w, s, start)
    ensures line == ParseCommand(w, s, start)
  {
    var tok := ScanToken(s, start);
    var kind := WhichCommand(w, tok.text);
    var from := start + |tok.text| + 1;
    OperandsStart(w, s, start, from, tok.text, kind);
    line := ScanKind(kind, s, from);
  }

  /** The operands of a known command, past the character behind its word. */
  method ScanKind(kind: Option<Kind>, s: string, from: nat) returns (line: Line)
    requires IsCString(s) && (kind.Some? ==> from <= |s|)
    ensures line == if kind.None? then Unknown else ParseOperands(kind.value, s, from)
  {
    if kind.None? {
      return Unknown;
    }
    line := ScanOperands(kind.value, s, from);
  }

  method ScanNumber(tok: string) returns (num: NumArg)
    ensures num == NumArgOf(tok)
  {
    if |tok| == 0 {
      return Missing;
    }
    var v := MakeANumber(tok);
    num := if v.None? then Bad else Num(v.value);
  }

  method ScanOperands(kind: Kind, s: string, i: nat) returns (line: Line)
    requires IsCString(s) && i <= |s|
    ensures line == ParseOperands(kind, s, i)
  {
    var first := ScanToken(s, i);
    if kind.KReg? {
      var second := ScanToken(s, first.next);
      var more := ScanToken(s, second.next);
      var num := ScanNumber(second.text);
      return Reg(first.text, num, more.text != "");
    }
    var more := ScanToken(s, first.next);
    var extra := more.text != "";
    match kind
    case KBeginAbi => line := BeginAbi(first.text, extra);
    case KEndAbi => line := EndAbi(first.text, extra);
    case KIncludeAbi => line := IncludeAbi(first.text, extra);
    case KOption => line := OptionLine(first.text, extra);
    case KNumber(field) =>
      var num := ScanNumber(first.text);
      line := SetNumber(field, num, extra);
  }

  /** struct conf_internal_s, the static errcount and the option flag, for one
      configuration file.  A *_lineno field is kept as whether it is set. */
  class ConfReader {
    const w: Words
    const text: string
    const conf: ConfData
    var errcount: nat
    var beginSeen: bool
    var seen: set<Field>
    var regcount: nat
    var exprOpsJoined: bool
    var exited: bool

    ghost predicate Valid()
      reads this, conf, conf.regs
    {
      conf.Valid()
    }

    ghost function View(): State
      reads this, conf, conf.regs
      requires conf.Valid()
    {
      State(conf.View(), errcount, beginSeen, seen, regcount, exprOpsJoined,
            if exited then Exited else Running)
    }

    /** init_conf_internal on a freshly initialised configuration. */
    constructor (w: Words, text: string, conf: ConfData)
      requires conf.Valid()
      ensures Valid() && this.w == w && this.text == text && this.conf == conf
      ensures View() == START.(conf := conf.View())
    {
      this.w, this.text, this.conf := w, text, conf;
      errcount, beginSeen, seen, regcount, exprOpsJoined, exited := 0, false, {}, 0, false, false;
    }

    method CountError()
      requires Valid()
      modifies this`errcount
      ensures Valid() && View() == Bump(old(View()), 1)
    {
      errcount := errcount + 1;
    }

    /** parsereg, and the count that follows it. */
    method ParseReg(name: string, num: NumArg, extra: bool)
      requires Valid()
      modifies this, conf, conf.regs
      ensures Valid() && View() == Perform(w, old(View()), Reg(name, num, extra))
      ensures conf.regs == old(conf.regs) || fresh(conf.regs)
    {
      if name == "" || num.Missing? {
        errcount := errcount + 1;
      } else if num.Bad? {
        errcount := errcount + 2;
      } else if num.value > MAX_REGISTER_NUMBER {
        exited := true;
        return;
      } else {
        conf.AddToRegTable(name, num.value);
        if extra {
          errcount := errcount + 1;
        }
      }
      regcount := regcount + 1;
    }

    /** The check for a command given twice. */
    method NoteField(field: Field)
      requires Valid()
      modifies this`errcount, this`seen
      ensures Valid()
      ensures View() == Noted(old(View()), field)
    {
      if field in seen {
        errcount := errcount + 1;
      }
      seen := seen + {field};
    }

    /** The handlers of the single numeric commands. */
    method ParseNumber(field: Field, num: NumArg, extra: bool)
      requires Valid()
      modifies this, conf
      ensures Valid() && View() == Perform(w, old(View()), SetNumber(field, num, extra))
      ensures conf.regs == old(conf.regs)
    {
      NoteField(field);
      if num.Missing? {
        errcount := errcount + 1;
      } else if num.Bad? {
        errcount := errcount + 2;
      } else if num.value > Limit(field) {
        exited := true;
      } else if field.FrameInterface? && num.value != 2 && num.value != 3 {
        errcount := errcount + 1;
      } else {
        conf.SetField(field, num.value);
        if extra {
          errcount := errcount + 1;
        }
      }
    }

    method ParseOption(word: string, extra: bool)
      requires Valid()
      modifies this
      ensures Valid() && View() == Perform(w, old(View()), OptionLine(word, extra))
    {
      if extra {
        errcount := errcount + 1;
      }
      if word == w.joinedName {
        exprOpsJoined := true;
      }
    }

    method ParseBeginAbi(abi: string, name: string, extra: bool) returns (inAbi: bool)
      requires Valid()
      modifies this
      ensures Valid() && View() == Open(old(View()), abi, name, extra) && inAbi == (name == abi)
    {
      if beginSeen {
        errcount := errcount + 1;
      }
      beginSeen := true;
      inAbi := name == abi;
      if !inAbi || extra {
        errcount := errcount + 1;
      }
    }

    method ParseEndAbi(abi: string, name: string, extra: bool)
      requires Valid()
      modifies this
      ensures Valid() && View() == Close(old(View()), abi, name, extra)
    {
      if name != abi || extra {
        errcount := errcount + 1;
      }
      if regcount > conf.tableEntryCount {
        errcount := errcount + 1;
      }
    }

    /** find_abi_start. */
    method FindAbiStart(abi: Option<string>) returns (found: Found)
      requires Valid()
      modifies this`errcount, this`exprOpsJoined
      ensures found == FindAbi(w, text, 0, abi)
      ensures errcount == old(errcount) + Counted(found)
      ensures exprOpsJoined == (old(exprOpsJoined) || FindSetsOption(w, text, 0, abi))
    {
      var pos := 0;
      while pos < |text|
        invariant pos <= |text|
        invariant FindAbi(w, text, 0, abi) == FindAbi(w, text, pos, abi)
        invariant errcount == old(errcount)
        invariant (exprOpsJoined || FindSetsOption(w, text, pos, abi))
          == (old(exprOpsJoined) || FindSetsOption(w, text, 0, abi))
        decreases |text| - pos
      {
        var end := ReadLine(text, pos, FIND_LIMIT);
        LineAtIsCString(text, pos, end);
        var buf := LineAt(text, pos, end);
        var word := ScanToken(buf, 0);
        var operand := ScanToken(buf, word.next);
        if word.text == w.optionName {
          if operand.text != w.joinedName {
            errcount := errcount + 1;
            return FoundBadOption;
          }
          exprOpsJoined := true;
        } else if word.text == w.beginName && abi.Some? && operand.text == abi.value {
          return FoundAt(pos, false);
        }
        if HitsEnd(text, pos, FIND_LIMIT) {
          // feof: FALSE is returned, with the offset as the caller set it
          if abi.None? {
            return FoundDone;
          }
          errcount := errcount + 1;
          return FoundAt(0, true);
        }
        pos := end;
      }
      if abi.None? {
        return FoundDone;
      }
      errcount := errcount + 1;
      found := FoundNothing;
    }

    /** parse_abi, from the offset of the beginabi: line. */
    method ParseAbi(offset: nat, abi: string, level: nat)
      requires Valid() && offset <= |text| && level <= MAX_NEST_LEVEL + 1
      requires !Enter(w, text, offset, abi, level, View()).stop.Stale?
      modifies this, conf, conf.regs
      ensures Valid() && View() == Enter(w, text, offset, abi, level, old(View()))
      ensures conf.regs == old(conf.regs) || fresh(conf.regs)
      decreases MAX_NEST_LEVEL + 1 - level, 2, 1
    {
      if level > MAX_NEST_LEVEL {
        errcount := errcount + 1;
        return;
      }
      var pos, inAbi, unknown := offset, false, 0;
      ghost var result := Walk(w, text, offset, abi, level, false, 0, View());
      while !exited && pos < |text|
        invariant pos <= |text| && Valid()
        invariant result == Walk(w, text, pos, abi, level, inAbi, unknown, View())
        invariant conf.regs == old(conf.regs) || fresh(conf.regs)
        decreases |text| - pos
      {
        var done;
        done, pos, inAbi, unknown := ParseAbiTurn(pos, abi, level, inAbi, unknown);
        if done {
          return;
        }
      }
      if !exited {
        errcount := errcount + 1;
      }
    }

    method ParseAbiTurn(pos: nat, abi: string, level: nat, inAbi: bool, unknown: nat)
      returns (done: bool, end: nat, inAbiNow: bool, unknownNow: nat)
      requires Valid() && !exited && pos < |text| && level <= MAX_NEST_LEVEL
      requires !Walk(w, text, pos, abi, level, inAbi, unknown, View()).stop.Stale?
      modifies this, conf, conf.regs
      ensures Valid() && pos < end <= |text|
      ensures Walk(w, text, pos, abi, level, inAbi, unknown, old(View()))
        == if done then View() else Walk(w, text, end, abi, level, inAbiNow, unknownNow, View())
      ensures conf.regs == old(conf.regs) || fresh(conf.regs)
      decreases MAX_NEST_LEVEL + 1 - level, 2, 0
    {
      end := ReadLine(text, pos, PARSE_LIMIT);
      LineAtIsCString(text, pos, end);
      assert ReadableAt(w, text, pos);
      var line := ScanLine(w, LineAt(text, pos, end));
      done, inAbiNow, unknownNow := ParseAbiLine(line, end, abi, level, inAbi, unknown);
    }

    /** One turn of parse_abi's loop, for the line that stops at end. */
    method ParseAbiLine(line: Line, end: nat, abi: string, level: nat, inAbi: bool, unknown: nat)
      returns (done: bool, inAbiNow: bool, unknownNow: nat)
      requires Valid() && !exited && end <= |text| && level <= MAX_NEST_LEVEL
      requires !WalkLine(w, text, line, end, abi, level, inAbi, unknown, View()).stop.Stale?
      modifies this, conf, conf.regs
      ensures Valid()
      ensures WalkLine(w, text, line, end, abi, level, inAbi, unknown, old(View()))
        == if done then View() else Walk(w, text, end, abi, level, inAbiNow, unknownNow, View())
      ensures conf.regs == old(conf.regs) || fresh(conf.regs)
      decreases MAX_NEST_LEVEL + 1 - level, 1
    {
      done, inAbiNow, unknownNow := false, inAbi, unknown;
      match line
      case Ignored =>
      case Unknown =>
        CountError();
        unknownNow := unknown + 1;
        done := unknownNow > 2;
      case BeginAbi(name, extra) =>
        inAbiNow := ParseBeginAbi(abi, name, extra);
      case EndAbi(name, extra) =>
        if inAbi {
          ParseEndAbi(abi, name, extra);
          done := true;
        }
      case IncludeAbi(name, extra) =>
        if inAbi {
          done := ParseIncludeLine(line, end, abi, level, unknown);
        }
      case _ =>
        if inAbi {
          ParseCommandLine(line);
        }
    }

    /** The reg:, numeric and option: lines. */
    method ParseCommandLine(line: Line)
      requires Valid() && (line.Reg? || line.SetNumber? || line.OptionLine?)
      modifies this, conf, conf.regs
      ensures Valid() && View() == Perform(w, old(View()), line)
      ensures conf.regs == old(conf.regs) || fresh(conf.regs)
    {
      match line
      case Reg(name, num, extra) => ParseReg(name, num, extra);
      case SetNumber(field, num, extra) => ParseNumber(field, num, extra);
      case OptionLine(word, extra) => ParseOption(word, extra);
    }

    method ParseIncludeLine(line: Line, end: nat, abi: string, level: nat, unknown: nat) returns (done: bool)
      requires Valid() && !exited && end <= |text| && level <= MAX_NEST_LEVEL && line.IncludeAbi?
      requires !WalkLine(w, text, line, end, abi, level, true, unknown, View()).stop.Stale?
      modifies this, conf, conf.regs
      ensures Valid()
      ensures WalkLine(w, text, line, end, abi, level, true, unknown, old(View()))
        == if done then View() else Walk(w, text, end, abi, level, true, unknown, View())
      ensures conf.regs == old(conf.regs) || fresh(conf.regs)
      decreases MAX_NEST_LEVEL + 1 - level, 0, 1
    {
      if line.extra {
        CountError();
        return true;
      }
      done := ParseInclude(line.abi, level, NestedRead(w, text, line.abi, level + 1, View()));
    }

    /** The nested read, whose result is r: the abi being read does not count
        as begun in it. */
    method ParseInclude(name: string, level: nat, ghost r: ReadResult) returns (done: bool)
      requires Valid() && level <= MAX_NEST_LEVEL && r == NestedRead(w, text, name, level + 1, View())
      requires !r.state.stop.Stale?
      modifies this, conf, conf.regs
      ensures Valid() && done == (r.state.Stopped() || r.outcome.ReadError?)
      ensures View() == if done then r.state else r.state.(beginSeen := old(beginSeen))
      ensures conf.regs == old(conf.regs) || fresh(conf.regs)
      decreases MAX_NEST_LEVEL + 1 - level, 0, 0
    {
      var saved := beginSeen;
      var res := ReadNested(name, level + 1);
      assert r == ReadResult(res, View());
      done := exited || res.ReadError?;
      if !done {
        RestoreBegin(saved);
      }
    }

    method RestoreBegin(saved: bool)
      requires Valid()
      modifies this`beginSeen
      ensures Valid() && View() == old(View()).(beginSeen := saved)
    {
      beginSeen := saved;
    }

    method ReadNested(name: string, level: nat) returns (res: Outcome)
      requires Valid() && level <= MAX_NEST_LEVEL + 1
      requires !NestedRead(w, text, name, level, View()).state.stop.Stale?
      modifies this, conf, conf.regs
      ensures Valid() && ReadResult(res, View()) == NestedRead(w, text, name, level, old(View()))
      ensures conf.regs == old(conf.regs) || fresh(conf.regs)
      decreases MAX_NEST_LEVEL + 1 - level, 3, 2
    {
      RestoreBegin(false);
      res := ReadConfigInner(Some(name), level);
    }

    /** find_conf_file_and_read_config_inner, once the file is open and has
        been found to be text. */
    method ReadConfigInner(abi: Option<string>, level: nat) returns (res: Outcome)
      requires Valid() && level <= MAX_NEST_LEVEL + 1
      requires !Read(w, text, abi, level, View()).state.stop.Stale?
      modifies this, conf, conf.regs
      ensures Valid() && ReadResult(res, View()) == Read(w, text, abi, level, old(View()))
      ensures conf.regs == old(conf.regs) || fresh(conf.regs)
      decreases MAX_NEST_LEVEL + 1 - level, 3, 1
    {
      var found := BeginRead(abi);
      res := FinishRead(found, abi, level);
    }

    method BeginRead(abi: Option<string>) returns (found: Found)
      requires Valid()
      modifies this`errcount, this`exprOpsJoined
      ensures Valid() && found == FindAbi(w, text, 0, abi)
      ensures View() == Bump(Fresh(w, text, abi, old(View())), Counted(found))
    {
      errcount := 0;
      found := FindAbiStart(abi);
    }

    method FinishRead(found: Found, abi: Option<string>, level: nat) returns (res: Outcome)
      requires Valid() && level <= MAX_NEST_LEVEL + 1
      requires found.FoundAt? ==> abi.Some? && found.offset <= |text|
      requires !AfterSearch(w, text, found, abi, level, View()).state.stop.Stale?
      modifies this, conf, conf.regs
      ensures Valid() && ReadResult(res, View()) == AfterSearch(w, text, found, abi, level, old(View()))
      ensures conf.regs == old(conf.regs) || fresh(conf.regs)
      decreases MAX_NEST_LEVEL + 1 - level, 3, 0
    {
      if found.FoundDone? {
        return ReadDone;
      }
      if !found.FoundAt? {
        errcount := errcount + 1;
        return ReadError;
      }
      ParseAbi(found.offset, abi.value, level);
      res := if errcount > 0 then ReadError else ReadAbi;
    }
  }

  /** A line whose beginning is that far back. */
  lemma LineFitsBy(text: string, p: nat, len: nat)
    requires len <= p < |text| && (len < p ==> 1 <= len && text[p - len] == '\n')
    requires forall k :: p - len < k < p ==> text[k] != '\n'
    ensures LineFits(text, p) <==> len <= LONGEST
  {
  }

  /** is_this_text_file: curlinelen starts at 0 on the first line and at 1 on
      every other. */
  method IsThisTextFile(text: string) returns (ok: bool)
    ensures ok == LooksLikeText(text)
    ensures var n := Min(|text|, 512);
      ok <==>
        && n >= 100
        && (forall k :: 0 <= k < n ==> ' ' <= text[k] <= '~' || text[k] == '\t' || text[k] == '\n' || text[k] == '\r')
        && forall p :: 0 <= p < n && text[p] == '\n' ==>
          p <= 100 || exists q :: p - 100 <= q < p && text[q] == '\n'
  {
    var n := Min(|text|, SAMPLE);
    if n < SMALLEST {
      return false;
    }
    var curlinelen, maxlinelen := 0, 0;
    for i := 0 to n
      invariant curlinelen <= i && (curlinelen < i ==> 1 <= curlinelen && text[i - curlinelen] == '\n')
      invariant forall k :: i - curlinelen < k < i ==> text[k] != '\n'
      invariant forall k :: 0 <= k < i ==> IsText(text[k])
      invariant maxlinelen <= LONGEST <==> forall p :: 0 <= p < i && text[p] == '\n' ==> LineFits(text, p)
    {
      var c := text[i];
      if c == '\n' {
        LineFitsBy(text, i, curlinelen);
        if curlinelen > maxlinelen {
          maxlinelen := curlinelen;
        }
        curlinelen := 0;
      } else if c != '\r' && c != '\t' && !(' ' <= c <= '~') {
        return false;
      }
      curlinelen := curlinelen + 1;
    }
    ok := maxlinelen <= LONGEST;
  }

  /** find_conf_file_and_read_config on a file whose text is given: read from
      the defaults, and on success what the flat command list says. */
  method FindConfFileAndReadConfig(w: Words, file: Option<string>, abi: Option<string>)
    returns (res: Outcome, conf: ConfData, exited: bool)
    requires file.Some? && LooksLikeText(file.value) ==>
      !Read(w, file.value, abi, 0, START).state.stop.Stale?
    ensures fresh(conf) && conf.Valid()
    ensures file.None? || !LooksLikeText(file.value) ==>
      && res.ReadError? && !exited && conf.regs == null
      && conf.interfaceNumber == 3 && conf.tableEntryCount == 150 && conf.addressSize == 0
      && conf.initialRuleValue == 12288 && conf.undefinedVal == 12288 && conf.sameVal == 12289 && conf.cfaReg == 12290
    ensures file.Some? && LooksLikeText(file.value) ==>
      var r := Read(w, file.value, abi, 0, START);
      res == r.outcome && conf.View() == r.state.conf && exited == r.state.Stopped()
    ensures res.ReadAbi? && !exited ==>
      && file.Some? && abi.Some?
      && Expand(w, file.value, abi.value, 0).Some?
      && conf.View() == ApplyAll(DEFAULTS, Expand(w, file.value, abi.value, 0).value)
  {
    conf := new ConfData();
    exited := false;
    if file.None? {
      return ReadError, conf, false;
    }
    var ok := IsThisTextFile(file.value);
    if !ok {
      return ReadError, conf, false;
    }
    var reader := new ConfReader(w, file.value, conf);
    res := reader.ReadConfigInner(abi, 0);
    exited := reader.exited;
    if res.ReadAbi? && !exited && abi.Some? {
      ReadIsFlat(w, file.value, abi.value, 0, START);
    }
  }
}
