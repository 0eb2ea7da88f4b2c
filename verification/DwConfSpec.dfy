/** What reading a dwarfdump.conf file means: the effect of each line, the
    reader with its error counter, and the flat command list it amounts to. */
module DwConfSpec {
  import opened CText
  import opened DwConfText

  const MAX_NEST_LEVEL := 3
  const MAX_TABLE_SIZE := 100000000
  const MAX_REGISTER_NUMBER := 10000000
  const MAX_ADDRESS_SIZE := 16
  const TABLE_OVERSIZE := 100

  const FRAME_UNDEFINED_VAL := 12288
  const FRAME_SAME_VAL := 12289
  const FRAME_CFA_COL3 := 12290

  /** The register names; Generic is the static built-in table. */
  datatype RegTable = Generic | Named(names: seq<Option<string>>)

  /** The values of struct dwconf_s that the reader sets. */
  datatype Conf = Conf(
    interfaceNumber: nat,
    tableEntryCount: nat,
    initialRuleValue: nat,
    sameVal: nat,
    undefinedVal: nat,
    cfaReg: nat,
    addressSize: nat,
    regs: RegTable)
  {
    function Get(field: Field): nat {
      match field
      case FrameInterface => interfaceNumber
      case RegTableSize => tableEntryCount
      case InitialRegValue => initialRuleValue
      case SameValReg => sameVal
      case UndefinedValReg => undefinedVal
      case CfaReg => cfaReg
      case AddressSize => addressSize
    }

    function Put(field: Field, v: nat): (r: Conf)
      ensures r.Get(field) == v && r.regs == regs
      ensures forall other :: other != field ==> r.Get(other) == Get(other)
    {
      match field
      case FrameInterface => this.(interfaceNumber := v)
      case RegTableSize => this.(tableEntryCount := v)
      case InitialRegValue => this.(initialRuleValue := v)
      case SameValReg => this.(sameVal := v)
      case UndefinedValReg => this.(undefinedVal := v)
      case CfaReg => this.(cfaReg := v)
      case AddressSize => this.(addressSize := v)
    }
  }

  /** init_conf_file_data. */
  const DEFAULTS := Conf(
    3, 150, FRAME_UNDEFINED_VAL, FRAME_SAME_VAL, FRAME_UNDEFINED_VAL, FRAME_CFA_COL3, 0, Generic)

  /** The largest operand that does not end the program. */
  function Limit(field: Field): nat {
    match field
    case FrameInterface => ULONG_MAX
    case RegTableSize => MAX_TABLE_SIZE
    case AddressSize => MAX_ADDRESS_SIZE
    case _ => MAX_REGISTER_NUMBER
  }

  /** add_to_reg_table. */
  function AddName(regs: RegTable, name: string, n: nat): (r: RegTable)
    ensures r.Named? && n < |r.names|
    ensures |r.names| == if regs.Named? && n < |regs.names| then |regs.names| else n + 100
  {
    var names := if regs.Named? then regs.names else [];
    var grown := if n < |names| then names else names + seq(n + TABLE_OVERSIZE - |names|, _ => None);
    Named(grown[n := Some(name)])
  }

  // ----- commands

  datatype Cmd = SetReg(name: string, n: nat) | SetField(field: Field, value: nat)

  function ApplyCmd(conf: Conf, cmd: Cmd): Conf {
    match cmd
    case SetReg(name, n) => conf.(regs := AddName(conf.regs, name, n))
    case SetField(field, value) => conf.Put(field, value)
  }

  function ApplyAll(conf: Conf, cmds: seq<Cmd>): Conf
    decreases |cmds|
  {
    if cmds == [] then conf else ApplyAll(ApplyCmd(conf, cmds[0]), cmds[1..])
  }

  /** The command that a line within the abi performs, if it performs one. */
  function CommandOf(line: Line): Option<Cmd> {
    match line
    case Reg(name, Num(n), _) => if name != "" then Some(SetReg(name, n)) else None
    case SetNumber(FrameInterface, Num(v), _) => if v == 2 || v == 3 then Some(SetField(FrameInterface, v)) else None
    case SetNumber(field, Num(v), _) => Some(SetField(field, v))
    case _ => None
  }

  // ----- the reader

  /** What the reader keeps: the configuration, the error count, which single
      commands have been seen, how many reg: lines, the option flag, and
      whether it goes on. */
  datatype State = State(
    conf: Conf, errs: nat, beginSeen: bool, seen: set<Field>, regcount: nat, joined: bool, stop: Stop)
  {
    predicate Stopped() {
      !stop.Running?
    }
  }

  /** Exited: the program has given up with exit().  Stale: a handler has
      stepped over the end of what was read, behind a command word that ends
      there; nothing is said about what it finds. */
  datatype Stop = Running | Exited | Stale

  /** init_conf_internal on init_conf_file_data. */
  const START := State(DEFAULTS, 0, false, {}, 0, false, Running)

  function Bump(st: State, n: nat): State {
    st.(errs := st.errs + n)
  }

  /** The errors counted by the operands of a command. */
  function OperandErrors(line: Line): nat {
    match line
    case Reg(name, num, extra) =>
      if name == "" || num.Missing? then 1 else if num.Bad? then 2 else if extra then 1 else 0
    case SetNumber(field, num, extra) =>
      if num.Missing? then 1 else if num.Bad? then 2
      else if field.FrameInterface? && num.value != 2 && num.value != 3 then 1
      else if extra then 1 else 0
    case OptionLine(_, extra) => if extra then 1 else 0
    case _ => 0
  }

  /** An operand beyond its limit ends the program. */
  predicate OverLimit(line: Line) {
    match line
    case Reg(name, Num(n), _) => name != "" && n > MAX_REGISTER_NUMBER
    case SetNumber(field, Num(v), _) => v > Limit(field)
    case _ => false
  }

  /** A reg:, numeric or option: line inside the abi. */
  function Perform(w: Words, st: State, line: Line): State {
    Operands(w, if line.SetNumber? then Noted(st, line.field) else st, line)
  }

  /** A command that was there before is an error. */
  function Noted(st: State, field: Field): State {
    Bump(st, if field in st.seen then 1 else 0).(seen := st.seen + {field})
  }

  function Operands(w: Words, st: State, line: Line): State {
    if OverLimit(line) then st.(stop := Exited)
    else
      var cmd := CommandOf(line);
      Bump(st, OperandErrors(line)).(
        conf := if cmd.Some? then ApplyCmd(st.conf, cmd.value) else st.conf,
        regcount := if line.Reg? then st.regcount + 1 else st.regcount,
        joined := st.joined || (line.OptionLine? && line.word == w.joinedName))
  }

  /** The endabi: line that closes the abi being read. */
  function Close(st: State, abi: string, name: string, extra: bool): State {
    var wrong := if name != abi || extra then 1 else 0;
    var many := if st.regcount > st.conf.tableEntryCount then 1 else 0;
    Bump(st, wrong + many)
  }

  /** A beginabi: line. */
  function Open(st: State, abi: string, name: string, extra: bool): State {
    var dup := if st.beginSeen then 1 else 0;
    var wrong := if name != abi || extra then 1 else 0;
    Bump(st, dup + wrong).(beginSeen := true)
  }

  datatype Seen = Seen(word: string, operand: string)

  /** The first two tokens that find_abi_start reads at i. */
  function SeenAt(text: string, i: nat): Seen
    requires i < |text|
  {
    var line := LineAt(text, i, LineEnd(text, i, FIND_LIMIT));
    var word := GetToken(line, 0);
    Seen(word.text, GetToken(line, word.next).text)
  }

  /** find_abi_start from offset i: where the wanted beginabi: line starts.
      When the abi is missed at an unterminated last line the result is FALSE,
      which the caller does not tell from success: it goes on from offset 0,
      with one error counted. */
  datatype Found = FoundAt(offset: nat, missed: bool) | FoundNothing | FoundBadOption | FoundDone

  function FindAbi(w: Words, text: string, i: nat, abi: Option<string>): (r: Found)
    requires i <= |text|
    ensures r.FoundAt? ==> r.offset < |text| && abi.Some?
    ensures r.FoundDone? ==> abi.None?
    decreases |text| - i, 1
  {
    if i == |text| then (if abi.None? then FoundDone else FoundNothing)
    else
      var seen := SeenAt(text, i);
      if seen.word == w.optionName then
        if seen.operand == w.joinedName then FindNext(w, text, i, abi) else FoundBadOption
      else if seen.word == w.beginName && abi.Some? && seen.operand == abi.value then FoundAt(i, false)
      else FindNext(w, text, i, abi)
  }

  /** The loop goes on unless the read hit the end of the file. */
  function FindNext(w: Words, text: string, i: nat, abi: Option<string>): (r: Found)
    requires i < |text|
    ensures r.FoundAt? ==> r.offset < |text| && abi.Some?
    ensures r.FoundDone? ==> abi.None?
    decreases |text| - i, 0
  {
    var end := LineEnd(text, i, FIND_LIMIT);
    if !HitsEnd(text, i, FIND_LIMIT) then FindAbi(w, text, end, abi)
    else if abi.None? then FoundDone
    else FoundAt(0, true)
  }

  /** Whether find_abi_start sets the option flag on its way from i. */
  function FindSetsOption(w: Words, text: string, i: nat, abi: Option<string>): bool
    requires i <= |text|
    decreases |text| - i
  {
    if i == |text| then false
    else
      var end := LineEnd(text, i, FIND_LIMIT);
      var seen := SeenAt(text, i);
      if seen.word == w.optionName then seen.operand == w.joinedName
      else if seen.word == w.beginName && abi.Some? && seen.operand == abi.value then false
      else FindSetsOption(w, text, end, abi)
  }

  datatype Outcome = ReadAbi | ReadError | ReadDone

  datatype ReadResult = ReadResult(outcome: Outcome, state: State)

  /** find_conf_file_and_read_config_inner on a file that opens as text. */
  function Read(w: Words, text: string, abi: Option<string>, level: nat, st: State): (r: ReadResult)
    requires level <= MAX_NEST_LEVEL + 1
    ensures r.outcome.ReadError? ==> r.state.errs > 0
    ensures r.outcome.ReadAbi? ==> r.state.errs == 0
    ensures abi.Some? ==> !r.outcome.ReadDone?
    decreases MAX_NEST_LEVEL + 1 - level, |text| + 1, 2
  {
    var found := FindAbi(w, text, 0, abi);
    AfterSearch(w, text, found, abi, level, Bump(Fresh(w, text, abi, st), Counted(found)))
  }

  /** The rest of it, after the search for the abi. */
  function AfterSearch(w: Words, text: string, found: Found, abi: Option<string>, level: nat, st: State)
    : (r: ReadResult)
    requires level <= MAX_NEST_LEVEL + 1 && (found.FoundAt? ==> abi.Some? && found.offset <= |text|)
    ensures r.outcome.ReadError? ==> r.state.errs > 0
    ensures r.outcome.ReadAbi? ==> r.state.errs == 0
    ensures r.outcome.ReadDone? ==> found.FoundDone?
    decreases MAX_NEST_LEVEL + 1 - level, |text| + 1, 1
  {
    if found.FoundAt? then Judged(Enter(w, text, found.offset, abi.value, level, st))
    else if found.FoundDone? then ReadResult(ReadDone, st)
    else ReadResult(ReadError, Bump(st, 1))
  }

  /** The error count starts at zero; the search may set the option flag. */
  function Fresh(w: Words, text: string, abi: Option<string>, st: State): State {
    st.(errs := 0, joined := st.joined || FindSetsOption(w, text, 0, abi))
  }

  /** The errors the search counts itself. */
  function Counted(found: Found): nat {
    if found.FoundDone? || (found.FoundAt? && !found.missed) then 0 else 1
  }

  function Judged(st: State): ReadResult {
    ReadResult(if st.errs > 0 then ReadError else ReadAbi, st)
  }

  /** parse_abi from an offset. */
  function Enter(w: Words, text: string, offset: nat, abi: string, level: nat, st: State): State
    requires offset <= |text| && level <= MAX_NEST_LEVEL + 1
    decreases MAX_NEST_LEVEL + 1 - level, |text| + 1, 0
  {
    if level > MAX_NEST_LEVEL then Bump(st, 1) else Walk(w, text, offset, abi, level, false, 0, st)
  }

  /** parse_abi's loop from offset i on. */
  function Walk(w: Words, text: string, i: nat, abi: string, level: nat, inAbi: bool, unknown: nat, st: State): State
    requires i <= |text| && level <= MAX_NEST_LEVEL
    decreases MAX_NEST_LEVEL + 1 - level, |text| - i, 0
  {
    if st.Stopped() then st
    else if i == |text| then Bump(st, 1)
    else if !ReadableAt(w, text, i) then st.(stop := Stale)
    else
      var end := LineEnd(text, i, PARSE_LIMIT);
      WalkLine(w, text, ParseLine(w, LineAt(text, i, end)), end, abi, level, inAbi, unknown, st)
  }

  /** The rest of parse_abi's loop, once the line that stops at end is read. */
  function WalkLine(
      w: Words, text: string, line: Line, end: nat, abi: string, level: nat, inAbi: bool, unknown: nat, st: State)
    : State
    requires end <= |text| && level <= MAX_NEST_LEVEL
    decreases MAX_NEST_LEVEL + 1 - level, |text| - end, 2
  {
    match line
    case Ignored => Walk(w, text, end, abi, level, inAbi, unknown, st)
    case Unknown =>
      if unknown >= 2 then Bump(st, 1) else Walk(w, text, end, abi, level, inAbi, unknown + 1, Bump(st, 1))
    case BeginAbi(name, extra) =>
      Walk(w, text, end, abi, level, name == abi, unknown, Open(st, abi, name, extra))
    case EndAbi(name, extra) =>
      if inAbi then Close(st, abi, name, extra) else Walk(w, text, end, abi, level, inAbi, unknown, st)
    case IncludeAbi(name, extra) =>
      if !inAbi then Walk(w, text, end, abi, level, inAbi, unknown, st)
      else if extra then Bump(st, 1)
      else
        Resume(w, text, NestedRead(w, text, name, level + 1, st), end, abi, level, unknown, st.beginSeen)
    case _ =>
      Walk(w, text, end, abi, level, inAbi, unknown, if inAbi then Perform(w, st, line) else st)
  }

  /** The read of an included abi: it starts as if no beginabi: was seen. */
  function NestedRead(w: Words, text: string, name: string, level: nat, st: State): (r: ReadResult)
    requires level <= MAX_NEST_LEVEL + 1
    ensures r.outcome.ReadError? ==> r.state.errs > 0
    ensures r.outcome.ReadAbi? ==> r.state.errs == 0
    ensures !r.outcome.ReadDone?
    decreases MAX_NEST_LEVEL + 1 - level, |text| + 1, 3
  {
    Read(w, text, Some(name), level, st.(beginSeen := false))
  }

  /** After a nested read: its error ends this walk too. */
  function Resume(
      w: Words, text: string, r: ReadResult, end: nat, abi: string, level: nat, unknown: nat, beginSeen: bool)
    : State
    requires end <= |text| && level <= MAX_NEST_LEVEL
    decreases MAX_NEST_LEVEL + 1 - level, |text| - end, 1
  {
    if r.state.Stopped() || r.outcome.ReadError? then r.state
    else Walk(w, text, end, abi, level, true, unknown, r.state.(beginSeen := beginSeen))
  }

  // ----- the flat command list

  /** The commands of an abi, each includeabi: replaced by the commands of the
      abi it names; None when a name, or an endabi:, is missing or the
      nesting goes too deep. */
  function Expand(w: Words, text: string, abi: string, level: nat): Option<seq<Cmd>>
    requires level <= MAX_NEST_LEVEL + 1
    decreases MAX_NEST_LEVEL + 1 - level, |text| + 1, 0
  {
    var found := FindAbi(w, text, 0, Some(abi));
    if !found.FoundAt? || level > MAX_NEST_LEVEL then None
    else Flatten(w, text, found.offset, abi, level, false)
  }

  function Flatten(w: Words, text: string, i: nat, abi: string, level: nat, inAbi: bool): Option<seq<Cmd>>
    requires i <= |text| && level <= MAX_NEST_LEVEL
    decreases MAX_NEST_LEVEL + 1 - level, |text| - i, 0
  {
    if i == |text| then None
    else
      var end := LineEnd(text, i, PARSE_LIMIT);
      FlattenLine(w, text, ParseLine(w, LineAt(text, i, end)), end, abi, level, inAbi)
  }

  function FlattenLine(w: Words, text: string, line: Line, end: nat, abi: string, level: nat, inAbi: bool)
    : Option<seq<Cmd>>
    requires end <= |text| && level <= MAX_NEST_LEVEL
    decreases MAX_NEST_LEVEL + 1 - level, |text| - end, 1
  {
    if line.BeginAbi? then Flatten(w, text, end, abi, level, line.abi == abi)
    else if !inAbi then Flatten(w, text, end, abi, level, false)
    else if line.EndAbi? then Some([])
    else if line.IncludeAbi? then
      Join(Expand(w, text, line.abi, level + 1), Flatten(w, text, end, abi, level, true))
    else
      Join(Some(OneCommand(line)), Flatten(w, text, end, abi, level, true))
  }

  function Join(a: Option<seq<Cmd>>, b: Option<seq<Cmd>>): Option<seq<Cmd>> {
    if a.Some? && b.Some? then Some(a.value + b.value) else None
  }

  function OneCommand(line: Line): seq<Cmd> {
    var cmd := CommandOf(line);
    if cmd.Some? then [cmd.value] else []
  }

  lemma {:induction false} ApplyConcat(conf: Conf, a: seq<Cmd>, b: seq<Cmd>)
    ensures ApplyAll(conf, a + b) == ApplyAll(ApplyAll(conf, a), b)
    decreases |a|
  {
    if a == [] {
      assert a + b == b;
    } else {
      assert (a + b)[0] == a[0] && (a + b)[1..] == a[1..] + b;
      ApplyConcat(ApplyCmd(conf, a[0]), a[1..], b);
    }
  }

  /** A flat list exists and leads from one configuration to another. */
  predicate Applied(conf: Conf, flat: Option<seq<Cmd>>, result: Conf) {
    flat.Some? && result == ApplyAll(conf, flat.value)
  }

  /** Applying two lists in turn is applying their join. */
  lemma JoinApplies(conf: Conf, a: Option<seq<Cmd>>, b: Option<seq<Cmd>>, mid: Conf, result: Conf)
    requires Applied(conf, a, mid) && Applied(mid, b, result)
    ensures Applied(conf, Join(a, b), result)
  {
    ApplyConcat(conf, a.value, b.value);
  }

  lemma ApplyOne(conf: Conf, line: Line)
    ensures ApplyAll(conf, OneCommand(line))
      == if CommandOf(line).Some? then ApplyCmd(conf, CommandOf(line).value) else conf
  {
    var cmds := OneCommand(line);
    if cmds != [] {
      assert cmds[1..] == [];
    }
  }

  /** A walk that ends with no errors has applied exactly the flat list. */
  lemma {:induction false} WalkIsFlat(
      w: Words, text: string, i: nat, abi: string, level: nat, inAbi: bool, unknown: nat, st: State)
    requires i <= |text| && level <= MAX_NEST_LEVEL
    requires var r := Walk(w, text, i, abi, level, inAbi, unknown, st); r.errs == 0 && !r.Stopped()
    ensures Applied(st.conf, Flatten(w, text, i, abi, level, inAbi),
                    Walk(w, text, i, abi, level, inAbi, unknown, st).conf)
    decreases MAX_NEST_LEVEL + 1 - level, |text| - i, 0
  {
    var end := LineEnd(text, i, PARSE_LIMIT);
    WalkLineIsFlat(w, text, ParseLine(w, LineAt(text, i, end)), end, abi, level, inAbi, unknown, st);
  }

  lemma {:induction false} WalkLineIsFlat(
      w: Words, text: string, line: Line, end: nat, abi: string, level: nat, inAbi: bool, unknown: nat, st: State)
    requires 0 < end <= |text| && level <= MAX_NEST_LEVEL
    requires var r := WalkLine(w, text, line, end, abi, level, inAbi, unknown, st); r.errs == 0 && !r.Stopped()
    ensures Applied(st.conf, FlattenLine(w, text, line, end, abi, level, inAbi),
                    WalkLine(w, text, line, end, abi, level, inAbi, unknown, st).conf)
    decreases MAX_NEST_LEVEL + 1 - level, |text| - end, 4
  {
    if line.BeginAbi? {
      WalkIsFlat(w, text, end, abi, level, line.abi == abi, unknown, Open(st, abi, line.abi, line.extra));
    } else if inAbi && line.IncludeAbi? {
      IncludeLineIsFlat(w, text, line, end, abi, level, unknown, st);
    } else if inAbi && !line.EndAbi? {
      PlainLineIsFlat(w, text, line, end, abi, level, unknown, st);
    } else if !inAbi {
      WalkIsFlat(w, text, end, abi, level, false, if line.Unknown? then unknown
        + 1 else unknown, if line.Unknown? then Bump(st, 1) else st);
    }
  }

  lemma {:induction false} IncludeLineIsFlat(
      w: Words, text: string, line: Line, end: nat, abi: string, level: nat, unknown: nat, st: State)
    requires 0 < end <= |text| && level <= MAX_NEST_LEVEL && line.IncludeAbi?
    requires var r := WalkLine(w, text, line, end, abi, level, true, unknown, st); r.errs == 0 && !r.Stopped()
    ensures Applied(st.conf, FlattenLine(w, text, line, end, abi, level, true),
                    WalkLine(w, text, line, end, abi, level, true, unknown, st).conf)
    decreases MAX_NEST_LEVEL + 1 - level, |text| - end, 3
  {
    var r, body := NestedRead(w, text, line.abi, level + 1, st), Expand(w, text, line.abi, level + 1);
    NestedIsFlat(w, text, line.abi, level + 1, st);
    IncludeIsFlat(w, text, r, body, end, abi, level, unknown, st.beginSeen, st.conf);
  }

  lemma {:induction false} NestedIsFlat(w: Words, text: string, name: string, level: nat, st: State)
    requires level <= MAX_NEST_LEVEL + 1
    ensures var r := NestedRead(w, text, name, level, st);
      !r.outcome.ReadError? && !r.state.Stopped() ==> Applied(st.conf, Expand(w, text, name, level), r.state.conf)
    decreases MAX_NEST_LEVEL + 1 - level, |text| + 1, 2
  {
    var r := NestedRead(w, text, name, level, st);
    if !r.outcome.ReadError? && !r.state.Stopped() {
      ReadIsFlat(w, text, name, level, st.(beginSeen := false));
    }
  }

  /** The walk over an includeabi: line whose read gave r, where the flat list
      of the included abi is body. */
  lemma {:induction false} IncludeIsFlat(
      w: Words, text: string, r: ReadResult, body: Option<seq<Cmd>>, end: nat, abi: string, level: nat,
      unknown: nat, beginSeen: bool, conf: Conf)
    requires end <= |text| && level <= MAX_NEST_LEVEL
    requires r.outcome.ReadError? ==> r.state.errs > 0
    requires !r.outcome.ReadError? && !r.state.Stopped() ==> Applied(conf, body, r.state.conf)
    requires var e := Resume(w, text, r, end, abi, level, unknown, beginSeen); e.errs == 0 && !e.Stopped()
    ensures Applied(conf, Join(body, Flatten(w, text, end, abi, level, true)),
                    Resume(w, text, r, end, abi, level, unknown, beginSeen).conf)
    decreases MAX_NEST_LEVEL + 1 - level, |text| - end, 2
  {
    ResumeIsFlat(w, text, r, end, abi, level, unknown, beginSeen);
    JoinApplies(conf, body, Flatten(w, text, end, abi, level, true), r.state.conf,
                Resume(w, text, r, end, abi, level, unknown, beginSeen).conf);
  }

  lemma {:induction false} ResumeIsFlat(
      w: Words, text: string, r: ReadResult, end: nat, abi: string, level: nat, unknown: nat, beginSeen: bool)
    requires end <= |text| && level <= MAX_NEST_LEVEL
    requires r.outcome.ReadError? ==> r.state.errs > 0
    requires var e := Resume(w, text, r, end, abi, level, unknown, beginSeen); e.errs == 0 && !e.Stopped()
    ensures !r.outcome.ReadError? && !r.state.Stopped()
    ensures Applied(r.state.conf, Flatten(w, text, end, abi, level, true),
                    Resume(w, text, r, end, abi, level, unknown, beginSeen).conf)
    decreases MAX_NEST_LEVEL + 1 - level, |text| - end, 1
  {
    WalkIsFlat(w, text, end, abi, level, true, unknown, r.state.(beginSeen := beginSeen));
  }

  /** Lines other than beginabi:, endabi: and includeabi:, inside the abi. */
  lemma {:induction false} PlainLineIsFlat(
      w: Words, text: string, line: Line, end: nat, abi: string, level: nat, unknown: nat, st: State)
    requires end <= |text| && level <= MAX_NEST_LEVEL
    requires !line.BeginAbi? && !line.EndAbi? && !line.IncludeAbi?
    requires var r := WalkLine(w, text, line, end, abi, level, true, unknown, st); r.errs == 0 && !r.Stopped()
    ensures Applied(st.conf, FlattenLine(w, text, line, end, abi, level, true),
                    WalkLine(w, text, line, end, abi, level, true, unknown, st).conf)
    decreases MAX_NEST_LEVEL + 1 - level, |text| - end, 2
  {
    var st' := if line.Ignored? then st else if line.Unknown? then Bump(st, 1) else Perform(w, st, line);
    WalkIsFlat(w, text, end, abi, level, true, if line.Unknown? then unknown + 1 else unknown, st');
    ApplyOne(st.conf, line);
    JoinApplies(st.conf, Some(OneCommand(line)), Flatten(w, text, end, abi, level, true), st'.conf,
                WalkLine(w, text, line, end, abi, level, true, unknown, st).conf);
  }

  /** The main result: a read that succeeds has applied the expanded command
      list of the abi to the configuration it started from. */
  lemma {:induction false} ReadIsFlat(w: Words, text: string, abi: string, level: nat, st: State)
    requires level <= MAX_NEST_LEVEL + 1
    requires var r := Read(w, text, Some(abi), level, st); r.outcome.ReadAbi? && !r.state.Stopped()
    ensures Applied(st.conf, Expand(w, text, abi, level), Read(w, text, Some(abi), level, st).state.conf)
    decreases MAX_NEST_LEVEL + 1 - level, |text| + 1, 1
  {
    var found := FindAbi(w, text, 0, Some(abi));
    var st0 := Bump(Fresh(w, text, Some(abi), st), Counted(found));
    assert Read(w, text, Some(abi), level, st) == AfterSearch(w, text, found, Some(abi), level, st0);
    WalkIsFlat(w, text, found.offset, abi, level, false, 0, st0);
  }
}
