/** When a read of dwarfdump.conf succeeds: exactly when no line is at fault
    that is not followed by an include, and every include succeeds. */
module ReadOutcome {
  import opened CText
  import opened DwConfText
  import opened DwConfSpec
  import opened DwConfLaws

  /** The errors that one line counts. */
  function Faults(st: State, abi: string, inAbi: bool, line: Line): nat {
    match line
    case Ignored => 0
    case Unknown => 1
    case BeginAbi(name, extra) => One(st.beginSeen) + One(name != abi || extra)
    case EndAbi(name, extra) =>
      if inAbi then One(name != abi || extra) + One(st.regcount > st.conf.tableEntryCount) else 0
    case IncludeAbi(_, extra) => One(inAbi && extra)
    case SetNumber(field, _, _) => if inAbi then One(field in st.seen) + OperandErrors(line) else 0
    case _ => if inAbi then OperandErrors(line) else 0
  }

  function One(b: bool): nat {
    if b then 1 else 0
  }

  /** A line after which the walk at its own level goes on. */
  predicate GoesOn(line: Line, inAbi: bool, unknown: nat) {
    !(inAbi && (line.EndAbi? || line.IncludeAbi?)) && !(line.Unknown? && unknown >= 2)
  }

  /** The state after such a line. */
  function Next(w: Words, st: State, abi: string, inAbi: bool, line: Line): State {
    if line.Unknown? then Bump(st, 1)
    else if line.BeginAbi? then Open(st, abi, line.abi, line.extra)
    else if inAbi && (line.Reg? || line.SetNumber? || line.OptionLine?) then Perform(w, st, line)
    else st
  }

  /** The walk from i on is without fault: it ends at endabi:, every include it
      performs is read successfully, and a line at fault is followed by an
      include that is performed.  An operand beyond its limit is never passed:
      the program has given up then. */
  predicate Passes(
      w: Words, text: string, i: nat, abi: string, level: nat, inAbi: bool, unknown: nat, st: State)
    requires i <= |text| && level <= MAX_NEST_LEVEL
    decreases MAX_NEST_LEVEL + 1 - level, |text| - i, 0
  {
    !st.Stopped() && i < |text| && ReadableAt(w, text, i) &&
    var end := LineEnd(text, i, PARSE_LIMIT);
    PassesLine(w, text, ParseLine(w, LineAt(text, i, end)), end, abi, level, inAbi, unknown, st)
  }

  predicate PassesLine(
      w: Words, text: string, line: Line, end: nat, abi: string, level: nat, inAbi: bool, unknown: nat, st: State)
    requires end <= |text| && level <= MAX_NEST_LEVEL
    decreases MAX_NEST_LEVEL + 1 - level, |text| - end, 2
  {
    if GoesOn(line, inAbi, unknown) then
      var inAbi', unknown' := if line.BeginAbi? then line.abi == abi else inAbi,
          if line.Unknown? then unknown + 1 else unknown;
      var st' := Next(w, st, abi, inAbi, line);
      && Passes(w, text, end, abi, level, inAbi', unknown', st')
      && (Faults(st, abi, inAbi, line) == 0 || Nests(w, text, end, abi, level, inAbi', unknown', st'))
    else if line.IncludeAbi? then
      && !line.extra
      && ReadPasses(w, text, line.abi, level + 1, st.(beginSeen := false))
      && PassesOn(w, text, NestedRead(w, text, line.abi, level + 1, st), end, abi, level, unknown, st.beginSeen)
    else line.EndAbi? && Faults(st, abi, inAbi, line) == 0
  }

  /** The rest of the walk after an include whose read gave r. */
  predicate PassesOn(
      w: Words, text: string, r: ReadResult, end: nat, abi: string, level: nat, unknown: nat, beginSeen: bool)
    requires end <= |text| && level <= MAX_NEST_LEVEL
    decreases MAX_NEST_LEVEL + 1 - level, |text| - end, 1
  {
    Passes(w, text, end, abi, level, true, unknown, r.state.(beginSeen := beginSeen))
  }

  /** The abi is found, not nested too deep, and its walk is without fault. */
  predicate ReadPasses(w: Words, text: string, abi: string, level: nat, st: State)
    requires level <= MAX_NEST_LEVEL + 1
    decreases MAX_NEST_LEVEL + 1 - level, |text| + 1, 0
  {
    var found := FindAbi(w, text, 0, Some(abi));
    found.FoundAt? && level <= MAX_NEST_LEVEL &&
    var st0 := Bump(Fresh(w, text, Some(abi), st), Counted(found));
    && Passes(w, text, found.offset, abi, level, false, 0, st0)
    && (!found.missed || Nests(w, text, found.offset, abi, level, false, 0, st0))
  }

  predicate Fine(st: State) {
    st.errs == 0 && !st.Stopped()
  }

  lemma NextCounts(w: Words, st: State, abi: string, inAbi: bool, unknown: nat, line: Line)
    requires GoesOn(line, inAbi, unknown) && !Next(w, st, abi, inAbi, line).Stopped()
    ensures Next(w, st, abi, inAbi, line).errs == st.errs + Faults(st, abi, inAbi, line)
  {
  }

  /** A walk ends well exactly when it passes and brings no errors along, or
      performs an include. */
  lemma {:induction false} WalkPasses(
      w: Words, text: string, i: nat, abi: string, level: nat, inAbi: bool, unknown: nat, st: State)
    requires i <= |text| && level <= MAX_NEST_LEVEL
    ensures Fine(Walk(w, text, i, abi, level, inAbi, unknown, st)) <==>
      && Passes(w, text, i, abi, level, inAbi, unknown, st)
      && (st.errs == 0 || Nests(w, text, i, abi, level, inAbi, unknown, st))
    decreases MAX_NEST_LEVEL + 1 - level, |text| - i, 0
  {
    if st.Stopped() || i == |text| || !ReadableAt(w, text, i) {
    } else {
      var end := LineEnd(text, i, PARSE_LIMIT);
      LinePasses(w, text, ParseLine(w, LineAt(text, i, end)), end, abi, level, inAbi, unknown, st);
    }
  }

  lemma {:induction false} LinePasses(
      w: Words, text: string, line: Line, end: nat, abi: string, level: nat, inAbi: bool, unknown: nat, st: State)
    requires 0 < end <= |text| && level <= MAX_NEST_LEVEL && !st.Stopped()
    ensures Fine(WalkLine(w, text, line, end, abi, level, inAbi, unknown, st)) <==>
      && PassesLine(w, text, line, end, abi, level, inAbi, unknown, st)
      && (st.errs == 0 || NestsLine(w, text, line, end, abi, level, inAbi, unknown, st))
    decreases MAX_NEST_LEVEL + 1 - level, |text| - end, 3
  {
    if GoesOn(line, inAbi, unknown) {
      PlainLinePasses(w, text, line, end, abi, level, inAbi, unknown, st);
    } else if line.IncludeAbi? && !line.extra {
      IncludeLinePasses(w, text, line, end, abi, level, unknown, st);
    }
  }

  lemma {:induction false} PlainLinePasses(
      w: Words, text: string, line: Line, end: nat, abi: string, level: nat, inAbi: bool, unknown: nat, st: State)
    requires 0 < end <= |text| && level <= MAX_NEST_LEVEL && !st.Stopped() && GoesOn(line, inAbi, unknown)
    ensures Fine(WalkLine(w, text, line, end, abi, level, inAbi, unknown, st)) <==>
      && PassesLine(w, text, line, end, abi, level, inAbi, unknown, st)
      && (st.errs == 0 || NestsLine(w, text, line, end, abi, level, inAbi, unknown, st))
    decreases MAX_NEST_LEVEL + 1 - level, |text| - end, 2
  {
    var inAbi', unknown' := if line.BeginAbi? then line.abi == abi else inAbi,
        if line.Unknown? then unknown + 1 else unknown;
    var st' := Next(w, st, abi, inAbi, line);
    WalkPasses(w, text, end, abi, level, inAbi', unknown', st');
    if !st'.Stopped() {
      NextCounts(w, st, abi, inAbi, unknown, line);
      NestsAfter(w, text, line, end, abi, level, inAbi, unknown, st);
    }
  }

  /** Whether an include follows does not depend on the errors so far. */
  lemma NestsAfter(
      w: Words, text: string, line: Line, end: nat, abi: string, level: nat, inAbi: bool, unknown: nat, st: State)
    requires 0 < end <= |text| && level <= MAX_NEST_LEVEL && !st.Stopped() && GoesOn(line, inAbi, unknown)
    requires !Next(w, st, abi, inAbi, line).Stopped()
    ensures NestsLine(w, text, line, end, abi, level, inAbi, unknown, st) ==
      Nests(w, text, end, abi, level, if line.BeginAbi? then line.abi == abi else inAbi,
            if line.Unknown? then unknown + 1 else unknown, Next(w, st, abi, inAbi, line))
  {
    if line.Unknown? || line.BeginAbi? {
      NestsIgnoresErrors(w, text, end, abi, level, if line.BeginAbi? then line.abi
        == abi else inAbi, if line.Unknown? then unknown + 1 else unknown, st, Next(w, st, abi, inAbi, line));
    }
  }

  lemma {:induction false} IncludeLinePasses(
      w: Words, text: string, line: Line, end: nat, abi: string, level: nat, unknown: nat, st: State)
    requires 0 < end <= |text| && level <= MAX_NEST_LEVEL && line.IncludeAbi? && !line.extra
    ensures Fine(WalkLine(w, text, line, end, abi, level, true, unknown, st)) <==>
      PassesLine(w, text, line, end, abi, level, true, unknown, st)
    decreases MAX_NEST_LEVEL + 1 - level, |text| - end, 2
  {
    NestedPasses(w, text, line.abi, end, abi, level, unknown, st);
  }

  /** The include itself and the rest of the walk. */
  lemma {:induction false} NestedPasses(
      w: Words, text: string, name: string, end: nat, abi: string, level: nat, unknown: nat, st: State)
    requires 0 < end <= |text| && level <= MAX_NEST_LEVEL
    ensures var r := NestedRead(w, text, name, level + 1, st);
      Fine(Resume(w, text, r, end, abi, level, unknown, st.beginSeen)) <==>
        && ReadPasses(w, text, name, level + 1, st.(beginSeen := false))
        && PassesOn(w, text, r, end, abi, level, unknown, st.beginSeen)
    decreases MAX_NEST_LEVEL + 1 - level, |text| - end, 1, 1
  {
    var r := NestedRead(w, text, name, level + 1, st);
    NestedGivesAbi(w, text, name, level + 1, st);
    ResumePasses(w, text, r, end, abi, level, unknown, st.beginSeen);
  }

  lemma {:induction false} ResumePasses(
      w: Words, text: string, r: ReadResult, end: nat, abi: string, level: nat, unknown: nat, beginSeen: bool)
    requires end <= |text| && level <= MAX_NEST_LEVEL && !r.outcome.ReadDone?
    requires (r.outcome.ReadError? ==> r.state.errs > 0) && (r.outcome.ReadAbi? ==> r.state.errs == 0)
    ensures Fine(Resume(w, text, r, end, abi, level, unknown, beginSeen)) <==>
      GivesAbi(r) && PassesOn(w, text, r, end, abi, level, unknown, beginSeen)
    decreases MAX_NEST_LEVEL + 1 - level, |text| - end, 1, 0
  {
    WalkPasses(w, text, end, abi, level, true, unknown, r.state.(beginSeen := beginSeen));
  }

  lemma {:induction false} NestedGivesAbi(w: Words, text: string, name: string, level: nat, st: State)
    requires level <= MAX_NEST_LEVEL + 1
    ensures GivesAbi(NestedRead(w, text, name, level, st))
      <==> ReadPasses(w, text, name, level, st.(beginSeen := false))
    decreases MAX_NEST_LEVEL + 1 - level, |text| + 1, 1
  {
    ReadGivesAbi(w, text, name, level, st.(beginSeen := false));
  }

  /** FOUND_ABI_START, and the program has not given up. */
  predicate GivesAbi(r: ReadResult) {
    r.outcome.ReadAbi? && !r.state.Stopped()
  }

  /** The main result: a read gives the abi, without the program giving up,
      exactly when it passes. */
  lemma {:induction false} ReadGivesAbi(w: Words, text: string, abi: string, level: nat, st: State)
    requires level <= MAX_NEST_LEVEL + 1
    ensures GivesAbi(Read(w, text, Some(abi), level, st)) <==> ReadPasses(w, text, abi, level, st)
    decreases MAX_NEST_LEVEL + 1 - level, |text| + 1, 0
  {
    var found := FindAbi(w, text, 0, Some(abi));
    var st0 := Bump(Fresh(w, text, Some(abi), st), Counted(found));
    assert Read(w, text, Some(abi), level, st) == AfterSearch(w, text, found, Some(abi), level, st0);
    if found.FoundAt? && level <= MAX_NEST_LEVEL {
      WalkPasses(w, text, found.offset, abi, level, false, 0, st0);
    }
  }
}
