/** Laws of the dwarfdump.conf reader that go beyond one successful read. */
module DwConfLaws {
  import opened CText
  import opened DwConfText
  import opened DwConfSpec

  // ----- the error counter is reset by nested reads

  /** Whether a walk gets to an includeabi: line that it performs. */
  function Nests(w: Words, text: string, i: nat, abi: string, level: nat, inAbi: bool, unknown: nat, st: State): bool
    requires i <= |text| && level <= MAX_NEST_LEVEL
    decreases |text| - i, 0
  {
    if st.Stopped() || i == |text| || !ReadableAt(w, text, i) then false
    else
      var end := LineEnd(text, i, PARSE_LIMIT);
      NestsLine(w, text, ParseLine(w, LineAt(text, i, end)), end, abi, level, inAbi, unknown, st)
  }

  function NestsLine(
      w: Words, text: string, line: Line, end: nat, abi: string, level: nat, inAbi: bool, unknown: nat, st: State)
    : bool
    requires end <= |text| && level <= MAX_NEST_LEVEL
    decreases |text| - end, 1
  {
    if line.IncludeAbi? && inAbi then !line.extra
    else if (line.EndAbi? && inAbi) || (line.Unknown? && unknown >= 2) then false
    else
      Nests(w, text, end, abi, level, if line.BeginAbi? then line.abi == abi else inAbi,
            if line.Unknown? then unknown + 1 else unknown,
            if inAbi && (line.Reg? || line.SetNumber? || line.OptionLine?) then Perform(w, st, line) else st)
  }

  /** Nests does not look at the error count, nor at what changes it. */
  lemma {:induction false} NestsIgnoresErrors(
      w: Words, text: string, i: nat, abi: string, level: nat, inAbi: bool, unknown: nat, st: State, st': State)
    requires i <= |text| && level <= MAX_NEST_LEVEL && st.Stopped() == st'.Stopped()
    ensures Nests(w, text, i, abi, level, inAbi, unknown, st) == Nests(w, text, i, abi, level, inAbi, unknown, st')
    decreases |text| - i
  {
    if st.Stopped() || i == |text| || !ReadableAt(w, text, i) {
    } else {
      var end := LineEnd(text, i, PARSE_LIMIT);
      var line := ParseLine(w, LineAt(text, i, end));
      var inAbi' := if line.BeginAbi? then line.abi == abi else inAbi;
      var unknown' := if line.Unknown? then unknown + 1 else unknown;
      if inAbi && (line.Reg? || line.SetNumber? || line.OptionLine?) {
        NestsIgnoresErrors(w, text, end, abi, level, inAbi', unknown', Perform(w, st, line), Perform(w, st', line));
      } else {
        NestsIgnoresErrors(w, text, end, abi, level, inAbi', unknown', st, st');
      }
    }
  }

  /** The effect of n errors counted before a walk: none if the walk performs
      an include, and otherwise they are still there at its end. */
  function Carried(r: State, nests: bool, n: nat): State {
    if nests then r else Bump(r, n)
  }

  lemma {:induction false} ErrorsBeforeInclude(
      w: Words, text: string, i: nat, abi: string, level: nat, inAbi: bool, unknown: nat, st: State, n: nat)
    requires i <= |text| && level <= MAX_NEST_LEVEL
    ensures Walk(w, text, i, abi, level, inAbi, unknown, Bump(st, n))
      == Carried(Walk(w, text, i, abi, level, inAbi, unknown, st),
                 Nests(w, text, i, abi, level, inAbi, unknown, st), n)
    decreases |text| - i, 0
  {
    if st.Stopped() || i == |text| || !ReadableAt(w, text, i) {
    } else {
      var end := LineEnd(text, i, PARSE_LIMIT);
      ErrorsBeforeLine(w, text, ParseLine(w, LineAt(text, i, end)), end, abi, level, inAbi, unknown, st, n);
    }
  }

  lemma {:induction false} ErrorsBeforeLine(
      w: Words, text: string, line: Line, end: nat, abi: string, level: nat, inAbi: bool, unknown: nat, st: State,
      n: nat)
    requires end <= |text| && level <= MAX_NEST_LEVEL && !st.Stopped()
    ensures WalkLine(w, text, line, end, abi, level, inAbi, unknown, Bump(st, n))
      == Carried(WalkLine(w, text, line, end, abi, level, inAbi, unknown, st),
                 NestsLine(w, text, line, end, abi, level, inAbi, unknown, st), n)
    decreases |text| - end, 2
  {
    if line.IncludeAbi? && inAbi {
      NestedReadResets(w, text, line.abi, level + 1, st, n);
    } else if line.BeginAbi? {
      ErrorsBeforeBegin(w, text, line, end, abi, level, inAbi, unknown, st, n);
    } else if line.Unknown? {
      ErrorsBeforeUnknown(w, text, line, end, abi, level, inAbi, unknown, st, n);
    } else if !(line.EndAbi? && inAbi) {
      ErrorsBeforePlain(w, text, line, end, abi, level, inAbi, unknown, st, n);
    }
  }

  lemma {:induction false} ErrorsBeforeBegin(
      w: Words, text: string, line: Line, end: nat, abi: string, level: nat, inAbi: bool, unknown: nat, st: State,
      n: nat)
    requires end <= |text| && level <= MAX_NEST_LEVEL && !st.Stopped() && line.BeginAbi?
    ensures WalkLine(w, text, line, end, abi, level, inAbi, unknown, Bump(st, n))
      == Carried(WalkLine(w, text, line, end, abi, level, inAbi, unknown, st),
                 NestsLine(w, text, line, end, abi, level, inAbi, unknown, st), n)
    decreases |text| - end, 1
  {
    var st' := Open(st, abi, line.abi, line.extra);
    OpenKeepsBump(st, abi, line.abi, line.extra, n);
    ErrorsBeforeInclude(w, text, end, abi, level, line.abi == abi, unknown, st', n);
    NestsIgnoresErrors(w, text, end, abi, level, line.abi == abi, unknown, st', st);
  }

  lemma {:induction false} ErrorsBeforeUnknown(
      w: Words, text: string, line: Line, end: nat, abi: string, level: nat, inAbi: bool, unknown: nat, st: State,
      n: nat)
    requires end <= |text| && level <= MAX_NEST_LEVEL && !st.Stopped() && line.Unknown?
    ensures WalkLine(w, text, line, end, abi, level, inAbi, unknown, Bump(st, n))
      == Carried(WalkLine(w, text, line, end, abi, level, inAbi, unknown, st),
                 NestsLine(w, text, line, end, abi, level, inAbi, unknown, st), n)
    decreases |text| - end, 1
  {
    if unknown < 2 {
      BumpsCommute(st, n);
      ErrorsBeforeInclude(w, text, end, abi, level, inAbi, unknown + 1, Bump(st, 1), n);
      NestsIgnoresErrors(w, text, end, abi, level, inAbi, unknown + 1, Bump(st, 1), st);
    }
  }

  lemma {:induction false} ErrorsBeforePlain(
      w: Words, text: string, line: Line, end: nat, abi: string, level: nat, inAbi: bool, unknown: nat, st: State,
      n: nat)
    requires end <= |text| && level <= MAX_NEST_LEVEL && !st.Stopped()
    requires !line.BeginAbi? && !line.Unknown? && !(inAbi && (line.IncludeAbi? || line.EndAbi?))
    ensures WalkLine(w, text, line, end, abi, level, inAbi, unknown, Bump(st, n))
      == Carried(WalkLine(w, text, line, end, abi, level, inAbi, unknown, st),
                 NestsLine(w, text, line, end, abi, level, inAbi, unknown, st), n)
    decreases |text| - end, 1
  {
    if inAbi && !line.Ignored? {
      PerformKeepsBump(w, st, line, n);
      ErrorsBeforeInclude(w, text, end, abi, level, inAbi, unknown, Perform(w, st, line), n);
    } else {
      ErrorsBeforeInclude(w, text, end, abi, level, inAbi, unknown, st, n);
    }
  }

  lemma OpenKeepsBump(st: State, abi: string, begun: string, extra: bool, n: nat)
    ensures Open(Bump(st, n), abi, begun, extra) == Bump(Open(st, abi, begun, extra), n)
  {
  }

  lemma PerformKeepsBump(w: Words, st: State, line: Line, n: nat)
    requires line.Reg? || line.SetNumber? || line.OptionLine?
    ensures Perform(w, Bump(st, n), line) == Bump(Perform(w, st, line), n)
  {
  }

  lemma BumpsCommute(st: State, n: nat)
    ensures Bump(Bump(st, n), 1) == Bump(Bump(st, 1), n)
  {
  }

  lemma ReadResets(w: Words, text: string, abi: Option<string>, level: nat, st: State, n: nat)
    requires level <= MAX_NEST_LEVEL + 1
    ensures Read(w, text, abi, level, Bump(st, n)) == Read(w, text, abi, level, st)
  {
  }

  lemma NestedReadResets(w: Words, text: string, name: string, level: nat, st: State, n: nat)
    requires level <= MAX_NEST_LEVEL + 1
    ensures NestedRead(w, text, name, level, Bump(st, n)) == NestedRead(w, text, name, level, st)
  {
    ReadResets(w, text, Some(name), level, st.(beginSeen := false), n);
    assert Bump(st, n).(beginSeen := false) == Bump(st.(beginSeen := false), n);
  }

  // ----- texts that are never read past their lines

  /** A text without a line that is cut behind its command word is read to the
      end without a stale character, whatever is looked for. */
  lemma {:induction false} ReadableIsNeverStale(
      w: Words, text: string, abi: Option<string>, level: nat, st: State)
    requires level <= MAX_NEST_LEVEL + 1 && Readable(w, text) && !st.stop.Stale?
    ensures !Read(w, text, abi, level, st).state.stop.Stale?
    decreases MAX_NEST_LEVEL + 1 - level, |text| + 1, 1
  {
    var found := FindAbi(w, text, 0, abi);
    var st0 := Bump(Fresh(w, text, abi, st), Counted(found));
    assert Read(w, text, abi, level, st) == AfterSearch(w, text, found, abi, level, st0);
    if found.FoundAt? {
      EnterIsNeverStale(w, text, found.offset, abi.value, level, st0);
    }
  }

  lemma {:induction false} EnterIsNeverStale(
      w: Words, text: string, offset: nat, abi: string, level: nat, st: State)
    requires offset <= |text| && level <= MAX_NEST_LEVEL + 1 && Readable(w, text) && !st.stop.Stale?
    ensures !Enter(w, text, offset, abi, level, st).stop.Stale?
    decreases MAX_NEST_LEVEL + 1 - level, |text| + 1, 0
  {
    if level > MAX_NEST_LEVEL {
    } else {
      WalkIsNeverStale(w, text, offset, abi, level, false, 0, st);
    }
  }

  lemma {:induction false} WalkIsNeverStale(
      w: Words, text: string, i: nat, abi: string, level: nat, inAbi: bool, unknown: nat, st: State)
    requires i <= |text| && level <= MAX_NEST_LEVEL && Readable(w, text) && !st.stop.Stale?
    ensures !Walk(w, text, i, abi, level, inAbi, unknown, st).stop.Stale?
    decreases MAX_NEST_LEVEL + 1 - level, |text| - i, 0
  {
    if st.Stopped() || i == |text| {
    } else {
      var end := LineEnd(text, i, PARSE_LIMIT);
      assert ReadableAt(w, text, i);
      LineIsNeverStale(w, text, ParseLine(w, LineAt(text, i, end)), end, abi, level, inAbi, unknown, st);
    }
  }

  lemma {:induction false} LineIsNeverStale(
      w: Words, text: string, line: Line, end: nat, abi: string, level: nat, inAbi: bool, unknown: nat, st: State)
    requires 0 < end <= |text| && level <= MAX_NEST_LEVEL && Readable(w, text) && !st.stop.Stale?
    ensures !WalkLine(w, text, line, end, abi, level, inAbi, unknown, st).stop.Stale?
    decreases MAX_NEST_LEVEL + 1 - level, |text| - end, 2
  {
    if line.IncludeAbi? && inAbi && !line.extra {
      IncludeIsNeverStale(w, text, line.abi, end, abi, level, unknown, st);
    } else if line.BeginAbi? {
      WalkIsNeverStale(w, text, end, abi, level, line.abi == abi, unknown, Open(st, abi, line.abi, line.extra));
    } else if line.Unknown? {
      WalkIsNeverStale(w, text, end, abi, level, inAbi, unknown + 1, Bump(st, 1));
    } else if inAbi && (line.Reg? || line.SetNumber? || line.OptionLine?) {
      WalkIsNeverStale(w, text, end, abi, level, inAbi, unknown, Perform(w, st, line));
    } else {
      WalkIsNeverStale(w, text, end, abi, level, inAbi, unknown, st);
    }
  }

  lemma {:induction false} IncludeIsNeverStale(
      w: Words, text: string, name: string, end: nat, abi: string, level: nat, unknown: nat, st: State)
    requires 0 < end <= |text| && level <= MAX_NEST_LEVEL && Readable(w, text) && !st.stop.Stale?
    ensures !Resume(w, text, NestedRead(w, text, name, level + 1, st), end, abi, level, unknown, st.beginSeen)
            .stop.Stale?
    decreases MAX_NEST_LEVEL + 1 - level, |text| - end, 1
  {
    var r := NestedRead(w, text, name, level + 1, st);
    ReadableIsNeverStale(w, text, Some(name), level + 1, st.(beginSeen := false));
    WalkIsNeverStale(w, text, end, abi, level, true, unknown, r.state.(beginSeen := st.beginSeen));
  }

  // ----- cyclic includes

  /** The abis that the body from i on includes. */
  function Includes(w: Words, text: string, i: nat, abi: string, inAbi: bool): seq<string>
    requires i <= |text|
    decreases |text| - i
  {
    if i == |text| then []
    else
      var end := LineEnd(text, i, PARSE_LIMIT);
      var line := ParseLine(w, LineAt(text, i, end));
      if line.BeginAbi? then Includes(w, text, end, abi, line.abi == abi)
      else if !inAbi then Includes(w, text, end, abi, false)
      else if line.EndAbi? then []
      else if line.IncludeAbi? then [line.abi] + Includes(w, text, end, abi, true)
      else Includes(w, text, end, abi, true)
  }

  predicate IncludedBy(w: Words, text: string, outer: string, inner: string) {
    var found := FindAbi(w, text, 0, Some(outer));
    found.FoundAt? && inner in Includes(w, text, found.offset, outer, false)
  }

  /** Each name of the chain is included by the one before it. */
  predicate Chain(w: Words, text: string, names: seq<string>) {
    forall k :: 0 <= k < |names| - 1 ==> IncludedBy(w, text, names[k], names[k + 1])
  }

  lemma {:induction false} FlattenExpandsIncludes(
      w: Words, text: string, i: nat, abi: string, level: nat, inAbi: bool, inner: string)
    requires i <= |text| && level <= MAX_NEST_LEVEL
    requires Flatten(w, text, i, abi, level, inAbi).Some? && inner in Includes(w, text, i, abi, inAbi)
    ensures Expand(w, text, inner, level + 1).Some?
    decreases |text| - i
  {
    var end := LineEnd(text, i, PARSE_LIMIT);
    var line := ParseLine(w, LineAt(text, i, end));
    if line.BeginAbi? {
      FlattenExpandsIncludes(w, text, end, abi, level, line.abi == abi, inner);
    } else if !inAbi {
      FlattenExpandsIncludes(w, text, end, abi, level, false, inner);
    } else if !(line.IncludeAbi? && line.abi == inner) {
      FlattenExpandsIncludes(w, text, end, abi, level, true, inner);
    }
  }

  /** An expansion bounds every chain of includes below it. */
  lemma {:induction false} ChainIsBounded(w: Words, text: string, names: seq<string>, level: nat)
    requires names != [] && Chain(w, text, names) && level <= MAX_NEST_LEVEL + 1
    requires Expand(w, text, names[0], level).Some?
    ensures level + |names| <= 4
    decreases |names|
  {
    if |names| <= 1 {
    } else {
      assert IncludedBy(w, text, names[0], names[1]);
      var found := FindAbi(w, text, 0, Some(names[0]));
      FlattenExpandsIncludes(w, text, found.offset, names[0], level, false, names[1]);
      assert Chain(w, text, names[1..]) by {
        forall k | 0 <= k < |names| - 2 ensures IncludedBy(w, text, names[1..][k], names[1..][k + 1]) {
          assert IncludedBy(w, text, names[k + 1], names[k + 2]);
        }
      }
      ChainIsBounded(w, text, names[1..], level + 1);
    }
  }

  /** A chain that returns to its start can be gone round again. */
  lemma Around(w: Words, text: string, loop: seq<string>, tail: seq<string>)
    requires |loop| >= 2 && loop[0] == loop[|loop| - 1] && Chain(w, text, loop)
    requires tail != [] && tail[0] == loop[0] && Chain(w, text, tail)
    ensures Chain(w, text, loop[..|loop| - 1] + tail)
  {
    var names := loop[..|loop| - 1] + tail;
    var m := |loop| - 1;
    forall k | 0 <= k < |names| - 1 ensures IncludedBy(w, text, names[k], names[k + 1]) {
      if k < m {
        assert IncludedBy(w, text, loop[k], loop[k + 1]);
        assert names[k + 1] == loop[k + 1];
      } else {
        assert IncludedBy(w, text, tail[k - m], tail[k - m + 1]);
      }
    }
  }

  /** An abi whose includes lead back to itself is never read successfully: in
      a chain from start into a loop, no read of start gives ReadAbi. */
  lemma CyclicAbiIsNeverRead(w: Words, text: string, path: seq<string>, loop: seq<string>, st: State)
    requires |loop| >= 2 && loop[0] == loop[|loop| - 1] && Chain(w, text, loop)
    requires path != [] && path[|path| - 1] == loop[0] && Chain(w, text, path)
    ensures var r := Read(w, text, Some(path[0]), 0, st); r.outcome.ReadError? || r.state.Stopped()
  {
    var r := Read(w, text, Some(path[0]), 0, st);
    if !r.outcome.ReadError? && !r.state.Stopped() {
      ReadIsFlat(w, text, path[0], 0, st);
      var twice := loop[..|loop| - 1] + loop;
      Around(w, text, loop, loop);
      var four := loop[..|loop| - 1] + twice;
      assert twice[0] == loop[0];
      Around(w, text, loop, twice);
      var more := loop[..|loop| - 1] + four;
      assert four[0] == loop[0];
      Around(w, text, loop, four);
      assert more[0] == loop[0] && |more| >= 5;
      var names := path[..|path| - 1] + more;
      forall k | 0 <= k < |names| - 1 ensures IncludedBy(w, text, names[k], names[k + 1]) {
        var m := |path| - 1;
        if k < m {
          assert IncludedBy(w, text, path[k], path[k + 1]);
          assert names[k + 1] == path[k + 1];
        } else {
          assert IncludedBy(w, text, more[k - m], more[k - m + 1]);
        }
      }
      assert names[0] == path[0];
      ChainIsBounded(w, text, names, 0);
    }
  }

  // ----- the register table

  /** The name last given to register n, if any command gives it one. */
  function LastName(cmds: seq<Cmd>, n: nat): Option<string> {
    if cmds == [] then None
    else
      var last := cmds[|cmds| - 1];
      if last.SetReg? && last.n == n then Some(last.name) else LastName(cmds[..|cmds| - 1], n)
  }

  predicate Names(cmds: seq<Cmd>) {
    exists k :: 0 <= k < |cmds| && cmds[k].SetReg?
  }

  /** The table is a sparse map: as long as no register is named it is the
      built-in one, and after that entry n is the last name given to n, every
      other entry is empty, and the table reaches past every named register. */
  predicate IsSparseMap(regs: RegTable, cmds: seq<Cmd>) {
    if !Names(cmds) then regs == Generic
    else
      && regs.Named?
      && (forall n :: 0 <= n < |regs.names| ==> regs.names[n] == LastName(cmds, n))
      && (forall k :: 0 <= k < |cmds| && cmds[k].SetReg? ==> cmds[k].n < |regs.names|)
  }

  lemma {:induction false} ApplySnoc(conf: Conf, cmds: seq<Cmd>, cmd: Cmd)
    ensures ApplyAll(conf, cmds + [cmd]) == ApplyCmd(ApplyAll(conf, cmds), cmd)
  {
    ApplyConcat(conf, cmds, [cmd]);
    assert [cmd][1..] == [];
  }

  lemma {:induction false} NotNamed(cmds: seq<Cmd>, n: nat)
    requires forall k :: 0 <= k < |cmds| && cmds[k].SetReg? ==> cmds[k].n != n
    ensures LastName(cmds, n).None?
    decreases |cmds|
  {
    if cmds == [] {
    } else {
      NotNamed(cmds[..|cmds| - 1], n);
    }
  }

  lemma SparseStep(regs: RegTable, cmds: seq<Cmd>, name: string, m: nat)
    requires IsSparseMap(regs, cmds)
    ensures IsSparseMap(AddName(regs, name, m), cmds + [SetReg(name, m)])
  {
    var more := cmds + [SetReg(name, m)];
    var regs' := AddName(regs, name, m);
    assert more[|cmds|].SetReg?;
    assert more[..|more| - 1] == cmds;
    forall n | 0 <= n < |regs'.names| ensures regs'.names[n] == LastName(more, n) {
      if n != m {
        if regs.Generic? || n >= |regs.names| {
          NotNamed(cmds, n);
        }
      }
    }
    forall k | 0 <= k < |more| && more[k].SetReg? ensures more[k].n < |regs'.names| {
      if k < |cmds| {
        assert cmds[k].SetReg?;
      }
    }
  }

  /** The register table after any list of commands from the defaults. */
  lemma {:induction false} TableIsSparseMap(cmds: seq<Cmd>)
    ensures IsSparseMap(ApplyAll(DEFAULTS, cmds).regs, cmds)
    decreases |cmds|
  {
    if cmds == [] {
    } else {
      var front, last := cmds[..|cmds| - 1], cmds[|cmds| - 1];
      assert cmds == front + [last];
      TableIsSparseMap(front);
      ApplySnoc(DEFAULTS, front, last);
      if last.SetReg? {
        SparseStep(ApplyAll(DEFAULTS, front).regs, front, last.name, last.n);
      } else {
        FieldStep(ApplyAll(DEFAULTS, front).regs, front, last);
      }
    }
  }

  lemma FieldStep(regs: RegTable, cmds: seq<Cmd>, last: Cmd)
    requires IsSparseMap(regs, cmds) && !last.SetReg?
    ensures IsSparseMap(regs, cmds + [last])
  {
    var more := cmds + [last];
    assert more[..|more| - 1] == cmds;
    assert Names(more) <==> Names(cmds) by {
      if Names(cmds) {
        var k :| 0 <= k < |cmds| && cmds[k].SetReg?;
        assert more[k].SetReg?;
      }
    }
  }

  // ----- the numeric fields

  /** The value last given to a field, or its value before. */
  function LastValue(cmds: seq<Cmd>, field: Field, before: nat): nat {
    if cmds == [] then before
    else
      var last := cmds[|cmds| - 1];
      if last.SetField? && last.field == field then last.value
      else LastValue(cmds[..|cmds| - 1], field, before)
  }

  lemma {:induction false} FieldIsLastValue(conf: Conf, cmds: seq<Cmd>, field: Field)
    ensures ApplyAll(conf, cmds).Get(field) == LastValue(cmds, field, conf.Get(field))
    decreases |cmds|
  {
    if cmds == [] {
    } else {
      var front, last := cmds[..|cmds| - 1], cmds[|cmds| - 1];
      assert cmds == front + [last];
      FieldIsLastValue(conf, front, field);
      ApplySnoc(conf, front, last);
    }
  }

  /** A successful outermost read, field by field and register by register. */
  lemma SuccessfulRead(w: Words, text: string, abi: string, st: State)
    requires st.conf == DEFAULTS
    requires var r := Read(w, text, Some(abi), 0, st); r.outcome.ReadAbi? && !r.state.Stopped()
    ensures var flat := Expand(w, text, abi, 0); var conf := Read(w, text, Some(abi), 0, st).state.conf;
      && flat.Some?
      && IsSparseMap(conf.regs, flat.value)
      && forall field :: conf.Get(field) == LastValue(flat.value, field, DEFAULTS.Get(field))
  {
    ReadIsFlat(w, text, abi, 0, st);
    var cmds := Expand(w, text, abi, 0).value;
    TableIsSparseMap(cmds);
    forall field ensures ApplyAll(DEFAULTS, cmds).Get(field) == LastValue(cmds, field, DEFAULTS.Get(field)) {
      FieldIsLastValue(DEFAULTS, cmds, field);
    }
  }
}
