/** The static tables and the functions that update them. */
module CompilerInfo {
  import opened CText
  import opened CompilerSpec
  import opened CompilerLaws
  import QSort

  /** is_strstrnocase. */
  method IsStrStrNoCase(container: string, contained: string) returns (found: bool)
    ensures found <==> Contains(container, contained)
  {
    var ct := 0;
    while ct < |container|
      invariant 0 <= ct <= |container|
      invariant forall i :: 0 <= i < ct ==> !MatchesAt(container, i, contained)
    {
      var k := 0;
      while k < |contained| && ct + k < |container| && Lower(container[ct + k]) == Lower(contained[k])
        invariant 0 <= k <= |contained| && ct + k <= |container|
        invariant forall j :: 0 <= j < k ==> Lower(container[ct + j]) == Lower(contained[j])
      {
        k := k + 1;
      }
      if k == |contained| {
        assert MatchesAt(container, ct, contained);
        return true;
      }
      if ct + k == |container| {
        // ran out of container before contained: it cannot match later
        return false;
      }
      ct := ct + 1;
    }
    found := false;
  }

  class CompilerTables {
    const detected: array<Compiler>
    var detectedCount: nat
    const targeted: array<Compiler>
    var targetedCount: nat
    var current: int
    var checked: bool
    var checkAll: bool
    const flags: Flags

    ghost predicate Valid()
      reads this
    {
      && detected.Length == targeted.Length == COMPILER_TABLE_MAX && detected != targeted
      && detectedCount < COMPILER_TABLE_MAX && targetedCount < COMPILER_TABLE_MAX
      && (current == -1 || 1 <= current <= detectedCount)
    }

    ghost function View(): (t: Table)
      reads this, detected, targeted
      requires Valid()
      ensures InUse(t)
    {
      Table(detected[0], detected[1..detectedCount + 1], targeted[1..targetedCount + 1], current, checked, checkAll)
    }

    /** The state before main. */
    constructor (flags: Flags)
      ensures Valid() && fresh(detected) && fresh(targeted) && this.flags == flags
      ensures View() == Run([], flags)
    {
      detected := new Compiler[COMPILER_TABLE_MAX](_ => EMPTY);
      targeted := new Compiler[COMPILER_TABLE_MAX](_ => EMPTY);
      detectedCount, targetedCount, current := 0, 0, -1;
      checked, checkAll := true, !flags.snc && !flags.gcc;
      this.flags := flags;
    }

    method FindTarget(name: string) returns (index: nat)
      requires Valid()
      ensures index == FirstTarget(View().targeted, name, 0) + 1
    {
      ghost var s := View().targeted;
      index := 1;
      while index <= targetedCount
        invariant 1 <= index <= targetedCount + 1
        invariant FirstTarget(s, name, 0) == FirstTarget(s, name, index - 1)
      {
        assert s[index - 1] == targeted[index];
        var found := IsStrStrNoCase(name, targeted[index].name);
        if found {
          return;
        }
        index := index + 1;
      }
    }

    method MarkTarget(index: nat)
      requires Valid() && 1 <= index <= targetedCount
      modifies targeted
      ensures Valid()
      ensures var t := old(View());
              View() == t.(targeted := t.targeted[index - 1 := t.targeted[index - 1].(verified := true)])
    {
      ghost var s := View().targeted;
      assert s[index - 1] == targeted[index];
      targeted[index] := targeted[index].(verified := true);
      assert View().targeted == s[index - 1 := targeted[index]];
    }

    /** update_compiler_target, first half: is this a compiler to check? */
    method UpdateTarget(name: string)
      requires Valid()
      modifies this`checked, targeted
      ensures Valid() && View() == Target(old(View()), flags, name)
    {
      checked := false;
      if targetedCount > 0 {
        var index := FindTarget(name);
        if index <= targetedCount {
          MarkTarget(index);
          checked := true;
        }
      } else {
        checked := ByFamily(checkAll, flags, name);
      }
    }

    method FindDetected(name: string) returns (index: nat)
      requires Valid()
      ensures index == IndexOf(View().detected, name, 0) + 1
    {
      ghost var s := View().detected;
      index := 1;
      while index <= detectedCount
        invariant 1 <= index <= detectedCount + 1
        invariant IndexOf(s, name, 0) == IndexOf(s, name, index - 1)
      {
        assert s[index - 1] == detected[index];
        if detected[index].name == name {
          return;
        }
        index := index + 1;
      }
    }

    /** update_compiler_target, second half: which compiler is current? */
    method ChooseCurrent(name: string)
      requires Valid()
      modifies this`current, this`detectedCount, detected
      ensures Valid() && View() == Choose(old(View()), name)
    {
      var index := FindDetected(name);
      if index <= detectedCount {
        current := index;
      } else if detectedCount + 1 < COMPILER_TABLE_MAX {
        AddDetected(name);
      }
    }

    method AddDetected(name: string)
      requires Valid() && detectedCount + 1 < COMPILER_TABLE_MAX
      modifies this`current, this`detectedCount, detected
      ensures Valid()
      ensures var t := old(View());
              View() == t.(detected := t.detected + [EMPTY.(name := name)], current := |t.detected| + 1)
    {
      ghost var s := View().detected;
      detectedCount := detectedCount + 1;
      current := detectedCount;
      detected[current] := EMPTY.(name := name);
      assert View().detected == s + [EMPTY.(name := name)];
    }

    method UpdateCompilerTarget(producer: string)
      requires Valid()
      modifies this`checked, this`current, this`detectedCount, detected, targeted
      ensures Valid() && View() == Detect(old(View()), flags, producer)
    {
      var name := Truncated(producer);
      UpdateTarget(name);
      ChooseCurrent(name);
    }

    /** DWARF_CHECK_COUNT and DWARF_ERROR_COUNT. */
    method CountResult(cat: Category, kind: Kind, inc: int)
      requires Valid()
      modifies detected
      ensures Valid() && View() == Count(old(View()), cat, kind, inc)
    {
      CountAtZero(cat, kind, inc);
      if 0 < current < COMPILER_TABLE_MAX {
        ghost var s := View().detected;
        assert s[current - 1] == detected[current];
        detected[current] := Verified(CountFor(detected[current], cat, kind, inc), kind);
        assert View().detected == s[current - 1 := detected[current]];
      }
    }

    method CountAtZero(cat: Category, kind: Kind, inc: int)
      requires Valid()
      modifies detected
      ensures Valid()
      ensures var t := old(View());
              View() == t.(all := CountFor(t.all, cat, kind, inc))
    {
      ghost var s := View().detected;
      detected[0] := CountFor(detected[0], cat, kind, inc);
      assert View().detected == s;
    }

    method RecordProducer(name: string) returns (recorded: bool)
      requires Valid()
      modifies this`targetedCount, this`checkAll, targeted
      ensures Valid() && View() == Record(old(View()), name)
      ensures recorded <==> |old(View()).targeted| + 1 < COMPILER_TABLE_MAX
    {
      ghost var s := View().targeted;
      recorded := false;
      if targetedCount + 1 < COMPILER_TABLE_MAX {
        targetedCount := targetedCount + 1;
        targeted[targetedCount] := EMPTY.(name := name);
        assert View().targeted == s + [EMPTY.(name := name)];
        checkAll := false;
        recorded := true;
      }
    }

    method StoreDetected(s: seq<Compiler>)
      requires Valid() && |s| == detectedCount
      modifies detected
      ensures Valid() && View() == old(View()).(detected := s)
    {
      var k := 0;
      while k < |s|
        invariant 0 <= k <= |s| && detected[0] == old(detected[0])
        invariant detected[1..k + 1] == s[..k]
      {
        detected[k + 1] := s[k];
        k := k + 1;
      }
    }

    /** The sort at the start of print_checks_results. */
    method SortForReport()
      requires Valid()
      modifies detected
      ensures Valid() && View() == Report(old(View()))
    {
      CompareIsOrder();
      if detectedCount > 1 {
        ghost var s := View().detected;
        QSort.SortIsSort(LessEq(), s);
        StoreDetected(QSort.Sort(LessEq(), detected[1..detectedCount + 1]));
      }
    }

    /** One call in a run: the tables are what the run makes of them. */
    method Perform(e: Event, ghost events: seq<Event>)
      requires Valid() && View() == Run(events, flags)
      modifies this`checked, this`checkAll, this`current, this`detectedCount, this`targetedCount, detected, targeted
      ensures Valid() && View() == Run(events + [e], flags)
    {
      Snoc(events, e);
      match e
      case Detected(producer) => UpdateCompilerTarget(producer);
      case Counted(cat, kind, inc) => CountResult(cat, kind, inc);
      case Recorded(name) => var _ := RecordProducer(name);
      case Reported => SortForReport();
    }
  }
}
