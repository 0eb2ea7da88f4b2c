/** Which compilers are checked: what update_compiler_target decides, told by
    what was recorded and detected before. */
module CompilerTargets {
  import opened CText
  import opened CompilerSpec
  import opened CompilerLaws

  /** The names of the targeted compilers: the first 99 recorded. */
  function RecordedNames(events: seq<Event>): seq<string> {
    if events == [] then []
    else
      var names, e := RecordedNames(events[..|events| - 1]), events[|events| - 1];
      if e.Recorded? && |names| < 99 then names + [e.name] else names
  }

  /** The name stands somewhere in the producer, in any case of its letters. */
  predicate Occurs(name: string, producer: string) {
    exists i :: 0 <= i < |producer| && OccursAt(name, producer, i)
  }

  predicate OccursAt(name: string, producer: string, i: nat) {
    i + |name| <= |producer| && forall k :: 0 <= k < |name| ==> SameLetter(producer[i + k], name[k])
  }

  predicate StartsSN(producer: string) {
    |producer| >= 2 && producer[0] == 'S' && producer[1] == 'N'
  }

  predicate StartsGNU(producer: string) {
    |producer| >= 3 && producer[0] == 'G' && producer[1] == 'N' && producer[2] == 'U'
  }

  /** Whether a producer is one to check: when names are recorded, if one of
      them occurs in it; when families are picked instead, if it begins as one
      of them; otherwise always. */
  predicate ToCheck(names: seq<string>, flags: Flags, producer: string) {
    if names != [] then exists k :: 0 <= k < |names| && Occurs(names[k], producer)
    else (!flags.snc && !flags.gcc) || (flags.snc && StartsSN(producer)) || (flags.gcc && StartsGNU(producer))
  }

  /** The producer of the last detection, as far as it is kept, and what had
      been recorded by then; before any detection everything is checked. */
  predicate CheckedAfter(events: seq<Event>, flags: Flags) {
    events == [] ||
    var before, e := events[..|events| - 1], events[|events| - 1];
    if e.Detected? then ToCheck(RecordedNames(before), flags, Cut(e.producer)) else CheckedAfter(before, flags)
  }

  function Cut(producer: string): string {
    if |producer| <= 511 then producer else producer[..511]
  }

  /** Of the recorded names, name k is the first that occurs. */
  predicate Hits(names: seq<string>, k: nat, producer: string) {
    k < |names| && Occurs(names[k], producer) && forall j :: 0 <= j < k ==> !Occurs(names[j], producer)
  }

  /** Some detection so far has hit name k. */
  predicate MarkedAfter(events: seq<Event>, k: nat) {
    events != [] &&
    var before, e := events[..|events| - 1], events[|events| - 1];
    MarkedAfter(before, k) || (e.Detected? && Hits(RecordedNames(before), k, Cut(e.producer)))
  }

  lemma OccursIsContains(name: string, producer: string)
    ensures Occurs(name, producer) <==> Contains(producer, name)
  {
    forall i | 0 <= i < |producer| ensures OccursAt(name, producer, i) <==> MatchesAt(producer, i, name) {
      if i + |name| <= |producer| {
        forall k | 0 <= k < |name|
          ensures SameLetter(producer[i + k], name[k]) <==> Lower(producer[i + k]) == Lower(name[k])
        {
          FoldedIsSameLetter(producer[i + k], name[k]);
        }
      }
    }
  }

  lemma FamilyIs(flags: Flags, producer: string)
    ensures ByFamily(false, flags, producer) <==>
      (flags.snc && StartsSN(producer)) || (flags.gcc && StartsGNU(producer))
  {
    if |producer| >= 2 {
      assert producer[..2] == [producer[0], producer[1]];
    }
    if |producer| >= 3 {
      assert producer[..3] == [producer[0], producer[1], producer[2]];
    }
  }

  /** What the table keeps of the targets. */
  ghost predicate HoldsTargets(t: Table, events: seq<Event>, flags: Flags) {
    var names := RecordedNames(events);
    && |t.targeted| == |names|
    && (forall k :: 0 <= k < |names| ==> t.targeted[k].name == names[k])
    && (forall k :: 0 <= k < |names| ==> (t.targeted[k].verified <==> MarkedAfter(events, k)))
    && (t.checkAll <==> names == [] && !flags.snc && !flags.gcc)
    && (t.checked <==> CheckedAfter(events, flags))
  }

  lemma {:induction false} NotMarked(events: seq<Event>, k: nat)
    requires k >= |RecordedNames(events)|
    ensures !MarkedAfter(events, k)
    decreases |events|
  {
    if events == [] {
    } else {
      NotMarked(events[..|events| - 1], k);
    }
  }

  lemma DetectHoldsTargets(t: Table, events: seq<Event>, flags: Flags, producer: string)
    requires HoldsTargets(t, events, flags)
    ensures HoldsTargets(Detect(t, flags, producer), events + [Detected(producer)], flags)
  {
    Snoc(events, Detected(producer));
    var names, name := RecordedNames(events), Truncated(producer);
    var t' := Target(t, flags, name);
    assert name == Cut(producer);
    if names == [] {
      FamilyIs(flags, name);
    } else {
      var k := FirstTarget(t.targeted, name, 0);
      forall j | 0 <= j < |names| ensures Occurs(names[j], name) <==> Contains(name, t.targeted[j].name) {
        OccursIsContains(names[j], name);
      }
      assert k < |names| ==> Hits(names, k, name);
      forall j | 0 <= j < |names| && j != k ensures !Hits(names, j, name) {
      }
    }
    assert Detect(t, flags, producer).targeted == t'.targeted;
  }

  lemma RecordHoldsTargets(t: Table, events: seq<Event>, flags: Flags, name: string)
    requires HoldsTargets(t, events, flags)
    ensures HoldsTargets(Record(t, name), events + [Recorded(name)], flags)
  {
    Snoc(events, Recorded(name));
    NotMarked(events, |RecordedNames(events)|);
  }

  lemma OthersHoldTargets(t: Table, t': Table, events: seq<Event>, e: Event, flags: Flags)
    requires HoldsTargets(t, events, flags) && (e.Counted? || e.Reported?)
    requires t'.targeted == t.targeted && t'.checkAll == t.checkAll && t'.checked == t.checked
    ensures HoldsTargets(t', events + [e], flags)
  {
    Snoc(events, e);
  }

  /** Over every run: the targets are the names recorded, each marked exactly
      when it was the first of them to occur in some producer, and the flag that
      checking_this_compiler() returns is what the last detection makes it. */
  lemma {:induction false} TargetsOfRun(events: seq<Event>, flags: Flags)
    ensures HoldsTargets(Run(events, flags), events, flags)
    decreases |events|
  {
    if events == [] {
    } else {
      var before, e := events[..|events| - 1], events[|events| - 1];
      assert events == before + [e];
      TargetsOfRun(before, flags);
      var t := Run(before, flags);
      match e
      case Detected(producer) => DetectHoldsTargets(t, before, flags, producer);
      case Recorded(name) => RecordHoldsTargets(t, before, flags, name);
      case _ => OthersHoldTargets(t, Run(events, flags), before, e, flags);
    }
  }

  /** So one detection, after any run, checks exactly the producers to check. */
  lemma DetectionChecks(events: seq<Event>, flags: Flags, producer: string)
    ensures Run(events + [Detected(producer)], flags).checked <==>
      ToCheck(RecordedNames(events), flags, if |producer| <= 511 then producer else producer[..511])
  {
    TargetsOfRun(events + [Detected(producer)], flags);
    Snoc(events, Detected(producer));
  }
}
