/** What find_abi_start finds, told by the reads it makes. */
module DwConfSearch {
  import opened CText
  import opened DwConfText
  import opened DwConfSpec
  import opened DwConfLaws
  import opened ReadOutcome

  /** Where the reads of the search start, from i on. */
  function Reads(text: string, i: nat): (starts: seq<nat>)
    requires i <= |text|
    ensures forall j :: 0 <= j < |starts| ==> i <= starts[j] < |text|
    ensures starts == [] <==> i == |text|
    decreases |text| - i
  {
    if i == |text| then [] else [i] + Reads(text, LineEnd(text, i, FIND_LIMIT))
  }

  /** The line begins the abi that is looked for. */
  predicate Begins(w: Words, text: string, i: nat, abi: Option<string>)
    requires i < |text|
  {
    var seen := SeenAt(text, i);
    seen.word != w.optionName && seen.word == w.beginName && abi == Some(seen.operand)
  }

  /** The line is an option: line with an option that is not known. */
  predicate Refuses(w: Words, text: string, i: nat)
    requires i < |text|
  {
    var seen := SeenAt(text, i);
    seen.word == w.optionName && seen.operand != w.joinedName
  }

  /** The search is over with the read at i. */
  predicate Ends(w: Words, text: string, i: nat, abi: Option<string>)
    requires i < |text|
  {
    Begins(w, text, i, abi) || Refuses(w, text, i)
  }

  predicate AreInside(text: string, starts: seq<nat>) {
    forall j :: 0 <= j < |starts| ==> starts[j] < |text|
  }

  /** None of these reads ends the search. */
  predicate PassedOver(w: Words, text: string, starts: seq<nat>, abi: Option<string>)
    requires AreInside(text, starts)
  {
    forall j :: 0 <= j < |starts| ==> !Ends(w, text, starts[j], abi)
  }

  /** Nothing ends the search, and its last read meets the end of the file. */
  predicate RunsOut(w: Words, text: string, i: nat, abi: Option<string>)
    requires i <= |text|
  {
    var starts := Reads(text, i);
    PassedOver(w, text, starts, abi) && starts != [] && HitsEnd(text, starts[|starts| - 1], FIND_LIMIT)
  }

  /** In a list of places one is hit, and none before it is an end. */
  predicate Reaches(starts: seq<nat>, ends: nat -> bool, hit: nat -> bool) {
    exists k :: 0 <= k < |starts| && hit(starts[k]) && GoesOnTo(starts, ends, k)
  }

  predicate GoesOnTo(starts: seq<nat>, ends: nat -> bool, k: nat)
    requires k <= |starts|
  {
    forall j :: 0 <= j < k ==> !ends(starts[j])
  }

  lemma ReachesCons(i: nat, starts: seq<nat>, ends: nat -> bool, hit: nat -> bool)
    ensures Reaches([i] + starts, ends, hit) <==> hit(i) || (!ends(i) && Reaches(starts, ends, hit))
  {
    var all := [i] + starts;
    assert all[0] == i && forall j :: 0 <= j < |starts| ==> all[j + 1] == starts[j];
    if hit(i) {
      assert GoesOnTo(all, ends, 0);
    } else if Reaches(all, ends, hit) {
      var k :| 0 <= k < |all| && hit(all[k]) && GoesOnTo(all, ends, k);
      assert !ends(all[0]) && hit(starts[k - 1]) && GoesOnTo(starts, ends, k - 1);
    }
    if !ends(i) && Reaches(starts, ends, hit) {
      var k :| 0 <= k < |starts| && hit(starts[k]) && GoesOnTo(starts, ends, k);
      assert hit(all[k + 1]) && GoesOnTo(all, ends, k + 1);
    }
  }

  /** The places where a search for this abi is over. */
  function EndsOf(w: Words, text: string, abi: Option<string>): nat -> bool {
    (i: nat) => i < |text| && Ends(w, text, i, abi)
  }

  /** A read at k, and none before it that ends the search. */
  predicate IsFirst(w: Words, text: string, starts: seq<nat>, abi: Option<string>, k: nat) {
    Reaches(starts, EndsOf(w, text, abi), (i: nat) => i == k)
  }

  lemma PassedOverCons(w: Words, text: string, i: nat, starts: seq<nat>, abi: Option<string>)
    requires i < |text| && AreInside(text, starts)
    ensures PassedOver(w, text, [i] + starts, abi)
      <==> !Ends(w, text, i, abi) && PassedOver(w, text, starts, abi)
  {
    var all := [i] + starts;
    assert all[0] == i && forall j :: 0 <= j < |starts| ==> all[j + 1] == starts[j];
  }

  lemma IsFirstCons(w: Words, text: string, i: nat, starts: seq<nat>, abi: Option<string>, k: nat)
    requires i < |text|
    ensures IsFirst(w, text, [i] + starts, abi, k)
      <==> k == i || (!Ends(w, text, i, abi) && IsFirst(w, text, starts, abi, k))
  {
    ReachesCons(i, starts, EndsOf(w, text, abi), (x: nat) => x == k);
  }

  /** One turn of the search. */
  lemma SearchTurn(w: Words, text: string, i: nat, abi: Option<string>)
    requires i < |text|
    ensures var end := LineEnd(text, i, FIND_LIMIT);
      && Reads(text, i) == [i] + Reads(text, end)
      && (HitsEnd(text, i, FIND_LIMIT) ==> end == |text|)
      && FindAbi(w, text, i, abi) ==
        if Refuses(w, text, i) then FoundBadOption
        else if Begins(w, text, i, abi) then FoundAt(i, false)
        else if !HitsEnd(text, i, FIND_LIMIT) then FindAbi(w, text, end, abi)
        else if abi.None? then FoundDone else FoundAt(0, true)
  {
  }

  /** A search that runs out is the one FALSE result: for an abi, the walk then
      starts at the beginning of the file. */
  lemma {:induction false} MissesExactly(w: Words, text: string, i: nat, abi: Option<string>)
    requires i <= |text|
    ensures FindAbi(w, text, i, abi) == FoundAt(0, true) <==> abi.Some? && RunsOut(w, text, i, abi)
    decreases |text| - i
  {
    if i == |text| {
    } else {
      var more := Reads(text, LineEnd(text, i, FIND_LIMIT));
      SearchTurn(w, text, i, abi);
      PassedOverCons(w, text, i, more, abi);
      LastOfCons(i, more);
      MissesExactly(w, text, LineEnd(text, i, FIND_LIMIT), abi);
    }
  }

  lemma LastOfCons(i: nat, more: seq<nat>)
    ensures var all := [i] + more;
      all[|all| - 1] == if more == [] then i else more[|more| - 1]
  {
  }

  /** The abi is found at the first read that begins it, if no option is refused
      before. */
  lemma {:induction false} FindsExactly(w: Words, text: string, i: nat, abi: Option<string>, k: nat)
    requires i <= |text| && k < |text|
    ensures FindAbi(w, text, i, abi) == FoundAt(k, false)
      <==> IsFirst(w, text, Reads(text, i), abi, k) && Begins(w, text, k, abi)
    decreases |text| - i
  {
    if i == |text| {
    } else {
      var end := LineEnd(text, i, FIND_LIMIT);
      SearchTurn(w, text, i, abi);
      IsFirstCons(w, text, i, Reads(text, end), abi, k);
      FindsExactly(w, text, end, abi, k);
    }
  }

  /** An abi that is not found counts two errors, and one that is nested too deep
      counts one, besides that of a search that ran out. */
  lemma NotReadCounts(w: Words, text: string, abi: string, level: nat, st: State)
    requires level <= MAX_NEST_LEVEL + 1
    ensures var found, r := FindAbi(w, text, 0, Some(abi)), Read(w, text, Some(abi), level, st);
      && (!found.FoundAt? ==> r.outcome == ReadError && r.state.errs == 2 && r.state.conf == st.conf)
      && (found.FoundAt? && level > 3 ==>
        r.outcome == ReadError && r.state.errs == (if found.missed then 2 else 1) && r.state.conf == st.conf)
  {
    var found := FindAbi(w, text, 0, Some(abi));
    var st0 := Bump(Fresh(w, text, Some(abi), st), Counted(found));
    assert Read(w, text, Some(abi), level, st) == AfterSearch(w, text, found, Some(abi), level, st0);
    if found.FoundAt? && level > MAX_NEST_LEVEL {
      assert Enter(w, text, found.offset, abi, level, st0) == Bump(st0, 1);
    }
  }

  /** A search that runs out misses the abi, but the read may succeed: exactly
      when the walk from the beginning of the file passes and performs an
      include, which clears the error that the search has counted. */
  lemma MissedReadGivesAbi(w: Words, text: string, abi: string, level: nat, st: State)
    requires level <= MAX_NEST_LEVEL + 1 && RunsOut(w, text, 0, Some(abi))
    ensures GivesAbi(Read(w, text, Some(abi), level, st)) <==>
      && level <= MAX_NEST_LEVEL
      && var st0 := Bump(Fresh(w, text, Some(abi), st), 1);
      && Passes(w, text, 0, abi, level, false, 0, st0)
      && Nests(w, text, 0, abi, level, false, 0, st0)
  {
    MissesExactly(w, text, 0, Some(abi));
    ReadGivesAbi(w, text, abi, level, st);
  }

  /** Without an abi to look for the read is done, unless an option is refused. */
  lemma NoAbiIsDone(w: Words, text: string, level: nat, st: State)
    requires level <= MAX_NEST_LEVEL + 1
    ensures var r := Read(w, text, None, level, st);
      && (r.outcome == ReadDone <==> PassedOver(w, text, Reads(text, 0), None))
      && (r.outcome == ReadError <==> !PassedOver(w, text, Reads(text, 0), None))
      && r.state.conf == st.conf
      && (r.state.joined <==> st.joined || SomeAsks(w, text, Reads(text, 0), None))
  {
    NothingToFind(w, text, 0);
    SetsOptionExactly(w, text, 0, None);
  }

  lemma {:induction false} NothingToFind(w: Words, text: string, i: nat)
    requires i <= |text|
    ensures FindAbi(w, text, i, None) ==
      if PassedOver(w, text, Reads(text, i), None) then FoundDone else FoundBadOption
    decreases |text| - i
  {
    if i == |text| {
    } else {
      var more := Reads(text, LineEnd(text, i, FIND_LIMIT));
      SearchTurn(w, text, i, None);
      PassedOverCons(w, text, i, more, None);
      NothingToFind(w, text, LineEnd(text, i, FIND_LIMIT));
    }
  }

  /** The line asks for the joined format. */
  predicate AsksJoined(w: Words, text: string, i: nat)
    requires i < |text|
  {
    SeenAt(text, i) == Seen(w.optionName, w.joinedName)
  }

  function AsksOf(w: Words, text: string): nat -> bool {
    (i: nat) => i < |text| && AsksJoined(w, text, i)
  }

  /** Some read asks for it, and none before that one ends the search. */
  predicate SomeAsks(w: Words, text: string, starts: seq<nat>, abi: Option<string>) {
    Reaches(starts, EndsOf(w, text, abi), AsksOf(w, text))
  }

  lemma SomeAsksCons(w: Words, text: string, i: nat, starts: seq<nat>, abi: Option<string>)
    requires i < |text|
    ensures SomeAsks(w, text, [i] + starts, abi)
      <==> AsksJoined(w, text, i) || (!Ends(w, text, i, abi) && SomeAsks(w, text, starts, abi))
  {
    ReachesCons(i, starts, EndsOf(w, text, abi), AsksOf(w, text));
  }

  lemma OptionTurn(w: Words, text: string, i: nat, abi: Option<string>)
    requires i < |text|
    ensures FindSetsOption(w, text, i, abi) <==>
      AsksJoined(w, text, i) || (!Ends(w, text, i, abi) && FindSetsOption(w, text, LineEnd(text, i, FIND_LIMIT), abi))
  {
  }

  /** The search sets the flag of the joined format exactly when it reads an
      option: line that asks for it before it is over. */
  lemma {:induction false} SetsOptionExactly(w: Words, text: string, i: nat, abi: Option<string>)
    requires i <= |text|
    ensures FindSetsOption(w, text, i, abi) <==> SomeAsks(w, text, Reads(text, i), abi)
    decreases |text| - i
  {
    if i == |text| {
    } else {
      var end := LineEnd(text, i, FIND_LIMIT);
      SearchTurn(w, text, i, abi);
      OptionTurn(w, text, i, abi);
      SomeAsksCons(w, text, i, Reads(text, end), abi);
      SetsOptionExactly(w, text, end, abi);
    }
  }
}
