/** Laws over whole runs: nothing counted is lost, and every count is on the
    compiler it was made for until a report finds the current one out of place. */
module CompilerLaws {
  import opened CText
  import opened CompilerSpec
  import QSort

  datatype Event =
    | Detected(producer: string)
    | Counted(cat: Category, kind: Kind, inc: int)
    | Recorded(name: string)
    | Reported

  /** Before any producer is detected: nothing counted, all compilers checked
      unless the command line has picked a family. */
  function Initial(flags: Flags): Table {
    Table(EMPTY, [], [], -1, true, !flags.snc && !flags.gcc)
  }

  function Step(t: Table, flags: Flags, e: Event): (t': Table)
    requires InUse(t)
    ensures InUse(t')
  {
    match e
    case Detected(producer) => Detect(t, flags, producer)
    case Counted(cat, kind, inc) => Count(t, cat, kind, inc)
    case Recorded(name) => Record(t, name)
    case Reported =>
      CompareIsOrder();
      QSort.SortIsSort(LessEq(), t.detected);
      Report(t)
  }

  function Run(events: seq<Event>, flags: Flags): (t: Table)
    ensures InUse(t)
  {
    if events == [] then Initial(flags)
    else Step(Run(events[..|events| - 1], flags), flags, events[|events| - 1])
  }

  // What happened, told without the table.

  /** The names that have an entry: the first 99 distinct ones. */
  function Taken(events: seq<Event>): seq<string> {
    if events == [] then []
    else
      var taken, e := Taken(events[..|events| - 1]), events[|events| - 1];
      if e.Detected? && Truncated(e.producer) !in taken && |taken| < 99
      then taken + [Truncated(e.producer)] else taken
  }

  /** Who is being counted for: the last detected producer that has an entry. */
  function Owner(events: seq<Event>): Option<string> {
    if events == [] then None
    else
      var e := events[|events| - 1];
      if e.Detected? && Truncated(e.producer) in Taken(events) then Some(Truncated(e.producer))
      else Owner(events[..|events| - 1])
  }

  /** What one event adds in a category; everything adds to the total. */
  function Amount(e: Event, cat: Category, kind: Kind): int {
    if e.Counted? && e.kind == kind && (cat == TOTAL || e.cat == cat) then e.inc else 0
  }

  function CountedInAll(events: seq<Event>, cat: Category, kind: Kind): int {
    if events == [] then 0
    else CountedInAll(events[..|events| - 1], cat, kind) + Amount(events[|events| - 1], cat, kind)
  }

  /** What was counted while the owner was the given one. */
  function Charged(events: seq<Event>, owner: Option<string>, cat: Category, kind: Kind): int {
    if events == [] then 0
    else
      var before, e := events[..|events| - 1], events[|events| - 1];
      Charged(before, owner, cat, kind) + if Owner(before) == owner then Amount(e, cat, kind) else 0
  }

  /** A check was counted while the owner was the given one. */
  predicate CheckCharged(events: seq<Event>, owner: Option<string>) {
    events != [] &&
    var before, e := events[..|events| - 1], events[|events| - 1];
    CheckCharged(before, owner) || (e.Counted? && e.kind == Checks && Owner(before) == owner)
  }

  /** Nobody counts in the total itself. */
  predicate Proper(events: seq<Event>) {
    forall i :: 0 <= i < |events| ==> events[i].Counted? ==> events[i].cat != TOTAL
  }

  // Counting for one compiler.

  /** The sum of the first n categories, the total left out. */
  function RowSum(c: Compiler, kind: Kind, n: nat): int
    requires n <= LAST_CATEGORY
  {
    if n == 0 then 0
    else RowSum(c, kind, n - 1) + if n - 1 == TOTAL then 0 else c.results[n - 1].Of(kind)
  }

  ghost predicate TotalIsSum(c: Compiler) {
    forall kind :: c.results[TOTAL].Of(kind) == RowSum(c, kind, LAST_CATEGORY)
  }

  lemma CountForAdds(c: Compiler, e: Event, cat: Category, kind: Kind)
    requires e.Counted? && e.cat != TOTAL
    ensures CountFor(c, e.cat, e.kind, e.inc).results[cat].Of(kind) == c.results[cat].Of(kind) + Amount(e, cat, kind)
  {
  }

  lemma {:induction false} RowSumCounts(c: Compiler, cat: Category, kind: Kind, inc: int, k: Kind, n: nat)
    requires n <= LAST_CATEGORY
    ensures RowSum(CountFor(c, cat, kind, inc), k, n) ==
            RowSum(c, k, n) + if cat != TOTAL && cat < n && k == kind then inc else 0
  {
    if n == 0 {
    } else {
      RowSumCounts(c, cat, kind, inc, k, n - 1);
    }
  }

  /** The total row stays the sum of the others exactly when the count is not
      made in the total itself (or counts nothing). */
  lemma CountingKeepsTotal(c: Compiler, cat: Category, kind: Kind, inc: int)
    requires TotalIsSum(c)
    ensures TotalIsSum(CountFor(c, cat, kind, inc)) <==> cat != TOTAL || inc == 0
  {
    var c' := CountFor(c, cat, kind, inc);
    forall k ensures RowSum(c', k, LAST_CATEGORY) == RowSum(c, k, LAST_CATEGORY) + if cat != TOTAL
        && k == kind then inc else 0 {
      RowSumCounts(c, cat, kind, inc, k, LAST_CATEGORY);
    }
    assert c'.results[TOTAL].Of(kind) == c.results[TOTAL].Of(kind) + inc + if cat == TOTAL then inc else 0;
  }

  lemma {:induction false} EmptySum(name: string, verified: bool, kind: Kind, n: nat)
    requires n <= LAST_CATEGORY
    ensures RowSum(Compiler(name, verified, ZERO), kind, n) == 0
  {
    if n == 0 {
    } else {
      EmptySum(name, verified, kind, n - 1);
    }
  }

  lemma {:induction false} SumIgnoresName(c: Compiler, d: Compiler, kind: Kind, n: nat)
    requires n <= LAST_CATEGORY && c.results == d.results
    ensures RowSum(c, kind, n) == RowSum(d, kind, n)
  {
    if n == 0 {
    } else {
      SumIgnoresName(c, d, kind, n - 1);
    }
  }

  // Sums over the detected compilers.

  function Sum(s: seq<Compiler>, cat: Category, kind: Kind): int {
    if s == [] then 0 else Sum(s[..|s| - 1], cat, kind) + s[|s| - 1].results[cat].Of(kind)
  }

  lemma {:induction false} SumUpdated(s: seq<Compiler>, k: nat, c: Compiler, cat: Category, kind: Kind)
    requires k < |s|
    ensures Sum(s[k := c], cat, kind) == Sum(s, cat, kind) - s[k].results[cat].Of(kind) + c.results[cat].Of(kind)
  {
    var n := |s| - 1;
    if k < n {
      SumUpdated(s[..n], k, c, cat, kind);
      assert s[k := c][..n] == s[..n][k := c];
    } else {
      assert s[k := c][..n] == s[..n];
    }
  }

  lemma {:induction false} SumSplit(s: seq<Compiler>, u: seq<Compiler>, cat: Category, kind: Kind)
    ensures Sum(s + u, cat, kind) == Sum(s, cat, kind) + Sum(u, cat, kind)
  {
    if u == [] {
      assert s + u == s;
    } else {
      SumSplit(s, u[..|u| - 1], cat, kind);
      assert (s + u)[..|s + u| - 1] == s + u[..|u| - 1];
    }
  }

  lemma Without(front: seq<Compiler>, c: Compiler, left: seq<Compiler>, right: seq<Compiler>)
    requires multiset(front + [c]) == multiset(left + ([c] + right))
    ensures multiset(front) == multiset(left + right)
  {
    assert multiset(front + [c]) == multiset(front) + multiset{c};
    assert multiset(left + ([c] + right)) == multiset(left) + multiset{c} + multiset(right);
    assert multiset(left + right) == multiset(left) + multiset(right);
    assert multiset(front) == multiset(front + [c]) - multiset{c};
  }

  /** A sum does not depend on the order. */
  lemma {:induction false} SumRearranged(s: seq<Compiler>, s': seq<Compiler>, cat: Category, kind: Kind)
    requires multiset(s) == multiset(s')
    ensures Sum(s, cat, kind) == Sum(s', cat, kind)
    decreases |s|
  {
    assert |multiset(s)| == |s| && |multiset(s')| == |s'|;
    if s == [] {
    } else {
      var front, last := s[..|s| - 1], s[|s| - 1];
      assert s == front + [last];
      assert last in multiset(s');
      var k :| 0 <= k < |s'| && s'[k] == last;
      var left, right := s'[..k], s'[k + 1..];
      assert s' == left + ([last] + right);
      Without(front, last, left, right);
      SumRearranged(front, left + right, cat, kind);
      SumSplit(left, right, cat, kind);
      SumSplit([last], right, cat, kind);
      SumSplit(left, [last] + right, cat, kind);
    }
  }

  // What every run keeps.

  /** The ledger balances: entry 0 holds all that was counted, which is what
      the compilers hold and what came before any was current. */
  ghost predicate Balanced(t: Table, events: seq<Event>) {
    forall cat: Category, kind: Kind ::
      t.all.results[cat].Of(kind) == CountedInAll(events, cat, kind) == Sum(t.detected, cat, kind)
        + Charged(events, None, cat, kind)
  }

  ghost predicate Totalled(t: Table) {
    TotalIsSum(t.all) && forall k :: 0 <= k < |t.detected| ==> TotalIsSum(t.detected[k])
  }

  predicate Distinct(t: Table) {
    QSort.DistinctBy(Named(), t.detected)
  }

  predicate NameIn(s: seq<Compiler>, name: string) {
    exists k :: 0 <= k < |s| && s[k].name == name
  }

  /** The compilers in the table are the taken names, and one is current as
      soon as there is one. */
  ghost predicate Occupied(t: Table, events: seq<Event>) {
    && |t.detected| == |Taken(events)|
    && (forall name :: name in Taken(events) <==> NameIn(t.detected, name))
    && (t.current == -1 <==> Owner(events) == None)
    && (t.current == -1 <==> t.detected == [])
  }

  ghost predicate Kept(t: Table, events: seq<Event>) {
    Balanced(t, events) && Totalled(t) && Distinct(t) && Occupied(t, events)
  }

  lemma Snoc(events: seq<Event>, e: Event)
    ensures (events + [e])[..|events + [e]| - 1] == events
  {
  }

  lemma CountKeeps(t: Table, events: seq<Event>, e: Event)
    requires InUse(t) && Kept(t, events) && e.Counted? && e.cat != TOTAL
    ensures Kept(Count(t, e.cat, e.kind, e.inc), events + [e])
  {
    Snoc(events, e);
    var t' := Count(t, e.cat, e.kind, e.inc);
    forall cat: Category, kind: Kind
      ensures t'.all.results[cat].Of(kind) == CountedInAll(events + [e], cat, kind)
      ensures CountedInAll(events + [e], cat, kind) == Sum(t'.detected, cat, kind)
        + Charged(events + [e], None, cat, kind)
    {
      CountForAdds(t.all, e, cat, kind);
      if t.current > 0 {
        var k := t.current - 1;
        CountForAdds(t.detected[k], e, cat, kind);
        SumUpdated(t.detected, k, t'.detected[k], cat, kind);
      }
    }
    CountKeepsTotalled(t, e.cat, e.kind, e.inc);
    CountKeepsNames(t, events, e);
  }

  lemma CountKeepsTotalled(t: Table, cat: Category, kind: Kind, inc: int)
    requires InUse(t) && Totalled(t) && cat != TOTAL
    ensures Totalled(Count(t, cat, kind, inc))
  {
    CountingKeepsTotal(t.all, cat, kind, inc);
    if t.current > 0 {
      var k := t.current - 1;
      var c := CountFor(t.detected[k], cat, kind, inc);
      CountingKeepsTotal(t.detected[k], cat, kind, inc);
      forall x ensures RowSum(Verified(c, kind), x, LAST_CATEGORY) == RowSum(c, x, LAST_CATEGORY) {
        SumIgnoresName(Verified(c, kind), c, x, LAST_CATEGORY);
      }
    }
  }

  lemma CountKeepsNames(t: Table, events: seq<Event>, e: Event)
    requires InUse(t) && Distinct(t) && Occupied(t, events) && e.Counted?
    ensures Distinct(Count(t, e.cat, e.kind, e.inc)) && Occupied(Count(t, e.cat, e.kind, e.inc), events + [e])
  {
    Snoc(events, e);
    var t' := Count(t, e.cat, e.kind, e.inc);
    assert |t'.detected| == |t.detected| && forall k :: 0 <= k < |t.detected| ==>
        t'.detected[k].name == t.detected[k].name;
    forall name ensures NameIn(t'.detected, name) <==> NameIn(t.detected, name) {
      if k :| 0 <= k < |t.detected| && t.detected[k].name == name {
        assert t'.detected[k].name == name;
      }
    }
  }

  lemma NameInSnoc(s: seq<Compiler>, c: Compiler, name: string)
    ensures NameIn(s + [c], name) <==> NameIn(s, name) || name == c.name
  {
    assert (s + [c])[|s|] == c;
    if k :| 0 <= k < |s| && s[k].name == name {
      assert (s + [c])[k].name == name;
    }
  }

  /** Whether a detected producer gets a new entry. */
  predicate IsNew(t: Table, name: string) {
    !NameIn(t.detected, name) && |t.detected| + 1 < COMPILER_TABLE_MAX
  }

  lemma DetectedEntries(t: Table, flags: Flags, producer: string)
    ensures var t', name := Detect(t, flags, producer), Truncated(producer);
            && t'.all == t.all
            && t'.detected == (if IsNew(t, name) then t.detected + [EMPTY.(name := name)] else t.detected)
            && t'.current == (if IsNew(t, name) then |t.detected| + 1
                              else if NameIn(t.detected, name) then IndexOf(t.detected, name, 0) + 1 else t.current)
  {
    var name := Truncated(producer);
    assert IndexOf(t.detected, name, 0) < |t.detected| <==> NameIn(t.detected, name);
  }

  /** A new name comes with nothing counted. */
  lemma NewEntrySums(t: Table, events: seq<Event>, e: Event, c: Compiler, t': Table)
    requires e.Detected? && Balanced(t, events) && Totalled(t) && c.results == ZERO
    requires t'.all == t.all && (t'.detected == t.detected || t'.detected == t.detected + [c])
    ensures Balanced(t', events + [e]) && Totalled(t')
  {
    Snoc(events, e);
    if t'.detected != t.detected {
      assert t'.detected[..|t.detected|] == t.detected;
      forall kind ensures RowSum(c, kind, LAST_CATEGORY) == 0 {
        EmptySum(c.name, c.verified, kind, LAST_CATEGORY);
      }
    }
  }

  lemma DetectOccupies(t: Table, flags: Flags, events: seq<Event>, e: Event)
    requires InUse(t) && Occupied(t, events) && e.Detected?
    ensures Occupied(Detect(t, flags, e.producer), events + [e])
  {
    Snoc(events, e);
    DetectedEntries(t, flags, e.producer);
    var c := EMPTY.(name := Truncated(e.producer));
    assert Taken(events + [e]) == if IsNew(t, c.name) then Taken(events) + [c.name] else Taken(events);
    if IsNew(t, c.name) {
      forall name ensures NameIn(t.detected + [c], name) <==> name in Taken(events) + [c.name] {
        NameInSnoc(t.detected, c, name);
      }
    }
  }

  lemma DetectKeepsDistinct(t: Table, flags: Flags, producer: string)
    requires Distinct(t)
    ensures Distinct(Detect(t, flags, producer))
  {
    DetectedEntries(t, flags, producer);
  }

  lemma DetectKeeps(t: Table, flags: Flags, events: seq<Event>, e: Event)
    requires InUse(t) && Kept(t, events) && e.Detected?
    ensures Kept(Detect(t, flags, e.producer), events + [e])
  {
    DetectedEntries(t, flags, e.producer);
    NewEntrySums(t, events, e, EMPTY.(name := Truncated(e.producer)), Detect(t, flags, e.producer));
    DetectKeepsDistinct(t, flags, e.producer);
    DetectOccupies(t, flags, events, e);
  }

  /** What the report does to the entries. */
  lemma ReportedEntries(t: Table)
    requires Distinct(t)
    ensures var s := Report(t).detected;
            && multiset(s) == multiset(t.detected) && |s| == |t.detected|
            && QSort.Sorted(LessEq(), s) && QSort.DistinctBy(Named(), s)
            && (forall x :: x in s <==> x in t.detected)
            && (forall name :: NameIn(s, name) <==> NameIn(t.detected, name))
  {
    CompareIsOrder();
    QSort.SortIsSort(LessEq(), t.detected);
    QSort.Rearranged(Named(), t.detected, Report(t).detected);
    SameNames(t.detected, Report(t).detected);
  }

  lemma ReportKeeps(t: Table, events: seq<Event>)
    requires InUse(t) && Kept(t, events)
    ensures Kept(Report(t), events + [Reported])
  {
    Snoc(events, Reported);
    var t' := Report(t);
    ReportedEntries(t);
    forall cat: Category, kind: Kind ensures Sum(t.detected, cat, kind) == Sum(t'.detected, cat, kind) {
      SumRearranged(t.detected, t'.detected, cat, kind);
    }
    forall k | 0 <= k < |t'.detected| ensures TotalIsSum(t'.detected[k]) {
      assert t'.detected[k] in t.detected;
    }
  }

  lemma SameNames(s: seq<Compiler>, s': seq<Compiler>)
    requires forall x :: x in s' <==> x in s
    ensures forall name :: NameIn(s, name) <==> NameIn(s', name)
  {
    forall name ensures NameIn(s, name) <==> NameIn(s', name) {
      if k :| 0 <= k < |s| && s[k].name == name {
        assert s[k] in s';
      }
      if k :| 0 <= k < |s'| && s'[k].name == name {
        assert s'[k] in s;
      }
    }
  }

  /** Conservation, over every run: entry 0 is all that was counted, and is
      the sum over the detected compilers plus what was counted before any was
      current; every total is the sum of its categories; names are distinct
      and at most 99. */
  lemma {:induction false} Conservation(events: seq<Event>, flags: Flags)
    requires Proper(events)
    ensures Kept(Run(events, flags), events)
    ensures |Run(events, flags).detected| <= 99
  {
    if events == [] {
      EmptyKept(flags);
    } else {
      var before, e := events[..|events| - 1], events[|events| - 1];
      assert events == before + [e];
      Conservation(before, flags);
      var t := Run(before, flags);
      match e
      case Detected(_) => DetectKeeps(t, flags, before, e);
      case Counted(_, _, _) => CountKeeps(t, before, e);
      case Recorded(_) => Snoc(before, e);
      case Reported => ReportKeeps(t, before);
    }
  }

  lemma EmptyKept(flags: Flags)
    ensures Kept(Initial(flags), [])
  {
    forall kind ensures RowSum(EMPTY, kind, LAST_CATEGORY) == 0 {
      EmptySum("", false, kind, LAST_CATEGORY);
    }
  }

  // Attribution.

  /** Every compiler holds what was counted while its producer was the owner. */
  ghost predicate HoldsCharges(s: seq<Compiler>, events: seq<Event>) {
    forall k, cat: Category, kind: Kind :: 0 <= k < |s| ==>
      s[k].results[cat].Of(kind) == Charged(events, Some(s[k].name), cat, kind)
  }

  /** And it is marked as verified exactly when one of the counts was of checks. */
  ghost predicate HoldsMarks(s: seq<Compiler>, events: seq<Event>) {
    forall k :: 0 <= k < |s| ==> (s[k].verified <==> CheckCharged(events, Some(s[k].name)))
  }

  /** The current compiler is the owner's. */
  predicate CurrentIsOwner(t: Table, events: seq<Event>)
    requires InUse(t)
  {
    Owner(events) == if t.current == -1 then None else Some(t.detected[t.current - 1].name)
  }

  ghost predicate Attributed(t: Table, events: seq<Event>) {
    InUse(t) && HoldsCharges(t.detected, events) && HoldsMarks(t.detected, events) && CurrentIsOwner(t, events)
  }

  lemma CountAttributes(t: Table, events: seq<Event>, e: Event)
    requires Attributed(t, events) && Distinct(t) && e.Counted? && e.cat != TOTAL
    ensures Attributed(Count(t, e.cat, e.kind, e.inc), events + [e])
  {
    Snoc(events, e);
    var t' := Count(t, e.cat, e.kind, e.inc);
    forall k, cat: Category, kind: Kind | 0 <= k < |t.detected|
      ensures t'.detected[k].results[cat].Of(kind) == Charged(events + [e], Some(t.detected[k].name), cat, kind)
    {
      CountForAdds(t.detected[k], e, cat, kind);
      OthersAreNotOwner(t, events, k);
    }
    forall k | 0 <= k < |t.detected|
      ensures t'.detected[k].verified <==> CheckCharged(events + [e], Some(t.detected[k].name))
    {
      OthersAreNotOwner(t, events, k);
    }
  }

  lemma OthersAreNotOwner(t: Table, events: seq<Event>, k: nat)
    requires InUse(t) && CurrentIsOwner(t, events) && Distinct(t) && k < |t.detected|
    ensures Owner(events) == Some(t.detected[k].name) <==> k == t.current - 1
  {
    if k != t.current - 1 && t.current != -1 {
      assert Named()(t.detected[k]) != Named()(t.detected[t.current - 1]);
    }
  }

  /** Nothing was charged to a name before it had an entry. */
  lemma {:induction false} NothingBeforehand(events: seq<Event>, name: string, cat: Category, kind: Kind)
    requires name !in Taken(events)
    ensures Charged(events, Some(name), cat, kind) == 0 && Owner(events) != Some(name)
    ensures !CheckCharged(events, Some(name))
  {
    if events == [] {
    } else {
      NothingBeforehand(events[..|events| - 1], name, cat, kind);
    }
  }

  lemma DetectAttributes(t: Table, flags: Flags, events: seq<Event>, e: Event)
    requires Attributed(t, events) && Occupied(t, events) && e.Detected?
    ensures Attributed(Detect(t, flags, e.producer), events + [e])
  {
    Snoc(events, e);
    DetectedEntries(t, flags, e.producer);
    var name := Truncated(e.producer);
    assert Taken(events + [e]) == if IsNew(t, name) then Taken(events) + [name] else Taken(events);
    if IsNew(t, name) {
      forall cat: Category, kind: Kind ensures Charged(events, Some(name), cat, kind) == 0 {
        NothingBeforehand(events, name, cat, kind);
      }
    }
    DetectKeepsMarks(t, flags, events, e);
  }

  lemma DetectKeepsMarks(t: Table, flags: Flags, events: seq<Event>, e: Event)
    requires HoldsMarks(t.detected, events) && Occupied(t, events) && e.Detected?
    ensures HoldsMarks(Detect(t, flags, e.producer).detected, events + [e])
  {
    Snoc(events, e);
    DetectedEntries(t, flags, e.producer);
    var name := Truncated(e.producer);
    if IsNew(t, name) {
      NothingBeforehand(events, name, TOTAL, Checks);
    }
    var s := Detect(t, flags, e.producer).detected;
    forall k | 0 <= k < |s| ensures s[k].verified <==> CheckCharged(events + [e], Some(s[k].name)) {
      assert k < |t.detected| ==> s[k] == t.detected[k];
    }
  }

  /** The compiler x is listed before c: it has more errors, or as many and the
      greater name. */
  predicate Precedes(x: Compiler, c: Compiler) {
    var xs, cs := x.results[TOTAL].errors, c.results[TOTAL].errors;
    xs > cs || (xs == cs && StrCmp(x.name, c.name) > 0)
  }

  /** How many compilers are listed before c. */
  function Ahead(s: seq<Compiler>, c: Compiler): nat {
    if s == [] then 0 else Ahead(s[..|s| - 1], c) + if Precedes(s[|s| - 1], c) then 1 else 0
  }

  /** As many compilers are to be listed before the current one as stand before
      it already. */
  predicate IsInPlace(t: Table)
    requires InUse(t)
  {
    t.current == -1 || Ahead(t.detected, t.detected[t.current - 1]) == t.current - 1
  }

  lemma PrecedesIsOrder(x: Compiler, c: Compiler)
    ensures Precedes(x, c) <==> !LessEq()(c, x)
  {
  }

  lemma {:induction false} AheadSplit(s: seq<Compiler>, u: seq<Compiler>, c: Compiler)
    ensures Ahead(s + u, c) == Ahead(s, c) + Ahead(u, c)
  {
    if u == [] {
      assert s + u == s;
    } else {
      AheadSplit(s, u[..|u| - 1], c);
      assert (s + u)[..|s + u| - 1] == s + u[..|u| - 1];
    }
  }

  /** It does not depend on the order. */
  lemma {:induction false} AheadRearranged(s: seq<Compiler>, s': seq<Compiler>, c: Compiler)
    requires multiset(s) == multiset(s')
    ensures Ahead(s, c) == Ahead(s', c)
    decreases |s|
  {
    assert |multiset(s)| == |s| && |multiset(s')| == |s'|;
    if s == [] {
    } else {
      var front, last := s[..|s| - 1], s[|s| - 1];
      assert s == front + [last];
      assert last in multiset(s');
      var k :| 0 <= k < |s'| && s'[k] == last;
      var left, right := s'[..k], s'[k + 1..];
      assert s' == left + ([last] + right);
      Without(front, last, left, right);
      AheadRearranged(front, left + right, c);
      AheadSplit(left, right, c);
      AheadSplit([last], right, c);
      AheadSplit(left, [last] + right, c);
    }
  }

  lemma {:induction false} AllAhead(s: seq<Compiler>, n: nat, c: Compiler)
    requires n <= |s|
    requires forall i :: 0 <= i < n ==> Precedes(s[i], c)
    requires forall i :: n <= i < |s| ==> !Precedes(s[i], c)
    ensures Ahead(s, c) == n
    decreases |s|
  {
    if s == [] {
    } else {
      AllAhead(s[..|s| - 1], if n == |s| then n - 1 else n, c);
    }
  }

  /** In the order of the report a compiler precedes those behind it. */
  lemma SortedPrecedes(s: seq<Compiler>, i: nat, j: nat)
    requires QSort.Sorted(LessEq(), s) && QSort.DistinctBy(Named(), s) && i < |s| && j < |s|
    ensures Precedes(s[i], s[j]) <==> i < j
  {
    PrecedesIsOrder(s[i], s[j]);
    StrCmpIsOrder(s[j].name, s[i].name, s[i].name);
    if i < j {
      assert LessEq()(s[i], s[j]) && Named()(s[i]) != Named()(s[j]);
    } else if j < i {
      assert LessEq()(s[j], s[i]);
    }
  }

  lemma SortedAhead(s: seq<Compiler>, j: nat)
    requires QSort.Sorted(LessEq(), s) && QSort.DistinctBy(Named(), s) && j < |s|
    ensures Ahead(s, s[j]) == j
  {
    forall i | 0 <= i < |s| ensures Precedes(s[i], s[j]) <==> i < j {
      SortedPrecedes(s, i, j);
    }
    AllAhead(s, j, s[j]);
  }

  /** The sort leaves the current compiler at its index exactly when it is in
      its place before. */
  lemma SortKeepsCurrent(t: Table)
    requires InUse(t) && Distinct(t) && t.current != -1
    ensures |Report(t).detected| == |t.detected|
    ensures Report(t).detected[t.current - 1].name == t.detected[t.current - 1].name <==> IsInPlace(t)
  {
    ReportedEntries(t);
    PlaceInReport(t.detected, Report(t).detected, t.current - 1);
  }

  lemma PlaceInReport(was: seq<Compiler>, s: seq<Compiler>, k: nat)
    requires multiset(s) == multiset(was) && |s| == |was| && k < |was| && was[k] in s
    requires QSort.Sorted(LessEq(), s) && QSort.DistinctBy(Named(), s)
    ensures s[k].name == was[k].name <==> Ahead(was, was[k]) == k
  {
    var c := was[k];
    var j :| 0 <= j < |s| && s[j] == c;
    SortedAhead(s, j);
    AheadRearranged(s, was, c);
    if j != k {
      assert Named()(s[j]) != Named()(s[k]);
    }
  }

  /** A report leaves the charges where they are; the current compiler is still
      the owner's exactly when it was in its place. */
  lemma ReportAttributes(t: Table, events: seq<Event>)
    requires Attributed(t, events) && Distinct(t)
    ensures |Report(t).detected| == |t.detected| && InUse(Report(t))
    ensures HoldsCharges(Report(t).detected, events + [Reported])
    ensures HoldsMarks(Report(t).detected, events + [Reported])
    ensures Attributed(Report(t), events + [Reported]) <==> IsInPlace(t)
  {
    Snoc(events, Reported);
    ReportedEntries(t);
    var s := Report(t).detected;
    forall k, cat: Category, kind: Kind | 0 <= k < |s|
      ensures s[k].results[cat].Of(kind) == Charged(events + [Reported], Some(s[k].name), cat, kind)
    {
      assert s[k] in t.detected;
    }
    forall k | 0 <= k < |s| ensures s[k].verified <==> CheckCharged(events + [Reported], Some(s[k].name)) {
      assert s[k] in t.detected;
    }
    if t.current != -1 {
      SortKeepsCurrent(t);
    }
  }

  /** Where it was not, the next count is charged to the wrong compiler. */
  lemma CountAfterMove(t: Table, events: seq<Event>, e: Event)
    requires Attributed(t, events) && Distinct(t) && !IsInPlace(t)
    requires e.Counted? && e.cat != TOTAL && e.inc != 0
    ensures InUse(Report(t))
    ensures !HoldsCharges(Count(Report(t), e.cat, e.kind, e.inc).detected, events + [Reported] + [e])
  {
    ReportAttributes(t, events);
    var t', k := Report(t), t.current - 1;
    var c := t'.detected[k];
    Snoc(events, Reported);
    Snoc(events + [Reported], e);
    CountForAdds(c, e, e.cat, e.kind);
    assert c.results[e.cat].Of(e.kind) == Charged(events + [Reported], Some(c.name), e.cat, e.kind);
    assert Count(t', e.cat, e.kind, e.inc).detected[k].name == c.name;
  }

  /** At every report so far the current compiler was in its place; so it is,
      above all, as long as there was no report. */
  ghost predicate Undisturbed(events: seq<Event>, flags: Flags) {
    forall i :: 0 <= i < |events| && events[i].Reported? ==> StaysAt(events[..i], flags)
  }

  predicate StaysAt(events: seq<Event>, flags: Flags) {
    IsInPlace(Run(events, flags))
  }

  lemma UndisturbedBefore(before: seq<Event>, e: Event, flags: Flags)
    requires Undisturbed(before + [e], flags)
    ensures Undisturbed(before, flags)
    ensures e.Reported? ==> StaysAt(before, flags)
  {
    var events := before + [e];
    assert events[|before|] == e && events[..|before|] == before;
    forall i | 0 <= i < |before| && before[i].Reported? ensures StaysAt(before[..i], flags) {
      assert events[i].Reported? && events[..i] == before[..i];
    }
  }

  /** Every compiler holds exactly its own counts as long as no report found the
      current one out of place. */
  lemma {:induction false} CountsAreAttributed(events: seq<Event>, flags: Flags)
    requires Proper(events) && Undisturbed(events, flags)
    ensures Attributed(Run(events, flags), events)
  {
    if events == [] {
    } else {
      var before, e := events[..|events| - 1], events[|events| - 1];
      assert events == before + [e];
      UndisturbedBefore(before, e, flags);
      CountsAreAttributed(before, flags);
      Conservation(before, flags);
      OneMoreAttributed(before, e, flags);
    }
  }

  lemma OneMoreAttributed(before: seq<Event>, e: Event, flags: Flags)
    requires Attributed(Run(before, flags), before) && Kept(Run(before, flags), before)
    requires (e.Counted? ==> e.cat != TOTAL) && (e.Reported? ==> StaysAt(before, flags))
    ensures Attributed(Run(before + [e], flags), before + [e])
  {
    Snoc(before, e);
    var t := Run(before, flags);
    match e
    case Detected(_) => DetectAttributes(t, flags, before, e);
    case Counted(_, _, _) => CountAttributes(t, before, e);
    case Recorded(_) =>
    case Reported => ReportAttributes(t, before);
  }

  /** Attribution survives a report exactly when the current compiler is in its
      place: as many compilers as stand before it in the table have more errors,
      or as many errors and a greater name. */
  lemma AttributionSurvives(events: seq<Event>, flags: Flags)
    requires Proper(events) && Undisturbed(events, flags)
    ensures Attributed(Run(events + [Reported], flags), events + [Reported]) <==> StaysAt(events, flags)
  {
    CountsAreAttributed(events, flags);
    Conservation(events, flags);
    Snoc(events, Reported);
    ReportAttributes(Run(events, flags), events);
  }

  lemma TwoDetected(a: string, b: string, flags: Flags)
    requires |a| < COMPILE_UNIT_NAME_LEN && |b| < COMPILE_UNIT_NAME_LEN && a != b
    ensures var t := Run([Detected(a), Detected(b)], flags);
      t.detected == [EMPTY.(name := a), EMPTY.(name := b)] && t.current == 2
  {
    var one := [Detected(a)];
    assert [Detected(a), Detected(b)] == one + [Detected(b)];
    Snoc(one, Detected(b));
    OneDetected(a, flags);
    assert Truncated(b) == b;
    DetectedEntries(Run(one, flags), flags, b);
  }

  lemma OneDetected(a: string, flags: Flags)
    requires |a| < COMPILE_UNIT_NAME_LEN
    ensures var t := Run([Detected(a)], flags);
      t.detected == [EMPTY.(name := a)] && t.current == 1
  {
    var none: seq<Event> := [];
    assert [Detected(a)] == none + [Detected(a)];
    Snoc(none, Detected(a));
    assert Run(none, flags) == Initial(flags) && Truncated(a) == a;
    DetectedEntries(Initial(flags), flags, a);
  }

  lemma TwoAhead(a: Compiler, b: Compiler)
    requires !Precedes(a, b) && !Precedes(b, b)
    ensures Ahead([a, b], b) == 0
  {
    AllAhead([a, b], 0, b);
  }

  /** It often does not: of two producers with no errors, the later name is
      sorted to the front, and the one detected last is current no longer. */
  lemma ReportMovesCurrent(a: string, b: string, flags: Flags)
    requires |a| < COMPILE_UNIT_NAME_LEN && |b| < COMPILE_UNIT_NAME_LEN && StrCmp(b, a) > 0
    ensures !StaysAt([Detected(a), Detected(b)], flags)
  {
    StrCmpIsOrder(b, a, a);
    StrCmpIsOrder(b, b, b);
    TwoDetected(a, b, flags);
    TwoAhead(EMPTY.(name := a), EMPTY.(name := b));
  }

  /** A report lists each detected producer exactly once, with what was counted
      for it and whether checks were among it, most errors first and equal
      counts by name, the greater one first. */
  lemma ReportIsTheLedger(events: seq<Event>, flags: Flags)
    requires Proper(events) && Undisturbed(events, flags)
    ensures var lines := Run(events + [Reported], flags).detected;
            && (forall i, j :: 0 <= i < j < |lines| ==> Precedes(lines[i], lines[j]) && lines[i].name != lines[j].name)
            && (forall name :: name in Taken(events) <==> NameIn(lines, name))
            && HoldsCharges(lines, events + [Reported]) && HoldsMarks(lines, events + [Reported])
  {
    var t := Run(events, flags);
    CountsAreAttributed(events, flags);
    Conservation(events, flags);
    Snoc(events, Reported);
    ReportedEntries(t);
    ReportAttributes(t, events);
    var lines := Report(t).detected;
    forall i, j | 0 <= i < j < |lines| ensures Precedes(lines[i], lines[j]) && lines[i].name != lines[j].name {
      SortedPrecedes(lines, i, j);
      assert Named()(lines[i]) != Named()(lines[j]);
    }
  }
}
