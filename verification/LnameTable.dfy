/** The generator of dwarf_language_version_data (buildlname.c): the language
    table is checked, sorted and compiled into one grouped switch. */
module LnameTable {
  import opened CText
  import QSort

  /** struct lnsix_s. */
  datatype Entry = Entry(informal: string, name: string, value: nat, lowBound: int, scheme: string)

  const PLACEHOLDER := Entry("", "", 0, 0, "")

  // ----- qcompar

  /** The order by scheme and bound, which is what groups are made of. */
  function ComparePair(l: Entry, r: Entry): int {
    var res := StrCmp(l.scheme, r.scheme);
    if res != 0 then res else l.lowBound - r.lowBound
  }

  function QCompar(l: Entry, r: Entry): int {
    var res := ComparePair(l, r);
    if res != 0 then res else StrCmp(l.name, r.name)
  }

  function LessEq(): (Entry, Entry) -> bool {
    (l, r) => QCompar(l, r) <= 0
  }

  lemma ComparePairIsOrder(a: Entry, b: Entry, c: Entry)
    ensures ComparePair(a, b) == 0 <==> SameSwitchPart(a, b)
    ensures ComparePair(a, b) <= 0 || ComparePair(b, a) <= 0
    ensures ComparePair(a, b) <= 0 && ComparePair(b, c) <= 0 ==> ComparePair(a, c) <= 0
    ensures ComparePair(a, b) <= 0 && ComparePair(b, a) <= 0 ==> SameSwitchPart(a, b)
  {
    StrCmpIsOrder(a.scheme, b.scheme, c.scheme);
    StrCmpIsOrder(b.scheme, a.scheme, c.scheme);
    StrCmpIsOrder(b.scheme, c.scheme, a.scheme);
    StrCmpIsOrder(a.scheme, c.scheme, b.scheme);
  }

  lemma QComparIsOrder()
    ensures QSort.TotalOrder(LessEq())
  {
    forall a, b ensures LessEq()(a, b) || LessEq()(b, a) {
      ComparePairIsOrder(a, b, a);
      ComparePairIsOrder(b, a, b);
      StrCmpIsOrder(a.name, b.name, a.name);
    }
    forall a, b, c | LessEq()(a, b) && LessEq()(b, c) ensures LessEq()(a, c) {
      ComparePairIsOrder(a, b, c);
      ComparePairIsOrder(b, a, c);
      ComparePairIsOrder(b, c, a);
      ComparePairIsOrder(c, b, a);
      ComparePairIsOrder(a, c, b);
      StrCmpIsOrder(a.name, b.name, c.name);
    }
  }

  function ByName(): Entry -> string {
    (e: Entry) => e.name
  }

  function ByValue(): Entry -> int {
    (e: Entry) => e.value
  }

  /** A well-formed table: the placeholder first, then entries with distinct
      names and values and bounds that are not negative. */
  ghost predicate WellFormed(table: seq<Entry>) {
    && |table| > 1 && table[0] == PLACEHOLDER
    && QSort.DistinctBy(ByName(), table)
    && QSort.DistinctBy(ByValue(), table)
    && (forall i :: 0 <= i < |table| ==> table[i].lowBound >= 0)
  }

  /** Nothing sorts before the placeholder. */
  lemma PlaceholderIsLeast(e: Entry)
    requires e.lowBound >= 0
    ensures QCompar(PLACEHOLDER, e) <= 0
    ensures QCompar(e, PLACEHOLDER) <= 0 ==> e.name == ""
  {
    StrCmpIsOrder(e.scheme, "", "");
    StrCmpIsOrder(e.name, "", "");
  }

  /** Sorted with distinct names, the placeholder can only be first. */
  lemma LeastIsFirst(s: seq<Entry>, k: nat)
    requires 0 < k < |s| && s[0].lowBound >= 0
    requires QSort.Sorted(LessEq(), s) && QSort.DistinctBy(ByName(), s)
    ensures s[k] != PLACEHOLDER
  {
    PlaceholderIsLeast(s[0]);
    assert LessEq()(s[0], s[k]) && ByName()(s[0]) != ByName()(s[k]);
  }

  /** After the sort the placeholder is still entry 0. */
  lemma PlaceholderStaysFirst(table: seq<Entry>, s: seq<Entry>)
    requires WellFormed(table) && multiset(s) == multiset(table) && QSort.Sorted(LessEq(), s)
    ensures |s| == |table| && s[0] == PLACEHOLDER
  {
    assert |multiset(s)| == |multiset(table)|;
    QSort.Rearranged(ByName(), table, s);
    assert PLACEHOLDER in s by {
      assert table[0] in table;
    }
    var k :| 0 <= k < |s| && s[k] == PLACEHOLDER;
    assert s[0] in s;
    if k > 0 {
      LeastIsFirst(s, k);
    }
  }

  // ----- the generated switch

  predicate SameSwitchPart(l: Entry, r: Entry) {
    l.scheme == r.scheme && l.lowBound == r.lowBound
  }

  /** What a case returns; no scheme is NULL. */
  datatype Return = Return(lowerBound: int, scheme: Option<string>)

  function ReturnOf(e: Entry): Return {
    Return(e.lowBound, if e.scheme == "" then None else Some(e.scheme))
  }

  /** Consecutive case labels and the statements behind them. */
  datatype CaseGroup = CaseGroup(labels: seq<string>, ret: Return)

  /** The groups of a list of entries: runs of equal scheme and bound. */
  function Groups(es: seq<Entry>): (gs: seq<CaseGroup>)
    ensures es != [] ==> gs != []
  {
    if es == [] then []
    else
      var front, e := es[..|es| - 1], es[|es| - 1];
      var gs := Groups(front);
      if front != [] && SameSwitchPart(front[|front| - 1], e) then
        gs[|gs| - 1 := gs[|gs| - 1].(labels := gs[|gs| - 1].labels + [e.name])]
      else gs + [CaseGroup([e.name], ReturnOf(e))]
  }

  /** print_table_entries: the groups of the entries behind the placeholder. */
  method PrintTableEntries(lnsix: seq<Entry>) returns (out: seq<CaseGroup>)
    requires |lnsix| > 1
    ensures out == Groups(lnsix[1..])
  {
    out := [];
    var sublistStart := -1;
    var sublistEntry := PLACEHOLDER;
    for i := 1 to |lnsix|
      invariant i == 1 <==> sublistStart < 0
      invariant i == 1 ==> out == []
      invariant i > 1 ==> 1 <= sublistStart < i && sublistEntry == lnsix[sublistStart]
      invariant i > 1 ==> SameSwitchPart(sublistEntry, lnsix[i - 1])
      invariant i > 1 ==>
        Groups(lnsix[1..i]) == out + [CaseGroup(Labels(lnsix, sublistStart, i), ReturnOf(sublistEntry))]
    {
      GroupsStep(lnsix, i);
      OneLabel(lnsix, i);
      if sublistStart < 0 {
        sublistEntry := lnsix[i];
        sublistStart := i;
        continue;
      }
      if SameSwitchPart(sublistEntry, lnsix[i]) {
        continue;
      }
      out := out + [CaseGroup(Labels(lnsix, sublistStart, i), ReturnOf(sublistEntry))];
      sublistStart := i;
      sublistEntry := lnsix[i];
    }
    out := out + [CaseGroup(Labels(lnsix, sublistStart, |lnsix|), ReturnOf(sublistEntry))];
    assert lnsix[1..|lnsix|] == lnsix[1..];
  }

  /** How the groups of lnsix[1..i] become those of lnsix[1..i + 1]. */
  lemma GroupsStep(lnsix: seq<Entry>, i: nat)
    requires 1 <= i < |lnsix|
    ensures var e, gs := lnsix[i], Groups(lnsix[1..i]);
      Groups(lnsix[1..i + 1]) ==
        if i > 1 && SameSwitchPart(lnsix[i - 1], e) then
          gs[|gs| - 1 := gs[|gs| - 1].(labels := gs[|gs| - 1].labels + [e.name])]
        else gs + [CaseGroup([e.name], ReturnOf(e))]
  {
    var es := lnsix[1..i + 1];
    assert es[..|es| - 1] == lnsix[1..i] && es[|es| - 1] == lnsix[i];
    assert i > 1 ==> lnsix[1..i][i - 2] == lnsix[i - 1];
  }

  lemma OneLabel(lnsix: seq<Entry>, i: nat)
    requires i < |lnsix|
    ensures Labels(lnsix, i, i + 1) == [lnsix[i].name]
    ensures i == 1 ==> Groups(lnsix[1..i]) == []
  {
    assert Labels(lnsix, i, i) == [];
  }

  /** The case labels printed for the entries from one index to another. */
  function Labels(lnsix: seq<Entry>, from: int, to: nat): (r: seq<string>)
    requires 0 <= from <= to <= |lnsix|
  {
    if from == to then [] else Labels(lnsix, from, to - 1) + [lnsix[to - 1].name]
  }

  // ----- what the switch means

  /** The value dwarf.h gives to a name is the one in the table. */
  predicate NamesValue(table: seq<Entry>, word: string, v: nat) {
    exists i :: 0 <= i < |table| && table[i].name == word && table[i].value == v
  }

  predicate HasLabel(table: seq<Entry>, g: CaseGroup, v: nat) {
    exists k :: 0 <= k < |g.labels| && NamesValue(table, g.labels[k], v)
  }

  /** Running the switch: None is DW_DLV_NO_ENTRY.  Labels being distinct, the
      order of the groups does not matter. */
  function Eval(table: seq<Entry>, gs: seq<CaseGroup>, v: nat): Option<Return> {
    if gs == [] then None
    else if HasLabel(table, gs[|gs| - 1], v) then Some(gs[|gs| - 1].ret)
    else Eval(table, gs[..|gs| - 1], v)
  }

  /** What the function returns is the bound and the scheme of the entry; an
      empty scheme is returned as NULL. */
  predicate Returns(r: Option<Return>, e: Entry) {
    && r.Some? && r.value.lowerBound == e.lowBound
    && (r.value.scheme == None <==> e.scheme == "")
    && (e.scheme != "" ==> r.value.scheme == Some(e.scheme))
  }

  predicate HasValue(es: seq<Entry>, v: nat) {
    exists i :: 0 <= i < |es| && es[i].value == v
  }

  lemma OwnLabel(table: seq<Entry>, e: Entry, v: nat)
    requires QSort.DistinctBy(ByName(), table) && e in table
    ensures NamesValue(table, e.name, v) <==> e.value == v
  {
    var i :| 0 <= i < |table| && table[i] == e;
    if j :| 0 <= j < |table| && table[j].name == e.name && table[j].value == v {
      var name := ByName();
      assert name(table[i]) == name(table[j]);
    }
  }

  /** Adding a label to a group adds its value to the switch. */
  lemma LabelAdded(table: seq<Entry>, g: CaseGroup, word: string, v: nat)
    ensures HasLabel(table, g.(labels := g.labels + [word]), v) <==>
      HasLabel(table, g, v) || NamesValue(table, word, v)
  {
    var more := g.(labels := g.labels + [word]);
    if k :| 0 <= k < |g.labels| && NamesValue(table, g.labels[k], v) {
      assert NamesValue(table, more.labels[k], v);
    }
    if NamesValue(table, word, v) {
      assert NamesValue(table, more.labels[|g.labels|], v);
    }
  }

  /** One more entry makes the switch return its data at its value, and changes
      nothing at any other value. */
  lemma EvalStep(table: seq<Entry>, es: seq<Entry>, v: nat)
    requires QSort.DistinctBy(ByName(), table) && es != [] && es[|es| - 1] in table
    requires |es| > 1 ==> Groups(es[..|es| - 1])[|Groups(es[..|es| - 1])| - 1].ret == ReturnOf(es[|es| - 2])
    ensures Eval(table, Groups(es), v)
      == if es[|es| - 1].value == v then Some(ReturnOf(es[|es| - 1])) else Eval(table, Groups(es[..|es| - 1]), v)
  {
    var front, e := es[..|es| - 1], es[|es| - 1];
    var before, gs := Groups(front), Groups(es);
    OwnLabel(table, e, v);
    if front != [] && SameSwitchPart(front[|front| - 1], e) {
      var g := before[|before| - 1];
      LabelAdded(table, g, e.name, v);
      assert gs[..|gs| - 1] == before[..|before| - 1];
    } else {
      LabelAdded(table, CaseGroup([], ReturnOf(e)), e.name, v);
      assert [] + [e.name] == [e.name];
      assert gs[..|gs| - 1] == before;
    }
  }

  /** The last group returns what the last entry says. */
  lemma {:induction false} LastGroupReturn(es: seq<Entry>)
    requires es != []
    ensures Groups(es)[|Groups(es)| - 1].ret == ReturnOf(es[|es| - 1])
    decreases |es|
  {
    if |es| <= 1 {
    } else {
      LastGroupReturn(es[..|es| - 1]);
    }
  }

  /** The switch at v is the entry with value v, or no entry. */
  lemma {:induction false} EvalIsLookup(table: seq<Entry>, es: seq<Entry>, v: nat)
    requires QSort.DistinctBy(ByName(), table) && forall i :: 0 <= i < |es| ==> es[i] in table
    requires QSort.DistinctBy(ByValue(), es)
    ensures !HasValue(es, v) ==> Eval(table, Groups(es), v) == None
    ensures forall i :: 0 <= i < |es| && es[i].value == v ==> Returns(Eval(table, Groups(es), v), es[i])
    decreases |es|
  {
    if es == [] {
    } else {
      var front, last := es[..|es| - 1], es[|es| - 1];
      if front != [] {
        LastGroupReturn(front);
      }
      EvalStep(table, es, v);
      EvalIsLookup(table, front, v);
      var value := ByValue();
      assert forall i :: 0 <= i < |front| ==> front[i] == es[i] && value(es[i]) != value(last);
      if HasValue(front, v) {
        var i :| 0 <= i < |front| && front[i].value == v;
        assert es[i].value == v;
      }
    }
  }

  // ----- one label each, and as few groups as possible

  function AllLabels(gs: seq<CaseGroup>): seq<string> {
    if gs == [] then [] else AllLabels(gs[..|gs| - 1]) + gs[|gs| - 1].labels
  }

  lemma LabelsSnoc(front: seq<Entry>, e: Entry)
    ensures AllLabels(Groups(front + [e])) == AllLabels(Groups(front)) + [e.name]
  {
    var es := front + [e];
    var before, gs := Groups(front), Groups(es);
    assert es[..|es| - 1] == front;
    if front != [] && SameSwitchPart(front[|front| - 1], e) {
      assert gs[..|gs| - 1] == before[..|before| - 1];
      Assoc(AllLabels(before[..|before| - 1]), before[|before| - 1].labels, [e.name]);
    } else {
      assert gs[..|gs| - 1] == before;
    }
  }

  /** The case labels are the names, each once and in order. */
  lemma {:induction false} LabelsAreNames(es: seq<Entry>)
    ensures |AllLabels(Groups(es))| == |es|
    ensures forall i :: 0 <= i < |es| ==> AllLabels(Groups(es))[i] == es[i].name
    decreases |es|
  {
    if es == [] {
    } else {
      var front, e := es[..|es| - 1], es[|es| - 1];
      assert es == front + [e];
      LabelsAreNames(front);
      LabelsSnoc(front, e);
    }
  }

  ghost function Pairs(es: seq<Entry>): set<(string, int)> {
    set i | 0 <= i < |es| :: (es[i].scheme, es[i].lowBound)
  }

  lemma PairsSnoc(front: seq<Entry>, e: Entry)
    ensures Pairs(front + [e]) == Pairs(front) + {(e.scheme, e.lowBound)}
    ensures front != [] ==> (front[|front| - 1].scheme, front[|front| - 1].lowBound) in Pairs(front)
  {
    var es := front + [e];
    assert forall i :: 0 <= i < |front| ==> es[i] == front[i];
    assert es[|front|] == e;
  }

  lemma GroupsSnoc(front: seq<Entry>, e: Entry)
    ensures |Groups(front + [e])| == |Groups(front)| + if front != []
      && SameSwitchPart(front[|front| - 1], e) then 0 else 1
  {
    assert (front + [e])[..|front|] == front;
  }

  /** In sorted entries equal pairs are neighbours, so there is one group for
      each distinct pair of scheme and bound. */
  lemma {:induction false} OneGroupPerPair(es: seq<Entry>)
    requires QSort.Sorted(LessEq(), es)
    ensures |Groups(es)| == |Pairs(es)|
    decreases |es|
  {
    if es == [] {
    } else {
      var front, e := es[..|es| - 1], es[|es| - 1];
      assert es == front + [e];
      OneGroupPerPair(front);
      GroupsSnoc(front, e);
      PairsSnoc(front, e);
      PairIsNeighbours(front, e);
      PairCount(Pairs(front), (e.scheme, e.lowBound));
    }
  }

  lemma PairIsNeighbours(front: seq<Entry>, e: Entry)
    requires QSort.Sorted(LessEq(), front + [e])
    ensures (e.scheme, e.lowBound) in Pairs(front) <==> front != [] && SameSwitchPart(front[|front| - 1], e)
  {
    var es := front + [e];
    assert es[..|es| - 1] == front;
    PairsSnoc(front, e);
    if |es| > 1 {
      assert es[|es| - 2] == front[|front| - 1];
      NewPair(es);
    }
  }

  lemma PairCount(pairs: set<(string, int)>, p: (string, int))
    ensures |pairs + {p}| == if p in pairs then |pairs| else |pairs| + 1
  {
    if p in pairs {
      assert pairs + {p} == pairs;
    }
  }

  /** An entry whose pair differs from its neighbour's has a new pair. */
  lemma NewPair(es: seq<Entry>)
    requires QSort.Sorted(LessEq(), es) && |es| > 1
    ensures !SameSwitchPart(es[|es| - 2], es[|es| - 1]) ==>
      (es[|es| - 1].scheme, es[|es| - 1].lowBound) !in Pairs(es[..|es| - 1])
  {
    var m, e := es[|es| - 2], es[|es| - 1];
    forall i | 0 <= i < |es| - 1 && SameSwitchPart(es[i], e) ensures SameSwitchPart(m, e) {
      assert LessEq()(m, e);
      assert i < |es| - 2 ==> LessEq()(es[i], m);
      ComparePairIsOrder(es[i], m, e);
      ComparePairIsOrder(m, e, es[i]);
      ComparePairIsOrder(e, m, m);
      ComparePairIsOrder(m, es[i], e);
    }
  }

  // ----- write_new_query_function

  /** What the written switch must be for a table. */
  ghost predicate Implements(table: seq<Entry>, gs: seq<CaseGroup>)
    requires |table| >= 1
  {
    && (forall i :: 1 <= i < |table| ==> Returns(Eval(table, gs, table[i].value), table[i]))
    && (forall v :: !HasValue(table[1..], v) ==> Eval(table, gs, v) == None)
    && |gs| == |Pairs(table[1..])|
    && |AllLabels(gs)| == |table| - 1
    && (forall i, j :: 0 <= i < j < |AllLabels(gs)| ==> AllLabels(gs)[i] != AllLabels(gs)[j])
    && (forall i :: 1 <= i < |table| ==> table[i].name in AllLabels(gs))
  }

  /** The entries behind the placeholder, before and after sorting. */
  lemma SortedTail(table: seq<Entry>, s: seq<Entry>)
    requires WellFormed(table) && multiset(s) == multiset(table) && QSort.Sorted(LessEq(), s)
    ensures |s| == |table| && s[0] == PLACEHOLDER && QSort.Sorted(LessEq(), s[1..])
    ensures multiset(s[1..]) == multiset(table[1..])
    ensures forall e :: e in s[1..] <==> e in table[1..]
    ensures QSort.DistinctBy(ByName(), s[1..]) && QSort.DistinctBy(ByValue(), s[1..])
  {
    PlaceholderStaysFirst(table, s);
    SameTail(PLACEHOLDER, table, s);
    QSort.TailKept(LessEq(), ByName(), table);
    QSort.TailKept(LessEq(), ByValue(), table);
    QSort.TailKept(LessEq(), ByName(), s);
    QSort.Rearranged(ByName(), table[1..], s[1..]);
    QSort.Rearranged(ByValue(), table[1..], s[1..]);
  }

  lemma SameTail(e: Entry, table: seq<Entry>, s: seq<Entry>)
    requires |table| > 0 && |s| > 0 && table[0] == e == s[0] && multiset(s) == multiset(table)
    ensures multiset(s[1..]) == multiset(table[1..])
  {
    assert s == [s[0]] + s[1..] && table == [table[0]] + table[1..];
    assert multiset(s[1..]) == multiset(s) - multiset{e};
    assert multiset(table[1..]) == multiset(table) - multiset{e};
  }

  lemma SamePairs(a: seq<Entry>, b: seq<Entry>)
    requires forall e :: e in a <==> e in b
    ensures Pairs(a) == Pairs(b)
  {
    forall p | p in Pairs(a) ensures p in Pairs(b) {
      var i :| 0 <= i < |a| && (a[i].scheme, a[i].lowBound) == p;
      assert a[i] in b;
    }
    forall p | p in Pairs(b) ensures p in Pairs(a) {
      var i :| 0 <= i < |b| && (b[i].scheme, b[i].lowBound) == p;
      assert b[i] in a;
    }
  }

  /** The switch over any sorted rearrangement preserves the table. */
  lemma SwitchImplementsTable(table: seq<Entry>, s: seq<Entry>)
    requires WellFormed(table) && multiset(s) == multiset(table) && QSort.Sorted(LessEq(), s)
    ensures |s| > 1 && Implements(table, Groups(s[1..]))
  {
    SortedTail(table, s);
    var es, gs := s[1..], Groups(s[1..]);
    forall e | e in es ensures e in table {
      assert e in table[1..];
    }
    forall i | 1 <= i < |table| ensures Returns(Eval(table, gs, table[i].value), table[i]) {
      assert table[i] in table[1..];
      var j :| 0 <= j < |es| && es[j] == table[i];
      EvalIsLookup(table, es, table[i].value);
    }
    forall v | !HasValue(table[1..], v) ensures Eval(table, gs, v) == None {
      EvalIsLookup(table, es, v);
      forall j | 0 <= j < |es| ensures es[j].value != v {
        assert es[j] in table[1..];
      }
    }
    OneGroupPerPair(es);
    SamePairs(es, table[1..]);
    LabelsAreDistinct(table, es);
  }

  lemma LabelsAreDistinct(table: seq<Entry>, es: seq<Entry>)
    requires |es| == |table| - 1 && QSort.DistinctBy(ByName(), es)
    requires forall e :: e in es <==> e in table[1..]
    ensures var labels := AllLabels(Groups(es));
      && |labels| == |es|
      && (forall i, j :: 0 <= i < j < |labels| ==> labels[i] != labels[j])
      && (forall i :: 1 <= i < |table| ==> table[i].name in labels)
  {
    var labels := AllLabels(Groups(es));
    LabelsAreNames(es);
    var name := ByName();
    forall i, j | 0 <= i < j < |labels| ensures labels[i] != labels[j] {
      assert name(es[i]) != name(es[j]);
    }
    forall i | 1 <= i < |table| ensures table[i].name in labels {
      assert table[i] in table[1..];
      var j :| 0 <= j < |es| && es[j] == table[i];
      assert labels[j] == table[i].name;
    }
  }

  /** write_new_query_function: the table is sorted in place, then printed. */
  method WriteNewQueryFunction(lnsix: array<Entry>) returns (out: seq<CaseGroup>)
    requires WellFormed(lnsix[..])
    modifies lnsix
    ensures multiset(lnsix[..]) == multiset(old(lnsix[..])) && lnsix[0] == PLACEHOLDER
    ensures Implements(old(lnsix[..]), out)
  {
    ghost var table := lnsix[..];
    var sorted := QSort.Sort(LessEq(), lnsix[..]);
    QComparIsOrder();
    QSort.SortIsSort(LessEq(), lnsix[..]);
    forall i | 0 <= i < lnsix.Length {
      lnsix[i] := sorted[i];
    }
    assert lnsix[..] == sorted;
    PlaceholderStaysFirst(table, sorted);
    SwitchImplementsTable(table, sorted);
    out := PrintTableEntries(lnsix[..]);
  }

  // ----- check_if_lname_complete

  /** One DW_LNAME definition of dwarf.h. */
  datatype Define = Define(name: string, value: nat)

  /** The definitions are 1, 2, ... up to the last table entry, in order, and
      each is the table entry at its value. */
  predicate Matches(table: seq<Entry>, defs: seq<Define>) {
    && |defs| == |table| - 1
    && forall i :: 0 <= i < |defs| ==>
      defs[i].value == i + 1 && table[i + 1].value == i + 1 && table[i + 1].name == defs[i].name
  }

  /** validatetouchcount. */
  method ValidateTouchCount(lnsix: seq<Entry>, touchcounts: array<nat>, d: Define) returns (ok: bool)
    requires touchcounts.Length == |lnsix|
    modifies touchcounts
    ensures ok == (d.value < |lnsix| && old(touchcounts[..])[d.value] == 0
      && lnsix[d.value].value == d.value && lnsix[d.value].name == d.name)
    ensures ok ==> touchcounts[..] == old(touchcounts[..])[d.value := 1]
  {
    if d.value >= touchcounts.Length {
      return false;
    }
    if touchcounts[d.value] != 0 {
      return false;
    }
    touchcounts[d.value] := touchcounts[d.value] + 1;
    if lnsix[d.value].value != d.value {
      return false;
    }
    ok := lnsix[d.value].name == d.name;
  }

  /** validatefinaltouchcount: entry 0 is not looked at. */
  method ValidateFinalTouchCount(touchcounts: array<nat>) returns (ok: bool)
    ensures ok <==> forall i :: 1 <= i < touchcounts.Length ==> touchcounts[i] == 1
  {
    var i := 1;
    while i < touchcounts.Length
      invariant i >= 1 && forall k :: 1 <= k < i && k < touchcounts.Length ==> touchcounts[k] == 1
    {
      if touchcounts[i] != 1 {
        return false;
      }
      i := i + 1;
    }
    ok := true;
  }

  /** The definitions seen so far run on from the first one and match. */
  ghost predicate Consecutive(lnsix: seq<Entry>, defs: seq<Define>, counts: seq<nat>) {
    && |counts| == |lnsix|
    && (forall i :: 0 <= i < |defs| ==>
      && defs[i].value == defs[0].value + i && 0 < defs[i].value < |lnsix|
      && lnsix[defs[i].value].value == defs[i].value && lnsix[defs[i].value].name == defs[i].name)
    && (forall v :: 0 <= v < |counts| ==>
      counts[v] == if defs != [] && defs[0].value <= v < defs[0].value + |defs| then 1 else 0)
  }

  /** The value checks of check_if_lname_complete: false stands for exit(). */
  method CheckIfLnameComplete(lnsix: seq<Entry>, defs: seq<Define>) returns (ok: bool)
    requires |lnsix| >= 1
    ensures ok <==> Matches(lnsix, defs)
  {
    var touchcounts := new nat[|lnsix|](_ => 0);
    var lastvalue := 0;
    for i := 0 to |defs|
      invariant Consecutive(lnsix, defs[..i], touchcounts[..])
      invariant lastvalue == if i == 0 then 0 else defs[0].value + i - 1
    {
      var v := defs[i].value;
      assert defs[..i + 1] == defs[..i] + [defs[i]];
      if v == 0 {
        return false;
      }
      if lastvalue != 0 && (lastvalue == v || v != lastvalue + 1) {
        return false;
      }
      var valid := ValidateTouchCount(lnsix, touchcounts, defs[i]);
      if !valid {
        return false;
      }
      lastvalue := v;
    }
    assert defs[..|defs|] == defs;
    ok := ValidateFinalTouchCount(touchcounts);
    ghost var counts := touchcounts[..];
    FinalCounts(lnsix, defs, counts);
  }

  /** All entries touched once means the definitions start at 1 and cover them. */
  lemma FinalCounts(lnsix: seq<Entry>, defs: seq<Define>, counts: seq<nat>)
    requires |lnsix| >= 1 && Consecutive(lnsix, defs, counts)
    ensures (forall i :: 1 <= i < |counts| ==> counts[i] == 1) <==> Matches(lnsix, defs)
  {
    if forall i :: 1 <= i < |counts| ==> counts[i] == 1 {
      TouchedOnce(lnsix, defs, counts);
    }
    if Matches(lnsix, defs) {
      assert defs != [] ==> defs[0].value == 1;
    }
  }

  lemma TouchedOnce(lnsix: seq<Entry>, defs: seq<Define>, counts: seq<nat>)
    requires |lnsix| >= 1 && Consecutive(lnsix, defs, counts)
    requires forall i :: 1 <= i < |counts| ==> counts[i] == 1
    ensures Matches(lnsix, defs)
  {
    if defs != [] {
      assert defs[|defs| - 1].value == defs[0].value + |defs| - 1 < |lnsix|;
    }
    if |counts| > 1 {
      assert counts[1] == 1 && counts[|counts| - 1] == 1;
      assert defs != [] && defs[0].value == 1 && |defs| == |lnsix| - 1;
    }
  }
}
