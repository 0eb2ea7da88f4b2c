/** The usage reports of dd_attr_form.c: the tree is listed, sorted four ways
    and summed over runs of equal keys. */
module AttrFormReport {
  import opened AttrForm
  import QSort

  /** A Three_Key_Entry as extract_3key_entry copies it out of the tree. */
  datatype Rec = Rec(key: Key, origin: Origin, count: nat)

  datatype Column = ByAttribute | ByClass | ByForm

  function ValueOf(col: Column, key: Key): nat {
    match col
    case ByAttribute => key.k1
    case ByClass => key.k2
    case ByForm => key.k3
  }

  /** Table building data: no form, or for the attribute report no attribute. */
  predicate Skipped(col: Column, key: Key) {
    match col
    case ByAttribute => key.k1 == 0
    case _ => key.k3 == 0
  }

  /** The records one line, or one whole report, is about. */
  datatype Select = AnyValue(col: Column) | OneValue(col: Column, v: nat)

  predicate Selected(sel: Select, key: Key) {
    !Skipped(sel.col, key) && (sel.OneValue? ==> ValueOf(sel.col, key) == sel.v)
  }

  /** The sum of the counts of the selected records. */
  function Total(tk: seq<Rec>, sel: Select): nat {
    if tk == [] then 0
    else
      var last := tk[|tk| - 1];
      Total(tk[..|tk| - 1], sel) + if Selected(sel, last.key) then last.count else 0
  }

  /** How many calls used a selected key. */
  function Calls(calls: seq<Key>, sel: Select): nat {
    if calls == [] then 0
    else Calls(calls[..|calls| - 1], sel) + if Selected(sel, calls[|calls| - 1]) then 1 else 0
  }

  // ----- listing the tree

  predicate DistinctRecs(tk: seq<Rec>) {
    QSort.DistinctBy((r: Rec) => r.key, tk)
  }

  /** tk lists every entry of the tree once, in some order. */
  ghost predicate IsListing(tk: seq<Rec>, tree: Tree) {
    && DistinctRecs(tk)
    && (forall i :: 0 <= i < |tk| ==> tk[i].key in tree && tree[tk[i].key] == Entry(tk[i].origin, tk[i].count))
    && (forall k :: k in tree ==> exists i :: 0 <= i < |tk| && tk[i].key == k)
  }

  /** dwarf_twalk with extract_3key_entry, for a walk in any order. */
  method ExtractEntries(tree: Tree) returns (tk: seq<Rec>)
    ensures IsListing(tk, tree)
  {
    tk := [];
    var left := tree.Keys;
    while left != {}
      invariant left <= tree.Keys && DistinctRecs(tk)
      invariant forall i :: 0 <= i < |tk| ==>
        tk[i].key in tree && tk[i].key !in left && tree[tk[i].key] == Entry(tk[i].origin, tk[i].count)
      invariant forall k :: k in tree && k !in left ==> exists i :: 0 <= i < |tk| && tk[i].key == k
      decreases |left|
    {
      var k :| k in left;
      ghost var before := tk;
      tk := tk + [Rec(k, tree[k].origin, tree[k].count)];
      left := left - {k};
      forall k' | k' in tree && k' !in left ensures exists i :: 0 <= i < |tk| && tk[i].key == k' {
        if k' == k {
          assert tk[|tk| - 1].key == k;
        } else {
          var i :| 0 <= i < |before| && before[i].key == k';
          assert tk[i].key == k';
        }
      }
    }
  }

  // ----- qsort with the four comparators

  datatype Order = ByCount | ByColumn(col: Column) | ByK1K2

  function CompareNat(a: nat, b: nat): int {
    if a < b then -1 else if a > b then 1 else 0
  }

  function First(a: int, b: int): int {
    if a != 0 then a else b
  }

  /** qsortcountattr, qsortformclass, qsortattribute, qsortform, qsortk1k2. */
  function Compare(o: Order, a: Rec, b: Rec): int {
    match o
    case ByCount =>
      First(CompareNat(b.count, a.count),
        First(CompareNat(a.key.k1, b.key.k1),
          First(CompareNat(a.key.k3, b.key.k3), CompareNat(a.key.k2, b.key.k2))))
    case ByColumn(col) => CompareNat(ValueOf(col, a.key), ValueOf(col, b.key))
    case ByK1K2 => First(CompareNat(a.key.k1, b.key.k1), CompareNat(a.key.k2, b.key.k2))
  }

  function LessEq(o: Order): (Rec, Rec) -> bool {
    (a, b) => Compare(o, a, b) <= 0
  }

  predicate Sorted(o: Order, tk: seq<Rec>) {
    QSort.Sorted(LessEq(o), tk)
  }

  /** The most used first; equal counts by attribute, form and class upwards. */
  predicate ListedBefore(a: Rec, b: Rec) {
    a.count > b.count || (a.count == b.count &&
      (a.key.k1 < b.key.k1 || (a.key.k1 == b.key.k1 &&
        (a.key.k3 < b.key.k3 || (a.key.k3 == b.key.k3 && a.key.k2 < b.key.k2)))))
  }

  /** What the comparators say, written out. */
  lemma ComparesAs(a: Rec, b: Rec)
    ensures LessEq(ByCount)(a, b) <==> (a.count == b.count && a.key == b.key) || ListedBefore(a, b)
    ensures LessEq(ByColumn(ByAttribute))(a, b) <==> a.key.k1 <= b.key.k1
    ensures LessEq(ByColumn(ByClass))(a, b) <==> a.key.k2 <= b.key.k2
    ensures LessEq(ByColumn(ByForm))(a, b) <==> a.key.k3 <= b.key.k3
    ensures LessEq(ByK1K2)(a, b) <==> a.key.k1 < b.key.k1 || (a.key.k1 == b.key.k1 && a.key.k2 <= b.key.k2)
  {
  }

  lemma CompareIsOrder(o: Order)
    ensures QSort.TotalOrder(LessEq(o))
  {
    forall a, b, c | LessEq(o)(a, b) && LessEq(o)(b, c) ensures LessEq(o)(a, c) {
    }
  }

  /** Sorting a listing by any of the comparators gives a listing in order. */
  lemma SortedListing(o: Order, tk: seq<Rec>, tree: Tree)
    requires IsListing(tk, tree)
    ensures Sorted(o, QSort.Sort(LessEq(o), tk)) && IsListing(QSort.Sort(LessEq(o), tk), tree)
  {
    var tk' := QSort.Sort(LessEq(o), tk);
    CompareIsOrder(o);
    QSort.SortIsSort(LessEq(o), tk);
    QSort.Rearranged((r: Rec) => r.key, tk, tk');
    forall i | 0 <= i < |tk'| ensures tk'[i] in tk {
    }
    forall k | k in tree ensures exists i :: 0 <= i < |tk'| && tk'[i].key == k {
      var i :| 0 <= i < |tk| && tk[i].key == k;
      assert tk[i] in tk';
    }
  }

  // ----- the grouping loops

  datatype Line = Line(value: nat, count: nat)

  predicate Shows(lines: seq<Line>, v: nat) {
    exists i :: 0 <= i < |lines| && lines[i].value == v
  }

  /** The lines for the values below a bound: increasing, one for each value
      with a count, and each with the total of its value. */
  ghost predicate LinesBelow(lines: seq<Line>, tk: seq<Rec>, col: Column, bound: int) {
    && (forall i, j :: 0 <= i < j < |lines| ==> lines[i].value < lines[j].value)
    && (forall i :: 0 <= i < |lines| ==> lines[i].value < bound)
    && (forall i :: 0 <= i < |lines| ==> lines[i].count == Total(tk, OneValue(col, lines[i].value)) > 0)
    && (forall v: nat :: v < bound && Total(tk, OneValue(col, v)) > 0 ==>
      Shows(lines, v))
  }

  /** A whole report: a line for exactly the values with a count. */
  ghost predicate ExactLines(lines: seq<Line>, tk: seq<Rec>, col: Column) {
    && (forall i, j :: 0 <= i < j < |lines| ==> lines[i].value < lines[j].value)
    && (forall i :: 0 <= i < |lines| ==> lines[i].count == Total(tk, OneValue(col, lines[i].value)) > 0)
    && (forall v: nat :: Total(tk, OneValue(col, v)) > 0 ==> Shows(lines, v))
  }

  predicate ValuesAtMost(tk: seq<Rec>, col: Column, cur: int) {
    forall k :: 0 <= k < |tk| && !Skipped(col, tk[k].key) ==> ValueOf(col, tk[k].key) <= cur
  }

  lemma {:induction false} NoSuchValue(tk: seq<Rec>, col: Column, v: nat)
    requires forall k :: 0 <= k < |tk| && !Skipped(col, tk[k].key) ==> ValueOf(col, tk[k].key) != v
    ensures Total(tk, OneValue(col, v)) == 0
    decreases |tk|
  {
    if tk == [] {
    } else {
      NoSuchValue(tk[..|tk| - 1], col, v);
    }
  }

  lemma TotalSnoc(tk: seq<Rec>, r: Rec, sel: Select)
    ensures Total(tk + [r], sel) == Total(tk, sel) + if Selected(sel, r.key) then r.count else 0
  {
    assert (tk + [r])[..|tk|] == tk;
  }

  /** A record of the current value leaves the lines below it as they are. */
  lemma SameValue(lines: seq<Line>, tk: seq<Rec>, col: Column, cur: nat, r: Rec)
    requires LinesBelow(lines, tk, col, cur)
    requires Skipped(col, r.key) || ValueOf(col, r.key) >= cur
    ensures LinesBelow(lines, tk + [r], col, cur)
  {
    forall v: nat | v < cur ensures Total(tk + [r], OneValue(col, v)) == Total(tk, OneValue(col, v)) {
      TotalSnoc(tk, r, OneValue(col, v));
    }
  }

  /** Closing the current group. */
  function Close(lines: seq<Line>, cur: nat, total: nat): seq<Line> {
    if total > 0 then lines + [Line(cur, total)] else lines
  }

  lemma CloseShows(lines: seq<Line>, cur: nat, total: nat, v: nat)
    ensures Shows(Close(lines, cur, total), v) <==> Shows(lines, v) || (total > 0 && v == cur)
  {
    var closed := Close(lines, cur, total);
    if i :| 0 <= i < |lines| && lines[i].value == v {
      assert closed[i].value == v;
    }
    if total > 0 {
      assert closed[|lines|].value == cur;
    }
  }

  lemma CloseGroup(lines: seq<Line>, tk: seq<Rec>, col: Column, cur: nat, bound: int)
    requires LinesBelow(lines, tk, col, cur) && ValuesAtMost(tk, col, cur) && cur < bound
    ensures LinesBelow(Close(lines, cur, Total(tk, OneValue(col, cur))), tk, col, bound)
  {
    var total := Total(tk, OneValue(col, cur));
    forall v: nat | v < bound && Total(tk, OneValue(col, v)) > 0 ensures Shows(Close(lines, cur, total), v) {
      CloseShows(lines, cur, total, v);
      NothingAbove(tk, col, cur, v);
    }
  }

  lemma NothingAbove(tk: seq<Rec>, col: Column, cur: nat, v: nat)
    requires ValuesAtMost(tk, col, cur)
    ensures v > cur ==> Total(tk, OneValue(col, v)) == 0
  {
    if v > cur {
      NoSuchValue(tk, col, v);
    }
  }

  lemma {:induction false} OneIsPartOfAny(tk: seq<Rec>, col: Column, v: nat)
    ensures Total(tk, OneValue(col, v)) <= Total(tk, AnyValue(col))
    decreases |tk|
  {
    if tk == [] {
    } else {
      OneIsPartOfAny(tk[..|tk| - 1], col, v);
    }
  }

  /** The first record with a count, after records without any. */
  lemma StartGroup(tk: seq<Rec>, col: Column, r: Rec)
    requires Total(tk, AnyValue(col)) == 0 && !Skipped(col, r.key)
    ensures LinesBelow([], tk + [r], col, ValueOf(col, r.key))
    ensures Total(tk + [r], OneValue(col, ValueOf(col, r.key))) == r.count
  {
    forall v: nat ensures Total(tk + [r], OneValue(col, v)) == if v == ValueOf(col, r.key) then r.count else 0 {
      OneIsPartOfAny(tk, col, v);
      TotalSnoc(tk, r, OneValue(col, v));
    }
  }

  /** A record of a greater value closes the current group and starts its own. */
  lemma NextGroup(lines: seq<Line>, tk: seq<Rec>, col: Column, cur: nat, r: Rec)
    requires LinesBelow(lines, tk, col, cur) && ValuesAtMost(tk, col, cur)
    requires !Skipped(col, r.key) && cur < ValueOf(col, r.key)
    ensures LinesBelow(Close(lines, cur, Total(tk, OneValue(col, cur))), tk + [r], col, ValueOf(col, r.key))
    ensures Total(tk + [r], OneValue(col, ValueOf(col, r.key))) == r.count
  {
    var next := ValueOf(col, r.key);
    CloseGroup(lines, tk, col, cur, next);
    SameValue(Close(lines, cur, Total(tk, OneValue(col, cur))), tk, col, next, r);
    NoSuchValue(tk, col, next);
    TotalSnoc(tk, r, OneValue(col, next));
  }

  /** After the last record there is only the current group to close. */
  lemma LastGroup(lines: seq<Line>, tk: seq<Rec>, col: Column, cur: nat)
    requires LinesBelow(lines, tk, col, cur) && ValuesAtMost(tk, col, cur)
    ensures ExactLines(Close(lines, cur, Total(tk, OneValue(col, cur))), tk, col)
  {
    CloseGroup(lines, tk, col, cur, cur + 1);
    forall v: nat | Total(tk, OneValue(col, v)) > 0 ensures v < cur + 1 {
      NothingAbove(tk, col, cur, v);
    }
  }

  lemma NothingCounted(tk: seq<Rec>, col: Column)
    requires Total(tk, AnyValue(col)) == 0
    ensures ExactLines([], tk, col)
  {
    forall v: nat ensures Total(tk, OneValue(col, v)) == 0 {
      OneIsPartOfAny(tk, col, v);
    }
  }

  lemma SortedPrefix(tk: seq<Rec>, col: Column, i: nat)
    requires Sorted(ByColumn(col), tk) && i < |tk|
    ensures ValuesAtMost(tk[..i + 1], col, ValueOf(col, tk[i].key))
      && ValuesAtMost(tk[..i], col, ValueOf(col, tk[i].key))
    ensures forall k :: 0 <= k < i ==> ValueOf(col, tk[k].key) <= ValueOf(col, tk[i].key)
  {
    forall k | 0 <= k < i ensures ValueOf(col, tk[k].key) <= ValueOf(col, tk[i].key) {
      assert LessEq(ByColumn(col))(tk[k], tk[i]);
    }
  }

  /** Where a COUNT BY loop stands after some records, the current group among
      them. */
  ghost predicate Standing(tk: seq<Rec>, col: Column, lines: seq<Line>, cur: nat, total: nat, localsum: nat) {
    && ValuesAtMost(tk, col, cur) && LinesBelow(lines, tk, col, cur)
    && total == Total(tk, OneValue(col, cur)) && localsum + total == Total(tk, AnyValue(col))
  }

  lemma SameGroup(tk: seq<Rec>, col: Column, lines: seq<Line>, cur: nat, total: nat, localsum: nat, r: Rec)
    requires Standing(tk, col, lines, cur, total, localsum)
    requires Skipped(col, r.key) || ValueOf(col, r.key) == cur
    ensures Standing(tk + [r], col, lines, cur, if Skipped(col, r.key) then total else total + r.count, localsum)
  {
    SameValue(lines, tk, col, cur, r);
    TotalSnoc(tk, r, OneValue(col, cur));
    TotalSnoc(tk, r, AnyValue(col));
  }

  lemma NewGroup(tk: seq<Rec>, col: Column, lines: seq<Line>, cur: nat, total: nat, localsum: nat, r: Rec)
    requires Standing(tk, col, lines, cur, total, localsum)
    requires !Skipped(col, r.key) && cur < ValueOf(col, r.key)
    ensures Standing(tk + [r], col, Close(lines, cur, total), ValueOf(col, r.key), r.count, localsum + total)
  {
    NextGroup(lines, tk, col, cur, r);
    TotalSnoc(tk, r, AnyValue(col));
  }

  lemma FirstGroup(tk: seq<Rec>, col: Column, r: Rec)
    requires Total(tk, AnyValue(col)) == 0 && !Skipped(col, r.key) && ValuesAtMost(tk, col, ValueOf(col, r.key))
    ensures Standing(tk + [r], col, [], ValueOf(col, r.key), r.count, 0)
  {
    StartGroup(tk, col, r);
    TotalSnoc(tk, r, AnyValue(col));
  }

  /** One of the COUNT BY loops, over records sorted by its column: the lines
      it prints and the sum it prints after them. */
  method CountBy(tk: seq<Rec>, col: Column) returns (lines: seq<Line>, localsum: nat)
    requires Sorted(ByColumn(col), tk)
    ensures ExactLines(lines, tk, col)
    ensures localsum == Total(tk, AnyValue(col))
  {
    lines, localsum := [], 0;
    var cur: nat, total: nat, started := 0, 0, false;
    ghost var g: nat := 0;
    for i := 0 to |tk|
      invariant !started ==> lines == [] && total == localsum == 0 && Total(tk[..i], AnyValue(col)) == 0
      invariant started ==> g < i && ValueOf(col, tk[g].key) == cur
      invariant started ==> Standing(tk[..i], col, lines, cur, total, localsum)
    {
      ghost var before := tk[..i];
      var tke := tk[i];
      assert tk[..i + 1] == before + [tke];
      TotalSnoc(before, tke, AnyValue(col));
      SortedPrefix(tk, col, i);
      if Skipped(col, tke.key) {
        if started {
          SameGroup(before, col, lines, cur, total, localsum, tke);
        }
        continue;
      }
      if !started {
        if tke.count > 0 {
          FirstGroup(before, col, tke);
          cur, total, started, g := ValueOf(col, tke.key), tke.count, true, i;
        }
        continue;
      }
      if cur != ValueOf(col, tke.key) {
        NewGroup(before, col, lines, cur, total, localsum, tke);
        if total > 0 {
          lines := lines + [Line(cur, total)];
        }
        localsum := localsum + total;
        cur, total, g := ValueOf(col, tke.key), tke.count, i;
        continue;
      }
      SameGroup(before, col, lines, cur, total, localsum, tke);
      total := total + tke.count;
    }
    assert tk[..|tk|] == tk;
    if started {
      LastGroup(lines, tk, col, cur);
    } else {
      NothingCounted(tk, col);
    }
    if total > 0 {
      lines := lines + [Line(cur, total)];
      localsum := localsum + total;
    }
  }

  // ----- recording to report

  /** The uses that the calls make of the selected keys of a list. */
  function KeyUses(tk: seq<Rec>, calls: seq<Key>, sel: Select): nat {
    if tk == [] then 0
    else
      var last := tk[|tk| - 1].key;
      KeyUses(tk[..|tk| - 1], calls, sel) + if Selected(sel, last) then Uses(calls, last) else 0
  }

  predicate Lists(tk: seq<Rec>, key: Key) {
    exists i :: 0 <= i < |tk| && tk[i].key == key
  }

  lemma {:induction false} NoCallsNoUses(tk: seq<Rec>, sel: Select)
    ensures KeyUses(tk, [], sel) == 0
    decreases |tk|
  {
    if tk == [] {
    } else {
      NoCallsNoUses(tk[..|tk| - 1], sel);
    }
  }

  /** One more call is one more use of just the record with its key. */
  lemma {:induction false} OneMoreCall(tk: seq<Rec>, calls: seq<Key>, c: Key, sel: Select)
    requires DistinctRecs(tk)
    ensures KeyUses(tk, calls + [c], sel) == KeyUses(tk, calls, sel) + if Lists(tk, c) && Selected(sel, c) then 1 else 0
    decreases |tk|
  {
    assert (calls + [c])[..|calls|] == calls;
    if tk == [] {
    } else {
      var front, last := tk[..|tk| - 1], tk[|tk| - 1].key;
      OneMoreCall(front, calls, c, sel);
      assert forall i :: 0 <= i < |front| ==> front[i] == tk[i] && tk[i].key != last;
      if Lists(front, c) {
        var i :| 0 <= i < |front| && front[i].key == c;
        assert tk[i].key == c;
      }
    }
  }

  lemma {:induction false} UsesAreCalls(tk: seq<Rec>, calls: seq<Key>, sel: Select)
    requires DistinctRecs(tk) && forall c :: c in calls ==> Lists(tk, c)
    ensures KeyUses(tk, calls, sel) == Calls(calls, sel)
    decreases |calls|
  {
    if calls == [] {
      NoCallsNoUses(tk, sel);
    } else {
      var front, last := calls[..|calls| - 1], calls[|calls| - 1];
      assert calls == front + [last];
      assert forall c :: c in front ==> c in calls;
      UsesAreCalls(tk, front, sel);
      OneMoreCall(tk, front, last, sel);
    }
  }

  lemma {:induction false} TotalIsKeyUses(tk: seq<Rec>, calls: seq<Key>, sel: Select)
    requires forall i :: 0 <= i < |tk| ==> tk[i].count == Uses(calls, tk[i].key)
    ensures Total(tk, sel) == KeyUses(tk, calls, sel)
    decreases |tk|
  {
    if tk == [] {
    } else {
      TotalIsKeyUses(tk[..|tk| - 1], calls, sel);
    }
  }

  /** The tables themselves count nothing. */
  predicate Uncounted(base: Tree) {
    forall k :: k in base ==> base[k].count == 0
  }

  /** Conservation: in any listing of the tree after any run of recordings,
      the selected counts add up to the calls with a selected key. */
  lemma TotalIsCalls(tk: seq<Rec>, base: Tree, calls: seq<Key>, sel: Select)
    requires Uncounted(base) && IsListing(tk, RecordAll(base, calls))
    ensures Total(tk, sel) == Calls(calls, sel)
  {
    forall i | 0 <= i < |tk| ensures tk[i].count == Uses(calls, tk[i].key) {
      RecordedCounts(base, calls, tk[i].key);
    }
    forall c | c in calls ensures Lists(tk, c) {
      RecordedCounts(base, calls, c);
    }
    TotalIsKeyUses(tk, calls, sel);
    UsesAreCalls(tk, calls, sel);
  }

  /** How many calls used a value: an attribute, a class together with a form,
      or a form, none of them zero. */
  function UsesOf(calls: seq<Key>, col: Column, v: nat): nat {
    if calls == [] then 0
    else
      var c := calls[|calls| - 1];
      var hit := match col
        case ByAttribute => c.k1 != 0 && c.k1 == v
        case ByClass => c.k3 != 0 && c.k2 == v
        case ByForm => c.k3 != 0 && c.k3 == v;
      UsesOf(calls[..|calls| - 1], col, v) + if hit then 1 else 0
  }

  /** How many calls had an attribute, or a form. */
  function RealUses(calls: seq<Key>, col: Column): nat {
    if calls == [] then 0
    else
      var c := calls[|calls| - 1];
      RealUses(calls[..|calls| - 1], col) + if (if col.ByAttribute? then c.k1 else c.k3) != 0 then 1 else 0
  }

  lemma {:induction false} CallsAreUses(calls: seq<Key>, col: Column, v: nat)
    ensures Calls(calls, OneValue(col, v)) == UsesOf(calls, col, v)
    ensures Calls(calls, AnyValue(col)) == RealUses(calls, col)
    decreases |calls|
  {
    if calls == [] {
    } else {
      CallsAreUses(calls[..|calls| - 1], col, v);
    }
  }

  /** The lines of a COUNT BY report are the values that were used, each with
      the number of its calls. */
  ghost predicate LinesAreCalls(lines: seq<Line>, calls: seq<Key>, col: Column) {
    && (forall i, j :: 0 <= i < j < |lines| ==> lines[i].value < lines[j].value)
    && (forall i :: 0 <= i < |lines| ==> lines[i].count == UsesOf(calls, col, lines[i].value) > 0)
    && (forall v: nat :: UsesOf(calls, col, v) > 0 ==> Shows(lines, v))
  }

  lemma LinesCountCalls(lines: seq<Line>, tk: seq<Rec>, base: Tree, calls: seq<Key>, col: Column)
    requires Uncounted(base) && IsListing(tk, RecordAll(base, calls)) && ExactLines(lines, tk, col)
    ensures LinesAreCalls(lines, calls, col)
  {
    forall v: nat ensures Total(tk, OneValue(col, v)) == UsesOf(calls, col, v) {
      TotalIsCalls(tk, base, calls, OneValue(col, v));
      CallsAreUses(calls, col, v);
    }
  }

  /** Every call has a nonzero attribute and form. */
  lemma {:induction false} RealCalls(calls: seq<Key>, col: Column)
    requires forall c :: c in calls ==> c.k1 != 0 && c.k3 != 0
    ensures RealUses(calls, col) == |calls|
    decreases |calls|
  {
    if calls == [] {
    } else {
      var front, last := calls[..|calls| - 1], calls[|calls| - 1];
      assert calls == front + [last];
      RealCalls(front, col);
    }
  }

  datatype Report = Report(
    listing: seq<Rec>, listingSum: nat,
    byClass: seq<Line>, classSum: nat,
    byForm: seq<Line>, formSum: nat,
    byAttribute: seq<Line>, attributeSum: nat)

  /** The sum under the full listing: records without a form are left out. */
  method SumListing(tk: seq<Rec>) returns (listing: seq<Rec>, localsum: nat)
    ensures localsum == Total(tk, AnyValue(ByForm))
    ensures listing == Filtered(tk)
  {
    listing, localsum := [], 0;
    for i := 0 to |tk|
      invariant localsum == Total(tk[..i], AnyValue(ByForm)) && listing == Filtered(tk[..i])
    {
      assert tk[..i + 1][..i] == tk[..i];
      if tk[i].key.k3 == 0 {
        continue;
      }
      listing := listing + [tk[i]];
      localsum := localsum + tk[i].count;
    }
    assert tk[..|tk|] == tk;
  }

  function Filtered(tk: seq<Rec>): seq<Rec> {
    if tk == [] then []
    else
      var last := tk[|tk| - 1];
      Filtered(tk[..|tk| - 1]) + if last.key.k3 == 0 then [] else [last]
  }

  lemma {:induction false} FilteredMembers(tk: seq<Rec>, r: Rec)
    ensures r in Filtered(tk) <==> r in tk && r.key.k3 != 0
    decreases |tk|
  {
    if tk == [] {
    } else {
      var front, last := tk[..|tk| - 1], tk[|tk| - 1];
      assert tk == front + [last];
      FilteredMembers(front, r);
    }
  }

  lemma BeforeLast(o: Order, tk: seq<Rec>, r: Rec)
    requires Sorted(o, tk) && DistinctRecs(tk) && tk != [] && r in tk[..|tk| - 1]
    ensures LessEq(o)(r, tk[|tk| - 1]) && r.key != tk[|tk| - 1].key
  {
    var last := tk[|tk| - 1];
    var j :| 0 <= j < |tk| - 1 && tk[j] == r;
    assert LessEq(o)(tk[j], last) && ((x: Rec) => x.key)(tk[j]) != ((x: Rec) => x.key)(last);
  }

  lemma {:induction false} FilteredKeepsOrder(o: Order, tk: seq<Rec>)
    requires Sorted(o, tk) && DistinctRecs(tk)
    ensures Sorted(o, Filtered(tk)) && DistinctRecs(Filtered(tk))
    decreases |tk|
  {
    if tk == [] {
    } else {
      var front, last := tk[..|tk| - 1], tk[|tk| - 1];
      FilteredKeepsOrder(o, front);
      var kept := Filtered(front);
      forall i | 0 <= i < |kept| ensures LessEq(o)(kept[i], last) && kept[i].key != last.key {
        FilteredMembers(front, kept[i]);
        BeforeLast(o, tk, kept[i]);
      }
    }
  }

  /** The full listing: in order of count, every key that was used with a form
      once, with the number of its calls; keys not used show zero. */
  ghost predicate ListingIsCalls(listing: seq<Rec>, calls: seq<Key>) {
    && (forall i, j :: 0 <= i < j < |listing| ==> ListedBefore(listing[i], listing[j]))
    && DistinctRecs(listing)
    && (forall i :: 0 <= i < |listing| ==> listing[i].key.k3 != 0 && listing[i].count == Uses(calls, listing[i].key))
    && (forall c :: c in calls && c.k3 != 0 ==> Lists(listing, c))
  }

  lemma ListedInOrder(listing: seq<Rec>)
    requires Sorted(ByCount, listing) && DistinctRecs(listing)
    ensures forall i, j :: 0 <= i < j < |listing| ==> ListedBefore(listing[i], listing[j])
  {
    forall i, j | 0 <= i < j < |listing| ensures ListedBefore(listing[i], listing[j]) {
      assert LessEq(ByCount)(listing[i], listing[j]);
      assert ((x: Rec) => x.key)(listing[i]) != ((x: Rec) => x.key)(listing[j]);
      ComparesAs(listing[i], listing[j]);
    }
  }

  lemma FilteredListsCalls(tk: seq<Rec>, base: Tree, calls: seq<Key>)
    requires Uncounted(base) && IsListing(tk, RecordAll(base, calls)) && Sorted(ByCount, tk)
    ensures ListingIsCalls(Filtered(tk), calls)
  {
    var listing := Filtered(tk);
    FilteredKeepsOrder(ByCount, tk);
    ListedInOrder(listing);
    forall i | 0 <= i < |listing| ensures listing[i].key.k3 != 0 && listing[i].count == Uses(calls, listing[i].key) {
      FilteredMembers(tk, listing[i]);
      RecordedCounts(base, calls, listing[i].key);
    }
    forall c | c in calls && c.k3 != 0 ensures Lists(listing, c) {
      RecordedCounts(base, calls, c);
      var i :| 0 <= i < |tk| && tk[i].key == c;
      FilteredMembers(tk, tk[i]);
      var j :| 0 <= j < |listing| && listing[j] == tk[i];
      assert listing[j].key == c;
    }
  }

  /** print_attr_form_usage: nothing for an empty tree. */
  method PrintAttrFormUsage(t: UsageTree, ghost base: Tree, ghost calls: seq<Key>) returns (report: Report)
    requires Uncounted(base) && t.tree == RecordAll(base, calls)
    ensures report.listingSum == RealUses(calls, ByForm) && ListingIsCalls(report.listing, calls)
    ensures report.classSum == RealUses(calls, ByClass) && LinesAreCalls(report.byClass, calls, ByClass)
    ensures report.formSum == RealUses(calls, ByForm) && LinesAreCalls(report.byForm, calls, ByForm)
    ensures report.attributeSum == RealUses(calls, ByAttribute)
    ensures LinesAreCalls(report.byAttribute, calls, ByAttribute)
    ensures (forall c :: c in calls ==> c.k1 != 0 && c.k3 != 0) ==>
      report.listingSum == report.classSum == report.formSum == report.attributeSum == |calls|
  {
    var tk := ExtractEntries(t.tree);
    var listing, listingSum := ReportAll(t.tree, tk, base, calls);
    var byClass, classSum := ReportBy(t.tree, tk, ByClass, base, calls);
    var byForm, formSum := ReportBy(t.tree, tk, ByForm, base, calls);
    var byAttribute, attributeSum := ReportBy(t.tree, tk, ByAttribute, base, calls);
    report := Report(listing, listingSum, byClass, classSum, byForm, formSum, byAttribute, attributeSum);
    if forall c :: c in calls ==> c.k1 != 0 && c.k3 != 0 {
      RealCalls(calls, ByClass);
      RealCalls(calls, ByForm);
      RealCalls(calls, ByAttribute);
    }
  }

  /** A static table: all rows of one origin, nothing counted. */
  predicate TableOf(rows: seq<Row>, origin: Origin) {
    forall i :: 0 <= i < |rows| ==> rows[i].entry == Entry(origin, 0)
  }

  ghost predicate InTables(std: seq<Row>, ext: seq<Row>, suppressExtensions: bool, attr: nat, fc: nat) {
    || (exists i :: 0 <= i < |std| && std[i].key == Key(attr, fc, 0))
    || (!suppressExtensions && exists i :: 0 <= i < |ext| && ext[i].key == Key(attr, fc, 0))
  }

  lemma NothingCountedYet(tree: Tree, std: seq<Row>, ext: seq<Row>)
    requires TableOf(std, AfStd) && TableOf(ext, AfExten) && Holds(tree, std + ext)
    ensures Uncounted(tree)
  {
    var rows := std + ext;
    forall k | k in tree ensures tree[k].count == 0 {
      var i :| 0 <= i < |rows| && rows[i].key == k;
      assert rows[i] == if i < |std| then std[i] else ext[i - |std|];
    }
  }

  /** Legality in the middle of a run is that of the tables. */
  lemma LegalInRun(std: seq<Row>, ext: seq<Row>, base: Tree, calls: seq<Key>, suppressExtensions: bool, c: Key)
    requires TableOf(std, AfStd) && TableOf(ext, AfExten) && Holds(base, std + ext)
    requires forall x :: x in calls ==> x.k3 != 0
    ensures Legal(RecordAll(base, calls), suppressExtensions, c.k1, c.k2)
      == InTables(std, ext, suppressExtensions, c.k1, c.k2)
  {
    RecordingKeepsLegality(base, calls, suppressExtensions, c.k1, c.k2);
    LegalInTables(std, ext, base, suppressExtensions, c.k1, c.k2);
  }

  /** A whole run: the tables are loaded, every use is checked and recorded,
      and the usage is printed. */
  method RecordAndReport(
      std: seq<Row>, ext: seq<Row>, ghost n: nat, ghost m: nat, suppressExtensions: bool, calls: seq<Key>)
    returns (ok: bool, legal: seq<bool>, report: Report)
    requires EndsAt(std, n) && EndsAt(ext, m) && TableOf(std[..n], AfStd) && TableOf(ext[..m], AfExten)
    requires forall c :: c in calls ==> c.k1 != 0 && c.k3 != 0
    ensures ok <==> DistinctKeys(std[..n] + ext[..m])
    ensures ok ==> |legal| == |calls|
    ensures ok ==> forall i :: 0 <= i < |calls| ==>
      legal[i] == InTables(std[..n], ext[..m], suppressExtensions, calls[i].k1, calls[i].k2)
    ensures ok ==> ListingIsCalls(report.listing, calls) && LinesAreCalls(report.byClass, calls, ByClass)
    ensures ok ==> LinesAreCalls(report.byForm, calls, ByForm) && LinesAreCalls(report.byAttribute, calls, ByAttribute)
    ensures ok ==> report.listingSum == report.classSum == report.formSum == report.attributeSum == |calls|
  {
    legal, report := [], Report([], 0, [], 0, [], 0, [], 0);
    var t := new UsageTree(suppressExtensions);
    ok := t.BuildBaseTree(std, ext, n, m);
    if !ok {
      return;
    }
    ghost var base := t.tree;
    NothingCountedYet(base, std[..n], ext[..m]);
    for k := 0 to |calls|
      invariant t.suppressExtensions == suppressExtensions && t.tree == RecordAll(base, calls[..k])
      invariant |legal| == k && forall i :: 0 <= i < k ==>
        legal[i] == InTables(std[..n], ext[..m], suppressExtensions, calls[i].k1, calls[i].k2)
    {
      assert calls[..k + 1][..k] == calls[..k];
      LegalInRun(std[..n], ext[..m], base, calls[..k], suppressExtensions, calls[k]);
      var fine := t.RecordAttrFormUse(calls[k].k1, calls[k].k2, calls[k].k3);
      legal := legal + [fine];
    }
    assert calls[..|calls|] == calls;
    report := PrintAttrFormUsage(t, base, calls);
  }

  /** Sorting by count and listing. */
  method ReportAll(tree: Tree, tk: seq<Rec>, ghost base: Tree, ghost calls: seq<Key>)
    returns (listing: seq<Rec>, localsum: nat)
    requires Uncounted(base) && tree == RecordAll(base, calls) && IsListing(tk, tree)
    ensures localsum == RealUses(calls, ByForm) && ListingIsCalls(listing, calls)
  {
    var sorted := QSort.Sort(LessEq(ByCount), tk);
    SortedListing(ByCount, tk, tree);
    listing, localsum := SumListing(sorted);
    FilteredListsCalls(sorted, base, calls);
    TotalIsCalls(sorted, base, calls, AnyValue(ByForm));
    CallsAreUses(calls, ByForm, 0);
  }

  /** Sorting by a column and counting its runs. */
  method ReportBy(tree: Tree, tk: seq<Rec>, col: Column, ghost base: Tree, ghost calls: seq<Key>)
    returns (lines: seq<Line>, localsum: nat)
    requires Uncounted(base) && tree == RecordAll(base, calls) && IsListing(tk, tree)
    ensures LinesAreCalls(lines, calls, col) && localsum == RealUses(calls, col)
  {
    var sorted := QSort.Sort(LessEq(ByColumn(col)), tk);
    SortedListing(ByColumn(col), tk, tree);
    lines, localsum := CountBy(sorted, col);
    LinesCountCalls(lines, sorted, base, calls, col);
    TotalIsCalls(sorted, base, calls, AnyValue(col));
    CallsAreUses(calls, col, 0);
  }

  // ----- dd_print_tag_attr_results

  function OriginTotal(tk: seq<Rec>, o: Origin): nat {
    if tk == [] then 0
    else OriginTotal(tk[..|tk| - 1], o) + if tk[|tk| - 1].origin == o then tk[|tk| - 1].count else 0
  }

  function CountTotal(tk: seq<Rec>): nat {
    if tk == [] then 0 else CountTotal(tk[..|tk| - 1]) + tk[|tk| - 1].count
  }

  /** The totals by table: they split the number of instances, whether or not
      the lines without a count are skipped. */
  method TagAttrResults(tk: seq<Rec>, verbose: nat) returns (instances: nat, std: nat, extended: nat, unknown: nat)
    ensures std == OriginTotal(tk, AfStd) && extended == OriginTotal(tk, AfExten)
    ensures unknown == OriginTotal(tk, AfUnknown)
    ensures instances == CountTotal(tk) && instances == std + extended + unknown
  {
    instances, std, extended, unknown := 0, 0, 0, 0;
    for i := 0 to |tk|
      invariant instances == CountTotal(tk[..i])
    {
      assert tk[..i + 1][..i] == tk[..i];
      instances := instances + tk[i].count;
    }
    for i := 0 to |tk|
      invariant std == OriginTotal(tk[..i], AfStd) && extended == OriginTotal(tk[..i], AfExten)
      invariant unknown == OriginTotal(tk[..i], AfUnknown)
      invariant std + extended + unknown == CountTotal(tk[..i])
    {
      assert tk[..i + 1][..i] == tk[..i];
      if verbose < 2 && tk[i].count == 0 {
        continue;
      }
      match tk[i].origin
      case AfStd => std := std + tk[i].count;
      case AfExten => extended := extended + tk[i].count;
      case AfUnknown => unknown := unknown + tk[i].count;
    }
    assert tk[..|tk|] == tk;
  }
}
