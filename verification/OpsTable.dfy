/** The generator of the dense operator table (buildopscounttab.c): a table of
    opcode ranges is expanded into one entry for each of the 256 opcodes. */
module OpsTable {
  import opened CText

  const ARRAY_SIZE := 256

  type Opcode = n: nat | n < 256

  /** struct ops_table_s; last is zero for a single opcode. */
  datatype Row = Row(first: Opcode, last: Opcode, opcount: int, stackchange: int)

  /** One emitted entry. */
  datatype Out = Out(opcount: int, stackchange: int)

  const UNUSED := Out(-1, 0)

  function End(row: Row): Opcode {
    if row.last == 0 then row.first else row.last
  }

  predicate Covers(row: Row, p: nat) {
    row.first <= p <= End(row)
  }

  /** The n rows before the terminator, which is all zero. */
  predicate Terminated(rows: seq<Row>, n: nat) {
    n < |rows| && rows[n].first == rows[n].last == rows[n].opcount == 0 && forall r :: 0 <= r < n ==> rows[r].first != 0
  }

  /** Ranges run upwards. */
  predicate Upward(rows: seq<Row>) {
    forall r :: 0 <= r < |rows| ==> rows[r].last == 0 || rows[r].first <= rows[r].last
  }

  /** The rows that are not dropped: a row that starts where the row kept
      before it ends is taken for an alternative spelling. */
  function Kept(rows: seq<Row>, n: nat): (ks: seq<Row>)
    requires n <= |rows|
    ensures |ks| <= n
  {
    if n == 0 then []
    else
      var ks := Kept(rows, n - 1);
      if Repeats(ks, rows[n - 1]) then ks else ks + [rows[n - 1]]
  }

  predicate Repeats(ks: seq<Row>, row: Row) {
    ks != [] && row.first == End(ks[|ks| - 1])
  }

  /** What lets the expansion run to its end: kept rows in order, every opcode
      of theirs named, and alternative spellings only for single opcodes. */
  ghost predicate Acceptable(ks: seq<Row>, named: set<nat>, dups: set<nat>) {
    && (forall r :: 0 < r < |ks| ==> Follows(ks, r))
    && (forall r, p :: 0 <= r < |ks| && Covers(ks[r], p) ==> RowAllows(ks[r], p, named, dups))
  }

  predicate Follows(ks: seq<Row>, r: nat)
    requires 0 < r < |ks|
  {
    End(ks[r - 1]) <= ks[r].first
  }

  predicate RowAllows(row: Row, p: nat, named: set<nat>, dups: set<nat>) {
    p in named && (row.last != 0 ==> p !in dups)
  }

  /** The first row from r on, before n, that covers p; n if there is none. */
  function FirstCover(rows: seq<Row>, r: nat, n: nat, p: nat): (k: nat)
    requires r <= n <= |rows|
    ensures r <= k <= n
    ensures k < n ==> Covers(rows[k], p)
    ensures forall i :: r <= i < k ==> !Covers(rows[i], p)
    decreases n - r
  {
    if r == n || Covers(rows[r], p) then r else FirstCover(rows, r + 1, n, p)
  }

  /** What the range table says about opcode p. */
  function EntryFor(rows: seq<Row>, n: nat, p: nat): Out
    requires n <= |rows|
  {
    var k := FirstCover(rows, 0, n, p);
    if k == n then UNUSED else Out(rows[k].opcount, rows[k].stackchange)
  }

  lemma {:induction false} FirstCoverIs(rows: seq<Row>, r: nat, n: nat, p: nat, k: nat)
    requires r <= k <= n <= |rows| && (k < n ==> Covers(rows[k], p))
    requires forall i :: r <= i < k ==> !Covers(rows[i], p)
    ensures FirstCover(rows, r, n, p) == k
    decreases k - r
  {
    if r >= k {
    } else {
      FirstCoverIs(rows, r + 1, n, p, k);
    }
  }

  /** One more row decides about the opcodes it is the first to cover. */
  lemma OneMoreRow(rows: seq<Row>, n: nat, p: nat)
    requires n < |rows|
    ensures EntryFor(rows, n + 1, p) ==
      if FirstCover(rows, 0, n, p) < n || !Covers(rows[n], p) then EntryFor(rows, n, p)
      else Out(rows[n].opcount, rows[n].stackchange)
  {
    var k := FirstCover(rows, 0, n, p);
    if k < n || Covers(rows[n], p) {
      FirstCoverIs(rows, 0, n + 1, p, k);
    } else {
      FirstCoverIs(rows, 0, n + 1, p, n + 1);
    }
  }

  /** The emitted entries are those of the first n rows, and those rows say
      nothing about the opcodes behind them. */
  ghost predicate Emitted(out: seq<Out>, rows: seq<Row>, n: nat)
    requires n <= |rows|
  {
    && |out| <= ARRAY_SIZE
    && (forall p :: 0 <= p < |out| ==> out[p] == EntryFor(rows, n, p))
    && (forall p, r :: 0 <= r < n && |out| <= p ==> !Covers(rows[r], p))
  }

  lemma Uncovered(out: seq<Out>, rows: seq<Row>, n: nat, p: nat)
    requires n <= |rows| && Emitted(out, rows, n) && |out| <= p
    ensures EntryFor(rows, n, p) == UNUSED && FirstCover(rows, 0, n, p) == n
  {
    FirstCoverIs(rows, 0, n, p, n);
  }

  /** The entries for row n: unused ones up to it, then its own. */
  function RowEntries(row: Row, outindex: nat): seq<Out>
    requires outindex <= row.first <= End(row)
  {
    Unused(row.first - outindex) + seq(End(row) + 1 - row.first, _ => Out(row.opcount, row.stackchange))
  }

  lemma RowEmitted(out: seq<Out>, rows: seq<Row>, n: nat)
    requires n < |rows| && Emitted(out, rows, n) && |out| <= rows[n].first <= End(rows[n])
    ensures Emitted(out + RowEntries(rows[n], |out|), rows, n + 1)
  {
    var row := rows[n];
    var more := out + RowEntries(row, |out|);
    forall p | 0 <= p < |more| ensures more[p] == EntryFor(rows, n + 1, p) {
      OneMoreRow(rows, n, p);
      if p >= |out| {
        Uncovered(out, rows, n, p);
      }
    }
  }

  /** Acceptance row by row. */
  lemma OneMoreAcceptable(ks: seq<Row>, row: Row, named: set<nat>, dups: set<nat>)
    requires Acceptable(ks, named, dups)
    requires ks != [] ==> End(ks[|ks| - 1]) <= row.first
    requires forall p :: Covers(row, p) ==> RowAllows(row, p, named, dups)
    ensures Acceptable(ks + [row], named, dups)
  {
    forall r | 0 < r < |ks + [row]| ensures Follows(ks + [row], r) {
      assert r < |ks| ==> Follows(ks, r);
    }
  }

  /** A row out of order, or with an opcode it may not have. */
  ghost predicate Fails(ks: seq<Row>, row: Row, named: set<nat>, dups: set<nat>) {
    || (ks != [] && row.first < End(ks[|ks| - 1]))
    || exists p :: Covers(row, p) && !RowAllows(row, p, named, dups)
  }

  lemma NotAcceptable(ks: seq<Row>, row: Row, all: seq<Row>, named: set<nat>, dups: set<nat>)
    requires |ks| < |all| && all[|ks|] == row && (ks != [] ==> all[|ks| - 1] == ks[|ks| - 1])
    requires Fails(ks, row, named, dups)
    ensures !Acceptable(all, named, dups)
  {
    if ks != [] && row.first < End(ks[|ks| - 1]) {
      assert !Follows(all, |ks|);
    }
  }

  /** Rows that are kept stay where they are. */
  lemma {:induction false} KeptGrows(rows: seq<Row>, i: nat, n: nat)
    requires i <= n <= |rows|
    ensures Kept(rows, i) <= Kept(rows, n)
    decreases n
  {
    if i == n {
    } else {
      KeptGrows(rows, i, n - 1);
      KeptNext(rows, n - 1);
    }
  }

  // ----- dropped rows

  /** Only single opcodes are dropped. */
  predicate DropsSingles(rows: seq<Row>, n: nat)
    requires n <= |rows|
  {
    forall r {:trigger Dropped(rows, r)} :: 0 <= r < n && Dropped(rows, r) ==> End(rows[r]) == rows[r].first
  }

  predicate Dropped(rows: seq<Row>, r: nat)
    requires r < |rows|
  {
    Repeats(Kept(rows, r), rows[r])
  }

  lemma KeptNext(rows: seq<Row>, i: nat)
    requires i < |rows|
    ensures Kept(rows, i + 1) == if Dropped(rows, i) then Kept(rows, i) else Kept(rows, i) + [rows[i]]
  {
  }

  /** The rows of two tables agree about an opcode. */
  predicate Agree(ks: seq<Row>, rows: seq<Row>, n: nat, p: nat)
    requires n <= |rows|
  {
    && EntryFor(ks, |ks|, p) == EntryFor(rows, n, p)
    && (FirstCover(ks, 0, |ks|, p) == |ks| <==> FirstCover(rows, 0, n, p) == n)
  }

  lemma KeepStep(ks: seq<Row>, rows: seq<Row>, n: nat, p: nat)
    requires n < |rows| && Agree(ks, rows, n, p)
    ensures Agree(ks + [rows[n]], rows, n + 1, p)
  {
    var row := rows[n];
    OneMoreRow(rows, n, p);
    OneMoreRow(ks + [row], |ks|, p);
    SameCover(ks, row, p);
    OneMoreCover(rows, n, p);
    OneMoreCover(ks + [row], |ks|, p);
  }

  lemma OneMoreCover(rows: seq<Row>, n: nat, p: nat)
    requires n < |rows|
    ensures FirstCover(rows, 0, n + 1, p) == n + 1 <==> FirstCover(rows, 0, n, p) == n && !Covers(rows[n], p)
  {
    var k := FirstCover(rows, 0, n, p);
    if k < n {
      FirstCoverIs(rows, 0, n + 1, p, k);
    }
  }

  lemma DropStep(ks: seq<Row>, rows: seq<Row>, n: nat, p: nat)
    requires n < |rows| && Agree(ks, rows, n, p)
    requires Repeats(ks, rows[n]) && End(rows[n]) == rows[n].first
    requires ks[|ks| - 1].first <= End(ks[|ks| - 1])
    ensures Agree(ks, rows, n + 1, p)
  {
    OneMoreRow(rows, n, p);
    OneMoreCover(rows, n, p);
    if Covers(rows[n], p) {
      assert Covers(ks[|ks| - 1], p);
    }
  }

  /** Then the kept rows say what all rows say. */
  lemma {:induction false} DroppedSinglesDoNotMatter(rows: seq<Row>, n: nat, p: nat)
    requires n <= |rows| && Upward(rows) && DropsSingles(rows, n)
    ensures Agree(Kept(rows, n), rows, n, p)
    decreases n
  {
    if n == 0 {
    } else {
      DroppedSinglesDoNotMatter(rows, n - 1, p);
      OneRowAgrees(rows, Kept(rows, n - 1), n - 1, p);
    }
  }

  lemma OneRowAgrees(rows: seq<Row>, ks: seq<Row>, r: nat, p: nat)
    requires r < |rows| && Upward(rows) && ks == Kept(rows, r) && Agree(ks, rows, r, p)
    requires Dropped(rows, r) ==> End(rows[r]) == rows[r].first
    ensures Agree(Kept(rows, r + 1), rows, r + 1, p)
  {
    KeptNext(rows, r);
    if Dropped(rows, r) {
      LastKeptIsUpward(rows, r);
      DropStep(ks, rows, r, p);
    } else {
      KeepStep(ks, rows, r, p);
    }
  }

  lemma SameCover(ks: seq<Row>, row: Row, p: nat)
    ensures FirstCover(ks + [row], 0, |ks|, p) == FirstCover(ks, 0, |ks|, p)
    ensures EntryFor(ks + [row], |ks|, p) == EntryFor(ks, |ks|, p)
  {
    FirstCoverIs(ks + [row], 0, |ks|, p, FirstCover(ks, 0, |ks|, p));
  }

  lemma {:induction false} KeptIsARow(rows: seq<Row>, n: nat, k: nat) returns (r: nat)
    requires n <= |rows| && k < |Kept(rows, n)|
    ensures r < n && rows[r] == Kept(rows, n)[k] && !Dropped(rows, r)
    decreases n
  {
    if k < |Kept(rows, n - 1)| {
      r := KeptIsARow(rows, n - 1, k);
    } else {
      r := n - 1;
    }
  }

  lemma LastKeptIsUpward(rows: seq<Row>, n: nat)
    requires n <= |rows| && Upward(rows)
    ensures var ks := Kept(rows, n); ks != [] ==> ks[|ks| - 1].first <= End(ks[|ks| - 1])
  {
    if Kept(rows, n) != [] {
      var r := KeptIsARow(rows, n, |Kept(rows, n)| - 1);
    }
  }

  /** A range that is dropped is lost: an opcode that only it covers has no
      entry, whatever the row says. */
  lemma DroppedRangeIsLost(rows: seq<Row>, n: nat, r: nat, p: nat)
    requires r < n <= |rows| && Dropped(rows, r) && Covers(rows[r], p)
    requires forall i :: 0 <= i < n && i != r ==> !Covers(rows[i], p)
    ensures EntryFor(Kept(rows, n), |Kept(rows, n)|, p) == UNUSED
    ensures EntryFor(rows, n, p) == Out(rows[r].opcount, rows[r].stackchange)
  {
    var ks := Kept(rows, n);
    forall k | 0 <= k < |ks| ensures !Covers(ks[k], p) {
      var i := KeptIsARow(rows, n, k);
    }
    FirstCoverIs(rows, 0, n, p, r);
  }

  /** Some row covers the opcode: ValidateOpListed finds it. */
  predicate Listed(rows: seq<Row>, n: nat, v: nat)
    requires n <= |rows|
  {
    exists r :: 0 <= r < n && Covers(rows[r], v)
  }

  /** The emitted entry of the opcode comes from a row. */
  predicate FromARow(rows: seq<Row>, n: nat, v: nat)
    requires n <= |rows|
  {
    exists k :: 0 <= k < |Kept(rows, n)| && Covers(Kept(rows, n)[k], v)
  }

  lemma FromARowHasEntry(rows: seq<Row>, n: nat, v: nat)
    requires n <= |rows|
    ensures var ks := Kept(rows, n); FromARow(rows, n, v) <==> FirstCover(ks, 0, |ks|, v) < |ks|
    ensures !FromARow(rows, n, v) ==> EntryFor(Kept(rows, n), |Kept(rows, n)|, v) == UNUSED
  {
  }

  lemma NotDroppedIsKept(rows: seq<Row>, n: nat, r: nat) returns (k: nat)
    requires r < n <= |rows| && !Dropped(rows, r)
    ensures k < |Kept(rows, n)| && Kept(rows, n)[k] == rows[r]
  {
    KeptAt(rows, r, n);
    k := |Kept(rows, r)|;
  }

  /** What dropped rows cover, kept rows cover. */
  predicate DroppedAreCovered(rows: seq<Row>, n: nat)
    requires n <= |rows|
  {
    forall r {:trigger Dropped(rows, r)} :: 0 <= r < n && Dropped(rows, r) ==>
      forall v :: rows[r].first <= v <= End(rows[r]) ==> FromARow(rows, n, v)
  }

  /** All listed opcodes get their entries from rows exactly when the opcodes
      of every dropped row are covered by kept ones. */
  lemma ListedComeFromRows(rows: seq<Row>, n: nat)
    requires n <= |rows|
    ensures (forall v :: Listed(rows, n, v) ==> FromARow(rows, n, v)) <==> DroppedAreCovered(rows, n)
  {
    if DroppedAreCovered(rows, n) {
      forall v | Listed(rows, n, v) ensures FromARow(rows, n, v) {
        var r :| 0 <= r < n && Covers(rows[r], v);
        if !Dropped(rows, r) {
          var k := NotDroppedIsKept(rows, n, r);
          assert Covers(Kept(rows, n)[k], v);
        }
      }
    }
    if forall v :: Listed(rows, n, v) ==> FromARow(rows, n, v) {
      forall r, v | 0 <= r < n && Dropped(rows, r) && rows[r].first <= v <= End(rows[r]) ensures FromARow(rows, n, v) {
        assert Covers(rows[r], v) && Listed(rows, n, v);
      }
    }
  }

  /** So it is when only single opcodes are dropped. */
  lemma DroppedSinglesAreCovered(rows: seq<Row>, n: nat)
    requires n <= |rows| && Upward(rows) && DropsSingles(rows, n)
    ensures DroppedAreCovered(rows, n)
  {
    forall r, v | 0 <= r < n && Dropped(rows, r) && rows[r].first <= v <= End(rows[r]) ensures FromARow(rows, n, v) {
      DroppedSinglesDoNotMatter(rows, n, v);
      assert Covers(rows[r], v);
      FromARowHasEntry(rows, n, v);
    }
  }

  /** A table that is accepted, lists opcode 4 and emits it as unused: the
      second range starts where the first ends. */
  lemma ListedButUnused(a: int, b: int, c: int, d: int)
    ensures var rows := [Row(1, 2, a, b), Row(2, 5, c, d), Row(0, 0, 0, 0)];
      && Terminated(rows, 2) && Upward(rows)
      && Acceptable(Kept(rows, 2), {1, 2}, {})
      && Listed(rows, 2, 4) && EntryFor(Kept(rows, 2), |Kept(rows, 2)|, 4) == UNUSED
  {
    var rows := [Row(1, 2, a, b), Row(2, 5, c, d), Row(0, 0, 0, 0)];
    KeptNext(rows, 0);
    KeptNext(rows, 1);
    assert Kept(rows, 2) == [rows[0]];
    assert Covers(rows[1], 4);
    FirstCoverIs(Kept(rows, 2), 0, 1, 4, 1);
  }

  // ----- what is emitted and accepted, written out

  /** The last opcode of a row: its first one when last is zero. */
  predicate Contains(row: Row, p: nat) {
    row.first <= p && p <= if row.last == 0 then row.first else row.last
  }

  /** The operand count and stack change of the first row that contains p; -1
      and 0 when there is none. */
  ghost predicate IsEntry(rows: seq<Row>, p: nat, e: Out) {
    || ((forall k :: 0 <= k < |rows| ==> !Contains(rows[k], p)) && e.opcount == -1 && e.stackchange == 0)
    || (exists k :: 0 <= k < |rows| && ContainsFirst(rows, k, p)
          && e.opcount == rows[k].opcount && e.stackchange == rows[k].stackchange)
  }

  predicate ContainsFirst(rows: seq<Row>, k: nat, p: nat)
    requires k < |rows|
  {
    Contains(rows[k], p) && forall j :: 0 <= j < k ==> !Contains(rows[j], p)
  }

  lemma EntryForIsEntry(rows: seq<Row>, p: nat)
    ensures IsEntry(rows, p, EntryFor(rows, |rows|, p))
  {
    var k := FirstCover(rows, 0, |rows|, p);
    forall j | 0 <= j < |rows| ensures Contains(rows[j], p) <==> Covers(rows[j], p) {
    }
    if k < |rows| {
      assert ContainsFirst(rows, k, p);
    }
  }

  /** Rows in order, every opcode of theirs named, and none in a range with an
      alternative spelling. */
  ghost predicate MayExpand(ks: seq<Row>, named: set<nat>, dups: set<nat>) {
    && (forall r :: 0 < r < |ks| ==>
      (if ks[r - 1].last == 0 then ks[r - 1].first else ks[r - 1].last) <= ks[r].first)
    && (forall r, p :: 0 <= r < |ks| && Contains(ks[r], p) ==> p in named && (ks[r].last != 0 ==> p !in dups))
  }

  lemma AcceptableMayExpand(ks: seq<Row>, named: set<nat>, dups: set<nat>)
    ensures Acceptable(ks, named, dups) <==> MayExpand(ks, named, dups)
  {
    forall row: Row, p: nat ensures Contains(row, p) <==> Covers(row, p) {
    }
    if MayExpand(ks, named, dups) {
      forall r | 0 < r < |ks| ensures Follows(ks, r) {
      }
    }
    if Acceptable(ks, named, dups) {
      forall r | 0 < r < |ks|
        ensures (if ks[r - 1].last == 0 then ks[r - 1].first else ks[r - 1].last) <= ks[r].first
      {
        assert Follows(ks, r);
      }
      forall r, p | 0 <= r < |ks| && Contains(ks[r], p) ensures RowAllows(ks[r], p, named, dups) {
        assert Covers(ks[r], p);
      }
    }
  }

  /** A row is dropped exactly when it starts where the row kept last ends. */
  lemma KeptIs(rows: seq<Row>, i: nat)
    requires i < |rows|
    ensures Kept(rows, 0) == []
    ensures var ks := Kept(rows, i);
      Kept(rows, i + 1) ==
        if ks != [] && rows[i].first ==
          (if ks[|ks| - 1].last == 0 then ks[|ks| - 1].first else ks[|ks| - 1].last) then ks
        else ks + [rows[i]]
  {
  }

  // ----- the program

  /** The names and spellings of one row, checked opcode by opcode while its
      entries are emitted. */
  method EmitRow(row: Row, named: set<nat>, dups: set<nat>) returns (ok: bool, out: seq<Out>)
    requires row.first <= End(row)
    ensures ok <==> forall p :: Covers(row, p) ==> RowAllows(row, p, named, dups)
    ensures ok ==> out == seq(End(row) + 1 - row.first, _ => Out(row.opcount, row.stackchange))
  {
    out := [];
    if row.last == 0 {
      if row.first !in named {
        assert Covers(row, row.first) && !RowAllows(row, row.first, named, dups);
        return false, [];
      }
      return true, [Out(row.opcount, row.stackchange)];
    }
    var j: nat := row.first;
    while j <= row.last
      invariant row.first <= j <= row.last + 1
      invariant out == seq(j - row.first, _ => Out(row.opcount, row.stackchange))
      invariant forall p :: row.first <= p < j ==> RowAllows(row, p, named, dups)
    {
      if j !in named || j in dups {
        assert Covers(row, j) && !RowAllows(row, j, named, dups);
        return false, [];
      }
      out := out + [Out(row.opcount, row.stackchange)];
      j := j + 1;
    }
    ok := true;
  }

  function Unused(k: nat): seq<Out> {
    seq(k, _ => UNUSED)
  }

  lemma RestEmitted(out: seq<Out>, rows: seq<Row>, n: nat)
    requires n <= |rows| && Emitted(out, rows, n)
    ensures Emitted(out + Unused(ARRAY_SIZE - |out|), rows, n)
  {
    forall p | |out| <= p ensures EntryFor(rows, n, p) == UNUSED {
      Uncovered(out, rows, n, p);
    }
  }

  /** Unused entries up to a position. */
  method EmitUnused(out: seq<Out>, upto: nat) returns (more: seq<Out>)
    requires |out| <= upto
    ensures more == out + Unused(upto - |out|)
  {
    more := out;
    while upto > |more|
      invariant |out| <= |more| <= upto && more == out + Unused(|more| - |out|)
    {
      more := more + [UNUSED];
    }
  }

  /** Where the loop stands when it has kept some rows. */
  ghost predicate Standing(out: seq<Out>, lastop: nat, ks: seq<Row>, named: set<nat>, dups: set<nat>) {
    && Emitted(out, ks, |ks|) && Acceptable(ks, named, dups)
    && if ks == [] then out == [] && lastop == 0 else lastop == End(ks[|ks| - 1]) && |out| == lastop + 1
  }

  /** The expansion of main: None stands for exit() with a failure.  It succeeds
      exactly when the kept rows may be expanded, and then entry p is what the
      first kept row that contains p says. */
  method ExpandTable(rows: seq<Row>, ghost n: nat, named: set<nat>, dups: set<nat>) returns (table: Option<seq<Out>>)
    requires Terminated(rows, n) && Upward(rows)
    ensures table.Some? <==> MayExpand(Kept(rows, n), named, dups)
    ensures table.Some? ==> |table.value| == 256
    ensures table.Some? ==> forall p :: 0 <= p < 256 ==> IsEntry(Kept(rows, n), p, table.value[p])
    ensures table.Some? && DropsSingles(rows, n) ==> forall p :: 0 <= p < 256 ==>
      IsEntry(rows[..n], p, table.value[p])
  {
    AcceptableMayExpand(Kept(rows, n), named, dups);
    table := ExpandRows(rows, n, named, dups);
    if table.Some? {
      MeantByRows(table.value, rows, n);
    }
  }

  /** Its loop. */
  method ExpandRows(rows: seq<Row>, ghost n: nat, named: set<nat>, dups: set<nat>) returns (table: Option<seq<Out>>)
    requires Terminated(rows, n) && Upward(rows)
    ensures table.Some? <==> Acceptable(Kept(rows, n), named, dups)
    ensures table.Some? ==> |table.value| == ARRAY_SIZE && Emitted(table.value, Kept(rows, n), |Kept(rows, n)|)
  {
    var out: seq<Out> := [];
    var inindex: nat, lastop: nat := 0, 0;
    ghost var ks: seq<Row> := [];
    while rows[inindex].first != 0
      invariant inindex <= n && ks == Kept(rows, inindex) && Standing(out, lastop, ks, named, dups)
      decreases n - inindex
    {
      var ok;
      ok, out, lastop := ExpandRow(rows[inindex], ks, named, dups, out, lastop);
      if !ok {
        KeptAt(rows, inindex, n);
        NotAcceptable(ks, rows[inindex], Kept(rows, n), named, dups);
        return None;
      }
      KeptNext(rows, inindex);
      ks := Kept(rows, inindex + 1);
      inindex := inindex + 1;
    }
    RestEmitted(out, ks, |ks|);
    out := EmitUnused(out, ARRAY_SIZE);
    table := Some(out);
  }

  lemma MeantByRows(out: seq<Out>, rows: seq<Row>, n: nat)
    requires n <= |rows| && Upward(rows)
    requires Emitted(out, Kept(rows, n), |Kept(rows, n)|)
    ensures forall p :: 0 <= p < |out| ==> IsEntry(Kept(rows, n), p, out[p])
    ensures DropsSingles(rows, n) ==> forall p :: 0 <= p < |out| ==> IsEntry(rows[..n], p, out[p])
  {
    forall p | 0 <= p < |out| ensures IsEntry(Kept(rows, n), p, out[p]) {
      EntryForIsEntry(Kept(rows, n), p);
    }
    if DropsSingles(rows, n) {
      forall p | 0 <= p < |out| ensures IsEntry(rows[..n], p, out[p]) {
        DroppedSinglesDoNotMatter(rows, n, p);
        FirstRowsOnly(rows, n, p);
        EntryForIsEntry(rows[..n], p);
      }
    }
  }

  lemma FirstRowsOnly(rows: seq<Row>, n: nat, p: nat)
    requires n <= |rows|
    ensures EntryFor(rows[..n], n, p) == EntryFor(rows, n, p)
  {
    FirstCoverIs(rows[..n], 0, n, p, FirstCover(rows, 0, n, p));
  }

  lemma KeptAt(rows: seq<Row>, i: nat, n: nat)
    requires i < n <= |rows| && !Dropped(rows, i)
    ensures var ks, all := Kept(rows, i), Kept(rows, n);
      |ks| < |all| && all[|ks|] == rows[i] && (ks != [] ==> all[|ks| - 1] == ks[|ks| - 1])
  {
    KeptNext(rows, i);
    KeptGrows(rows, i + 1, n);
  }

  /** The body of that loop, for one row. */
  method ExpandRow(op: Row, ghost ks: seq<Row>, named: set<nat>, dups: set<nat>, out: seq<Out>, lastop: nat)
    returns (ok: bool, more: seq<Out>, last: nat)
    requires op.first != 0 && op.first <= End(op) && Standing(out, lastop, ks, named, dups)
    ensures ok ==> Standing(more, last, if Repeats(ks, op) then ks else ks + [op], named, dups)
    ensures !ok ==> !Repeats(ks, op)
    ensures !ok ==> Fails(ks, op, named, dups)
  {
    if lastop != 0 && op.first < lastop {
      return false, out, lastop;
    }
    if op.first == lastop {
      // a duplicate, ignored here
      return true, out, lastop;
    }
    var mine;
    ok, mine := EmitRow(op, named, dups);
    if !ok {
      return false, out, lastop;
    }
    OneMoreAcceptable(ks, op, named, dups);
    EmittedBefore(out, ks, op);
    RowEmitted(out, ks + [op], |ks|);
    more := EmitUnused(out, op.first);
    Assoc(out, Unused(op.first - |out|), mine);
    more, last := more + mine, End(op);
  }

  lemma EmittedBefore(out: seq<Out>, ks: seq<Row>, row: Row)
    requires Emitted(out, ks, |ks|)
    ensures Emitted(out, ks + [row], |ks|)
  {
    forall p ensures EntryFor(ks + [row], |ks|, p) == EntryFor(ks, |ks|, p) {
      SameCover(ks, row, p);
    }
  }

  /** The search for an opcode that dwarf.h defines; false stands for exit().
      It looks at all rows, dropped ones too: ListedComeFromRows says when what
      it finds has its entry from a row. */
  method ValidateOpListed(rows: seq<Row>, ghost n: nat, v: nat) returns (listed: bool)
    requires Terminated(rows, n) && Upward(rows)
    ensures listed <==> exists r :: 0 <= r < n && Contains(rows[r], v)
  {
    forall row: Row ensures Contains(row, v) <==> Covers(row, v) {
    }
    var i := 0;
    while rows[i].first != 0 || rows[i].last != 0 || rows[i].opcount != 0
      invariant i <= n
      invariant forall r :: 0 <= r < i ==> !Covers(rows[r], v)
      decreases n - i
    {
      var op := rows[i];
      if v == op.first || (op.last != 0 && v == op.last) {
        assert Covers(op, v);
        return true;
      }
      var j := op.first;
      while j < op.last
        invariant op.first <= j && (op.last == 0 || j <= op.last)
        invariant !(op.first <= v < j)
      {
        if v == j {
          assert Covers(op, v);
          return true;
        }
        j := j + 1;
      }
      i := i + 1;
    }
    listed := false;
  }
}
