/** The attribute/class/form usage tree of dd_attr_form.c: preloading, legality
    and recording.  The search tree itself is a map ordered by its key. */
module AttrForm {
  import opened CText

  /** The three keys of an entry: attribute, form class, form. */
  datatype Key = Key(k1: nat, k2: nat, k3: nat)

  /** from_tables. */
  datatype Origin = AfUnknown | AfStd | AfExten

  datatype Entry = Entry(origin: Origin, count: nat)

  type Tree = map<Key, Entry>

  datatype Row = Row(key: Key, entry: Entry)

  /** The row that ends a static table; the second key is not looked at. */
  predicate IsTerminator(row: Row) {
    row.key.k1 == 0 && row.key.k3 == 0
  }

  /** n is where the table ends: at the first row whose attribute and form are
      both zero, or at the end of the array. */
  predicate EndsAt(table: seq<Row>, n: nat) {
    && n <= |table|
    && (n < |table| ==> table[n].key.k1 == 0 && table[n].key.k3 == 0)
    && forall i :: 0 <= i < n ==> table[i].key.k1 != 0 || table[i].key.k3 != 0
  }

  /** Where that is, from row i on. */
  function EndFrom(table: seq<Row>, i: nat): (n: nat)
    requires i <= |table|
    ensures i <= n <= |table|
    decreases |table| - i
  {
    if i == |table| || IsTerminator(table[i]) then i else EndFrom(table, i + 1)
  }

  /** Every table has exactly one end. */
  lemma TableEnds(table: seq<Row>, n: nat)
    ensures EndsAt(table, n) <==> n == EndFrom(table, 0)
  {
    EndFromIsEnd(table, 0);
  }

  lemma {:induction false} EndFromIsEnd(table: seq<Row>, i: nat)
    requires i <= |table|
    ensures var n := EndFrom(table, i);
      && (n < |table| ==> table[n].key.k1 == 0 && table[n].key.k3 == 0)
      && forall k :: i <= k < n ==> table[k].key.k1 != 0 || table[k].key.k3 != 0
    decreases |table| - i
  {
    if i == |table| || IsTerminator(table[i]) {
    } else {
      EndFromIsEnd(table, i + 1);
    }
  }

  predicate DistinctKeys(rows: seq<Row>) {
    forall i, j :: 0 <= i < j < |rows| ==> rows[i].key != rows[j].key
  }

  /** The tree that holds exactly these rows. */
  ghost predicate Holds(tree: Tree, rows: seq<Row>) {
    && (forall i :: 0 <= i < |rows| ==> rows[i].key in tree && tree[rows[i].key] == rows[i].entry)
    && (forall k :: k in tree ==> exists i :: 0 <= i < |rows| && rows[i].key == k)
  }

  lemma HoldsOneMore(tree: Tree, rows: seq<Row>, row: Row)
    requires DistinctKeys(rows) && Holds(tree, rows) && row.key !in tree
    ensures DistinctKeys(rows + [row]) && Holds(tree[row.key := row.entry], rows + [row])
  {
    var more := rows + [row];
    assert more[|rows|] == row;
    forall i, j | 0 <= i < j < |more| ensures more[i].key != more[j].key {
      if j == |rows| {
        assert rows[i].key in tree;
      }
    }
    var bigger := tree[row.key := row.entry];
    forall k | k in bigger ensures exists i :: 0 <= i < |more| && more[i].key == k {
      if k in tree {
        var i :| 0 <= i < |rows| && rows[i].key == k;
        assert more[i].key == k;
      }
    }
  }

  /** A row whose key is already there makes the keys not distinct. */
  lemma DuplicateRow(tree: Tree, rows: seq<Row>, n: nat)
    requires n < |rows| && Holds(tree, rows[..n]) && rows[n].key in tree
    ensures !DistinctKeys(rows)
  {
    var i :| 0 <= i < n && rows[..n][i].key == rows[n].key;
    assert rows[i].key == rows[n].key;
  }

  // ----- recording, as a function

  /** record_attr_form_use on the tree: one more use of the key. */
  function Record(tree: Tree, key: Key): Tree {
    if key in tree then tree[key := tree[key].(count := tree[key].count + 1)]
    else tree[key := Entry(AfUnknown, 1)]
  }

  function RecordAll(tree: Tree, calls: seq<Key>): Tree {
    if calls == [] then tree else Record(RecordAll(tree, calls[..|calls| - 1]), calls[|calls| - 1])
  }

  /** How many of the calls are with this key. */
  function Uses(calls: seq<Key>, key: Key): nat {
    if calls == [] then 0
    else Uses(calls[..|calls| - 1], key) + if calls[|calls| - 1] == key then 1 else 0
  }

  lemma {:induction false} UsesNone(calls: seq<Key>, key: Key)
    ensures Uses(calls, key) == 0 <==> key !in calls
    decreases |calls|
  {
    if calls == [] {
    } else {
      var front, last := calls[..|calls| - 1], calls[|calls| - 1];
      assert calls == front + [last];
      UsesNone(front, key);
    }
  }

  /** After any run: the keys are those preloaded or used, origins are kept,
      and every count has grown by the uses of its key. */
  lemma {:induction false} RecordedCounts(tree: Tree, calls: seq<Key>, key: Key)
    ensures key in RecordAll(tree, calls) <==> key in tree || key in calls
    ensures key in RecordAll(tree, calls) ==>
      RecordAll(tree, calls)[key] ==
        if key in tree then Entry(tree[key].origin, tree[key].count + Uses(calls, key))
        else Entry(AfUnknown, Uses(calls, key))
    decreases |calls|
  {
    if calls == [] {
    } else {
      var front, last := calls[..|calls| - 1], calls[|calls| - 1];
      assert calls == front + [last];
      RecordedCounts(tree, front, key);
      UsesNone(front, key);
    }
  }

  // ----- legality, as a function

  /** legal_attr_formclass_combination. */
  predicate Legal(tree: Tree, suppressExtensions: bool, attr: nat, fc: nat) {
    var key := Key(attr, fc, 0);
    key in tree && (!suppressExtensions || tree[key].origin == AfStd)
  }

  /** Exactly when a combination is legal after any run of recordings: when a
      table has it, or when extensions are not suppressed and it was itself
      recorded with form zero. */
  lemma LegalAfterRecording(base: Tree, calls: seq<Key>, suppressExtensions: bool, attr: nat, fc: nat)
    ensures Legal(RecordAll(base, calls), suppressExtensions, attr, fc) <==>
      (Legal(base, suppressExtensions, attr, fc) || (!suppressExtensions && Key(attr, fc, 0) in calls))
  {
    RecordedCounts(base, calls, Key(attr, fc, 0));
  }

  /** So recording real forms never changes legality. */
  lemma RecordingKeepsLegality(base: Tree, calls: seq<Key>, suppressExtensions: bool, attr: nat, fc: nat)
    requires forall i :: 0 <= i < |calls| ==> calls[i].k3 != 0
    ensures Legal(RecordAll(base, calls), suppressExtensions, attr, fc) == Legal(base, suppressExtensions, attr, fc)
  {
    LegalAfterRecording(base, calls, suppressExtensions, attr, fc);
  }

  /** Legality over the preloaded tables themselves. */
  lemma LegalInTables(std: seq<Row>, ext: seq<Row>, tree: Tree, suppressExtensions: bool, attr: nat, fc: nat)
    requires Holds(tree, std + ext)
    requires forall i :: 0 <= i < |std| ==> std[i].entry.origin == AfStd
    requires forall i :: 0 <= i < |ext| ==> ext[i].entry.origin == AfExten
    ensures Legal(tree, suppressExtensions, attr, fc) <==>
      (exists i :: 0 <= i < |std| && std[i].key == Key(attr, fc, 0))
      || (!suppressExtensions && exists i :: 0 <= i < |ext| && ext[i].key == Key(attr, fc, 0))
  {
    var rows, key := std + ext, Key(attr, fc, 0);
    if key in tree {
      var i :| 0 <= i < |rows| && rows[i].key == key;
      assert tree[key] == rows[i].entry;
      if i < |std| {
        assert std[i].key == key;
      } else {
        assert ext[i - |std|].key == key;
      }
    }
    if i :| 0 <= i < |std| && std[i].key == key {
      assert rows[i] == std[i];
    }
    if i :| 0 <= i < |ext| && ext[i].key == key {
      assert rows[|std| + i] == ext[i];
    }
  }

  /** threekey_attr_form_base and the flag that suppresses extensions. */
  class UsageTree {
    var tree: Tree
    var suppressExtensions: bool

    constructor (suppressExtensions: bool)
      ensures tree == map[] && this.suppressExtensions == suppressExtensions
    {
      tree := map[];
      this.suppressExtensions := suppressExtensions;
    }

    /** dd_insert_table_entry: false for a key that is already there. */
    method InsertTableEntry(row: Row) returns (ok: bool)
      modifies this`tree
      ensures ok == (row.key !in old(tree))
      ensures tree == if ok then old(tree)[row.key := row.entry] else old(tree)
    {
      if row.key in tree {
        return false;
      }
      tree := tree[row.key := row.entry];
      ok := true;
    }

    /** dd_common_build_base_tree: succeeds exactly when no key is repeated in
        the rows before the ends of the two tables, and then holds just them. */
    method BuildBaseTree(std: seq<Row>, ext: seq<Row>, ghost n: nat, ghost m: nat) returns (ok: bool)
      requires tree == map[] && EndsAt(std, n) && EndsAt(ext, m)
      modifies this`tree
      ensures ok <==> DistinctKeys(std[..n] + ext[..m])
      ensures ok ==> Holds(tree, std[..n] + ext[..m])
    {
      ghost var all := std[..n] + ext[..m];
      assert [] + std[..n] == std[..n];
      ok := InsertTable(std, n, [], all);
      if ok {
        ok := InsertTable(ext, m, std[..n], all);
      }
    }

    /** Row t of the table is the next of all rows. */
    static lemma NextRow(done: seq<Row>, table: seq<Row>, n: nat, all: seq<Row>, t: nat)
      requires t < n <= |table| && done + table[..n] <= all
      ensures var rows := done + table[..t];
        && done + table[..t + 1] == rows + [table[t]]
        && |rows| < |all| && all[..|rows|] == rows && all[|rows|] == table[t]
    {
      assert table[..n][t] == table[t] && table[..n][..t] == table[..t];
      assert all[..|done + table[..n]|] == done + table[..n];
    }

    /** One table, after the rows in done: the loop stops at its end. */
    method InsertTable(table: seq<Row>, ghost n: nat, ghost done: seq<Row>, ghost all: seq<Row>) returns (ok: bool)
      requires EndsAt(table, n) && DistinctKeys(done) && Holds(tree, done) && done + table[..n] <= all
      modifies this`tree
      ensures ok ==> DistinctKeys(done + table[..n]) && Holds(tree, done + table[..n])
      ensures !ok ==> !DistinctKeys(all)
    {
      var t := 0;
      assert done + table[..0] == done;
      while t < |table| && !IsTerminator(table[t])
        invariant t <= n
        invariant DistinctKeys(done + table[..t]) && Holds(tree, done + table[..t])
      {
        ghost var rows, before := done + table[..t], tree;
        NextRow(done, table, n, all, t);
        var res := InsertTableEntry(table[t]);
        if !res {
          DuplicateRow(tree, all, |rows|);
          return false;
        }
        HoldsOneMore(before, rows, table[t]);
        t := t + 1;
      }
      ok := true;
    }

    /** legal_attr_formclass_combination. */
    method LegalAttrFormClassCombination(attr: nat, fc: nat) returns (legal: bool)
      ensures legal == Legal(tree, suppressExtensions, attr, fc)
    {
      var e := Key(attr, fc, 0);
      if e !in tree {
        return false;
      }
      if !suppressExtensions {
        return true;
      }
      legal := tree[e].origin == AfStd;
    }

    /** record_attr_form_use; legal is what the check found on the way. */
    method RecordAttrFormUse(attr: nat, fclass: nat, form: nat) returns (legal: bool)
      modifies this`tree
      ensures tree == Record(old(tree), Key(attr, fclass, form))
      ensures legal == Legal(old(tree), suppressExtensions, attr, fclass)
    {
      legal := LegalAttrFormClassCombination(attr, fclass);
      var e := Key(attr, fclass, form);
      if e !in tree {
        tree := tree[e := Entry(AfUnknown, 1)];
        return;
      }
      var re := tree[e];
      tree := tree[e := re.(count := re.count + 1)];
    }
  }
}
