/** Bucket groups of dd_checkutil.c as lists of lists: what each operation does
    to the buckets, and when a group behaves as a stack. */
module BucketSpec {
  import opened CText

  /** Bucket_Data. */
  datatype Data = Data(bFlag: bool, name: string, key: nat, base: nat, low: nat, high: nat)

  /** The entries of every allocated bucket, in order. */
  type Buckets = seq<seq<Data>>

  function Flat(bs: Buckets): seq<Data> {
    if bs == [] then [] else bs[0] + Flat(bs[1..])
  }

  /** What the linear scans see: they stop at the first empty bucket. */
  function Visible(bs: Buckets): seq<Data> {
    if bs == [] || bs[0] == [] then [] else bs[0] + Visible(bs[1..])
  }

  /** No empty bucket precedes one that is not. */
  predicate GapFree(bs: Buckets) {
    forall i, j :: 0 <= i < j < |bs| && bs[i] == [] ==> bs[j] == []
  }

  /** Everything after the first bucket that is not full is empty. */
  predicate StackShape(bs: Buckets, n: nat) {
    && (forall i :: 0 <= i < |bs| ==> |bs[i]| <= n)
    && (forall i, j :: 0 <= i < j < |bs| && |bs[i]| < n ==> bs[j] == [])
  }

  lemma {:induction false} EmptyBuckets(bs: Buckets)
    requires forall i :: 0 <= i < |bs| ==> bs[i] == []
    ensures Flat(bs) == []
  {
    if bs == [] {
    } else {
      EmptyBuckets(bs[1..]);
    }
  }

  /** Without gaps the scans see everything. */
  lemma {:induction false} VisibleIsFlat(bs: Buckets)
    requires GapFree(bs)
    ensures Visible(bs) == Flat(bs)
  {
    if bs == [] {
    } else {
      if bs[0] == [] {
        EmptyBuckets(bs);
      } else {
        VisibleIsFlat(bs[1..]);
      }
    }
  }

  // ----- AddEntryIntoBucketGroup

  /** The first bucket from k on with room. */
  function FirstRoom(bs: Buckets, n: nat, k: nat): (r: nat)
    requires k <= |bs|
    ensures k <= r <= |bs|
    ensures r < |bs| ==> |bs[r]| < n
    ensures forall i :: k <= i < r ==> |bs[i]| >= n
    decreases |bs| - k
  {
    if k == |bs| || |bs[k]| < n then k else FirstRoom(bs, n, k + 1)
  }

  function Add(bs: Buckets, n: nat, d: Data): Buckets
    requires n >= 1
  {
    if bs == [] then [[d]]
    else
      var last := |bs| - 1;
      if bs[last] != [] then
        if |bs[last]| < n then bs[last := bs[last] + [d]] else bs + [[d]]
      else
        var k := FirstRoom(bs, n, 0);
        if k < |bs| then bs[k := bs[k] + [d]] else bs
  }

  /** An entry put at the end of bucket k comes after all the others, when the
      buckets behind it are empty. */
  lemma {:induction false} AppendAt(bs: Buckets, k: nat, d: Data)
    requires k < |bs| && forall i :: k < i < |bs| ==> bs[i] == []
    ensures Flat(bs[k := bs[k] + [d]]) == Flat(bs) + [d]
    decreases k
  {
    var bs' := bs[k := bs[k] + [d]];
    if k == 0 {
      assert bs'[1..] == bs[1..];
      EmptyBuckets(bs[1..]);
    } else {
      assert bs'[1..] == bs[1..][k - 1 := bs[1..][k - 1] + [d]];
      AppendAt(bs[1..], k - 1, d);
    }
  }

  lemma {:induction false} FlatAppend(bs: Buckets, b: seq<Data>)
    ensures Flat(bs + [b]) == Flat(bs) + b
  {
    if bs == [] {
      assert [] + [b] == [b] && [b][1..] == [];
    } else {
      assert (bs + [b])[1..] == bs[1..] + [b];
      FlatAppend(bs[1..], b);
    }
  }

  /** Adding is a push. */
  lemma AddIsPush(bs: Buckets, n: nat, d: Data)
    requires n >= 1 && StackShape(bs, n)
    ensures StackShape(Add(bs, n, d), n) && Flat(Add(bs, n, d)) == Flat(bs) + [d]
  {
    if bs == [] {
      assert [[d]][1..] == [];
    } else {
      var last := |bs| - 1;
      if bs[last] != [] && |bs[last]| < n {
        AppendAt(bs, last, d);
      } else if bs[last] != [] {
        FlatAppend(bs, [d]);
      } else {
        var k := FirstRoom(bs, n, 0);
        AppendAt(bs, k, d);
      }
    }
  }

  // ----- the linear scans

  /** Where an entry is: its bucket and its index there. */
  datatype Loc = Loc(k: nat, i: nat)

  function FirstKey(b: seq<Data>, key: nat, i: nat): (r: nat)
    requires i <= |b|
    ensures i <= r <= |b|
    ensures r < |b| ==> b[r].key == key
    ensures forall j :: i <= j < r ==> b[j].key != key
    decreases |b| - i
  {
    if i == |b| || b[i].key == key then i else FirstKey(b, key, i + 1)
  }

  /** FindKeyInBucketGroup from bucket k on. */
  function FindKey(bs: Buckets, key: nat, k: nat): (r: Option<Loc>)
    requires k <= |bs|
    ensures r.Some? ==> k <= r.value.k < |bs| && r.value.i < |bs[r.value.k]| && bs[r.value.k][r.value.i].key == key
    decreases |bs| - k
  {
    if k == |bs| || bs[k] == [] then None
    else
      var i := FirstKey(bs[k], key, 0);
      if i < |bs[k]| then Some(Loc(k, i)) else FindKey(bs, key, k + 1)
  }

  predicate Covers(d: Data, address: nat) {
    d.low <= address <= d.high
  }

  predicate AnyCovers(s: seq<Data>, address: nat) {
    exists i :: 0 <= i < |s| && Covers(s[i], address)
  }

  /** Both ends of an entry belong to it. */
  lemma AnyCoversIs(s: seq<Data>, address: nat)
    ensures AnyCovers(s, address) <==> exists j :: 0 <= j < |s| && s[j].low <= address <= s[j].high
  {
    if j :| 0 <= j < |s| && s[j].low <= address <= s[j].high {
      assert Covers(s[j], address);
    }
  }

  /** FindAddressInBucketGroup from bucket k on. */
  predicate FindAddress(bs: Buckets, address: nat, k: nat)
    requires k <= |bs|
    decreases |bs| - k
  {
    if k == |bs| || bs[k] == [] then false
    else AnyCovers(bs[k], address) || FindAddress(bs, address, k + 1)
  }

  predicate HasKey(s: seq<Data>, key: nat) {
    exists i :: 0 <= i < |s| && s[i].key == key
  }

  /** The scan finds a key exactly when a visible entry has it, and finds the
      first such entry. */
  lemma {:induction false} FindKeySearchesVisible(bs: Buckets, key: nat, k: nat)
    requires k <= |bs|
    ensures FindKey(bs, key, k).Some? <==> HasKey(Visible(bs[k..]), key)
    ensures FindKey(bs, key, k).Some? ==>
      var s := Visible(bs[k..]);
      var at := FindKey(bs, key, k).value;
      FirstKey(s, key, 0) < |s| && s[FirstKey(s, key, 0)] == bs[at.k][at.i]
    decreases |bs| - k
  {
    if k == |bs| || bs[k] == [] {
    } else {
      var b, rest := bs[k], Visible(bs[k + 1..]);
      assert bs[k..][1..] == bs[k + 1..];
      var s := b + rest;
      assert Visible(bs[k..]) == s;
      var i := FirstKey(b, key, 0);
      if i < |b| {
        assert s[i] == b[i];
        FirstKeyIs(s, key, i);
      } else {
        FindKeySearchesVisible(bs, key, k + 1);
        if HasKey(rest, key) {
          var j := FirstKey(rest, key, 0);
          assert s[|b| + j] == rest[j];
          FirstKeyIs(s, key, |b| + j);
        } else {
          assert forall j :: 0 <= j < |s| ==> s[j] == if j < |b| then b[j] else rest[j - |b|];
        }
      }
    }
  }

  lemma FirstKeyIs(s: seq<Data>, key: nat, i: nat)
    requires i < |s| && s[i].key == key && forall j :: 0 <= j < i ==> s[j].key != key
    ensures FirstKey(s, key, 0) == i && HasKey(s, key)
  {
  }

  lemma {:induction false} FindAddressSearchesVisible(bs: Buckets, address: nat, k: nat)
    requires k <= |bs|
    ensures FindAddress(bs, address, k) <==> AnyCovers(Visible(bs[k..]), address)
    decreases |bs| - k
  {
    if k == |bs| || bs[k] == [] {
    } else {
      var b, rest := bs[k], Visible(bs[k + 1..]);
      assert bs[k..][1..] == bs[k + 1..];
      FindAddressSearchesVisible(bs, address, k + 1);
      AnyCoversAppend(b, rest, address);
    }
  }

  lemma AnyCoversAppend(a: seq<Data>, b: seq<Data>, address: nat)
    ensures AnyCovers(a + b, address) <==> AnyCovers(a, address) || AnyCovers(b, address)
  {
    if i :| 0 <= i < |a| && Covers(a[i], address) {
      assert (a + b)[i] == a[i];
    }
    if i :| 0 <= i < |b| && Covers(b[i], address) {
      assert (a + b)[|a| + i] == b[i];
    }
  }

  // ----- DeleteKeyInBucketGroup

  function RemoveAt(b: seq<Data>, i: nat): seq<Data>
    requires i < |b|
  {
    b[..i] + b[i + 1..]
  }

  function Delete(bs: Buckets, key: nat): Buckets {
    var at := FindKey(bs, key, 0);
    if at.None? then bs else bs[at.value.k := RemoveAt(bs[at.value.k], at.value.i)]
  }

  /** Deleting hides entries from the scans in exactly one case: the bucket
      becomes empty while the one after it is not. */
  lemma DeleteKeepsGapFree(bs: Buckets, key: nat)
    requires GapFree(bs) && FindKey(bs, key, 0).Some?
    ensures var k := FindKey(bs, key, 0).value.k;
      GapFree(Delete(bs, key)) <==> (|bs[k]| > 1 || k + 1 == |bs| || bs[k + 1] == [])
  {
    var at := FindKey(bs, key, 0).value;
    var bs' := Delete(bs, key);
    if |bs[at.k]| == 1 && at.k + 1 < |bs| && bs[at.k + 1] != [] {
      assert bs'[at.k] == [] && bs'[at.k + 1] != [];
    } else {
      forall i, j | 0 <= i < j < |bs'| && bs'[i] == [] ensures bs'[j] == [] {
        if i == at.k {
          assert bs[at.k + 1] == [];
          assert j > at.k + 1 ==> bs[j] == [];
        } else {
          assert bs[i] == [] && bs[j] == [];
        }
      }
    }
  }

  /** A gap does hide entries. */
  lemma {:induction false} GapHides(bs: Buckets)
    requires !GapFree(bs)
    ensures |Visible(bs)| < |Flat(bs)|
  {
    if bs[0] == [] {
      var i, j :| 0 <= i < j < |bs| && bs[i] == [] && bs[j] != [];
      FlatAtLeast(bs, j);
    } else {
      assert !GapFree(bs[1..]) by {
        var i, j :| 0 <= i < j < |bs| && bs[i] == [] && bs[j] != [];
        assert bs[1..][i - 1] == [] && bs[1..][j - 1] != [];
      }
      GapHides(bs[1..]);
    }
  }

  lemma {:induction false} FlatAtLeast(bs: Buckets, j: nat)
    requires j < |bs|
    ensures |Flat(bs)| >= |bs[j]|
    decreases j
  {
    if j == 0 {
    } else {
      FlatAtLeast(bs[1..], j - 1);
    }
  }

  /** Where bucket k begins in the flat list. */
  lemma {:induction false} FlatSplit(bs: Buckets, k: nat)
    requires k < |bs|
    ensures Flat(bs) == Flat(bs[..k]) + bs[k] + Flat(bs[k + 1..])
    decreases k
  {
    if k == 0 {
      assert Flat(bs[..0]) == [];
    } else {
      assert bs[..k][1..] == bs[1..][..k - 1];
      assert bs[1..][k..] == bs[k + 1..];
      FlatSplit(bs[1..], k - 1);
    }
  }

  /** Whatever has been deleted before, an add puts the entry somewhere, loses
      none, and leaves no bucket over full. */
  lemma AddKeepsAll(bs: Buckets, n: nat, d: Data)
    requires n >= 1 && NoneOverFull(bs, n)
    ensures multiset(Flat(Add(bs, n, d))) == multiset(Flat(bs)) + multiset{d}
    ensures NoneOverFull(Add(bs, n, d), n)
  {
    AddFits(bs, n, d);
    if bs == [] {
      assert [[d]][1..] == [];
      assert Flat([[d]]) == [d];
    } else {
      var last := |bs| - 1;
      if bs[last] != [] && |bs[last]| < n {
        OneMoreIn(bs, last, d);
      } else if bs[last] != [] {
        FlatAppend(bs, [d]);
      } else {
        OneMoreIn(bs, FirstRoom(bs, n, 0), d);
      }
    }
  }

  predicate NoneOverFull(bs: Buckets, n: nat) {
    forall i :: 0 <= i < |bs| ==> |bs[i]| <= n
  }

  lemma AddFits(bs: Buckets, n: nat, d: Data)
    requires n >= 1 && NoneOverFull(bs, n)
    ensures NoneOverFull(Add(bs, n, d), n)
  {
  }

  lemma OneMoreIn(bs: Buckets, k: nat, d: Data)
    requires k < |bs|
    ensures multiset(Flat(bs[k := bs[k] + [d]])) == multiset(Flat(bs)) + multiset{d}
  {
    var bs' := bs[k := bs[k] + [d]];
    FlatSplit(bs, k);
    FlatSplit(bs', k);
    assert bs'[..k] == bs[..k] && bs'[k + 1..] == bs[k + 1..];
    assert multiset(Flat(bs)) == multiset(Flat(bs[..k])) + multiset(bs[k]) + multiset(Flat(bs[k + 1..]));
    assert multiset(Flat(bs')) == multiset(Flat(bs[..k])) + (multiset(bs[k]) + multiset{d})
        + multiset(Flat(bs[k + 1..]));
  }

  /** The flat index of an entry. */
  function FlatIndex(bs: Buckets, at: Loc): (p: nat)
    requires at.k < |bs| && at.i < |bs[at.k]|
    ensures p < |Flat(bs)| && Flat(bs)[p] == bs[at.k][at.i]
  {
    FlatSplit(bs, at.k);
    |Flat(bs[..at.k])| + at.i
  }

  lemma RemovedInside(left: seq<Data>, mid: seq<Data>, right: seq<Data>, i: nat)
    requires i < |mid|
    ensures left + RemoveAt(mid, i) + right == RemoveAt(left + mid + right, |left| + i)
  {
    assert (left + mid + right)[..|left| + i] == left + mid[..i];
    assert (left + mid + right)[|left| + i + 1..] == mid[i + 1..] + right;
  }

  /** Deleting removes the entry that was found, and only it. */
  lemma DeleteRemovesOne(bs: Buckets, key: nat)
    requires FindKey(bs, key, 0).Some?
    ensures Flat(Delete(bs, key)) == RemoveAt(Flat(bs), FlatIndex(bs, FindKey(bs, key, 0).value))
  {
    OneRemoved(bs, Delete(bs, key), FindKey(bs, key, 0).value);
  }

  lemma OneRemoved(bs: Buckets, bs': Buckets, at: Loc)
    requires at.k < |bs| && at.i < |bs[at.k]| && bs' == bs[at.k := RemoveAt(bs[at.k], at.i)]
    ensures Flat(bs') == RemoveAt(Flat(bs), FlatIndex(bs, at))
  {
    FlatSplit(bs, at.k);
    FlatSplit(bs', at.k);
    assert bs'[..at.k] == bs[..at.k] && bs'[at.k + 1..] == bs[at.k + 1..];
    RemovedInside(Flat(bs[..at.k]), bs[at.k], Flat(bs[at.k + 1..]), at.i);
  }

  /** Under a stack's discipline the key that is deleted is the newest. */
  predicate NewestKey(s: seq<Data>, key: nat) {
    s != [] && s[|s| - 1].key == key && !HasKey(s[..|s| - 1], key)
  }

  lemma NewestIsLast(s: seq<Data>, key: nat, p: nat)
    requires NewestKey(s, key) && p < |s| && s[p].key == key
    ensures p == |s| - 1
  {
    assert forall i :: 0 <= i < |s| - 1 ==> s[..|s| - 1][i] == s[i];
  }

  /** When an entry is the last of all, it is the last of its bucket and every
      bucket behind is empty. */
  lemma LastOfAll(bs: Buckets, at: Loc)
    requires at.k < |bs| && at.i < |bs[at.k]| && FlatIndex(bs, at) == |Flat(bs)| - 1
    ensures forall j :: at.k < j < |bs| ==> bs[j] == []
  {
    FlatSplit(bs, at.k);
    forall j | at.k < j < |bs| ensures bs[j] == [] {
      FlatAtLeast(bs[at.k + 1..], j - at.k - 1);
    }
  }

  /** Deleting the newest key is a pop. */
  lemma DeleteIsPop(bs: Buckets, n: nat, key: nat)
    requires n >= 1 && StackShape(bs, n) && NewestKey(Flat(bs), key)
    ensures FindKey(bs, key, 0).Some?
    ensures StackShape(Delete(bs, key), n)
    ensures Flat(Delete(bs, key)) == Flat(bs)[..|Flat(bs)| - 1]
  {
    var s := Flat(bs);
    VisibleIsFlat(bs);
    assert bs[0..] == bs;
    assert HasKey(s, key) by {
      assert s[|s| - 1].key == key;
    }
    FindKeySearchesVisible(bs, key, 0);
    var at := FindKey(bs, key, 0).value;
    NewestIsLast(s, key, FlatIndex(bs, at));
    LastOfAll(bs, at);
    DeleteRemovesOne(bs, key);
    assert RemoveAt(s, |s| - 1) == s[..|s| - 1];
  }

  // ----- ResetBucketGroup

  function Reset(bs: Buckets): (r: Buckets)
    ensures |r| == |bs| && forall i :: 0 <= i < |r| ==> r[i] == []
  {
    seq(|bs|, _ => [])
  }

  // ----- whole runs

  datatype Op = OpAdd(d: Data) | OpDelete(key: nat) | OpReset

  function Perform(bs: Buckets, n: nat, op: Op): Buckets
    requires n >= 1
  {
    match op
    case OpAdd(d) => Add(bs, n, d)
    case OpDelete(key) => Delete(bs, key)
    case OpReset => Reset(bs)
  }

  function PerformAll(bs: Buckets, n: nat, ops: seq<Op>): Buckets
    requires n >= 1
  {
    if ops == [] then bs else Perform(PerformAll(bs, n, ops[..|ops| - 1]), n, ops[|ops| - 1])
  }

  /** The same operations on a plain stack. */
  function OnStack(s: seq<Data>, op: Op): seq<Data> {
    match op
    case OpAdd(d) => s + [d]
    case OpDelete(_) => if s == [] then [] else s[..|s| - 1]
    case OpReset => []
  }

  function AllOnStack(ops: seq<Op>): seq<Data> {
    if ops == [] then [] else OnStack(AllOnStack(ops[..|ops| - 1]), ops[|ops| - 1])
  }

  /** Entries are added under new keys and deleted newest first. */
  predicate Disciplined(ops: seq<Op>) {
    ops == [] ||
    (Disciplined(ops[..|ops| - 1]) &&
     var s := AllOnStack(ops[..|ops| - 1]);
     match ops[|ops| - 1]
     case OpAdd(d) => !HasKey(s, d.key)
     case OpDelete(key) => NewestKey(s, key)
     case OpReset => true)
  }

  /** A bucket group used with a stack's discipline is a stack: its buckets keep
      their shape, and the scans see the stack from bottom to top. */
  lemma {:induction false} GroupIsStack(n: nat, ops: seq<Op>)
    requires n >= 1 && Disciplined(ops)
    ensures var bs := PerformAll([], n, ops);
      StackShape(bs, n) && Flat(bs) == AllOnStack(ops) && Visible(bs) == AllOnStack(ops)
    decreases |ops|
  {
    var bs := PerformAll([], n, ops);
    if ops == [] {
    } else {
      var front, last := ops[..|ops| - 1], ops[|ops| - 1];
      GroupIsStack(n, front);
      var before := PerformAll([], n, front);
      match last
      case OpAdd(d) => AddIsPush(before, n, d);
      case OpDelete(key) => DeleteIsPop(before, n, key);
      case OpReset => EmptyBuckets(Reset(before));
    }
    VisibleIsFlat(bs);
  }

  /** IsValidInBucketGroup. */
  predicate IsValid(bs: Buckets, lower: nat, upper: nat, address: nat) {
    lower <= address <= upper && FindAddress(bs, address, 0)
  }

  /** So the searches of a disciplined group are searches of the stack: a key
      is found when the stack has it, the entry found is the stack's, and an
      address is valid when it is within the limits and some entry of the stack
      covers it. */
  lemma SearchesAreOfTheStack(n: nat, ops: seq<Op>, key: nat, lower: nat, upper: nat, address: nat)
    requires n >= 1 && Disciplined(ops)
    ensures var bs, s := PerformAll([], n, ops), AllOnStack(ops);
      && (FindKey(bs, key, 0).Some? <==> HasKey(s, key))
      && (FindKey(bs, key, 0).Some? ==>
        var at := FindKey(bs, key, 0).value;
        forall j :: 0 <= j < |s| && s[j].key == key ==> s[j] == bs[at.k][at.i])
      && (FindAddress(bs, address, 0) <==> exists j :: 0 <= j < |s| && s[j].low <= address <= s[j].high)
      && (IsValid(bs, lower, upper, address) <==>
        lower <= address <= upper && exists j :: 0 <= j < |s| && s[j].low <= address <= s[j].high)
  {
    var bs := PerformAll([], n, ops);
    GroupIsStack(n, ops);
    assert bs[0..] == bs;
    FindKeySearchesVisible(bs, key, 0);
    FindAddressSearchesVisible(bs, address, 0);
    AnyCoversIs(AllOnStack(ops), address);
    KeysAreDistinct(ops);
  }

  predicate KeysDiffer(s: seq<Data>) {
    forall i, j :: 0 <= i < j < |s| ==> s[i].key != s[j].key
  }

  /** Under the discipline no two entries of the stack share a key. */
  lemma {:induction false} KeysAreDistinct(ops: seq<Op>)
    requires Disciplined(ops)
    ensures KeysDiffer(AllOnStack(ops))
    decreases |ops|
  {
    if ops == [] {
    } else {
      KeysAreDistinct(ops[..|ops| - 1]);
      KeysStayDistinct(AllOnStack(ops[..|ops| - 1]), ops[|ops| - 1]);
    }
  }

  lemma KeysStayDistinct(s: seq<Data>, op: Op)
    requires KeysDiffer(s)
    requires op.OpAdd? ==> !HasKey(s, op.d.key)
    ensures KeysDiffer(OnStack(s, op))
  {
    if op.OpAdd? {
      forall i | 0 <= i < |s| ensures s[i].key != op.d.key {
      }
    }
  }

  /** Outside the discipline a deletion can hide an entry: with one entry to a
      bucket, deleting the older of two leaves the younger behind an empty
      bucket, where no search sees it. */
  lemma DeletedInFrontHides(a: Data, b: Data)
    requires a.key != b.key
    ensures var bs := PerformAll([], 1, [OpAdd(a), OpAdd(b), OpDelete(a.key)]);
      bs == [[], [b]] && b in Flat(bs) && Visible(bs) == [] && FindKey(bs, b.key, 0) == None
  {
    var ops := [OpAdd(a), OpAdd(b), OpDelete(a.key)];
    assert ops[..2] == [OpAdd(a), OpAdd(b)] && ops[..2][..1] == [OpAdd(a)] && ops[..1][..0] == [];
    assert PerformAll([], 1, ops[..1]) == [[a]];
    assert PerformAll([], 1, ops[..2]) == [[a], [b]];
    assert FindKey([[a], [b]], a.key, 0) == Some(Loc(0, 0));
    assert PerformAll([], 1, ops) == [[], [b]];
    assert [[], [b]][1..] == [[b]] && [[b]][1..] == [];
    assert Flat([[b]]) == [b] + Flat([]) == [b] && Flat([[], [b]]) == [] + [b] == [b];
  }

  // ----- FindDataInBucketGroup

  predicate SortedByKey(b: seq<Data>) {
    forall i, j :: 0 <= i < j < |b| ==> b[i].key <= b[j].key
  }

  /** The binary search of one bucket between low and high. */
  function BinarySearch(b: seq<Data>, key: nat, low: nat, high: nat): (r: nat)
    requires low <= high <= |b|
    ensures low <= r <= high
    decreases high - low
  {
    if low == high then low
    else
      var mid := low + (high - low) / 2;
      if b[mid].key < key then BinarySearch(b, key, mid + 1, high) else BinarySearch(b, key, low, mid)
  }

  /** FindDataInBucketGroup from bucket k on; empty buckets are passed over. */
  function FindData(bs: Buckets, key: nat, k: nat): (r: Option<Loc>)
    requires k <= |bs|
    ensures r.Some? ==> k <= r.value.k < |bs| && r.value.i < |bs[r.value.k]| && bs[r.value.k][r.value.i].key == key
    decreases |bs| - k
  {
    if k == |bs| then None
    else
      var low := BinarySearch(bs[k], key, 0, |bs[k]|);
      if low < |bs[k]| && bs[k][low].key == key then Some(Loc(k, low)) else FindData(bs, key, k + 1)
  }

  /** n is the place of the first entry not below the key. */
  predicate IsLowerBound(b: seq<Data>, key: nat, n: nat)
    requires n <= |b|
  {
    AllBelow(b, key, n) && NoneBelow(b, key, n)
  }

  predicate AllBelow(b: seq<Data>, key: nat, n: nat)
    requires n <= |b|
  {
    forall i :: 0 <= i < n ==> b[i].key < key
  }

  predicate NoneBelow(b: seq<Data>, key: nat, n: nat)
    requires n <= |b|
  {
    forall i :: n <= i < |b| ==> key <= b[i].key
  }

  /** In a sorted bucket the search finds that place. */
  lemma {:induction false} BinarySearchIsLowerBound(b: seq<Data>, key: nat, low: nat, high: nat)
    requires SortedByKey(b) && low <= high <= |b| && AllBelow(b, key, low) && NoneBelow(b, key, high)
    ensures IsLowerBound(b, key, BinarySearch(b, key, low, high))
    decreases high - low
  {
    if low >= high {
    } else {
      var mid := low + (high - low) / 2;
      SidesOf(b, key, mid);
      if b[mid].key < key {
        BinarySearchIsLowerBound(b, key, mid + 1, high);
      } else {
        BinarySearchIsLowerBound(b, key, low, mid);
      }
    }
  }

  lemma SidesOf(b: seq<Data>, key: nat, mid: nat)
    requires SortedByKey(b) && mid < |b|
    ensures if b[mid].key < key then AllBelow(b, key, mid + 1) else NoneBelow(b, key, mid)
  {
  }

  lemma NotInSortedBucket(b: seq<Data>, key: nat)
    requires SortedByKey(b)
    ensures var low := BinarySearch(b, key, 0, |b|);
      FirstKey(b, key, 0) == if low < |b| && b[low].key == key then low else |b|
  {
    BinarySearchIsLowerBound(b, key, 0, |b|);
  }

  /** Binary and linear search find the same entry, duplicates included. */
  lemma {:induction false} BinaryIsLinear(bs: Buckets, key: nat, k: nat)
    requires k <= |bs| && GapFree(bs)
    requires forall i :: 0 <= i < |bs| ==> SortedByKey(bs[i])
    ensures FindData(bs, key, k) == FindKey(bs, key, k)
    decreases |bs| - k
  {
    if k >= |bs| {
    } else {
      NotInSortedBucket(bs[k], key);
      BinaryIsLinear(bs, key, k + 1);
      if bs[k] == [] && k + 1 < |bs| {
        assert bs[k + 1] == [];
      }
    }
  }

  // ----- the sentinels

  predicate NoHit(found: seq<Option<Loc>>) {
    forall i :: 0 <= i < |found| ==> found[i].None?
  }

  /** What the searches for these keys return. */
  predicate AreResults(bs: Buckets, keys: seq<nat>, found: seq<Option<Loc>>) {
    |found| == |keys| && forall i :: 0 <= i < |keys| ==> found[i] == FindData(bs, keys[i], 0)
  }

  lemma OneMoreResult(bs: Buckets, keys: seq<nat>, found: seq<Option<Loc>>, at: Option<Loc>)
    requires |found| < |keys| && AreResults(bs, keys[..|found|], found) && at == FindData(bs, keys[|found|], 0)
    ensures AreResults(bs, keys[..|found| + 1], found + [at])
  {
  }

  /** The first of the hits; None when there is none. */
  predicate IsFirstHit(found: seq<Option<Loc>>, x: Option<Loc>) {
    if x.None? then NoHit(found) else exists i :: 0 <= i < |found| && found[i] == x && NoHit(found[..i])
  }

  predicate IsLastHit(found: seq<Option<Loc>>, x: Option<Loc>) {
    if x.None? then NoHit(found) else exists i :: 0 <= i < |found| && found[i] == x && NoHit(found[i + 1..])
  }

  lemma FirstAfterOneMore(found: seq<Option<Loc>>, first: Option<Loc>, at: Option<Loc>)
    requires IsFirstHit(found, first)
    ensures IsFirstHit(found + [at], if first.None? then at else first)
  {
    var more := found + [at];
    if first.Some? {
      var i :| 0 <= i < |found| && found[i] == first && NoHit(found[..i]);
      assert more[i] == first && more[..i] == found[..i];
    } else {
      assert more[|found|] == at && more[..|found|] == found;
    }
  }

  lemma LastAfterOneMore(found: seq<Option<Loc>>, last: Option<Loc>, at: Option<Loc>)
    requires IsLastHit(found, last)
    ensures IsLastHit(found + [at], if at.Some? then at else last)
  {
    var more := found + [at];
    if at.Some? {
      assert more[|found|] == at && more[|found| + 1..] == [];
    } else if last.Some? {
      var i :| 0 <= i < |found| && found[i] == last && NoHit(found[i + 1..]);
      assert more[i] == last && more[i + 1..] == found[i + 1..] + [at];
    }
  }
}
