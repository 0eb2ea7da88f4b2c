/** The linked buckets of dd_checkutil.c. */
module BucketGroup {
  import opened CText
  import opened BucketSpec

  const NO_DATA := Data(false, "", 0, 0, 0, 0)

  class Bucket {
    var nEntries: nat
    const entries: array<Data>
    var pNext: Bucket?

    /** calloc of one bucket, and the entry it is made for. */
    constructor (size: nat, d: Data)
      requires size >= 1
      ensures Valid(size) && pNext == null && Used() == [d] && fresh(entries)
    {
      nEntries, pNext := 1, null;
      entries := new Data[size](_ => NO_DATA);
      new;
      entries[0] := d;
    }

    ghost predicate Valid(size: nat)
      reads this`nEntries, entries
    {
      entries.Length == size && nEntries <= size
    }

    ghost function Used(): seq<Data>
      reads this`nEntries, entries
      requires nEntries <= entries.Length
    {
      entries[..nEntries]
    }

    method Append(d: Data)
      requires nEntries < entries.Length
      modifies this`nEntries, entries
      ensures nEntries == old(nEntries) + 1 && Used() == old(Used()) + [d]
    {
      entries[nEntries] := d;
      nEntries := nEntries + 1;
    }

    /** The entries behind nIndex move up one place. */
    method RemoveEntry(nIndex: nat)
      requires nIndex < nEntries <= entries.Length
      modifies this`nEntries, entries
      ensures nEntries == old(nEntries) - 1 && Used() == RemoveAt(old(Used()), nIndex)
    {
      ghost var was, n := entries[..], nEntries;
      for nStart := nIndex + 1 to nEntries
        invariant nEntries == n
        invariant entries[..] == Partly(was, nIndex, nStart)
      {
        PartlyStep(was, nIndex, nStart);
        entries[nStart - 1] := entries[nStart];
      }
      PartlyDone(was, nIndex, n);
      assert entries[..n - 1] == entries[..][..n - 1];
      entries[nEntries - 1] := NO_DATA;
      nEntries := nEntries - 1;
    }

    /** The entries between k and m have moved up, the rest has not. */
    static function Partly(was: seq<Data>, k: nat, m: nat): (r: seq<Data>)
      requires k < m <= |was|
      ensures |r| == |was|
    {
      was[..k] + was[k + 1..m] + was[m - 1..]
    }

    static lemma PartlyStep(was: seq<Data>, k: nat, m: nat)
      requires k < m < |was|
      ensures Partly(was, k, m)[m] == was[m]
      ensures Partly(was, k, m + 1) == Partly(was, k, m)[m - 1 := was[m]]
    {
    }

    static lemma PartlyDone(was: seq<Data>, k: nat, n: nat)
      requires k < n <= |was|
      ensures Partly(was, k, n)[..n - 1] == RemoveAt(was[..n], k)
    {
    }

    /** The linear search of this bucket. */
    method Scan(key: nat) returns (nIndex: nat)
      requires nEntries <= entries.Length
      ensures nIndex == FirstKey(Used(), key, 0)
    {
      nIndex := 0;
      while nIndex < nEntries && entries[nIndex].key != key
        invariant nIndex <= nEntries && FirstKey(Used(), key, 0) == FirstKey(Used(), key, nIndex)
      {
        nIndex := nIndex + 1;
      }
    }

    /** The search for an entry that covers the address. */
    method ScanAddress(address: nat) returns (found: bool)
      requires nEntries <= entries.Length
      ensures found == AnyCovers(Used(), address)
    {
      for nIndex := 0 to nEntries
        invariant forall i :: 0 <= i < nIndex ==> !Covers(Used()[i], address)
      {
        if entries[nIndex].low <= address <= entries[nIndex].high {
          assert Covers(Used()[nIndex], address);
          return true;
        }
      }
      found := false;
    }

    /** The binary search of this bucket. */
    method Bisect(key: nat) returns (low: nat)
      requires nEntries <= entries.Length
      ensures low == BinarySearch(Used(), key, 0, nEntries)
    {
      low := 0;
      var high := nEntries;
      while low < high
        invariant low <= high <= nEntries
        invariant BinarySearch(Used(), key, 0, nEntries) == BinarySearch(Used(), key, low, high)
      {
        var mid := low + (high - low) / 2;
        if entries[mid].key < key {
          low := mid + 1;
        } else {
          high := mid;
        }
      }
    }
  }

  /** Bucket_Group, for any bucket size. */
  class Group {
    const size: nat
    var lower: nat
    var upper: nat
    var pFirst: Option<Loc>
    var pLast: Option<Loc>
    var pHead: Bucket?
    var pTail: Bucket?

    /** The list from pHead on, and what its buckets hold. */
    ghost var spine: seq<Bucket>
    ghost var contents: Buckets
    ghost var Repr: set<object>

    ghost predicate Valid()
      reads this, Repr
    {
      && size >= 1 && this in Repr
      && (forall i :: 0 <= i < |spine| ==> spine[i] in Repr && spine[i].entries in Repr)
      && Linked()
      && Filled()
    }

    /** The buckets are distinct and linked in order. */
    ghost predicate Linked()
      reads this`spine, this`pHead, this`pTail, spine`pNext
    {
      && (forall i, j :: 0 <= i < j < |spine| ==> spine[i] != spine[j] && spine[i].entries != spine[j].entries)
      && (if spine == [] then pHead == null && pTail == null
          else pHead == spine[0] && pTail == spine[|spine| - 1])
      && (forall i {:trigger spine[i].pNext} :: 0 <= i < |spine| ==> spine[i].pNext == Next(i + 1))
    }

    /** The bucket at a place of the list, or null past its end. */
    ghost function Next(k: nat): Bucket?
      reads this`spine
    {
      if k < |spine| then spine[k] else null
    }

    ghost predicate Filled()
      reads this`spine, this`contents, spine`nEntries, set i | 0 <= i < |spine| :: spine[i].entries
    {
      && |contents| == |spine|
      && (forall i :: 0 <= i < |spine| ==> spine[i].Valid(size) && contents[i] == spine[i].Used())
    }

    /** AllocateBucketGroup. */
    constructor (size: nat)
      requires size >= 1
      ensures Valid() && fresh(Repr) && contents == [] && this.size == size
      ensures pFirst == None && pLast == None && lower == 0 && upper == 0
    {
      this.size := size;
      lower, upper, pFirst, pLast, pHead, pTail := 0, 0, None, None, null, null;
      spine, contents := [], [];
      Repr := {this};
    }

    /** A bucket that is not in the list becomes its last. */
    method Chain(pBucket: Bucket)
      requires Linked() && pBucket.pNext == null
      requires forall i :: 0 <= i < |spine| ==> spine[i] != pBucket && spine[i].entries != pBucket.entries
      modifies this`pHead, this`pTail, this`spine, spine`pNext
      ensures Linked() && spine == old(spine) + [pBucket]
    {
      if pHead == null {
        pHead := pBucket;
      } else {
        pTail.pNext := pBucket;
      }
      pTail := pBucket;
      spine := spine + [pBucket];
    }

    /** A new bucket at the end of the list. */
    method LinkBucket(d: Data)
      requires Valid()
      modifies Repr
      ensures Valid() && fresh(Repr - old(Repr)) && contents == old(contents) + [[d]]
      ensures unchanged(this`lower, this`upper, this`pFirst, this`pLast)
    {
      var pBucket := new Bucket(size, d);
      Enlist(pBucket, d);
    }

    /** A bucket from outside joins the group with its one entry. */
    method Enlist(pBucket: Bucket, ghost d: Data)
      requires Valid() && pBucket !in Repr && pBucket.entries !in Repr
      requires pBucket.pNext == null && pBucket.Valid(size) && pBucket.Used() == [d]
      modifies Repr
      ensures Valid() && Repr == old(Repr) + {pBucket, pBucket.entries} && contents == old(contents) + [[d]]
      ensures unchanged(this`lower, this`upper, this`pFirst, this`pLast)
    {
      Chain(pBucket);
      Repr := Repr + {pBucket, pBucket.entries};
      contents := contents + [[d]];
    }

    /** The k-th bucket takes one more entry. */
    method AppendTo(pBucket: Bucket, ghost k: nat, d: Data)
      requires Valid() && k < |spine| && spine[k] == pBucket && pBucket.nEntries < size
      modifies Repr
      ensures Valid() && Repr == old(Repr) && contents == old(contents)[k := old(contents)[k] + [d]]
      ensures unchanged(this`lower, this`upper, this`pFirst, this`pLast)
    {
      pBucket.Append(d);
      contents := contents[k := contents[k] + [d]];
    }

    /** AddEntryIntoBucketGroup. */
    method AddEntryIntoBucketGroup(d: Data)
      requires Valid()
      modifies Repr
      ensures Valid() && fresh(Repr - old(Repr)) && contents == Add(old(contents), size, d)
      ensures unchanged(this`lower, this`upper, this`pFirst, this`pLast)
    {
      if pHead == null {
        LinkBucket(d);
        assert [] + [[d]] == [[d]];
        return;
      }
      var pBucket := pTail;
      if pBucket.nEntries > 0 {
        if pBucket.nEntries < size {
          AppendTo(pBucket, |spine| - 1, d);
        } else {
          LinkBucket(d);
        }
        return;
      }
      // buckets that a reset has emptied: the first with room is used
      pBucket := pHead;
      ghost var k := 0;
      while pBucket != null
        invariant k <= |spine| && pBucket == Next(k)
        invariant FirstRoom(contents, size, 0) == FirstRoom(contents, size, k)
        decreases |spine| - k
      {
        if pBucket.nEntries < size {
          AppendTo(pBucket, k, d);
          return;
        }
        assert spine[k].pNext == Next(k + 1);
        pBucket := pBucket.pNext;
        k := k + 1;
      }
    }

    /** The linear search for a key: the bucket, and where its entry is. */
    method Locate(key: nat) returns (pBucket: Bucket?, at: Option<Loc>)
      requires Valid()
      ensures at == FindKey(contents, key, 0)
      ensures at.Some? ==> pBucket == spine[at.value.k]
    {
      pBucket := pHead;
      var k := 0;
      while pBucket != null && pBucket.nEntries > 0
        invariant k <= |spine| && pBucket == Next(k)
        invariant FindKey(contents, key, 0) == FindKey(contents, key, k)
        decreases |spine| - k
      {
        var nIndex := pBucket.Scan(key);
        if nIndex < pBucket.nEntries {
          return pBucket, Some(Loc(k, nIndex));
        }
        assert spine[k].pNext == Next(k + 1);
        pBucket := pBucket.pNext;
        k := k + 1;
      }
      at := None;
    }

    /** DeleteKeyInBucketGroup. */
    method DeleteKeyInBucketGroup(key: nat) returns (deleted: bool)
      requires Valid()
      modifies Repr
      ensures Valid() && Repr == old(Repr) && contents == Delete(old(contents), key)
      ensures deleted == FindKey(old(contents), key, 0).Some?
      ensures unchanged(this`lower, this`upper, this`pFirst, this`pLast)
    {
      var pBucket, at := Locate(key);
      if at.None? {
        return false;
      }
      RemoveFrom(pBucket, at.value.k, at.value.i);
      deleted := true;
    }

    /** Entry i of bucket k goes. */
    method RemoveFrom(pBucket: Bucket, k: nat, i: nat)
      requires Valid() && k < |contents| && pBucket == spine[k] && i < |contents[k]|
      modifies Repr
      ensures Valid() && Repr == old(Repr)
      ensures contents == old(contents)[k := RemoveAt(old(contents)[k], i)]
      ensures unchanged(this`lower, this`upper, this`pFirst, this`pLast)
    {
      pBucket.RemoveEntry(i);
      contents := contents[k := RemoveAt(contents[k], i)];
    }

    /** FindKeyInBucketGroup: the place of the entry. */
    method FindKeyInBucketGroup(key: nat) returns (at: Option<Loc>)
      requires Valid()
      ensures at == FindKey(contents, key, 0)
    {
      var pBucket;
      pBucket, at := Locate(key);
    }

    /** FindAddressInBucketGroup. */
    method FindAddressInBucketGroup(address: nat) returns (found: bool)
      requires Valid()
      ensures found == FindAddress(contents, address, 0)
    {
      var pBucket := pHead;
      var k := 0;
      while pBucket != null && pBucket.nEntries > 0
        invariant k <= |spine| && pBucket == Next(k)
        invariant FindAddress(contents, address, 0) == FindAddress(contents, address, k)
        decreases |spine| - k
      {
        var here := pBucket.ScanAddress(address);
        if here {
          return true;
        }
        assert spine[k].pNext == Next(k + 1);
        pBucket := pBucket.pNext;
        k := k + 1;
      }
      found := false;
    }

    /** IsValidInBucketGroup: within the limits and covered by an entry. */
    method IsValidInBucketGroup(address: nat) returns (valid: bool)
      requires Valid()
      ensures valid == IsValid(contents, lower, upper, address)
    {
      if address >= lower && address <= upper {
        valid := FindAddressInBucketGroup(address);
      } else {
        valid := false;
      }
    }

    /** The bucket by bucket binary search. */
    method SearchBuckets(key: nat) returns (at: Option<Loc>)
      requires Valid()
      ensures at == FindData(contents, key, 0)
    {
      var pBucket := pHead;
      var k := 0;
      while pBucket != null
        invariant k <= |spine| && pBucket == Next(k)
        invariant FindData(contents, key, 0) == FindData(contents, key, k)
        decreases |spine| - k
      {
        if pBucket.nEntries > 0 {
          var low := pBucket.Bisect(key);
          if low < pBucket.nEntries && pBucket.entries[low].key == key {
            return Some(Loc(k, low));
          }
        }
        assert spine[k].pNext == Next(k + 1);
        pBucket := pBucket.pNext;
        k := k + 1;
      }
      at := None;
    }

    /** FindDataInBucketGroup: a hit moves the sentinels. */
    method FindDataInBucketGroup(key: nat) returns (at: Option<Loc>)
      requires Valid()
      modifies this`pFirst, this`pLast
      ensures Valid() && at == FindData(contents, key, 0)
      ensures pFirst == (if old(pFirst).None? then at else old(pFirst))
      ensures pLast == (if at.Some? then at else old(pLast))
    {
      at := SearchBuckets(key);
      if at.Some? {
        NoteHit(at);
      }
    }

    method NoteHit(at: Option<Loc>)
      requires Valid()
      modifies this`pFirst, this`pLast
      ensures Valid() && pLast == at
      ensures pFirst == if old(pFirst).None? then at else old(pFirst)
    {
      if pFirst.None? {
        pFirst := at;
      }
      pLast := at;
    }

    /** ResetSentinelBucketGroup. */
    method ResetSentinelBucketGroup()
      requires Valid()
      modifies this`pFirst, this`pLast
      ensures Valid() && pFirst == None && pLast == None
    {
      pFirst, pLast := None, None;
    }

    /** Searches after a reset of the sentinels: whatever keys are looked for,
        found or not, the sentinels are the first and the last hit. */
    method FindAll(keys: seq<nat>) returns (found: seq<Option<Loc>>)
      requires Valid()
      modifies this`pFirst, this`pLast
      ensures Valid() && |found| == |keys|
      ensures AreResults(contents, keys, found)
      ensures IsFirstHit(found, pFirst) && IsLastHit(found, pLast)
    {
      ResetSentinelBucketGroup();
      found := [];
      ghost var bs := contents;
      for n := 0 to |keys|
        invariant Valid() && contents == bs && |found| == n
        invariant AreResults(bs, keys[..n], found)
        invariant IsFirstHit(found, pFirst) && IsLastHit(found, pLast)
      {
        var at := FindNext(keys[n], found);
        OneMoreResult(bs, keys, found, at);
        found := found + [at];
      }
      assert keys[..|keys|] == keys;
    }

    method FindNext(key: nat, ghost found: seq<Option<Loc>>) returns (at: Option<Loc>)
      requires Valid() && IsFirstHit(found, pFirst) && IsLastHit(found, pLast)
      modifies this`pFirst, this`pLast
      ensures Valid() && at == FindData(contents, key, 0)
      ensures IsFirstHit(found + [at], pFirst) && IsLastHit(found + [at], pLast)
    {
      ghost var first, last := pFirst, pLast;
      at := FindDataInBucketGroup(key);
      FirstAfterOneMore(found, first, at);
      LastAfterOneMore(found, last, at);
    }

    /** Every bucket of the list is emptied. */
    method EmptyBuckets()
      requires Linked()
      modifies spine`nEntries
      ensures forall i :: 0 <= i < |spine| ==> spine[i].nEntries == 0
    {
      var pBucket := pHead;
      ghost var k := 0;
      while pBucket != null
        invariant k <= |spine| && pBucket == Next(k)
        invariant forall i :: 0 <= i < k ==> spine[i].nEntries == 0
        decreases |spine| - k
      {
        pBucket.nEntries := 0;
        assert spine[k].pNext == Next(k + 1);
        pBucket := pBucket.pNext;
        k := k + 1;
      }
    }

    /** ResetBucketGroup: the buckets stay allocated. */
    method ResetBucketGroup()
      requires Valid()
      modifies Repr
      ensures Valid() && Repr == old(Repr) && contents == Reset(old(contents))
      ensures pFirst == None && pLast == None && lower == old(lower) && upper == old(upper)
    {
      EmptyBuckets();
      contents := Reset(contents);
      pFirst, pLast := None, None;
    }

    /** ResetLimitsBucketSet. */
    method ResetLimits()
      requires Valid()
      modifies this`lower, this`upper
      ensures Valid() && lower == 0 && upper == 0
    {
      lower, upper := 0, 0;
    }

    /** SetLimitsBucketGroup: limits that are not increasing are ignored. */
    method SetLimits(lower': nat, upper': nat)
      requires Valid()
      modifies this`lower, this`upper
      ensures Valid()
      ensures if lower' < upper' then lower == lower' && upper == upper' else lower == old(lower) && upper == old(upper)
    {
      if lower' < upper' {
        lower, upper := lower', upper';
      }
    }
  }

  /** Any run of operations on a new group does what Perform says; used as a
      stack it is one. */
  method RunOnNewGroup(size: nat, ops: seq<Op>) returns (g: Group)
    requires size >= 1
    ensures fresh(g) && g.Valid() && g.contents == PerformAll([], size, ops)
    ensures Disciplined(ops) ==> Visible(g.contents) == AllOnStack(ops)
  {
    g := new Group(size);
    for i := 0 to |ops|
      invariant fresh(g) && fresh(g.Repr) && g.Valid() && g.size == size
      invariant g.contents == PerformAll([], size, ops[..i])
    {
      assert ops[..i + 1][..i] == ops[..i];
      match ops[i]
      case OpAdd(d) => g.AddEntryIntoBucketGroup(d);
      case OpDelete(key) => var _ := g.DeleteKeyInBucketGroup(key);
      case OpReset => g.ResetBucketGroup();
    }
    assert ops[..|ops|] == ops;
    if Disciplined(ops) {
      GroupIsStack(size, ops);
    }
  }
}
