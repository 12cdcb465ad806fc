/** The open-addressed hash table with triangular probing and tombstones. */
module DenseMaps {
  import opened Wrappers
  import opened Probing
  import opened Buckets

  /** The number of buckets that holds `entries` keys without growing. */
  function MinBucketsToReserve(entries: nat): (n: nat)
    ensures entries == 0 ==> n == 0
    ensures entries > 0 ==> IsPow2(n) && 3 * n > 4 * entries + 3
    ensures entries > 0 ==> forall m: nat :: 3 * Pow2(m) > 4 * entries + 3 ==> n <= Pow2(m)
  {
    if entries == 0 then 0 else NextPowerOf2(entries * 4 / 3 + 1)
  }

  function Max(a: nat, b: nat): nat { if a < b then b else a }

  lemma SixtyFour()
    ensures Pow2(6) == 64 && IsPow2(64)
  {
    assert Pow2(3) == 8;
    assert Pow2(6) == 64;
  }

  /** The bucket count that grow(atLeast) allocates; for grow(0) the 32-bit wrap-around of
      atLeast - 1 makes NextPowerOf2 truncate to zero, which leaves the minimum of 64. */
  function GrownSize(atLeast: nat): (n: nat)
    ensures IsPow2(n) && n >= 64 && n >= atLeast
    ensures forall m: nat :: Pow2(m) >= atLeast && Pow2(m) >= 64 ==> n <= Pow2(m)
  {
    SixtyFour();
    if atLeast == 0 then 64 else Max(64, NextPowerOf2(atLeast - 1))
  }

  lemma GrownSizeOfPow2(n: nat)
    requires IsPow2(n)
    ensures GrownSize(n) == Max(64, n) && GrownSize(2 * n) == Max(64, 2 * n)
  {
    SixtyFour();
    var m: nat :| n == Pow2(m);
    assert Pow2(m + 1) == 2 * n;
    assert Pow2(6) == 64;
  }

  /** The load test and the empty-bucket test that an insertion makes before using its bucket. */
  predicate NeedsGrow(newEntries: nat, tombstones: nat, n: nat) {
    newEntries * 4 >= n * 3 || n - (newEntries + tombstones) <= n / 8
  }

  class DenseMap<K(==, 0), V(==, 0)> {
    const info: KeyInfo<K>
    const zero: V
    var buckets: array<Bucket<K, V>>
    var numEntries: nat
    var numTombstones: nat

    /** The map this table stands for. */
    ghost function Contents(): map<K, V>
      reads this, buckets
    {
      Model(info, buckets[..])
    }

    /** The bucket array can be searched and has room for a search to stop. */
    ghost predicate Probeable()
      reads this, buckets
    {
      && info.Valid()
      && Searchable(info, buckets[..])
      && (buckets.Length > 0 ==> Count(info, buckets[..], Empty) > 0)
    }

    ghost predicate Counted()
      reads this, buckets
    {
      && numEntries == Count(info, buckets[..], Live)
      && numTombstones == Count(info, buckets[..], Tombstone)
    }

    /** Every reachable table: searchable, exactly counted, less than three quarters full. */
    ghost predicate Valid()
      reads this, buckets
    {
      Probeable() && Counted() && (buckets.Length > 0 ==> 4 * numEntries < 3 * buckets.Length)
    }

    /** The search for the key meets it. */
    ghost predicate Hits(key: K)
      reads this, buckets
    {
      buckets.Length > 0 && Met(info, buckets[..], key)
    }

    constructor (info: KeyInfo<K>, zero: V, initialReserve: nat := 0)
      requires info.Valid()
      ensures Valid() && this.info == info && this.zero == zero
      ensures Contents() == map[] && numEntries == 0 && numTombstones == 0
      ensures buckets.Length == MinBucketsToReserve(initialReserve)
      ensures fresh(buckets)
    {
      this.info := info;
      this.zero := zero;
      this.buckets := new Bucket<K, V>[0];
      this.numEntries, this.numTombstones := 0, 0;
      new;
      Init(initialReserve);
    }

    method Init(entries: nat)
      requires info.Valid()
      modifies this
      ensures Valid() && Contents() == map[] && numEntries == 0 && numTombstones == 0
      ensures buckets.Length == MinBucketsToReserve(entries) && fresh(buckets)
    {
      buckets := new Bucket<K, V>[MinBucketsToReserve(entries)];
      InitEmpty();
    }

    /** Stores the empty key in every bucket. */
    method InitEmpty()
      requires info.Valid()
      requires buckets.Length > 0 ==> IsPow2(buckets.Length)
      modifies this`numEntries, this`numTombstones, buckets
      ensures Valid() && Contents() == map[]
      ensures numEntries == 0 && numTombstones == 0
      ensures Count(info, buckets[..], Empty) == buckets.Length
    {
      numEntries, numTombstones := 0, 0;
      for i := 0 to buckets.Length
        invariant forall j :: 0 <= j < i ==> KindOf(info, buckets[j]) == Empty
        invariant numEntries == 0 && numTombstones == 0
        modifies buckets
      {
        buckets[i] := Bucket(info.empty, buckets[i].value);
      }
      CountAll(info, buckets[..], Empty);
      CountTotal(info, buckets[..]);
      ModelNoLive(info, buckets[..]);
    }

    /** Walks the probe path of key until it meets the key or an empty bucket. Nothing is asked of
        the key: a reserved key is compared with the markers stored in the buckets. */
    method DoFind(key: K) returns (found: Option<nat>)
      requires Probeable()
      ensures found.Some? ==> found.value < buckets.Length && buckets[found.value].key == key
      ensures !info.Reserved(key) ==> (found.Some? <==> key in Contents())
      ensures found.Some? && !info.Reserved(key) ==> buckets[found.value].value == Contents()[key]
      ensures key == info.empty ==> (found.Some? <==> buckets.Length > 0)
      ensures found.Some? <==> Hits(key)
      ensures found.Some? ==> MetAt(info, buckets[..], key, found.value)
    {
      hide Probe, FirstBucket, NextBucket, Searchable, Model, Count;
      var n := buckets.Length;
      if n == 0 {
        NothingStored(info, buckets[..]);
        return None;
      }
      ghost var stop := EmptyOnPath(info, buckets[..], key);
      var h := info.hash(key);
      var bucketNo := FirstBucket(h, n);
      var probeAmt := 1;
      while true
        invariant 1 <= probeAmt <= stop + 1
        invariant bucketNo == Probe(h, probeAmt - 1, n)
        invariant forall q: nat :: q < probeAmt - 1 ==> buckets[Probe(h, q, n)].key != key
        invariant forall q: nat :: q < probeAmt - 1 ==> buckets[Probe(h, q, n)].key != info.empty
        decreases stop + 1 - probeAmt
      {
        if buckets[bucketNo].key == key {
          if !info.Reserved(key) { Stored(info, buckets[..], bucketNo); }
          assert NoEmptyBefore(info, buckets[..], key, probeAmt - 1);
          assert NotYet(info, buckets[..], key, probeAmt - 1);
          return Some(bucketNo);
        }
        if buckets[bucketNo].key == info.empty {
          StopMeansUnmet(info, buckets[..], key, probeAmt - 1);
          StopMeansAbsent(info, buckets[..], key, probeAmt - 1);
          return None;
        }
        ProbeStep(h, probeAmt, n);
        bucketNo := NextBucket(bucketNo, probeAmt, n);
        probeAmt := probeAmt + 1;
      }
    }

    /** Finds the bucket of key or the bucket to insert it in: the first one on its probe path that
        is not live, whether a tombstone or the empty bucket that ended the search. */
    method LookupBucketFor(key: K) returns (found: bool, bucket: Option<nat>)
      requires Probeable() && !info.Reserved(key)
      ensures found == (key in Contents())
      ensures bucket.None? <==> buckets.Length == 0
      ensures bucket.Some? ==> bucket.value < buckets.Length
      ensures found ==> bucket.Some? && buckets[bucket.value].key == key
      ensures found ==> buckets[bucket.value].value == Contents()[key]
      ensures !found && bucket.Some? ==> FirstFree(info, buckets[..], key, bucket.value)
    {
      hide Probe, FirstBucket, NextBucket, Searchable, Model, Count;
      var n := buckets.Length;
      if n == 0 {
        NothingStored(info, buckets[..]);
        return false, None;
      }
      ghost var stop := EmptyOnPath(info, buckets[..], key);
      var foundTombstone: Option<nat> := None;
      var h := info.hash(key);
      var bucketNo := FirstBucket(h, n);
      var probeAmt := 1;
      while true
        invariant 1 <= probeAmt <= stop + 1
        invariant bucketNo == Probe(h, probeAmt - 1, n)
        invariant forall q: nat :: q < probeAmt - 1 ==> buckets[Probe(h, q, n)].key != key
        invariant forall q: nat :: q < probeAmt - 1 ==> buckets[Probe(h, q, n)].key != info.empty
        invariant foundTombstone.None? ==> AllLiveBefore(info, buckets[..], key, probeAmt - 1)
        invariant foundTombstone.Some? ==>
          foundTombstone.value < n && FirstFree(info, buckets[..], key, foundTombstone.value)
        decreases stop + 1 - probeAmt
      {
        if buckets[bucketNo].key == key {
          Stored(info, buckets[..], bucketNo);
          return true, Some(bucketNo);
        }
        if buckets[bucketNo].key == info.empty {
          StopMeansAbsent(info, buckets[..], key, probeAmt - 1);
          return false, if foundTombstone.Some? then foundTombstone else Some(bucketNo);
        }
        if buckets[bucketNo].key == info.tombstone && foundTombstone.None? {
          foundTombstone := Some(bucketNo);
        }
        ProbeStep(h, probeAmt, n);
        bucketNo := NextBucket(bucketNo, probeAmt, n);
        probeAmt := probeAmt + 1;
      }
    }

    /** Re-inserts the live pairs of an old bucket array into this empty one. */
    method MoveFromOldBuckets(old_: array<Bucket<K, V>>)
      requires info.Valid() && buckets.Length > 0 && IsPow2(buckets.Length)
      requires old_ != buckets && Distinct(info, old_[..])
      requires Count(info, old_[..], Live) < buckets.Length
      modifies this`numEntries, this`numTombstones, buckets
      ensures Probeable() && Counted()
      ensures Contents() == Model(info, old_[..])
      ensures numTombstones == 0 && numEntries == Count(info, old_[..], Live)
    {
      hide Searchable, FirstFree, Probe;
      InitEmpty();
      ghost var all := old_[..];
      for i := 0 to old_.Length
        invariant old_[..] == all
        invariant Searchable(info, buckets[..])
        invariant Count(info, buckets[..], Tombstone) == 0 && numTombstones == 0
        invariant Count(info, buckets[..], Live) == numEntries == Count(info, all[..i], Live)
        invariant Contents() == Model(info, all[..i])
        modifies this`numEntries, buckets
      {
        PrefixCount(info, all, i);
        assert all[..i + 1][..i] == all[..i];
        var b := old_[i];
        if b.key != info.empty && b.key != info.tombstone {
          CountTotal(info, buckets[..]);
          PrefixAbsent(info, all, i);
          var found, dest := LookupBucketFor(b.key);
          ghost var s := buckets[..];
          Refilled(info, s, dest.value, b);
          buckets[dest.value] := b;
          assert buckets[..] == s[dest.value := b];
          numEntries := numEntries + 1;
        }
      }
      assert all[..old_.Length] == all;
      CountTotal(info, buckets[..]);
    }

    /** Moves to a table of at least `atLeast` buckets and drops every tombstone. */
    method Grow(atLeast: nat)
      requires Valid()
      requires GrownSize(atLeast) >= buckets.Length
      modifies this, buckets
      ensures Valid() && Contents() == old(Contents())
      ensures numEntries == old(numEntries) && numTombstones == 0
      ensures buckets.Length == GrownSize(atLeast) && fresh(buckets)
    {
      var oldBuckets := buckets;
      CountTotal(info, oldBuckets[..]);
      buckets := new Bucket<K, V>[GrownSize(atLeast)];
      if oldBuckets.Length == 0 {
        InitEmpty();
        return;
      }
      MoveFromOldBuckets(oldBuckets);
    }

    /** Grows when the load is too high, rehashes when too few buckets are empty. */
    method MakeRoom(key: K, lookedUp: Option<nat>) returns (bucket: nat)
      requires Valid() && !info.Reserved(key) && key !in Contents()
      requires lookedUp.None? <==> buckets.Length == 0
      requires lookedUp.Some? ==> FirstFree(info, buckets[..], key, lookedUp.value)
      modifies this, buckets
      ensures Valid() && Contents() == old(Contents()) && numEntries == old(numEntries)
      ensures bucket < buckets.Length && FirstFree(info, buckets[..], key, bucket)
      ensures 4 * (numEntries + 1) < 3 * buckets.Length
      ensures numEntries + 1 + numTombstones < buckets.Length
      ensures fresh(buckets) || buckets == old(buckets)
      ensures numTombstones <= old(numTombstones)
      ensures buckets == old(buckets) <==> !NeedsGrow(old(numEntries) + 1, old(numTombstones), old(buckets.Length))
      ensures var n := old(buckets.Length);
        buckets != old(buckets) ==>
          buckets.Length == GrownSize(if 4 * (old(numEntries) + 1) >= 3 * n then 2 * n else n)
    {
      var newNumEntries := numEntries + 1;
      var numBuckets := buckets.Length;
      if newNumEntries * 4 >= numBuckets * 3 {
        DoubledIsEnough(numBuckets, newNumEntries);
        Grow(numBuckets * 2);
        var found, again := LookupBucketFor(key);
        bucket := again.value;
      } else if numBuckets - (newNumEntries + numTombstones) <= numBuckets / 8 {
        GrownSizeOfPow2(numBuckets);
        Grow(numBuckets);
        var found, again := LookupBucketFor(key);
        bucket := again.value;
      } else {
        bucket := lookedUp.value;
      }
    }

    /** Takes a bucket for the new key; the counters already count it on return. */
    method InsertIntoBucketImpl(key: K, lookedUp: Option<nat>) returns (bucket: nat)
      requires Valid() && !info.Reserved(key) && key !in Contents()
      requires lookedUp.None? <==> buckets.Length == 0
      requires lookedUp.Some? ==> FirstFree(info, buckets[..], key, lookedUp.value)
      modifies this, buckets
      ensures Probeable() && Contents() == old(Contents())
      ensures bucket < buckets.Length && FirstFree(info, buckets[..], key, bucket)
      ensures numEntries == old(numEntries) + 1 == Count(info, buckets[..], Live) + 1
      ensures Count(info, buckets[..], Tombstone) == numTombstones + if buckets[bucket].key == info.empty then 0 else 1
      ensures 4 * numEntries < 3 * buckets.Length
      ensures buckets[bucket].key == info.empty ==> Count(info, buckets[..], Empty) > 1
      ensures fresh(buckets) || buckets == old(buckets)
      ensures numTombstones <= old(numTombstones)
      ensures buckets == old(buckets) <==> !NeedsGrow(old(numEntries) + 1, old(numTombstones), old(buckets.Length))
    {
      bucket := MakeRoom(key, lookedUp);
      CountTotal(info, buckets[..]);
      CountPositive(info, buckets[..], bucket);
      numEntries := numEntries + 1;
      if buckets[bucket].key != info.empty {
        numTombstones := numTombstones - 1;
      }
    }

    method InsertIntoBucket(key: K, value: V, lookedUp: Option<nat>) returns (bucket: nat)
      requires Valid() && !info.Reserved(key) && key !in Contents()
      requires lookedUp.None? <==> buckets.Length == 0
      requires lookedUp.Some? ==> FirstFree(info, buckets[..], key, lookedUp.value)
      modifies this, buckets
      ensures Valid() && Contents() == old(Contents())[key := value]
      ensures numEntries == old(numEntries) + 1
      ensures bucket < buckets.Length && buckets[bucket] == Bucket(key, value)
      ensures fresh(buckets) || buckets == old(buckets)
      ensures buckets == old(buckets) <==> !NeedsGrow(old(numEntries) + 1, old(numTombstones), old(buckets.Length))
      ensures numTombstones <= old(numTombstones)
    {
      bucket := InsertIntoBucketImpl(key, lookedUp);
      var b := Bucket(key, value);
      ghost var s := buckets[..];
      Fill(info, s, bucket, b);
      CountUpdate(info, s, bucket, b, Live);
      CountUpdate(info, s, bucket, b, Tombstone);
      CountUpdate(info, s, bucket, b, Empty);
      buckets[bucket] := b;
      assert buckets[..] == s[bucket := b];
    }

    /** Inserts the pair unless the key is present; returns the key's bucket and whether it did. */
    method TryEmplace(key: K, value: V) returns (bucket: nat, inserted: bool)
      requires Valid() && !info.Reserved(key)
      modifies this, buckets
      ensures Valid() && inserted == (key !in old(Contents()))
      ensures Contents() == if inserted then old(Contents())[key := value] else old(Contents())
      ensures key in Contents() && bucket < buckets.Length && buckets[bucket] == Bucket(key, Contents()[key])
      ensures numEntries == old(numEntries) + if inserted then 1 else 0
      ensures fresh(buckets) || buckets == old(buckets)
      ensures buckets == old(buckets) <==>
        !(inserted && NeedsGrow(old(numEntries) + 1, old(numTombstones), old(buckets.Length)))
      ensures numTombstones <= old(numTombstones)
    {
      var found, lookedUp := LookupBucketFor(key);
      if found {
        return lookedUp.value, false;
      }
      bucket := InsertIntoBucket(key, value, lookedUp);
      inserted := true;
    }

    method InsertOrAssign(key: K, value: V) returns (inserted: bool)
      requires Valid() && !info.Reserved(key)
      modifies this, buckets
      ensures Valid() && inserted == (key !in old(Contents()))
      ensures Contents() == old(Contents())[key := value]
      ensures fresh(buckets) || buckets == old(buckets)
    {
      var bucket;
      bucket, inserted := TryEmplace(key, value);
      if !inserted {
        Store(bucket, value);
      }
    }

    /** Assigns through a reference to the value of a live bucket. */
    method Store(bucket: nat, value: V)
      requires Valid() && bucket < buckets.Length && KindOf(info, buckets[bucket]) == Live
      modifies buckets
      ensures Valid() && buckets[bucket] == Bucket(old(buckets[bucket].key), value)
      ensures Contents() == old(Contents())[old(buckets[bucket].key) := value]
    {
      ghost var s, b := buckets[..], Bucket(buckets[bucket].key, value);
      Assign(info, s, bucket, value);
      CountUpdate(info, s, bucket, b, Live);
      CountUpdate(info, s, bucket, b, Tombstone);
      CountUpdate(info, s, bucket, b, Empty);
      buckets[bucket] := Bucket(buckets[bucket].key, value);
      assert buckets[..] == s[bucket := b];
    }

    /** operator[]: the bucket a reference into which is returned. A new key gets the default value. */
    method Index(key: K) returns (bucket: nat)
      requires Valid() && !info.Reserved(key)
      modifies this, buckets
      ensures Valid() && key in Contents() && bucket < buckets.Length && buckets[bucket] == Bucket(key, Contents()[key])
      ensures Contents() == if key in old(Contents()) then old(Contents()) else old(Contents())[key := zero]
      ensures fresh(buckets) || buckets == old(buckets)
    {
      var found, lookedUp := LookupBucketFor(key);
      if found {
        return lookedUp.value;
      }
      bucket := InsertIntoBucket(key, zero, lookedUp);
    }

    /** Erases a key. A reserved key is not refused: when the search meets that marker its bucket is
        buried and the counters move although no pair was removed. */
    method Erase(key: K) returns (erased: bool)
      requires Valid()
      modifies this, buckets
      ensures buckets == old(buckets)
      ensures !info.Reserved(key) ==> Valid() && erased == (key in old(Contents()))
      ensures !info.Reserved(key) ==> Contents() == old(Contents()) - {key}
      ensures key == info.empty && buckets.Length > 0 ==>
        erased && numEntries == Decremented(old(numEntries)) &&
        Count(info, buckets[..], Live) == old(numEntries)
      ensures erased <==> old(Hits(key))
      ensures !erased ==> buckets[..] == old(buckets[..]) && numEntries == old(numEntries)
      ensures Valid() <==> !(erased && info.Reserved(key))
    {
      var found := DoFind(key);
      if found.None? {
        return false;
      }
      var i := found.value;
      ghost var s := buckets[..];
      ghost var b := Bucket(info.tombstone, s[i].value);
      if !info.Reserved(key) {
        Bury(info, s, i, s[i].value);
        CountPositive(info, s, i);
      }
      CountUpdate(info, s, i, b, Live);
      CountUpdate(info, s, i, b, Tombstone);
      CountUpdate(info, s, i, b, Empty);
      buckets[i] := Bucket(info.tombstone, buckets[i].value);
      assert buckets[..] == s[i := b];
      numEntries := Decremented(numEntries);
      numTombstones := numTombstones + 1;
      erased := true;
    }

    method Reserve(entries: nat)
      requires Valid()
      modifies this, buckets
      ensures Valid() && Contents() == old(Contents())
      ensures fresh(buckets) || buckets == old(buckets)
      ensures buckets.Length ==
        if MinBucketsToReserve(entries) > old(buckets.Length) then GrownSize(MinBucketsToReserve(entries))
        else old(buckets.Length)
      ensures buckets == old(buckets) <==> MinBucketsToReserve(entries) <= old(buckets.Length)
    {
      var numBuckets := MinBucketsToReserve(entries);
      if numBuckets > buckets.Length {
        GrownSizeOfPow2(numBuckets);
        Grow(numBuckets);
      }
    }

    /** Empties the table. A large sparse one is reallocated by Init, which takes the computed bucket
        count for an entry count and so allocates twice as many buckets as were computed. */
    method Clear()
      requires Valid()
      modifies this, buckets
      ensures Valid() && Contents() == map[] && numEntries == 0 && numTombstones == 0
      ensures fresh(buckets) || buckets == old(buckets)
      ensures buckets.Length == ClearedSize(old(numEntries), old(numTombstones), old(buckets.Length))
      ensures buckets != old(buckets) <==>
        old(numEntries + numTombstones > 0 && 4 * numEntries < buckets.Length && buckets.Length > 64)
    {
      ModelSize(info, buckets[..]);
      if numEntries == 0 && numTombstones == 0 {
        return;
      }
      if numEntries * 4 < buckets.Length && buckets.Length > 64 {
        ShrinkAndClear();
        return;
      }
      InitEmpty();
    }

    method ShrinkAndClear()
      requires Valid()
      modifies this, buckets
      ensures Valid() && Contents() == map[] && numEntries == 0 && numTombstones == 0
      ensures fresh(buckets) || buckets == old(buckets)
      ensures buckets == old(buckets) <==> ShrunkSize(old(numEntries)) == old(buckets.Length)
      ensures buckets.Length == if ShrunkSize(old(numEntries)) == old(buckets.Length) then old(buckets.Length)
        else MinBucketsToReserve(ShrunkSize(old(numEntries)))
    {
      var newNumBuckets := ShrunkSize(numEntries);
      if newNumBuckets == buckets.Length {
        InitEmpty();
        return;
      }
      Init(newNumBuckets);
    }

    method Contains(key: K) returns (present: bool)
      requires Valid()
      ensures present <==> Hits(key)
      ensures !info.Reserved(key) ==> present == (key in Contents())
      ensures key == info.empty ==> present == (buckets.Length > 0)
    {
      var found := DoFind(key);
      present := found.Some?;
    }

    /** lookup: the value in the bucket where the search meets the key, or the default value. */
    method Lookup(key: K) returns (value: V)
      requires Valid()
      ensures !Hits(key) ==> value == zero
      ensures forall i: nat :: i < buckets.Length && MetAt(info, buckets[..], key, i) ==> value == buckets[i].value
      ensures !info.Reserved(key) ==> value == if key in Contents() then Contents()[key] else zero
    {
      var found := DoFind(key);
      forall i: nat | i < buckets.Length && MetAt(info, buckets[..], key, i) ensures found == Some(i) {
        MetOnce(info, buckets[..], key, i, i);
        MetOnce(info, buckets[..], key, i, found.value);
      }
      value := if found.Some? then buckets[found.value].value else zero;
    }

    method Size() returns (n: nat)
      requires Valid()
      ensures n == |Contents()|
    {
      ModelSize(info, buckets[..]);
      n := numEntries;
    }

    /** operator==: equal sizes, and every pair met by iterating over this table is in the other. */
    method Equals(rhs: DenseMap<K, V>) returns (same: bool)
      requires Valid() && rhs.Valid() && info == rhs.info
      ensures same == (Contents() == rhs.Contents())
    {
      ghost var s := buckets[..];
      ModelSize(info, s);
      ModelSize(rhs.info, rhs.buckets[..]);
      if numEntries != rhs.numEntries {
        return false;
      }
      for i := 0 to buckets.Length
        invariant forall j :: 0 <= j < i && KindOf(info, s[j]) == Live ==> AgreesAt(s[j], rhs.Contents())
      {
        if buckets[i].key != info.empty && buckets[i].key != info.tombstone {
          ModelHas(info, s, i);
          var found := rhs.DoFind(buckets[i].key);
          if found.None? || rhs.buckets[found.value].value != buckets[i].value {
            return false;
          }
        }
      }
      forall k | k in Contents() ensures k in rhs.Contents() && rhs.Contents()[k] == Contents()[k] {
        var j := ModelWitness(info, s, k);
        assert AgreesAt(s[j], rhs.Contents());
      }
      SameSizeSubmap(Contents(), rhs.Contents());
      same := true;
    }
  }

  ghost predicate AgreesAt<K, V>(b: Bucket<K, V>, m: map<K, V>) {
    b.key in m && m[b.key] == b.value
  }

  lemma SameSizeSubmap<K, V>(a: map<K, V>, b: map<K, V>)
    requires |a| == |b|
    requires forall k :: k in a ==> k in b && b[k] == a[k]
    ensures a == b
  {
    assert a.Keys <= b.Keys && |a.Keys| == |b.Keys|;
    SubsetOfSameSize(a.Keys, b.Keys);
  }

  /** Subtracting one from a 32-bit unsigned counter. */
  function Decremented(x: nat): nat { if x == 0 then 0xFFFF_FFFF else x - 1 }

  /** The bucket count shrink_and_clear computes: twice the ceiling power of two, at least 64. */
  function ShrunkSize(entries: nat): (n: nat)
    ensures entries == 0 <==> n == 0
    ensures entries > 0 ==> IsPow2(n) && n >= 64 && n >= 2 * entries
    ensures entries > 0 ==> forall m: nat :: Pow2(m) >= 64 && Pow2(m) >= 2 * entries ==> n <= Pow2(m)
  {
    SixtyFour();
    if entries == 0 then 0
    else assert NextPowerOf2(entries - 1) >= 1;
         DoubleIsPow2(NextPowerOf2(entries - 1));
         HalfIsPow2();
         Max(64, 2 * NextPowerOf2(entries - 1))
  }

  lemma HalfIsPow2()
    ensures forall m: nat :: Pow2(m) >= 2 ==> m > 0 && Pow2(m) == 2 * Pow2(m - 1)
  {
  }

  lemma DoubleIsPow2(n: nat)
    requires IsPow2(n)
    ensures IsPow2(2 * n)
  {
    var m: nat :| n == Pow2(m);
    assert Pow2(m + 1) == 2 * n;
  }

  function ClearedSize(entries: nat, tombstones: nat, n: nat): nat {
    if entries == 0 && tombstones == 0 then n
    else if entries * 4 < n && n > 64 && ShrunkSize(entries) != n then MinBucketsToReserve(ShrunkSize(entries))
    else n
  }

  lemma Pow2Gap(a: nat, b: nat)
    requires IsPow2(a) && IsPow2(b) && a < b
    ensures 2 * a <= b
  {
    var x: nat :| a == Pow2(x);
    var y: nat :| b == Pow2(y);
    if y <= x { Pow2Monotone(y, x); }
    Pow2Monotone(x + 1, y);
  }

  /** Reserving room for n entries, n a power of two of at least 64, takes exactly 2n buckets. */
  lemma ReserveDoubles(n: nat)
    requires IsPow2(n) && n >= 64
    ensures MinBucketsToReserve(n) == 2 * n
  {
    DoubleIsPow2(n);
    var m: nat :| 2 * n == Pow2(m);
    assert n * 4 / 3 + 1 < Pow2(m);
    Pow2Gap(n, MinBucketsToReserve(n));
  }

  /** The early exit of shrink_and_clear, computed size equal to the present size, is never taken. */
  lemma ShrunkIsSmaller(entries: nat, n: nat)
    requires IsPow2(n) && entries * 4 < n && n > 64
    ensures 2 * ShrunkSize(entries) <= n
  {
    if entries > 0 { Pow2Gap(ShrunkSize(entries), n); }
  }

  /** clear() never enlarges a table; in its shrinking branch it ends with twice the computed size,
      so it makes the table smaller exactly when four times that size fits in the old table. */
  lemma ClearShrinksExactly(entries: nat, tombstones: nat, n: nat)
    requires IsPow2(n) && entries * 4 < n && n > 64 && entries > 0
    ensures ClearedSize(entries, tombstones, n) == 2 * ShrunkSize(entries) <= n
    ensures ClearedSize(entries, tombstones, n) < n <==> 4 * ShrunkSize(entries) <= n
  {
    ShrunkIsSmaller(entries, n);
    ReserveDoubles(ShrunkSize(entries));
    DoubleIsPow2(ShrunkSize(entries));
    if 2 * ShrunkSize(entries) < n { Pow2Gap(2 * ShrunkSize(entries), n); }
  }

  lemma DoubledIsEnough(n: nat, newEntries: nat)
    requires n > 0 ==> IsPow2(n) && 4 * (newEntries - 1) < 3 * n
    requires n == 0 ==> newEntries == 1
    ensures GrownSize(2 * n) >= n
    ensures 4 * newEntries < 3 * GrownSize(2 * n)
  {
  }

  /** The constructor's promise: a table reserved for n entries passes both growth tests at every
      one of n insertions when nothing was erased. */
  lemma ReserveNeverGrows(n: nat, e: nat)
    requires e < n
    ensures !NeedsGrow(e + 1, 0, MinBucketsToReserve(n))
  {
  }

  lemma NoMarkerStored<K, V>(info: KeyInfo<K>, s: seq<Bucket<K, V>>)
    requires Distinct(info, s)
    ensures info.empty !in Model(info, s) && info.tombstone !in Model(info, s)
  {
    if info.empty in Model(info, s) { var i := ModelWitness(info, s, info.empty); }
    if info.tombstone in Model(info, s) { var i := ModelWitness(info, s, info.tombstone); }
  }

  lemma PrefixCount<K, V>(info: KeyInfo<K>, all: seq<Bucket<K, V>>, i: nat)
    requires i < |all|
    ensures Count(info, all[..i + 1], Live) ==
      Count(info, all[..i], Live) + if KindOf(info, all[i]) == Live then 1 else 0
    ensures Count(info, all[..i + 1], Live) <= Count(info, all, Live)
    decreases |all| - i
  {
    assert all[..i + 1][..i] == all[..i];
    if i + 1 < |all| { PrefixCount(info, all, i + 1); } else { assert all[..i + 1] == all; }
  }

  lemma PrefixAbsent<K, V>(info: KeyInfo<K>, all: seq<Bucket<K, V>>, i: nat)
    requires i < |all| && Distinct(info, all)
    ensures Distinct(info, all[..i]) && all[i].key !in Model(info, all[..i])
  {
    if all[i].key in Model(info, all[..i]) {
      var j := ModelWitness(info, all[..i], all[i].key);
    }
  }

  /** Erasing the empty key from an empty table that has buckets succeeds and wraps the counter. */
  method EraseEmptyKey() returns (erased: bool, entries: nat)
    ensures erased && entries == 0xFFFF_FFFF
  {
    var t := new DenseMap<int, int>(KeyInfo(-1, -2, _ => 0), 0, 1);
    erased := t.Erase(-1);
    entries := t.numEntries;
  }

  // ----- whole runs

  datatype Op<K(==), V> =
    | DoTryEmplace(key: K, value: V)
    | DoInsertOrAssign(key: K, value: V)
    | DoIndex(key: K)
    | DoIndexAssign(key: K, value: V)
    | DoErase(key: K)
    | DoLookup(key: K)
    | DoContains(key: K)
    | DoSize
    | DoClear
    | DoReserve(entries: nat)
  {
    /** The operation is about one of the two reserved keys. */
    predicate OnReserved(info: KeyInfo<K>)
      requires DoTryEmplace? || DoInsertOrAssign? || DoIndex? || DoIndexAssign? || DoErase? || DoLookup? || DoContains?
    {
      key == info.empty || key == info.tombstone
    }

    /** Insertions refuse the two reserved keys. */
    predicate Allowed(info: KeyInfo<K>) {
      DoTryEmplace? || DoInsertOrAssign? || DoIndex? || DoIndexAssign? ==> !info.Reserved(key)
    }

    /** Nothing refuses a question about a reserved key. */
    predicate AsksReserved(info: KeyInfo<K>) {
      (DoLookup? || DoContains?) && info.Reserved(key)
    }

    predicate ErasesReserved(info: KeyInfo<K>) {
      DoErase? && info.Reserved(key)
    }
  }

  datatype Answer<V> = Flag(flag: bool) | Number(number: nat) | Got(value: V) | Done

  /** What a plain map does on one operation. */
  ghost function MapStep<K, V>(m: map<K, V>, zero: V, op: Op<K, V>): (map<K, V>, Answer<V>) {
    match op
    case DoTryEmplace(k, v) => (if k in m then m else m[k := v], Flag(k !in m))
    case DoInsertOrAssign(k, v) => (m[k := v], Flag(k !in m))
    case DoIndex(k) => if k in m then (m, Got(m[k])) else (m[k := zero], Got(zero))
    case DoIndexAssign(k, v) => (m[k := v], Done)
    case DoErase(k) => (m - {k}, Flag(k in m))
    case DoLookup(k) => (m, Got(if k in m then m[k] else zero))
    case DoContains(k) => (m, Flag(k in m))
    case DoSize => (m, Number(|m|))
    case DoClear => (map[], Done)
    case DoReserve(_) => (m, Done)
  }

  ghost function MapRun<K, V>(m: map<K, V>, zero: V, ops: seq<Op<K, V>>): (r: (map<K, V>, seq<Answer<V>>))
    ensures |r.1| == |ops|
  {
    if ops == [] then (m, [])
    else
      var (m', answers) := MapRun(m, zero, ops[..|ops| - 1]);
      var (m'', answer) := MapStep(m', zero, ops[|ops| - 1]);
      (m'', answers + [answer])
  }

  /** One operation. Only the erasure of a reserved key that the search meets spoils the table. */
  method Perform<K(==, 0), V(==, 0)>(t: DenseMap<K, V>, op: Op<K, V>) returns (answer: Answer<V>)
    requires t.Valid() && op.Allowed(t.info)
    modifies t, t.buckets
    ensures t.Valid() <==> !(op.ErasesReserved(t.info) && old(t.Hits(op.key)))
    ensures t.Valid() ==> t.Contents() == MapStep(old(t.Contents()), t.zero, op).0
    ensures t.Valid() && !op.AsksReserved(t.info) ==> answer == MapStep(old(t.Contents()), t.zero, op).1
    ensures op.DoContains? || op.DoErase? ==> answer == Flag(old(t.Hits(op.key)))
    ensures fresh(t.buckets) || t.buckets == old(t.buckets)
  {
    NoMarkerStored(t.info, t.buckets[..]);
    match op {
      case DoTryEmplace(k, v) =>
        var _, inserted := t.TryEmplace(k, v);
        answer := Flag(inserted);
      case DoInsertOrAssign(k, v) =>
        var inserted := t.InsertOrAssign(k, v);
        answer := Flag(inserted);
      case DoIndex(k) =>
        var i := t.Index(k);
        answer := Got(t.buckets[i].value);
      case DoIndexAssign(k, v) =>
        var i := t.Index(k);
        t.Store(i, v);
        answer := Done;
      case DoErase(k) =>
        var erased := t.Erase(k);
        answer := Flag(erased);
      case DoLookup(k) =>
        var value := t.Lookup(k);
        answer := Got(value);
      case DoContains(k) =>
        var present := t.Contains(k);
        answer := Flag(present);
      case DoSize =>
        var n := t.Size();
        answer := Number(n);
      case DoClear =>
        t.Clear();
        answer := Done;
      case DoReserve(n) =>
        t.Reserve(n);
        answer := Done;
    }
  }

  /** Every run of operations from a new table answers like a plain map, questions about reserved keys aside, until
      it erases a reserved key that the search meets. It ends early exactly then, with a spoilt table, and every
      erasure of a reserved key before reports that there was none. */
  method Run<K(==, 0), V(==, 0)>(info: KeyInfo<K>, zero: V, reserve: nat, ops: seq<Op<K, V>>)
    returns (answers: seq<Answer<V>>, done: nat, t: DenseMap<K, V>)
    requires info.Valid()
    requires forall op :: op in ops ==>
      (op.DoTryEmplace? || op.DoInsertOrAssign? || op.DoIndex? || op.DoIndexAssign? ==> !op.OnReserved(info))
    ensures done <= |ops| && |answers| == (if done < |ops| then done + 1 else done)
    ensures forall i :: 0 <= i < done && !((ops[i].DoLookup? || ops[i].DoContains?) && ops[i].OnReserved(info)) ==>
      answers[i] == MapRun(map[], zero, ops[..done]).1[i]
    ensures forall i :: 0 <= i < done && ops[i].DoErase? && ops[i].OnReserved(info) ==> answers[i] == Flag(false)
    ensures done < |ops| ==> ops[done].DoErase? && ops[done].OnReserved(info) && answers[done] == Flag(true)
    ensures fresh(t) && (t.Valid() <==> done == |ops|)
  {
    t := new DenseMap<K, V>(info, zero, reserve);
    answers, done := [], 0;
    while done < |ops|
      invariant fresh(t) && fresh(t.buckets) && t.Valid() && t.info == info && t.zero == zero
      invariant done <= |ops| && |answers| == done && t.Contents() == MapRun(map[], zero, ops[..done]).0
      invariant forall i :: 0 <= i < done && !ops[i].AsksReserved(info) ==>
        answers[i] == MapRun(map[], zero, ops[..done]).1[i]
      invariant forall i :: 0 <= i < done && ops[i].ErasesReserved(info) ==> answers[i] == Flag(false)
    {
      assert ops[..done + 1][..done] == ops[..done];
      var answer := Perform(t, ops[done]);
      answers := answers + [answer];
      if ops[done].ErasesReserved(info) && answer == Flag(true) { return; }
      done := done + 1;
    }
  }

  ghost function MapOf<K, V>(pairs: seq<(K, V)>): map<K, V> {
    if pairs == [] then map[] else MapOf(pairs[..|pairs| - 1])[pairs[|pairs| - 1].0 := pairs[|pairs| - 1].1]
  }

  lemma {:induction false} MapOfDistinct<K, V>(pairs: seq<(K, V)>, key: K)
    requires forall i :: 0 <= i < |pairs| ==> pairs[i].0 != key
    ensures key !in MapOf(pairs)
  {
    if pairs != [] { MapOfDistinct(pairs[..|pairs| - 1], key); }
  }

  /** A table built with room for n keys takes n distinct keys in its first bucket array. */
  method FillReserved<K(==, 0), V(==, 0)>(info: KeyInfo<K>, zero: V, pairs: seq<(K, V)>)
      returns (t: DenseMap<K, V>, ghost first: object)
    requires info.Valid()
    requires forall i :: 0 <= i < |pairs| ==> !info.Reserved(pairs[i].0)
    requires forall i, j :: 0 <= i < j < |pairs| ==> pairs[i].0 != pairs[j].0
    ensures fresh(t) && t.Valid() && t.Contents() == MapOf(pairs)
    ensures t.numEntries == |pairs|
    ensures t.buckets == first && t.buckets.Length == MinBucketsToReserve(|pairs|)
  {
    t := new DenseMap<K, V>(info, zero, |pairs|);
    first := t.buckets;
    for i := 0 to |pairs|
      invariant fresh(t) && fresh(t.buckets) && t.Valid() && t.info == info
      invariant t.Contents() == MapOf(pairs[..i]) && t.numEntries == i && t.numTombstones == 0
      invariant t.buckets == first && t.buckets.Length == MinBucketsToReserve(|pairs|)
    {
      assert pairs[..i + 1][..i] == pairs[..i];
      MapOfDistinct(pairs[..i], pairs[i].0);
      ReserveNeverGrows(|pairs|, i);
      var _, inserted := t.TryEmplace(pairs[i].0, pairs[i].1);
    }
    assert pairs[..|pairs|] == pairs;
  }
}
