/** The bucket array of a DenseMap as a value: which buckets are live, which keys a probe can
    reach, and the abstract map that a bucket array stands for. */
module Buckets {
  import opened Probing

  /** The traits a key type supplies: two reserved keys and a hash function. */
  datatype KeyInfo<!K(==)> = KeyInfo(empty: K, tombstone: K, hash: K -> nat) {
    ghost predicate Valid() { empty != tombstone }
    predicate Reserved(key: K) { key == empty || key == tombstone }
  }

  datatype Bucket<K, V> = Bucket(key: K, value: V)

  datatype Kind = Empty | Tombstone | Live

  function KindOf<K(==), V>(info: KeyInfo<K>, b: Bucket<K, V>): Kind {
    if b.key == info.empty then Empty
    else if b.key == info.tombstone then Tombstone
    else Live
  }

  ghost function Count<K, V>(info: KeyInfo<K>, s: seq<Bucket<K, V>>, kind: Kind): nat {
    if s == [] then 0
    else Count(info, s[..|s| - 1], kind) + if KindOf(info, s[|s| - 1]) == kind then 1 else 0
  }

  /** The map a bucket array stands for. */
  ghost function Model<K, V>(info: KeyInfo<K>, s: seq<Bucket<K, V>>): map<K, V> {
    if s == [] then map[]
    else
      var m := Model(info, s[..|s| - 1]);
      var b := s[|s| - 1];
      if KindOf(info, b) == Live then m[b.key := b.value] else m
  }

  /** No key is stored twice. */
  ghost predicate Distinct<K, V>(info: KeyInfo<K>, s: seq<Bucket<K, V>>) {
    forall i, j :: 0 <= i < j < |s| && KindOf(info, s[i]) == Live ==> s[i].key != s[j].key
  }

  /** The first p probes for key meet no empty bucket. */
  ghost predicate NoEmptyBefore<K, V>(info: KeyInfo<K>, s: seq<Bucket<K, V>>, key: K, p: nat)
    requires |s| > 0
  {
    forall q: nat :: q < p ==> s[Probe(info.hash(key), q, |s|)].key != info.empty
  }

  /** The probe path of key meets the key before it meets an empty bucket. */
  ghost predicate Met<K, V>(info: KeyInfo<K>, s: seq<Bucket<K, V>>, key: K)
    requires |s| > 0
  {
    exists p: nat :: s[Probe(info.hash(key), p, |s|)].key == key && NoEmptyBefore(info, s, key, p)
  }

  /** Bucket i is where the search for the key ends with it: the first one on its probe path that holds it, before
      any empty bucket. */
  ghost predicate MetAt<K, V>(info: KeyInfo<K>, s: seq<Bucket<K, V>>, key: K, i: nat)
    requires |s| > 0
  {
    i < |s| && s[i].key == key && exists p: nat :: Probe(info.hash(key), p, |s|) == i && NotYet(info, s, key, p)
  }

  /** The first p probes for key meet neither the key nor an empty bucket. */
  ghost predicate NotYet<K, V>(info: KeyInfo<K>, s: seq<Bucket<K, V>>, key: K, p: nat)
    requires |s| > 0
  {
    && NoEmptyBefore(info, s, key, p)
    && forall q: nat :: q < p ==> s[Probe(info.hash(key), q, |s|)].key != key
  }

  /** A search for the key in bucket i gets to bucket i before it can stop at an empty bucket. */
  ghost predicate Reachable<K, V>(info: KeyInfo<K>, s: seq<Bucket<K, V>>, i: nat)
    requires i < |s|
  {
    exists p: nat ::
      Probe(info.hash(s[i].key), p, |s|) == i && NoEmptyBefore(info, s, s[i].key, p)
  }

  ghost predicate Searchable<K, V>(info: KeyInfo<K>, s: seq<Bucket<K, V>>) {
    && (|s| > 0 ==> IsPow2(|s|))
    && Distinct(info, s)
    && forall i :: 0 <= i < |s| && KindOf(info, s[i]) == Live ==> Reachable(info, s, i)
  }

  /** Bucket i is where key belongs: the first bucket on its probe path that is not live. */
  ghost predicate FirstFree<K, V>(info: KeyInfo<K>, s: seq<Bucket<K, V>>, key: K, i: nat)
    requires |s| > 0
  {
    && i < |s|
    && KindOf(info, s[i]) != Live
    && exists p: nat :: Probe(info.hash(key), p, |s|) == i && AllLiveBefore(info, s, key, p)
  }

  /** The first p probes for key meet live buckets only. */
  ghost predicate AllLiveBefore<K, V>(info: KeyInfo<K>, s: seq<Bucket<K, V>>, key: K, p: nat)
    requires |s| > 0
  {
    forall q: nat :: q < p ==> KindOf(info, s[Probe(info.hash(key), q, |s|)]) == Live
  }

  // ----- counting

  lemma {:induction false} CountTotal<K, V>(info: KeyInfo<K>, s: seq<Bucket<K, V>>)
    ensures Count(info, s, Empty) + Count(info, s, Tombstone) + Count(info, s, Live) == |s|
  {
    if s != [] { CountTotal(info, s[..|s| - 1]); }
  }

  lemma {:induction false} CountUpdate<K, V>(
      info: KeyInfo<K>, s: seq<Bucket<K, V>>, i: nat, b: Bucket<K, V>, kind: Kind)
    requires i < |s|
    ensures Count(info, s[i := b], kind) + (if KindOf(info, s[i]) == kind then 1 else 0)
         == Count(info, s, kind) + (if KindOf(info, b) == kind then 1 else 0)
  {
    var n := |s| - 1;
    if i == n {
      assert s[i := b][..n] == s[..n];
    } else {
      assert s[i := b][..n] == s[..n][i := b];
      CountUpdate(info, s[..n], i, b, kind);
    }
  }

  lemma {:induction false} CountWitness<K, V>(info: KeyInfo<K>, s: seq<Bucket<K, V>>, kind: Kind) returns (i: nat)
    requires Count(info, s, kind) > 0
    ensures i < |s| && KindOf(info, s[i]) == kind
  {
    i := |s| - 1;
    if KindOf(info, s[i]) != kind { i := CountWitness(info, s[..i], kind); }
  }

  lemma {:induction false} CountPositive<K, V>(info: KeyInfo<K>, s: seq<Bucket<K, V>>, i: nat)
    requires i < |s|
    ensures Count(info, s, KindOf(info, s[i])) > 0
  {
    if i < |s| - 1 { CountPositive(info, s[..|s| - 1], i); }
  }

  lemma {:induction false} CountAll<K, V>(info: KeyInfo<K>, s: seq<Bucket<K, V>>, kind: Kind)
    requires forall i :: 0 <= i < |s| ==> KindOf(info, s[i]) == kind
    ensures Count(info, s, kind) == |s|
  {
    if s != [] { CountAll(info, s[..|s| - 1], kind); }
  }

  // ----- the abstract map

  lemma {:induction false} ModelHas<K, V>(info: KeyInfo<K>, s: seq<Bucket<K, V>>, i: nat)
    requires Distinct(info, s) && i < |s| && KindOf(info, s[i]) == Live
    ensures s[i].key in Model(info, s) && Model(info, s)[s[i].key] == s[i].value
  {
    if i < |s| - 1 { ModelHas(info, s[..|s| - 1], i); }
  }

  lemma {:induction false} ModelWitness<K, V>(info: KeyInfo<K>, s: seq<Bucket<K, V>>, key: K) returns (i: nat)
    requires Distinct(info, s) && key in Model(info, s)
    ensures i < |s| && KindOf(info, s[i]) == Live && s[i].key == key
    ensures Model(info, s)[key] == s[i].value
  {
    i := |s| - 1;
    if KindOf(info, s[i]) != Live || s[i].key != key { i := ModelWitness(info, s[..i], key); }
  }

  lemma {:induction false} ModelSize<K, V>(info: KeyInfo<K>, s: seq<Bucket<K, V>>)
    requires Distinct(info, s)
    ensures |Model(info, s)| == Count(info, s, Live)
  {
    if s != [] {
      var n := |s| - 1;
      ModelSize(info, s[..n]);
      if s[n].key in Model(info, s[..n]) && KindOf(info, s[n]) == Live {
        var i := ModelWitness(info, s[..n], s[n].key);
      }
    }
  }

  /** A map that has exactly the live pairs of s is the map of s. */
  lemma ModelIs<K, V>(info: KeyInfo<K>, s: seq<Bucket<K, V>>, m: map<K, V>)
    requires Distinct(info, s)
    requires forall i :: 0 <= i < |s| && KindOf(info, s[i]) == Live ==> s[i].key in m && m[s[i].key] == s[i].value
    requires forall k :: k in m ==> exists i :: 0 <= i < |s| && KindOf(info, s[i]) == Live && s[i].key == k
    ensures Model(info, s) == m
  {
    forall k | k in m ensures k in Model(info, s) && Model(info, s)[k] == m[k] {
      var i :| 0 <= i < |s| && KindOf(info, s[i]) == Live && s[i].key == k;
      ModelHas(info, s, i);
    }
    forall k | k in Model(info, s) ensures k in m {
      var i := ModelWitness(info, s, k);
    }
  }

  lemma ModelNoLive<K, V>(info: KeyInfo<K>, s: seq<Bucket<K, V>>)
    requires forall i :: 0 <= i < |s| ==> KindOf(info, s[i]) != Live
    ensures Searchable(info, s) || (|s| > 0 && !IsPow2(|s|))
    ensures Model(info, s) == map[]
  {
    ModelIs(info, s, map[]);
  }

  lemma NothingStored<K, V>(info: KeyInfo<K>, s: seq<Bucket<K, V>>)
    requires s == []
    ensures Model(info, s) == map[]
  {
  }

  // ----- searching

  lemma Stored<K, V>(info: KeyInfo<K>, s: seq<Bucket<K, V>>, i: nat)
    requires Searchable(info, s) && i < |s| && KindOf(info, s[i]) == Live
    ensures s[i].key in Model(info, s) && Model(info, s)[s[i].key] == s[i].value
  {
    ModelHas(info, s, i);
  }

  /** A live key is met on its probe path before the first empty bucket. */
  lemma LiveBeforeEmpty<K, V>(info: KeyInfo<K>, s: seq<Bucket<K, V>>, key: K, p: nat) returns (r: nat)
    requires |s| > 0 && Searchable(info, s) && key in Model(info, s)
    requires s[Probe(info.hash(key), p, |s|)].key == info.empty
    ensures r < p && s[Probe(info.hash(key), r, |s|)].key == key
  {
    var i := ModelWitness(info, s, key);
    assert Reachable(info, s, i);
    r :| Probe(info.hash(key), r, |s|) == i && NoEmptyBefore(info, s, key, r);
    assert r <= p;
  }

  /** So a search that stops at an empty bucket without meeting the key proves it absent. */
  lemma StopMeansAbsent<K, V>(info: KeyInfo<K>, s: seq<Bucket<K, V>>, key: K, p: nat)
    requires |s| > 0 && Searchable(info, s)
    requires forall q: nat :: q < p ==> s[Probe(info.hash(key), q, |s|)].key != key
    requires s[Probe(info.hash(key), p, |s|)].key == info.empty
    ensures key !in Model(info, s)
  {
    if key in Model(info, s) {
      var r := LiveBeforeEmpty(info, s, key, p);
    }
  }

  lemma StopMeansUnmet<K, V>(info: KeyInfo<K>, s: seq<Bucket<K, V>>, key: K, p: nat)
    requires |s| > 0 && key != info.empty
    requires forall q: nat :: q < p ==> s[Probe(info.hash(key), q, |s|)].key != key
    requires s[Probe(info.hash(key), p, |s|)].key == info.empty
    ensures !Met(info, s, key)
  {
    forall r: nat | NoEmptyBefore(info, s, key, r) ensures s[Probe(info.hash(key), r, |s|)].key != key {
      assert r <= p;
    }
  }

  /** A search ends in at most one bucket. */
  lemma MetOnce<K, V>(info: KeyInfo<K>, s: seq<Bucket<K, V>>, key: K, i: nat, j: nat)
    requires |s| > 0 && MetAt(info, s, key, i) && MetAt(info, s, key, j)
    ensures i == j && Met(info, s, key)
  {
    hide Probe;
    var p: nat :| Probe(info.hash(key), p, |s|) == i && NotYet(info, s, key, p);
    var q: nat :| Probe(info.hash(key), q, |s|) == j && NotYet(info, s, key, q);
    assert p <= q && q <= p;
  }

  lemma EmptyOnPath<K, V>(info: KeyInfo<K>, s: seq<Bucket<K, V>>, key: K) returns (p: nat)
    requires |s| > 0 && Searchable(info, s) && Count(info, s, Empty) > 0
    ensures p < |s| && s[Probe(info.hash(key), p, |s|)].key == info.empty
  {
    var i := CountWitness(info, s, Empty);
    p := ProbeHitsEvery(info.hash(key), |s|, i);
  }

  // ----- the three ways the bucket array changes

  /** A write that creates no empty bucket keeps every probe path. */
  lemma PathsKept<K, V>(info: KeyInfo<K>, s: seq<Bucket<K, V>>, i: nat, b: Bucket<K, V>, j: nat)
    requires i < |s| && b.key != info.empty
    requires j < |s| && j != i && Reachable(info, s, j)
    ensures Reachable(info, s[i := b], j)
  {
    var t := s[i := b];
    var p: nat :| Probe(info.hash(s[j].key), p, |s|) == j && NoEmptyBefore(info, s, s[j].key, p);
    assert NoEmptyBefore(info, t, t[j].key, p);
  }

  lemma FillReachable<K, V>(info: KeyInfo<K>, s: seq<Bucket<K, V>>, i: nat, b: Bucket<K, V>)
    requires |s| > 0 && FirstFree(info, s, b.key, i) && KindOf(info, b) == Live
    ensures Reachable(info, s[i := b], i)
  {
    var t := s[i := b];
    var p: nat :| Probe(info.hash(b.key), p, |s|) == i && AllLiveBefore(info, s, b.key, p);
    assert NoEmptyBefore(info, t, t[i].key, p);
  }

  lemma FillDistinct<K, V>(info: KeyInfo<K>, s: seq<Bucket<K, V>>, i: nat, b: Bucket<K, V>)
    requires Distinct(info, s) && i < |s| && KindOf(info, s[i]) != Live
    requires KindOf(info, b) == Live && b.key !in Model(info, s)
    ensures Distinct(info, s[i := b])
  {
    forall j | 0 <= j < |s| && KindOf(info, s[j]) == Live ensures s[j].key != b.key {
      ModelHas(info, s, j);
    }
  }

  lemma FillModel<K, V>(info: KeyInfo<K>, s: seq<Bucket<K, V>>, i: nat, b: Bucket<K, V>)
    requires i < |s| && Distinct(info, s) && Distinct(info, s[i := b])
    requires KindOf(info, s[i]) != Live
    requires KindOf(info, b) == Live && b.key !in Model(info, s)
    ensures Model(info, s[i := b]) == Model(info, s)[b.key := b.value]
  {
    var t, m := s[i := b], Model(info, s)[b.key := b.value];
    forall j | 0 <= j < |t| && KindOf(info, t[j]) == Live ensures t[j].key in m && m[t[j].key] == t[j].value {
      if j != i {
        ModelHas(info, s, j);
      }
    }
    forall k | k in m ensures exists j :: 0 <= j < |t| && KindOf(info, t[j]) == Live && t[j].key == k {
      if k == b.key {
        assert t[i].key == k;
      } else {
        var j := ModelWitness(info, s, k);
        assert t[j].key == k;
      }
    }
    ModelIs(info, t, m);
  }

  /** Writing a new key into its first free bucket adds exactly that pair. */
  lemma Fill<K, V>(info: KeyInfo<K>, s: seq<Bucket<K, V>>, i: nat, b: Bucket<K, V>)
    requires |s| > 0 && Searchable(info, s) && FirstFree(info, s, b.key, i)
    requires KindOf(info, b) == Live && b.key !in Model(info, s)
    ensures Searchable(info, s[i := b])
    ensures Model(info, s[i := b]) == Model(info, s)[b.key := b.value]
  {
    FillDistinct(info, s, i, b);
    FillModel(info, s, i, b);
    var t := s[i := b];
    forall j | 0 <= j < |t| && KindOf(info, t[j]) == Live ensures Reachable(info, t, j) {
      if j == i {
        FillReachable(info, s, i, b);
      } else {
        PathsKept(info, s, i, b, j);
      }
    }
  }

  /** Filling a bucket of a table without tombstones adds one live bucket and no tombstone. */
  lemma Refilled<K, V>(info: KeyInfo<K>, s: seq<Bucket<K, V>>, i: nat, b: Bucket<K, V>)
    requires |s| > 0 && Searchable(info, s) && FirstFree(info, s, b.key, i)
    requires KindOf(info, b) == Live && b.key !in Model(info, s) && Count(info, s, Tombstone) == 0
    ensures Searchable(info, s[i := b])
    ensures Model(info, s[i := b]) == Model(info, s)[b.key := b.value]
    ensures Count(info, s[i := b], Live) == Count(info, s, Live) + 1
    ensures Count(info, s[i := b], Tombstone) == 0
  {
    Fill(info, s, i, b);
    CountUpdate(info, s, i, b, Live);
    CountUpdate(info, s, i, b, Tombstone);
    CountPositive(info, s, i);
  }

  lemma BuryModel<K, V>(info: KeyInfo<K>, s: seq<Bucket<K, V>>, i: nat, b: Bucket<K, V>)
    requires Distinct(info, s) && i < |s| && KindOf(info, s[i]) == Live
    requires KindOf(info, b) != Live
    ensures Distinct(info, s[i := b])
    ensures Model(info, s[i := b]) == Model(info, s) - {s[i].key}
  {
    var t, m := s[i := b], Model(info, s) - {s[i].key};
    assert Distinct(info, t) by {
      forall x, y | 0 <= x < y < |t| && KindOf(info, t[x]) == Live ensures t[x].key != t[y].key {
        if y != i { assert s[x].key != s[y].key; }
      }
    }
    forall j | 0 <= j < |t| && KindOf(info, t[j]) == Live ensures t[j].key in m && m[t[j].key] == t[j].value {
      ModelHas(info, s, j);
      assert s[j].key != s[i].key;
    }
    forall k | k in m ensures exists j :: 0 <= j < |t| && KindOf(info, t[j]) == Live && t[j].key == k {
      var j := ModelWitness(info, s, k);
      assert t[j].key == k;
    }
    ModelIs(info, t, m);
  }

  /** Turning a live bucket into a tombstone removes exactly its key and breaks no probe path. */
  lemma Bury<K, V>(info: KeyInfo<K>, s: seq<Bucket<K, V>>, i: nat, v: V)
    requires info.Valid() && Searchable(info, s)
    requires i < |s| && KindOf(info, s[i]) == Live
    ensures Searchable(info, s[i := Bucket(info.tombstone, v)])
    ensures Model(info, s[i := Bucket(info.tombstone, v)]) == Model(info, s) - {s[i].key}
  {
    var b := Bucket(info.tombstone, v);
    BuryModel(info, s, i, b);
    var t := s[i := b];
    forall j | 0 <= j < |t| && KindOf(info, t[j]) == Live ensures Reachable(info, t, j) {
      PathsKept(info, s, i, b, j);
    }
  }

  /** Overwriting the value of a live bucket keeps its key where it is. */
  lemma Assign<K, V>(info: KeyInfo<K>, s: seq<Bucket<K, V>>, i: nat, v: V)
    requires Searchable(info, s) && i < |s| && KindOf(info, s[i]) == Live
    ensures Searchable(info, s[i := Bucket(s[i].key, v)])
    ensures Model(info, s[i := Bucket(s[i].key, v)]) == Model(info, s)[s[i].key := v]
  {
    var b := Bucket(s[i].key, v);
    var t, m := s[i := b], Model(info, s)[s[i].key := v];
    assert Distinct(info, t) by {
      forall x, y | 0 <= x < y < |t| && KindOf(info, t[x]) == Live ensures t[x].key != t[y].key {
        assert s[x].key != s[y].key;
      }
    }
    forall j | 0 <= j < |t| && KindOf(info, t[j]) == Live
      ensures t[j].key in m && m[t[j].key] == t[j].value && Reachable(info, t, j)
    {
      ModelHas(info, s, j);
      assert j < i ==> s[j].key != s[i].key;
      assert i < j ==> s[i].key != s[j].key;
      var p: nat :| Probe(info.hash(s[j].key), p, |s|) == j && NoEmptyBefore(info, s, s[j].key, p);
      assert NoEmptyBefore(info, t, t[j].key, p);
    }
    forall k | k in m ensures exists j :: 0 <= j < |t| && KindOf(info, t[j]) == Live && t[j].key == k {
      ModelHas(info, s, i);
      var j := ModelWitness(info, s, k);
      assert t[j].key == k;
    }
    ModelIs(info, t, m);
  }
}
