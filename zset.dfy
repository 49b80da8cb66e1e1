/**
 * The Redis store behind the buckets, as values: each key names a sorted set,
 * a finite map from member to score. A key that is absent stands for an
 * empty sorted set, and Redis deletes a sorted set when its last member goes.
 */
module ZSet {

  type Bucket = map<string, int>
  type Store = map<string, Bucket>

  /** Redis keeps no empty sorted set. */
  predicate NoEmptyBuckets(store: Store) {
    forall key :: key in store ==> store[key] != map[]
  }

  /** The sorted set under key, empty when the key is absent. */
  function Get(store: Store, key: string): Bucket {
    if key in store then store[key] else map[]
  }

  /** ZADD of one member: adds it, or updates its score when it is present. */
  function Insert(store: Store, key: string, member: string, score: int): (s: Store)
    ensures member in Get(s, key) && Get(s, key)[member] == score
    ensures forall m :: m in Get(store, key) && m != member ==> m in Get(s, key) && Get(s, key)[m] == Get(store, key)[m]
    ensures forall m :: m in Get(s, key) ==> m == member || m in Get(store, key)
    ensures forall k :: k != key ==> Get(s, k) == Get(store, k)
    ensures NoEmptyBuckets(store) ==> NoEmptyBuckets(s)
  {
    store[key := Get(store, key)[member := score]]
  }

  /** The members and scores of a batch; a later entry for the same member overrides an earlier one. */
  function Batch(entries: seq<(string, int)>): (b: Bucket)
    ensures forall m :: m in b <==> exists k :: 0 <= k < |entries| && entries[k].0 == m
    ensures forall m :: m in b ==> (m, b[m]) in entries
  {
    if entries == [] then map[]
    else
      var last := entries[|entries| - 1];
      var b' := Batch(entries[..|entries| - 1]);
      assert forall k :: 0 <= k < |entries| - 1 ==> entries[..|entries| - 1][k] == entries[k];
      b'[last.0 := last.1]
  }

  /** Appending an entry to a batch sets that member's score last. */
  lemma BatchSnoc(entries: seq<(string, int)>, e: (string, int))
    ensures Batch(entries + [e]) == Batch(entries)[e.0 := e.1]
  {
    assert (entries + [e])[..|entries|] == entries;
  }

  /** In a batch without repeated members, every entry keeps its own score. */
  lemma BatchDistinctScores(entries: seq<(string, int)>, k: int)
    requires forall i, j :: 0 <= i < j < |entries| ==> entries[i].0 != entries[j].0
    requires 0 <= k < |entries|
    ensures entries[k].0 in Batch(entries) && Batch(entries)[entries[k].0] == entries[k].1
  {
    var m := entries[k].0;
    var b := Batch(entries);
    var l :| 0 <= l < |entries| && entries[l] == (m, b[m]);
    assert l == k;
  }

  /** ZADD of several members at once into one sorted set. */
  function InsertAll(store: Store, key: string, entries: seq<(string, int)>): (s: Store)
    ensures forall k :: 0 <= k < |entries| ==> entries[k].0 in Get(s, key)
    ensures forall m :: m in Get(s, key) ==> m in Get(store, key) || exists k :: 0 <= k < |entries| && entries[k].0 == m
    ensures forall m :: m in Batch(entries) ==> m in Get(s, key) && Get(s, key)[m] == Batch(entries)[m]
    ensures forall m :: m in Get(store, key) && m !in Batch(entries) ==> m in Get(s, key) && Get(s, key)[m] == Get(store, key)[m]
    ensures forall k :: k != key ==> Get(s, k) == Get(store, k)
    ensures NoEmptyBuckets(store) ==> NoEmptyBuckets(s)
  {
    if entries == [] then store
    else
      assert entries[0].0 in Batch(entries);
      store[key := Get(store, key) + Batch(entries)]
  }

  /** ZREM of one member; removing an absent member changes nothing. */
  function Remove(store: Store, key: string, member: string): (s: Store)
    ensures Get(s, key) == Get(store, key) - {member}
    ensures forall k :: k != key ==> Get(s, k) == Get(store, k)
    ensures member !in Get(store, key) ==> s == store
    ensures NoEmptyBuckets(store) ==> NoEmptyBuckets(s)
  {
    if member !in Get(store, key) then store
    else if store[key] - {member} == map[] then store - {key}
    else store[key := store[key] - {member}]
  }

  /** Removing a member twice is removing it once. */
  lemma RemoveIdempotent(store: Store, key: string, member: string)
    ensures Remove(Remove(store, key, member), key, member) == Remove(store, key, member)
  {
    var once := Remove(store, key, member);
    assert member !in Get(once, key);
  }

  /** m has the smallest score in b: the first member of an ascending range from rank 0. */
  predicate IsLowest(b: Bucket, m: string) {
    m in b && forall k :: k in b ==> b[m] <= b[k]
  }

  /** When one member scores strictly below all others, it is the only lowest member. */
  lemma UniqueLowest(b: Bucket, m: string, m': string)
    requires m in b
    requires forall k :: k in b && k != m ==> b[m] < b[k]
    requires IsLowest(b, m')
    ensures m' == m
  {
  }

  lemma RemoveOneSize(b: Bucket, m: string)
    requires m in b
    ensures |b - {m}| == |b| - 1
  {
    assert (b - {m}).Keys == b.Keys - {m};
  }

  /** Every non-empty sorted set has a lowest member. */
  lemma {:induction false} LowestExists(b: Bucket)
    requires b != map[]
    ensures exists m :: IsLowest(b, m)
    decreases |b|
  {
    var k :| k in b;
    var rest := b - {k};
    if rest == map[] {
      assert forall k' :: k' in b ==> k' == k || k' in rest;
      assert IsLowest(b, k);
    } else {
      RemoveOneSize(b, k);
      LowestExists(rest);
      var m :| IsLowest(rest, m);
      assert forall k' :: k' in b ==> k' == k || (k' in rest && rest[k'] == b[k']);
      if b[k] <= rest[m] {
        assert IsLowest(b, k);
      } else {
        assert IsLowest(b, m);
      }
    }
  }

  /**
   * The order in which repeated peek-the-lowest and remove-it cycles empty a
   * sorted set (ties between equal scores are resolved arbitrarily).
   */
  ghost function Drain(b: Bucket): seq<string>
    decreases |b|
  {
    if b == map[] then []
    else
      LowestExists(b);
      var m :| IsLowest(b, m);
      RemoveOneSize(b, m);
      [m] + Drain(b - {m})
  }

  /** d lists every member of b exactly once, in ascending order of score. */
  predicate AscendingListing(b: Bucket, d: seq<string>) {
    && |d| == |b|
    && (forall i :: 0 <= i < |d| ==> d[i] in b)
    && (forall m :: m in b ==> m in d)
    && (forall i, j :: 0 <= i < j < |d| ==> d[i] != d[j])
    && (forall i, j :: 0 <= i < j < |d| ==> b[d[i]] <= b[d[j]])
  }

  /** Putting a lowest member in front of an ascending listing of the rest lists the whole set. */
  lemma AscendingCons(b: Bucket, m: string, dr: seq<string>)
    requires IsLowest(b, m)
    requires AscendingListing(b - {m}, dr)
    ensures AscendingListing(b, [m] + dr)
  {
    var rest := b - {m};
    var d := [m] + dr;
    RemoveOneSize(b, m);
    assert forall i :: 0 < i < |d| ==> d[i] == dr[i - 1];
    forall i | 0 < i < |d| ensures d[i] in rest && d[i] in b {
      assert dr[i - 1] in rest;
    }
    forall x | x in b ensures x in d {
      if x != m {
        assert x in rest;
        assert x in dr;
      }
    }
    forall i, j | 0 <= i < j < |d| ensures d[i] != d[j] && b[d[i]] <= b[d[j]] {
      if i > 0 {
        assert dr[i - 1] != dr[j - 1];
        assert rest[dr[i - 1]] <= rest[dr[j - 1]];
      }
    }
  }

  /** Draining yields every member exactly once, in ascending order of score. */
  lemma {:induction false} DrainAscending(b: Bucket)
    ensures |Drain(b)| == |b|
    ensures forall i :: 0 <= i < |Drain(b)| ==> Drain(b)[i] in b
    ensures forall m :: m in b ==> m in Drain(b)
    ensures forall i, j :: 0 <= i < j < |Drain(b)| ==> Drain(b)[i] != Drain(b)[j]
    ensures forall i, j :: 0 <= i < j < |Drain(b)| ==> b[Drain(b)[i]] <= b[Drain(b)[j]]
    decreases |b|
  {
    var d := Drain(b);
    if b != map[] {
      var m := d[0];
      RemoveOneSize(b, m);
      assert IsLowest(b, m) && d == [m] + Drain(b - {m});
      DrainAscending(b - {m});
      AscendingCons(b, m, Drain(b - {m}));
    }
    assert AscendingListing(b, d);
  }
}
