/**
 * RedisDelayBucket: the delay buckets of the ice delay queue. Jobs are
 * spread round-robin over a fixed number of Redis sorted sets, scored by
 * their delay time; a poller peeks at the lowest-scored job of one bucket
 * and removes it once handled.
 */
module Ice {
  import opened BucketNames
  import opened RoundRobin
  import ZSet

  datatype Option<T> = None | Some(value: T)

  /** A delayed job; only the fields the bucket reads are modelled. */
  datatype DelayJob = DelayJob(id: string, topic: string, delayTime: int, usedSimple: bool)

  /**
   * The job encodings, whose code is not part of this model: the compact
   * form (toSimple), the legacy JSON form, and the decoder that accepts
   * either together with the score.
   */
  datatype Codec = Codec(
    toSimple: DelayJob -> string,
    toJson: DelayJob -> string,
    compatibleDecode: (string, int) -> DelayJob)

  /** The configuration the bucket reads, with the default instance name it compares against. */
  datatype IceProperties = IceProperties(delayBucketCount: nat, instanceName: string, defaultInstanceName: string)

  /** Ok, or the ArithmeticException that `% 0` throws when there are no buckets. */
  datatype Status = Ok | DivisionByZero

  /** The member that remove deletes for a job: its compact form when it was decoded from one, its JSON form otherwise. */
  function RemovalKey(codec: Codec, job: DelayJob): string {
    if job.usedSimple then codec.toSimple(job) else codec.toJson(job)
  }

  /** The (member, score) pairs a batch add sends. */
  function Entries(codec: Codec, jobs: seq<DelayJob>): (entries: seq<(string, int)>)
    ensures |entries| == |jobs|
    ensures forall k :: 0 <= k < |jobs| ==> entries[k] == (codec.toSimple(jobs[k]), jobs[k].delayTime)
  {
    seq(|jobs|, k requires 0 <= k < |jobs| => (codec.toSimple(jobs[k]), jobs[k].delayTime))
  }

  /** Decoding a job's compact form with its delay time gives the job back. */
  ghost predicate RoundTrips(codec: Codec) {
    forall job: DelayJob :: job.usedSimple ==> codec.compatibleDecode(codec.toSimple(job), job.delayTime) == job
  }

  class RedisDelayBucket {
    const props: IceProperties
    const codec: Codec
    var bucketNames: seq<string>
    /** The round-robin counter, a Java int. */
    var counter: int
    /** The Redis sorted sets, by key. */
    var store: ZSet.Store

    ghost predicate Valid()
      reads this
    {
      && |bucketNames| == props.delayBucketCount
      && Distinct(bucketNames)
      && IsInt(counter)
      && ZSet.NoEmptyBuckets(store)
    }

    constructor (props: IceProperties, codec: Codec, store: ZSet.Store)
      requires ZSet.NoEmptyBuckets(store)
      ensures Valid()
      ensures this.props == props && this.codec == codec && this.store == store && counter == 0
      ensures forall i :: 0 <= i < |bucketNames| ==>
                bucketNames[i] == ConstructedName(i, props.instanceName, props.defaultInstanceName)
    {
      var names: seq<string> := [];
      for i := 0 to props.delayBucketCount
        invariant |names| == i
        invariant forall k :: 0 <= k < i ==> names[k] == ConstructedName(k, props.instanceName, props.defaultInstanceName)
      {
        if props.instanceName == props.defaultInstanceName {
          names := names + [PlainName(i)];
        } else {
          names := names + [SuffixedName(i, props.instanceName)];
        }
      }
      forall i, j | 0 <= i < j < |names| ensures names[i] != names[j] {
        ConstructedNamesDistinct(i, j, props.instanceName, props.defaultInstanceName);
      }
      this.props := props;
      this.codec := codec;
      this.store := store;
      bucketNames := names;
      counter := 0;
    }

    /** Takes the counter's value and advances it; the bucket at that value, reduced, is the one to fill. */
    method GetCurrentBucketName() returns (name: Option<string>)
      requires Valid()
      modifies this`counter
      ensures Valid()
      ensures counter == WrapInc(old(counter))
      ensures name.None? <==> props.delayBucketCount == 0
      ensures name.Some? ==> name.value == bucketNames[Slot(old(counter), props.delayBucketCount)]
    {
      var thisIndex := counter % MaxBucketSize;
      counter := WrapInc(counter);
      if props.delayBucketCount == 0 {
        return None;
      }
      name := Some(bucketNames[thisIndex % props.delayBucketCount]);
    }

    /** Adds one job, under its compact form and scored by its delay time, to the next bucket in turn. */
    method Add(job: DelayJob) returns (status: Status)
      requires Valid()
      modifies this`counter, this`store
      ensures Valid()
      ensures counter == WrapInc(old(counter))
      ensures status == Ok <==> props.delayBucketCount > 0
      ensures status == Ok ==>
                store == ZSet.Insert(old(store), bucketNames[Slot(old(counter), props.delayBucketCount)],
                                     codec.toSimple(job), job.delayTime)
      ensures status == DivisionByZero ==> store == old(store)
    {
      var name := GetCurrentBucketName();
      match name
      case None =>
        status := DivisionByZero;
      case Some(bucketName) =>
        store := ZSet.Insert(store, bucketName, codec.toSimple(job), job.delayTime);
        status := Ok;
    }

    /** Adds a batch of jobs, all to the same one bucket: the counter advances once for the batch. */
    method AddBatch(jobs: seq<DelayJob>) returns (status: Status)
      requires Valid()
      modifies this`counter, this`store
      ensures Valid()
      ensures counter == WrapInc(old(counter))
      ensures status == Ok <==> props.delayBucketCount > 0
      ensures status == Ok ==>
                var bucketName := bucketNames[Slot(old(counter), props.delayBucketCount)];
                && store == ZSet.InsertAll(old(store), bucketName, Entries(codec, jobs))
                && (forall k :: 0 <= k < |jobs| ==> codec.toSimple(jobs[k]) in ZSet.Get(store, bucketName))
      ensures status == DivisionByZero ==> store == old(store)
    {
      var name := GetCurrentBucketName();
      match name
      case None =>
        status := DivisionByZero;
      case Some(bucketName) =>
        store := ZSet.InsertAll(store, bucketName, Entries(codec, jobs));
        status := Ok;
    }

    /** Peeks at bucket index: the decoded lowest-scored job, or none when the bucket is empty. */
    method Poll(index: int) returns (job: Option<DelayJob>)
      requires 0 <= index < |bucketNames|
      ensures job.None? <==> ZSet.Get(store, bucketNames[index]) == map[]
      ensures job.Some? ==>
                var bucket := ZSet.Get(store, bucketNames[index]);
                exists m :: ZSet.IsLowest(bucket, m) && job.value == codec.compatibleDecode(m, bucket[m])
    {
      var bucket := ZSet.Get(store, bucketNames[index]);
      if bucket == map[] {
        return None;
      }
      ZSet.LowestExists(bucket);
      var m :| ZSet.IsLowest(bucket, m);
      job := Some(codec.compatibleDecode(m, bucket[m]));
    }

    /** Deletes a job from bucket index, under the encoding it was decoded from. */
    method Remove(index: int, job: DelayJob)
      requires Valid()
      requires 0 <= index < |bucketNames|
      modifies this`store
      ensures Valid()
      ensures store == ZSet.Remove(old(store), bucketNames[index], RemovalKey(codec, job))
    {
      var name := bucketNames[index];
      if job.usedSimple {
        store := ZSet.Remove(store, name, codec.toSimple(job));
        return;
      }
      store := ZSet.Remove(store, name, codec.toJson(job));
    }

    /** An instance change renames every bucket, always with the instance suffix. */
    method OnApplicationEvent(instanceName: string)
      requires Valid()
      modifies this`bucketNames
      ensures Valid()
      ensures counter == old(counter) && store == old(store)
      ensures forall i :: 0 <= i < |bucketNames| ==> bucketNames[i] == SuffixedName(i, instanceName)
    {
      bucketNames := [];
      for i := 0 to props.delayBucketCount
        invariant |bucketNames| == i
        invariant forall k :: 0 <= k < i ==> bucketNames[k] == SuffixedName(k, instanceName)
      {
        bucketNames := bucketNames + [SuffixedName(i, instanceName)];
      }
      forall i, j | 0 <= i < j < |bucketNames| ensures bucketNames[i] != bucketNames[j] {
        SuffixedNamesDistinct(i, j, instanceName);
      }
    }
  }

  /**
   * When the removal key of the polled job is the member it was decoded from,
   * removing that job deletes exactly the polled member from that bucket and nothing else.
   */
  lemma PollThenRemove(codec: Codec, store: ZSet.Store, name: string, m: string)
    requires ZSet.IsLowest(ZSet.Get(store, name), m)
    requires RemovalKey(codec, codec.compatibleDecode(m, ZSet.Get(store, name)[m])) == m
    ensures var job := codec.compatibleDecode(m, ZSet.Get(store, name)[m]);
            var after := ZSet.Remove(store, name, RemovalKey(codec, job));
            && ZSet.Get(after, name) == ZSet.Get(store, name) - {m}
            && forall key :: key != name ==> ZSet.Get(after, key) == ZSet.Get(store, key)
  {
  }

  /**
   * Two buckets under the default instance: the first add goes to bucket 0,
   * the second to bucket 1; each poll finds its job, and after both removes
   * both buckets are empty.
   */
  method TwoBucketScenario(codec: Codec, a: DelayJob, b: DelayJob)
    returns (polled0: Option<DelayJob>, polled1: Option<DelayJob>, after0: Option<DelayJob>, after1: Option<DelayJob>)
    requires RoundTrips(codec) && a.usedSimple && b.usedSimple
    ensures polled0 == Some(a) && polled1 == Some(b)
    ensures after0 == None && after1 == None
  {
    var q := new RedisDelayBucket(IceProperties(2, "ice", "ice"), codec, map[]);
    var n0, n1 := q.bucketNames[0], q.bucketNames[1];
    var sa, sb := codec.toSimple(a), codec.toSimple(b);
    assert codec.compatibleDecode(sa, a.delayTime) == a;
    assert codec.compatibleDecode(sb, b.delayTime) == b;
    var status := q.Add(a);
    assert ZSet.Get(q.store, n0) == map[sa := a.delayTime] && ZSet.Get(q.store, n1) == map[];
    status := q.Add(b);
    assert ZSet.Get(q.store, n0) == map[sa := a.delayTime] && ZSet.Get(q.store, n1) == map[sb := b.delayTime];
    polled0 := q.Poll(0);
    polled1 := q.Poll(1);
    q.Remove(0, a);
    q.Remove(1, b);
    after0 := q.Poll(0);
    after1 := q.Poll(1);
  }

  /** What a poll returns from a bucket whose lowest score is held by one member: that member, decoded. */
  lemma PolledUniqueLowest(codec: Codec, b: ZSet.Bucket, m: string, polled: Option<DelayJob>)
    requires m in b
    requires forall k :: k in b && k != m ==> b[m] < b[k]
    requires polled.None? <==> b == map[]
    requires polled.Some? ==> exists m' :: ZSet.IsLowest(b, m') && polled.value == codec.compatibleDecode(m', b[m'])
    ensures polled == Some(codec.compatibleDecode(m, b[m]))
  {
    var m' :| ZSet.IsLowest(b, m') && polled.value == codec.compatibleDecode(m', b[m']);
    ZSet.UniqueLowest(b, m, m');
  }

  /** A one-bucket queue after adding jobs due at 5, 1 and 3, in that order. */
  method AddFiveOneThree(codec: Codec, j5: DelayJob, j1: DelayJob, j3: DelayJob) returns (q: RedisDelayBucket)
    requires j5.delayTime == 5 && j1.delayTime == 1 && j3.delayTime == 3
    ensures fresh(q) && q.Valid() && q.codec == codec && |q.bucketNames| == 1
    ensures ZSet.Get(q.store, q.bucketNames[0]) ==
            map[codec.toSimple(j5) := 5, codec.toSimple(j1) := 1, codec.toSimple(j3) := 3]
  {
    q := new RedisDelayBucket(IceProperties(1, "ice", "ice"), codec, map[]);
    var status := q.Add(j5);
    status := q.Add(j1);
    status := q.Add(j3);
  }

  /**
   * Jobs due at 5, 1 and 3 added in that order to a single bucket come out of
   * poll-and-remove cycles in the order 1, 3, 5.
   */
  method OrderScenario(codec: Codec, j5: DelayJob, j1: DelayJob, j3: DelayJob)
    returns (first: Option<DelayJob>, second: Option<DelayJob>, third: Option<DelayJob>)
    requires codec.compatibleDecode(codec.toSimple(j1), 1) == j1
    requires codec.compatibleDecode(codec.toSimple(j3), 3) == j3
    requires codec.compatibleDecode(codec.toSimple(j5), 5) == j5
    requires j5.usedSimple && j1.usedSimple && j3.usedSimple
    requires j5.delayTime == 5 && j1.delayTime == 1 && j3.delayTime == 3
    requires codec.toSimple(j5) != codec.toSimple(j1) && codec.toSimple(j5) != codec.toSimple(j3)
    requires codec.toSimple(j1) != codec.toSimple(j3)
    ensures first == Some(j1) && second == Some(j3) && third == Some(j5)
  {
    var s5, s1, s3 := codec.toSimple(j5), codec.toSimple(j1), codec.toSimple(j3);
    var q := AddFiveOneThree(codec, j5, j1, j3);
    first := q.Poll(0);
    PolledUniqueLowest(codec, map[s5 := 5, s1 := 1, s3 := 3], s1, first);
    assert RemovalKey(codec, j1) == s1;
    assert map[s5 := 5, s1 := 1, s3 := 3] - {s1} == map[s5 := 5, s3 := 3];
    q.Remove(0, j1);
    second := q.Poll(0);
    PolledUniqueLowest(codec, map[s5 := 5, s3 := 3], s3, second);
    assert RemovalKey(codec, j3) == s3;
    assert map[s5 := 5, s3 := 3] - {s3} == map[s5 := 5];
    q.Remove(0, j3);
    third := q.Poll(0);
    PolledUniqueLowest(codec, map[s5 := 5], s5, third);
  }
}
