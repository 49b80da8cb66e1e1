# Delay buckets of the ice delay queue

This project models `RedisDelayBucket`, the storage engine of Milkomeda's "ice" delay queue, and proves properties of the model.

The engine spreads delayed jobs over a fixed number of Redis sorted sets called buckets. Each job is scored by its delay time. The parts modelled are:

- **Bucket names.** The constructor builds `delayBucketCount` names. Each name is `"ice:bucket" + i`, followed by `":" + instanceName` unless the instance is the default one. An instance-change event rebuilds the list, and then it always adds the suffix.
- **Bucket choice.** Each add reads a shared counter and increments it. The counter is reduced modulo `DEFAULT_MAX_BUCKET_SIZE = 100` and then modulo the bucket count.
- **Store operations.**
  - `add` puts a job's compact encoding into the chosen bucket.
  - `add(List)` puts a whole batch into one chosen bucket.
  - `poll(index)` peeks at the lowest-scored member of a bucket and decodes it.
  - `remove(index, job)` deletes the job's member. It uses the compact encoding or the legacy JSON one, depending on the job's `usedSimple` flag.

Layout:

- `names.dfy` (module `BucketNames`): decimal rendering of an index, the bucket-name functions and their distinctness.
- `round_robin.dfy` (module `RoundRobin`): the counter as a Java `int` that wraps around. It also holds Java's truncating `%`, the bucket index as the source computes it, and the corrected index that the rest of the model uses.
- `zset.dfy` (module `ZSet`): the Redis store, as a map from key to sorted set. A sorted set is a map from member to score. This module has the ZADD and ZREM operations, the lowest member of a set, and the order in which repeated peek-and-remove cycles empty a set.
- `delay_bucket.dfy` (module `Ice`): the class `RedisDelayBucket`. Its fields are `bucketNames`, `counter` and `store`, plus the configuration and the codec. Its methods are the constructor, `GetCurrentBucketName`, `Add`, `AddBatch`, `Poll`, `Remove` and `OnApplicationEvent`. Two client methods run the whole cycle end to end.

The job encoders (`toSimple`, `JSONUtil.serialize`) and the decoder (`compatibleDecode`) are not part of this model. The object receives them as a `Codec` value, a datatype of three functions, and nothing is assumed about them. Lemmas that need a round-trip take it as a hypothesis: `RoundTrips` for the compact form, and for `PollThenRemove` only that the polled member's job has that member as its removal key. `IceProperties` is not part of this model either, so the value of `DEFAULT_INSTANCE_NAME` is a field (`defaultInstanceName`) of the modelled configuration.

Behaviours of the code that the model states explicitly:

- The instance-change handler clears the name list and refills it in place; there is no atomic swap. The model does the same, step by step.
- `poll` does not catch exceptions from `compatibleDecode`. In the model the decoder is a total function.
- The bound of 100 changes which bucket an add goes to. When the counter crosses a multiple of 100, the next add goes to bucket 0, so the cycle is broken unless the bucket count divides 100 (`SlotStepAtWrap`). Buckets at index 100 or above never receive a single add (`Slot`).
- The instance-change handler adds the suffix even when the new instance name is the default one. None of its names equals a name the constructor gives under the default instance (`PlainNeverSuffixed`).

## Model

| member | source | states |
|---|---|---|
| `BucketNames.NatToStringValue` | Milkomeda/src/main/java/com/github/yizzuide/milkomeda/ice/RedisDelayBucket.java:45 | The rendering of an index reads back as that index, and it has no leading zero, so it is the canonical decimal numeral that Java's `"ice:bucket" + i` writes. |
| `BucketNames.NatToStringInjective` | Milkomeda/src/main/java/com/github/yizzuide/milkomeda/ice/RedisDelayBucket.java:45-47 | Two indexes with the same rendering are equal. |
| `BucketNames.ConstructedNamesDistinct` | Milkomeda/src/main/java/com/github/yizzuide/milkomeda/ice/RedisDelayBucket.java:43-49 | The constructor's names for different indexes differ, whether or not they carry the instance suffix. |
| `BucketNames.SuffixedNamesDistinct` | Milkomeda/src/main/java/com/github/yizzuide/milkomeda/ice/RedisDelayBucket.java:128-130 | For one instance, `"ice:bucket"+i+":"+inst` differs for different `i`. |
| `BucketNames.PlainNeverSuffixed` | Milkomeda/src/main/java/com/github/yizzuide/milkomeda/ice/RedisDelayBucket.java:125-131 | No name built by the instance-change handler equals a name without a suffix. So after an instance change, even to the default name, every bucket has a new key. |
| `Ice.RedisDelayBucket.constructor` | Milkomeda/src/main/java/com/github/yizzuide/milkomeda/ice/RedisDelayBucket.java:41-50 | There are exactly `delayBucketCount` names. Entry `i` is `"ice:bucket"+i` when the instance name equals the default, and `"ice:bucket"+i+":"+instanceName` otherwise. The names are pairwise distinct, and the counter starts at 0. |
| `Ice.RedisDelayBucket.OnApplicationEvent` | Milkomeda/src/main/java/com/github/yizzuide/milkomeda/ice/RedisDelayBucket.java:125-131 | Afterwards there are again `delayBucketCount` names. Entry `i` is `"ice:bucket"+i+":"+inst` even when `inst` is the default. The names are distinct, and the counter and store are unchanged. |
| `RoundRobin.WrapInc` | Milkomeda/src/main/java/com/github/yizzuide/milkomeda/ice/RedisDelayBucket.java:115 | The counter left by `getAndIncrement` is again a Java `int`. |
| `RoundRobin.AdvanceFromZero` | Milkomeda/src/main/java/com/github/yizzuide/milkomeda/ice/RedisDelayBucket.java:36 | Starting from the initial 0, k increments leave k as long as k fits in an `int`. |
| `RoundRobin.JavaRem` | Milkomeda/src/main/java/com/github/yizzuide/milkomeda/ice/RedisDelayBucket.java:115-116 | Java's `%` by a positive divisor stays strictly between minus and plus the divisor, takes the sign of the dividend, and differs from the dividend by a multiple of the divisor. Together these fix it as Java's truncating remainder. |
| `RoundRobin.Slot` | Milkomeda/src/main/java/com/github/yizzuide/milkomeda/ice/RedisDelayBucket.java:114-117 | The chosen index lies in `[0, count)` and below 100 for every counter value. |
| `RoundRobin.SlotAgreesOnNonNegative` | Milkomeda/src/main/java/com/github/yizzuide/milkomeda/ice/RedisDelayBucket.java:115-116 | For a non-negative counter the corrected index is the one the source computes. |
| `RoundRobin.SlotAsWrittenAfterWrap` | Milkomeda/src/main/java/com/github/yizzuide/milkomeda/ice/RedisDelayBucket.java:115-116 | After 2^31 increments from 0 the counter is `Integer.MIN_VALUE`. With 5 buckets the source's index for it is -3. |
| `RoundRobin.SlotStep` | Milkomeda/src/main/java/com/github/yizzuide/milkomeda/ice/RedisDelayBucket.java:115-116 | For every counter below Integer.MAX_VALUE, negative ones included, that is not at 99 modulo 100, the next add goes to the next bucket, cyclically. |
| `RoundRobin.SlotStepAtWrap` | Milkomeda/src/main/java/com/github/yizzuide/milkomeda/ice/RedisDelayBucket.java:115-116 | For a counter below Integer.MAX_VALUE at 99 modulo 100, the next add goes to the next bucket if and only if the bucket count divides 100. |
| `RoundRobin.SlotRepeatsAtIntWrap` | Milkomeda/src/main/java/com/github/yizzuide/milkomeda/ice/RedisDelayBucket.java:115-116 | Where the counter wraps from Integer.MAX_VALUE to Integer.MIN_VALUE, even the corrected index repeats: with 5 buckets both adds go to bucket 2. |
| `Ice.RedisDelayBucket.GetCurrentBucketName` | Milkomeda/src/main/java/com/github/yizzuide/milkomeda/ice/RedisDelayBucket.java:114-117 | The counter advances by exactly one, with wrap-around. The result is `bucketNames[Slot(c, count)]` for the counter `c` before the call. With no buckets the result is the division-by-zero failure. |
| `ZSet.Insert` | Milkomeda/src/main/java/com/github/yizzuide/milkomeda/ice/RedisDelayBucket.java:56 | ZADD sets the member's score and leaves every other member, and every other key, unchanged. |
| `Ice.RedisDelayBucket.Add` | Milkomeda/src/main/java/com/github/yizzuide/milkomeda/ice/RedisDelayBucket.java:53-57 | The member `toSimple(job)` is put, with score `delayTime`, into exactly the bucket chosen by the round-robin. The counter advances once. With no buckets the store is unchanged and the failure is reported. |
| `ZSet.Batch` | Milkomeda/src/main/java/com/github/yizzuide/milkomeda/ice/RedisDelayBucket.java:63-65 | The batch holds exactly the members of its entries, and each member's score is the score of one of its entries. |
| `ZSet.BatchSnoc` | Milkomeda/src/main/java/com/github/yizzuide/milkomeda/ice/RedisDelayBucket.java:63-65 | A later entry for a member overrides an earlier one. |
| `ZSet.BatchDistinctScores` | Milkomeda/src/main/java/com/github/yizzuide/milkomeda/ice/RedisDelayBucket.java:63-65 | In a batch without repeated members, every job keeps its own delay time as its score. |
| `ZSet.InsertAll` | Milkomeda/src/main/java/com/github/yizzuide/milkomeda/ice/RedisDelayBucket.java:66 | A batch ZADD adds every entry's member to the one key with its batch score, the delay time of its last entry. Members outside the batch keep their scores, and other keys are unchanged. |
| `Ice.RedisDelayBucket.AddBatch` | Milkomeda/src/main/java/com/github/yizzuide/milkomeda/ice/RedisDelayBucket.java:60-67 | One bucket is chosen for the whole batch, and the counter advances once, not once per job. Every job's `toSimple` member lands in that one bucket. |
| `ZSet.LowestExists` | Milkomeda/src/main/java/com/github/yizzuide/milkomeda/ice/RedisDelayBucket.java:75-79 | A non-empty sorted set has a member of minimum score, so an ascending range from rank 0 has a first element. |
| `Ice.RedisDelayBucket.Poll` | Milkomeda/src/main/java/com/github/yizzuide/milkomeda/ice/RedisDelayBucket.java:71-84 | The result is none exactly when bucket `index` is empty. Otherwise it is the decode of a minimum-score member with its score. Poll changes nothing. |
| `ZSet.Remove` | Milkomeda/src/main/java/com/github/yizzuide/milkomeda/ice/RedisDelayBucket.java:92-96 | ZREM removes just that member from that key. Removing an absent member leaves the whole store unchanged, and no empty sorted set is left behind. |
| `ZSet.RemoveIdempotent` | Milkomeda/src/main/java/com/github/yizzuide/milkomeda/ice/RedisDelayBucket.java:87-97 | Removing the same member twice is removing it once. |
| `Ice.RedisDelayBucket.Remove` | Milkomeda/src/main/java/com/github/yizzuide/milkomeda/ice/RedisDelayBucket.java:87-97 | Only the key `toSimple(job)` is removed when `job.usedSimple` holds, and only `toJson(job)` otherwise. The removal happens in bucket `index` alone. |
| `Ice.PollThenRemove` | Milkomeda/src/main/java/com/github/yizzuide/milkomeda/ice/RedisDelayBucket.java:71-97 | Suppose the removal key of the polled job is the member it was decoded from. Removing that job then deletes exactly the polled member and nothing else. |
| `ZSet.DrainAscending` | Milkomeda/src/main/java/com/github/yizzuide/milkomeda/ice/RedisDelayBucket.java:71-97 | Repeated peek-the-lowest and remove-it cycles return every member exactly once, in ascending order of score. |
| `Ice.PolledUniqueLowest` | Milkomeda/src/main/java/com/github/yizzuide/milkomeda/ice/RedisDelayBucket.java:75-83 | When one member holds the strictly lowest score, poll returns that member, decoded. |
| `Ice.TwoBucketScenario` | Milkomeda/src/main/java/com/github/yizzuide/milkomeda/ice/RedisDelayBucket.java:53-97 | There are two buckets under the default instance. The first add goes to bucket 0 and the second to bucket 1, and each poll returns its own job. After both removes, both buckets poll empty. |
| `Ice.OrderScenario` | Milkomeda/src/main/java/com/github/yizzuide/milkomeda/ice/RedisDelayBucket.java:53-97 | Jobs due at 5, 1 and 3 are added to one bucket. Poll-and-remove cycles then return them in the order 1, 3, 5. |

## Findings

| source | as written | input that shows it | evidently intended | confidence | as-written member | corrected member |
|---|---|---|---|---|---|---|
| Milkomeda/src/main/java/com/github/yizzuide/milkomeda/ice/RedisDelayBucket.java:115-116 | `index.getAndIncrement() % DEFAULT_MAX_BUCKET_SIZE` and then `% getDelayBucketCount()`, with Java's `%`, which keeps the dividend's sign. The shared counter is a Java `int` that wraps to `Integer.MIN_VALUE`. | After 2^31 adds from 0 the counter reads `Integer.MIN_VALUE`. With 5 buckets, `-2147483648 % 100 = -48` and `-48 % 5 = -3`, so `bucketNames.get(-3)` throws and the add fails. Adds keep failing for most counter values until the counter returns to 0. | A valid bucket index for every counter value, for example with `Math.floorMod`. | high (not executed) | `RoundRobin.SlotAsWrittenAfterWrap` (on `RoundRobin.SlotAsWritten`) | `RoundRobin.Slot` (used by `Ice.RedisDelayBucket.GetCurrentBucketName`) |

## Left out

- `afterPropertiesSet` and `getBucket` look up the Redis template through the Spring context. The object holds the store directly instead.
- Network I/O to Redis is not modelled. The store is a value, and connection failures and timeouts are not modelled.
- Concurrency is not modelled: operations run one at a time. This leaves out the `AtomicInteger`'s atomicity. It also leaves out the window in `onApplicationEvent` where a concurrent add or poll sees a cleared or half-filled name list.
- The counter is `static` in the source, so all instances in one JVM share it. The model gives each object its own counter, starting at 0.
- Scores are integers. The conversion of the delay time to a `double` score, and any loss of precision in it, is not modelled.
- Redis orders members with equal scores by member. The model's poll returns some member of minimum score.
- The `getValue() == null` branch of `poll` is not modelled: a member in the model is never null.
- Null instance names, null jobs and null lists are not modelled.
- A batch containing the same member twice with different scores is collected into a `HashSet`, whose iteration order decides which score Redis keeps. The model applies the entries in list order.
- An empty batch is treated as leaving the store unchanged. How the Redis client reacts to a ZADD with no members is not modelled.
- `Ice.RedisDelayBucket.Poll` and `Ice.RedisDelayBucket.Remove`: an index out of range throws `IndexOutOfBoundsException` in the source. The model makes that a precondition, because the caller is expected to poll only indexes below the bucket count.
- ParticleConfig.java and WebContext.java are Spring wiring and servlet accessors. They are not part of this model.
