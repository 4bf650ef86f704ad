# The MapReduce shuffle, modelled in Dafny

This project models the shuffle step of a small MapReduce library: the
map-side partitioner `doMap` with its key hash `ihash`
(`src/mapreduce/common_map.go`), and the reduce-side merger `doReduce`
(`src/mapreduce/common_reduce.go`).

- **doMap** reads one input file and calls the user's `mapF` once on its name
  and contents. For every shard index `i` in `0 .. nReduce-1` it creates the
  file `reduceName(jobName, mapTask, i)` and writes into it, in `mapF`'s order,
  every record whose key satisfies `ihash(key) % uint32(nReduce) == uint32(i)`.
- **ihash** is 32-bit FNV-1a over the key's bytes.
- **doReduce** reads the shards `reduceName(jobName, m, r)` for `m = 0 .. nMap-1`
  in that order. It decodes each shard until the first decode error and groups
  the values by key in a dictionary. It then lists the keys in the dictionary's
  (arbitrary) iteration order, sorts them with `sort.Strings`, and writes one
  record `(k, reduceF(k, values))` per key to `mergeName(jobName, r)`.

Modules and files:

- `common.dfy` (module `Common`) holds the shared values:
  - `KeyValue`;
  - file names: `ReduceName` and `MergeName` build distinct constructors, so
    they are injective;
  - the `Disk`, which is the file system as a value;
  - a stream of JSON entries, which are either a record or malformed input;
  - the fatal errors, and a `Result` type.
- `go_strings.dfy` (module `GoStrings`) holds:
  - Go's byte-wise string order;
  - `sort.Strings` as an in-place sort of an array;
  - the ascending key list of a set.
- `common_map.dfy` (module `CommonMap`) holds:
  - `ihash` as an FNV-1a fold over `bv32`;
  - Go's `uint32(...)` conversion and the `%` of line 56;
  - the shard filter;
  - the specification function `MapTask`;
  - the imperative `DoMap`, which is proved equal to `MapTask`.
- `common_reduce.dfy` (module `CommonReduce`) holds:
  - grouping (`Group`, `ValuesOf`);
  - reading the shards (`Gather`);
  - the specification function `ReduceTask`;
  - the imperative `DoReduce` and its parts (`ReadShard`, `CollectKeys`,
    `SortedKeysOf`, `EncodeMerged`), which are proved equal to `ReduceTask`.
- `shuffle.dfy` (module `Shuffle`) runs map tasks `0 .. M-1` one after
  another on the same disk, then runs reduce task `r`. `ShuffleEndToEnd`
  states the end-to-end guarantee. Reduce task `r` emits exactly one record
  for each key that is routed to `r` and that some map task emitted, and no
  others. The records are in strictly ascending key order. Each record holds
  `reduceF` of all that key's values, in map-task order and then in emission
  order.

Modelling choices:

- **Strings.** Go strings are byte sequences (`seq<bv8>`): `ihash` hashes
  bytes and `sort.Strings` compares bytes.
- **Failures.** Every `log.Fatal`, and the integer-division panic of line 56,
  becomes a `Failure` carrying the failing file or record where there is
  one. Failures are:
  - an unreadable input (`OpenInput`);
  - a shard that cannot be created (`CreateShard`);
  - `uint32(nReduce) == 0` while `mapF` returned records (`DivideByZero`);
  - a record that cannot be written (`EncodeRecord`);
  - a missing shard on the reduce side (`OpenShard`);
  - a merged file that cannot be created (`CreateMerged`).
- **The file system** is the `Disk` value. A file can be marked as one that
  cannot be created, or as one that cannot be written to once created.
- **Integer width.** `nReduce` is converted with Go's `uint32(...)`. The model
  writes this conversion out (`Uint32`), so an `nReduce` of 2^32 or more wraps
  exactly as the code does:
  - with `uint32(nReduce) == 0` and at least one record, the map task fails with
    `DivideByZero`;
  - with a wrapped but non-zero divisor, `WrappedShardCountDuplicates` shows
    that the same record goes to more than one shard.

  The partition lemmas are therefore stated for `0 < nReduce < 2^32`.
  `MapPhaseWrites`, `GatherRouted` and `GatherAfterMap` carry the same bound
  only so that they compose into `ShuffleEndToEnd`. Their statements would
  also hold under a wrapped non-zero divisor, because a successful map task
  implies that its records can be routed.

Three behaviours of the code a reader might not expect:

- A decode error in a shard ends reading that shard as end-of-file would
  (`common_reduce.go:45-46`). It does not abort the reduce task. The records decoded
  before it are kept (`DecodeStopsAtMalformed`).
- The error from encoding a merged record is ignored (`common_reduce.go:71`).
  A merged file that cannot be written is left empty, and the reduce task
  still succeeds.
- `nReduce <= 0` is accepted. The shard loop then does not run and nothing is
  created (`MapTaskNoShards`).

## Model

| member | source | states |
|---|---|---|
| CommonMap.DoMap | src/mapreduce/common_map.go:13-66 | the imperative doMap (the outer loop over shards, the inner loop over records) returns exactly the disk or failure that `MapTask` specifies |
| CommonMap.EncodeShard | src/mapreduce/common_map.go:52-63 | the inner loop succeeds iff the divisor `uint32(nReduce)` is non-zero or `res` is empty, and the file can take the shard's records. It then produces the encoding of exactly the routed records in `res` order. Otherwise it fails with `DivideByZero`, or with `EncodeRecord` on the first routed record |
| CommonMap.IhashIsFnv1a | src/mapreduce/common_map.go:68-72 | the streaming hash (h.Write over the key bytes from the offset basis) equals the published FNV-1a recurrence, so ihash is a deterministic function of the key bytes |
| CommonMap.FnvWriteChunks | src/mapreduce/common_map.go:70 | hashing s then t continues from the state left by s: writing in pieces equals writing the concatenation |
| CommonMap.IhashSamples | src/mapreduce/common_map.go:68-72 | ihash gives the published FNV-1a 32-bit values for "", "a" and "foobar" |
| CommonMap.Uint32 | src/mapreduce/common_map.go:56 | Go's uint32 conversion lies below 2^32 and is the identity on 0 .. 2^32-1 |
| CommonMap.Remainder | src/mapreduce/common_map.go:56 | the remainder by repeated subtraction used for routing equals the `%` of unsigned integers |
| CommonMap.BucketIsRemainder | src/mapreduce/common_map.go:56 | the shard index of a key is `ihash(key) % uint32(nReduce)` |
| CommonMap.RoutesBelow | src/mapreduce/common_map.go:56 | for 0 <= i < nReduce < 2^32 both conversions are the identity, and the test of line 56 holds exactly when the key's bucket is i |
| CommonMap.RoutedToOne | src/mapreduce/common_map.go:53-62 | for 0 < nReduce < 2^32 every key is routed to one index in 0 .. nReduce-1 and to no other |
| CommonMap.ShardMembers | src/mapreduce/common_map.go:53-62 | a record is in shard i iff it is in `res` and its key passes the test of line 56 for i |
| CommonMap.ShardAppend | src/mapreduce/common_map.go:53-58 | the shard of a concatenation is the concatenation of the shards: mapF's relative order is kept |
| CommonMap.ShardSnoc | src/mapreduce/common_map.go:53-62 | one more record extends shard i by that record iff its key routes to i, and leaves it unchanged otherwise |
| CommonMap.ShardUnionSnoc | src/mapreduce/common_map.go:45-63 | one more record adds one copy to the union of shards 0 .. count-1 iff its bucket is below count |
| CommonMap.ShardsPartition | src/mapreduce/common_map.go:45-63 | the multiset union of shards 0 .. nReduce-1 equals the multiset of `res`: no record is lost or duplicated |
| CommonMap.ShardSizesOfUnion | src/mapreduce/common_map.go:45-63 | the summed sizes of shards 0 .. count-1 are the size of their multiset union |
| CommonMap.ShardSizesTotal | src/mapreduce/common_map.go:45-63 | the shard sizes add up to `len(res)` |
| CommonMap.WrappedShardCountDuplicates | src/mapreduce/common_map.go:56 | with nReduce = 2^32+1 the divisor wraps to 1, and shards 0 and 2^32 both receive every record |
| CommonMap.MapTaskUsesOneCall | src/mapreduce/common_map.go:41 | mapF is used once, on inFile and its contents: two map functions that agree on that call give the same task result |
| CommonMap.ShardFilesSnoc | src/mapreduce/common_map.go:45-65 | the files of shards 0 .. count-1 are those of 0 .. count-2 plus shard count-1 with its encoded records |
| CommonMap.ShardFilesKeys | src/mapreduce/common_map.go:45-46 | the files written are exactly the map task's own shard names 0 .. count-1, and each holds its shard's encoding |
| CommonMap.WriteShardOutcome | src/mapreduce/common_map.go:46-64 | one shard is written iff routing is defined and its file can be created and, if it has records, written. It then holds exactly the shard's encoding |
| CommonMap.WriteShardsStep | src/mapreduce/common_map.go:45-65 | after shards 0 .. count-2 are written, writing shard count-1 succeeds iff that shard's file can be created (and written, if it has records) and, if mapF returned records, `uint32(nReduce) != 0`. It then adds exactly that file |
| CommonMap.WriteShardsOutcome | src/mapreduce/common_map.go:45-65 | the shard loop (with count > 0) succeeds iff every shard file 0 .. count-1 can be created (and written, if it has records) and, if mapF returned records, `uint32(nReduce) != 0`. It then adds exactly those files to the disk, and leaves all else as it was |
| CommonMap.WriteShardsStops | src/mapreduce/common_map.go:49-61 | once a shard fails, the map task's result is that first failure |
| CommonMap.ShardFails | src/mapreduce/common_map.go:48-61 | a failure at shard i is the whole task's failure |
| CommonMap.ShardWritten | src/mapreduce/common_map.go:46-64 | writing shard i after shards 0 .. i-1 stores its encoding under its own name |
| CommonMap.MapTaskOutcome | src/mapreduce/common_map.go:25-65 | doMap succeeds iff the input can be read, every shard file 0 .. nReduce-1 can be created (and written, if it has records) and, if nReduce > 0 and mapF returned records, `uint32(nReduce) != 0`. The new disk is the old one plus exactly the nReduce shard files |
| CommonMap.MapTaskWrites | src/mapreduce/common_map.go:45-65 | on success, every shard i < nReduce is created, even an empty one, and holds exactly the encoded records of `res` routed to i, in `res` order. No other file changes |
| CommonMap.MapTaskNoShards | src/mapreduce/common_map.go:45 | with nReduce <= 0 and a readable input, nothing is created and no division happens |
| Common.DecodeEncode | src/mapreduce/common_reduce.go:41-53 | decoding the stream a map task wrote gives back exactly its records |
| Common.DecodeStopsAtMalformed | src/mapreduce/common_reduce.go:42-47 | decoding stops at the first malformed entry and keeps the records before it, whatever follows |
| Common.EncodeAllSnoc | src/mapreduce/common_map.go:58 | encoding one more record appends one entry to the stream |
| CommonReduce.DoReduce | src/mapreduce/common_reduce.go:14-74 | the imperative doReduce (read loop, key collection, sort, emit loop) returns exactly the disk or failure that `ReduceTask` specifies |
| CommonReduce.ReadShard | src/mapreduce/common_reduce.go:41-53 | the decode loop turns the dictionary for the records seen so far into the dictionary for those records followed by the shard's decoded records |
| CommonReduce.GroupSnoc | src/mapreduce/common_reduce.go:48-52 | one record appends its value to its key's list, starting a new list when the key is new |
| CommonReduce.GroupComplete | src/mapreduce/common_reduce.go:48-52 | a key is in the dictionary iff some record has it, and its list is exactly that key's values in record order, never empty |
| CommonReduce.ValuesOfAppend | src/mapreduce/common_reduce.go:33-53 | a key's values over two record sequences read in turn are the values from the first followed by those from the second |
| CommonReduce.ValuesOfEmpty | src/mapreduce/common_reduce.go:48-52 | a key has no values iff no record carries it |
| CommonReduce.GatherStep | src/mapreduce/common_reduce.go:33-53 | reading shard i fails with `OpenShard` on that name if it is missing, and otherwise appends its decoded records |
| CommonReduce.GatherOutcome | src/mapreduce/common_reduce.go:33-39 | the reads succeed iff shards 0 .. nMap-1 all exist. On failure, the error names the first missing shard |
| CommonReduce.GatherStops | src/mapreduce/common_reduce.go:36-39 | once a shard is missing, later shards do not change the outcome |
| CommonReduce.CollectKeys | src/mapreduce/common_reduce.go:58-62 | the key loop lists every key of the dictionary exactly once, in any iteration order |
| CommonReduce.SortedKeysOf | src/mapreduce/common_reduce.go:58-63 | collecting then sorting gives the one strictly ascending list of the dictionary's keys, whatever the iteration order |
| CommonReduce.EncodeMerged | src/mapreduce/common_reduce.go:68-72 | the emit loop writes `(k, reduceF(k, keyValues[k]))` for each sorted key in order, or nothing when the file cannot be written |
| CommonReduce.ReduceAllSpec | src/mapreduce/common_reduce.go:69-72 | record j of the output is `(keys[j], reduceF(keys[j], keyValues[keys[j]]))`, one per key |
| CommonReduce.Merged | src/mapreduce/common_reduce.go:58-72 | the merged records have one record per dictionary key, in strictly ascending key order, each carrying reduceF of that key's list |
| CommonReduce.ReduceTaskOutcome | src/mapreduce/common_reduce.go:32-73 | doReduce succeeds iff all nMap shards exist and the merged file can be created. Only the merged file changes, and it is always created |
| CommonReduce.ReduceTaskMissingShard | src/mapreduce/common_reduce.go:36-39 | a missing shard aborts with `OpenShard` on the first missing name, before the merged file is created |
| CommonReduce.MergedRecords | src/mapreduce/common_reduce.go:58-72 | the merged file holds one record per distinct key read, in strictly ascending key order. Each record carries reduceF of all that key's values in read order |
| CommonReduce.ReduceTaskNoRecords | src/mapreduce/common_reduce.go:32-73 | with nothing to read, the merged file is still created and is empty |
| GoStrings.LessTransitive | src/mapreduce/common_reduce.go:63 | Go's byte-wise string order is transitive |
| GoStrings.LessTotal | src/mapreduce/common_reduce.go:63 | any two different strings are ordered one way or the other |
| GoStrings.LessAsymmetric | src/mapreduce/common_reduce.go:63 | two strings are never each below the other |
| GoStrings.SortStrings | src/mapreduce/common_reduce.go:63 | sort.Strings leaves the slice ascending and a permutation of what it held |
| GoStrings.Insert | src/mapreduce/common_reduce.go:63 | one insertion step extends the sorted prefix by one, permutes the array and leaves the elements after i in place |
| GoStrings.SortedKeys | src/mapreduce/common_reduce.go:58-63 | the ascending key list of a set holds each member once, in strictly ascending order |
| GoStrings.AscendingUnique | src/mapreduce/common_reduce.go:58-63 | two strictly ascending lists with the same members are equal, so the sorted key order does not depend on iteration order |
| GoStrings.DistinctPermutation | src/mapreduce/common_reduce.go:63 | sorting a list without repeats leaves it without repeats |
| GoStrings.SortedIsSortedKeys | src/mapreduce/common_reduce.go:58-63 | a sorted permutation of a repeat-free key list is the ascending key list of the set |
| Shuffle.MapPhaseWrites | src/mapreduce/common_map.go:45-65 | after map tasks 0 .. M-1 succeed, shard (m, i) holds map task m's records routed to i, for all m < M and i < nReduce. Merged files keep both their presence and their contents |
| Shuffle.MapPhaseStep | src/mapreduce/common_map.go:45-65 | one more map task keeps the shards of earlier tasks and adds its own |
| Shuffle.GatherRouted | src/mapreduce/common_reduce.go:33-53 | when the shards hold what the map tasks routed, reduce task r reads exactly that, map task by map task |
| Shuffle.GatherAfterMap | src/mapreduce/common_reduce.go:33-53 | after the map phase, reduce task r reads exactly the records routed to r, in map-task order |
| Shuffle.ValuesOfShard | src/mapreduce/common_map.go:53-62 | a shard holds all of a key's values in order when the key routes there, and none otherwise |
| Shuffle.ValuesOfRouted | src/mapreduce/common_reduce.go:33-53 | the records read by task r hold, for a key routed to r, all its values from all map tasks in map-task order, and none for other keys |
| Shuffle.RoutedKey | src/mapreduce/common_reduce.go:48-52 | a key is in what task r reads iff it routes to r and some map task emitted it |
| Shuffle.ReduceRouted | src/mapreduce/common_reduce.go:58-72 | reducing what was routed to r gives one record per such key, ascending, with reduceF of all its values |
| Shuffle.ShuffleEndToEnd | src/mapreduce/common_reduce.go:14-74 | after map tasks 0 .. M-1, reduce task r succeeds. It emits exactly the keys routed to r that some map task emitted, in strictly ascending order, each with reduceF of all its values in map-task then emission order |

## Left out

- **Real file I/O.** `os.Open`, `Stat`, `Read`, `Create` and `Close` are
  replaced by the `Disk` value.
  - Open, Stat and Read of the input collapse into "the input is missing".
  - The unchecked short `file.Read` at `common_map.go:36` is not modelled: the
    whole file is read.
  - Closing files is not modelled.
- **JSON.** JSON encoding and decoding are modelled as an exact round trip on
  `KeyValue`, and a corrupt stream as a malformed entry. The encoder's byte
  format is not modelled.
  - `encoding/json` replaces invalid UTF-8 in strings with U+FFFD. So the round
    trip, and with it `DecodeEncode` and `ShuffleEndToEnd`, describe the
    program only for keys and values that are valid UTF-8.
  - With an invalid key, the reduce side would see a key no map task emitted,
    and that key may hash to another reduce task.
- **Failures.** `log.Fatal` ends the process. Here it is a `Failure` result.
  - The files written before the failure are not part of that result.
- **Integer width.** Go's `int` is 64 bits; the model's integers are
  unbounded. Only the `uint32` conversions of line 56 are written out.
- **Concurrency.** Scheduling, the barrier between the phases, and parallel
  tasks are not modelled. `Shuffle` composes the tasks one after another.
- **Callbacks and names.** `reduceName` and `mergeName` are defined outside
  these files; they are modelled as distinct constructors. `mapF` and
  `reduceF` are total function parameters.
- **Commented-out code.** The sketch at `common_reduce.go:20-24` and the
  debug prints are not modelled.
- SortStrings: an insertion sort stands in for the library's algorithm. Its
  contract is the one `sort.Strings` promises: ascending order and a
  permutation.
- DoMap: writes each shard's stream to the disk in one update once the inner
  loop is done. The code writes record by record. On a failure the partial
  file is not returned, so the two are not distinguishable.
- EncodeMerged: an enc.Encode error on the merged file is modelled only as a
  file that takes no records at all. A failure part-way through a file is not
  modelled.
- ShardsPartition: stated for 0 < nReduce < 2^32 only. Above that the
  conversion wraps, and WrappedShardCountDuplicates shows that records are
  then duplicated.
- ShardSizesTotal: stated for 0 < nReduce < 2^32 only, for the same reason.
- ShuffleEndToEnd: stated for 0 < nReduce < 2^32 and a merged file that can be
  created and written.
