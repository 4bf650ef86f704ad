/**
 * The two halves of the shuffle put together: map tasks 0 .. M-1 run
 * doMap one after another on the same file system, then a reduce task
 * runs doReduce on what they left behind.  The scheduling of tasks lies
 * outside common_map.go and common_reduce.go; only the sequential
 * composition is modelled.
 */
module Shuffle {
  import opened Common
  import opened GoStrings
  import opened CommonMap
  import opened CommonReduce

  /** Map tasks 0 .. count-1 of the job, task m reading inFiles[m], stopping at the first failure. */
  function MapPhase(d: Disk, jobName: GoString, inFiles: seq<GoString>, nReduce: int,
                    mapF: (GoString, GoString) -> seq<KeyValue>, count: nat): Result<Disk>
    requires count <= |inFiles|
  {
    if count == 0 then Success(d)
    else match MapPhase(d, jobName, inFiles, nReduce, mapF, count - 1)
      case Failure(e) => Failure(e)
      case Success(d') => MapTask(d', jobName, count - 1, inFiles[count - 1], nReduce, mapF)
  }

  /** The records map task m emits: mapF on its input file's name and contents. */
  function MapOutput(d: Disk, inFiles: seq<GoString>, mapF: (GoString, GoString) -> seq<KeyValue>, m: int): seq<KeyValue>
    requires 0 <= m < |inFiles| && inFiles[m] in d.inputs
  {
    mapF(inFiles[m], d.inputs[inFiles[m]])
  }

  /** Every input file of map tasks 0 .. count-1 can be read. */
  predicate InputsReadable(d: Disk, inFiles: seq<GoString>, count: int)
    requires count <= |inFiles|
  {
    forall m :: 0 <= m < count ==> inFiles[m] in d.inputs
  }

  /**
   * What map tasks 0 .. count-1 leave behind, starting from d: the inputs
   * and file settings as before, merged files untouched, and shard (m, i)
   * holding the records of map task m routed to i, for every m < count
   * and i < nReduce.
   */
  ghost predicate ShardsWritten(d: Disk, d': Disk, jobName: GoString, inFiles: seq<GoString>, nReduce: int,
                                mapF: (GoString, GoString) -> seq<KeyValue>, count: nat)
    requires 0 < nReduce < TWO_TO_32 && count <= |inFiles| && InputsReadable(d, inFiles, count)
  {
    d'.inputs == d.inputs && d'.uncreatable == d.uncreatable && d'.unwritable == d.unwritable
    && (forall r :: MergeName(jobName, r) in d'.streams <==> MergeName(jobName, r) in d.streams)
    && (forall r :: MergeName(jobName, r) in d.streams ==>
          d'.streams[MergeName(jobName, r)] == d.streams[MergeName(jobName, r)])
    && (forall m, i :: 0 <= m < count && 0 <= i < nReduce ==>
          ReduceName(jobName, m, i) in d'.streams
          && d'.streams[ReduceName(jobName, m, i)] == EncodeAll(Shard(MapOutput(d, inFiles, mapF, m), nReduce, i)))
  }

  /** After map tasks 0 .. count-1 succeed, every input was read and the shards are as ShardsWritten says. */
  lemma {:induction false} MapPhaseWrites(d: Disk, jobName: GoString, inFiles: seq<GoString>, nReduce: int,
                                          mapF: (GoString, GoString) -> seq<KeyValue>, count: nat)
    requires 0 < nReduce < TWO_TO_32 && count <= |inFiles|
    requires MapPhase(d, jobName, inFiles, nReduce, mapF, count).Success?
    ensures InputsReadable(d, inFiles, count)
    ensures ShardsWritten(d, MapPhase(d, jobName, inFiles, nReduce, mapF, count).value, jobName, inFiles, nReduce, mapF, count)
    decreases count
  {
    if count > 0 {
      MapPhaseWrites(d, jobName, inFiles, nReduce, mapF, count - 1);
      var prev := MapPhase(d, jobName, inFiles, nReduce, mapF, count - 1).value;
      MapTaskWrites(prev, jobName, count - 1, inFiles[count - 1], nReduce, mapF);
      var d' := MapTask(prev, jobName, count - 1, inFiles[count - 1], nReduce, mapF).value;
      MapPhaseStep(d, prev, d', jobName, inFiles, nReduce, mapF, count - 1);
    }
  }

  /** Map task t after tasks 0 .. t-1, in terms of what MapTaskWrites promises about it. */
  lemma MapPhaseStep(d: Disk, prev: Disk, d': Disk, jobName: GoString, inFiles: seq<GoString>, nReduce: int,
                     mapF: (GoString, GoString) -> seq<KeyValue>, t: nat)
    requires 0 < nReduce < TWO_TO_32 && t < |inFiles| && InputsReadable(d, inFiles, t)
    requires ShardsWritten(d, prev, jobName, inFiles, nReduce, mapF, t)
    requires inFiles[t] in prev.inputs
    requires d'.inputs == prev.inputs && d'.uncreatable == prev.uncreatable && d'.unwritable == prev.unwritable
    requires forall i :: 0 <= i < nReduce ==>
      ReduceName(jobName, t, i) in d'.streams
      && d'.streams[ReduceName(jobName, t, i)] == EncodeAll(Shard(mapF(inFiles[t], prev.inputs[inFiles[t]]), nReduce, i))
    requires forall name :: !OwnShard(name, jobName, t, nReduce) ==>
      (name in d'.streams <==> name in prev.streams)
      && (name in prev.streams ==> d'.streams[name] == prev.streams[name])
    ensures InputsReadable(d, inFiles, t + 1)
    ensures ShardsWritten(d, d', jobName, inFiles, nReduce, mapF, t + 1)
  {
    forall m, i | 0 <= m <= t && 0 <= i < nReduce
      ensures ReduceName(jobName, m, i) in d'.streams
      ensures d'.streams[ReduceName(jobName, m, i)] == EncodeAll(Shard(MapOutput(d, inFiles, mapF, m), nReduce, i))
    {
      if m < t {
        assert !OwnShard(ReduceName(jobName, m, i), jobName, t, nReduce);
      }
    }
    forall r
      ensures MergeName(jobName, r) in d'.streams <==> MergeName(jobName, r) in d.streams
      ensures MergeName(jobName, r) in d.streams ==>
        d'.streams[MergeName(jobName, r)] == d.streams[MergeName(jobName, r)]
    {
      assert !OwnShard(MergeName(jobName, r), jobName, t, nReduce);
    }
  }

  /** The shards addressed to reduce task r by map tasks 0 .. count-1, in map-task order. */
  function Routed(d: Disk, inFiles: seq<GoString>, mapF: (GoString, GoString) -> seq<KeyValue>,
                  nReduce: int, r: int, count: nat): seq<KeyValue>
    requires 0 < nReduce < TWO_TO_32 && count <= |inFiles| && InputsReadable(d, inFiles, count)
  {
    if count == 0 then []
    else Routed(d, inFiles, mapF, nReduce, r, count - 1) + Shard(MapOutput(d, inFiles, mapF, count - 1), nReduce, r)
  }

  /** Reduce task r reads back exactly the records routed to it, map task by map task. */
  lemma {:induction false} GatherRouted(d: Disk, d': Disk, jobName: GoString, inFiles: seq<GoString>, nReduce: int,
                                        mapF: (GoString, GoString) -> seq<KeyValue>, r: int, count: nat)
    requires 0 <= r < nReduce < TWO_TO_32 && count <= |inFiles| && InputsReadable(d, inFiles, count)
    requires forall m :: 0 <= m < count ==>
      ReduceName(jobName, m, r) in d'.streams
      && d'.streams[ReduceName(jobName, m, r)] == EncodeAll(Shard(MapOutput(d, inFiles, mapF, m), nReduce, r))
    ensures Gather(d', jobName, r, count) == Success(Routed(d, inFiles, mapF, nReduce, r, count))
    decreases count
  {
    if count > 0 {
      GatherRouted(d, d', jobName, inFiles, nReduce, mapF, r, count - 1);
      DecodeEncode(Shard(MapOutput(d, inFiles, mapF, count - 1), nReduce, r));
    }
  }

  /** After the map phase, reduce task r reads what the map tasks routed to it, and its merged file can be written. */
  lemma GatherAfterMap(d: Disk, jobName: GoString, inFiles: seq<GoString>, nReduce: int,
                       mapF: (GoString, GoString) -> seq<KeyValue>, r: int)
    requires 0 <= r < nReduce < TWO_TO_32
    requires MapPhase(d, jobName, inFiles, nReduce, mapF, |inFiles|).Success?
    ensures InputsReadable(d, inFiles, |inFiles|)
    ensures
      var d' := MapPhase(d, jobName, inFiles, nReduce, mapF, |inFiles|).value;
      d'.uncreatable == d.uncreatable && d'.unwritable == d.unwritable
      && Gather(d', jobName, r, |inFiles|) == Success(Routed(d, inFiles, mapF, nReduce, r, |inFiles|))
  {
    MapPhaseWrites(d, jobName, inFiles, nReduce, mapF, |inFiles|);
    var d' := MapPhase(d, jobName, inFiles, nReduce, mapF, |inFiles|).value;
    GatherRouted(d, d', jobName, inFiles, nReduce, mapF, r, |inFiles|);
  }

  /** The values of key k over the outputs of map tasks 0 .. count-1, in map-task then emission order. */
  function AllValues(d: Disk, inFiles: seq<GoString>, mapF: (GoString, GoString) -> seq<KeyValue>,
                     k: GoString, count: nat): seq<GoString>
    requires count <= |inFiles| && InputsReadable(d, inFiles, count)
  {
    if count == 0 then []
    else AllValues(d, inFiles, mapF, k, count - 1) + ValuesOf(MapOutput(d, inFiles, mapF, count - 1), k)
  }

  /** A shard holds all of a key's values when the key is routed there, and none otherwise. */
  lemma {:induction false} ValuesOfShard(res: seq<KeyValue>, nReduce: int, r: int, k: GoString)
    requires 0 <= r < nReduce < TWO_TO_32
    ensures ValuesOf(Shard(res, nReduce, r), k) == if Bucket(k, nReduce) == r then ValuesOf(res, k) else []
    decreases |res|
  {
    if res != [] {
      var init, last := res[..|res| - 1], res[|res| - 1];
      ValuesOfShard(init, nReduce, r, k);
      RoutesBelow(last.Key, nReduce, r);
      var routedLast: seq<KeyValue> := if Routes(last.Key, nReduce, r) then [last] else [];
      ValuesOfAppend(Shard(init, nReduce, r), routedLast, k);
      assert ValuesOf(routedLast, k) == if last.Key == k && Routes(last.Key, nReduce, r) then [last.Value] else [];
    }
  }

  /** What reduce task r reads holds, for each key routed to r, all of its values, and nothing of other keys. */
  lemma {:induction false} ValuesOfRouted(d: Disk, inFiles: seq<GoString>, mapF: (GoString, GoString) -> seq<KeyValue>,
                                          nReduce: int, r: int, k: GoString, count: nat)
    requires 0 <= r < nReduce < TWO_TO_32 && count <= |inFiles| && InputsReadable(d, inFiles, count)
    ensures ValuesOf(Routed(d, inFiles, mapF, nReduce, r, count), k)
         == if Bucket(k, nReduce) == r then AllValues(d, inFiles, mapF, k, count) else []
    decreases count
  {
    if count > 0 {
      ValuesOfRouted(d, inFiles, mapF, nReduce, r, k, count - 1);
      var shard := Shard(MapOutput(d, inFiles, mapF, count - 1), nReduce, r);
      ValuesOfAppend(Routed(d, inFiles, mapF, nReduce, r, count - 1), shard, k);
      ValuesOfShard(MapOutput(d, inFiles, mapF, count - 1), nReduce, r, k);
    }
  }

  /**
   * What reduce task r must emit after map tasks 0 .. M-1: one record per
   * key that is routed to r and that some map task emitted, and no other,
   * in strictly ascending key order, each carrying reduceF of all of that
   * key's values in map-task order and, within a map task, in emission order.
   */
  ghost predicate ShuffledOutput(out: seq<KeyValue>, d: Disk, inFiles: seq<GoString>,
                                 mapF: (GoString, GoString) -> seq<KeyValue>, nReduce: int,
                                 reduceF: (GoString, seq<GoString>) -> GoString, r: int)
    requires 0 < nReduce < TWO_TO_32 && InputsReadable(d, inFiles, |inFiles|)
  {
      (forall p, q :: 0 <= p < q < |out| ==> Less(out[p].Key, out[q].Key))
      && (forall k :: (exists j :: 0 <= j < |out| && out[j].Key == k)
                      <==> Bucket(k, nReduce) == r && AllValues(d, inFiles, mapF, k, |inFiles|) != [])
      && (forall j :: 0 <= j < |out| ==>
            out[j].Value == reduceF(out[j].Key, AllValues(d, inFiles, mapF, out[j].Key, |inFiles|)))
  }

  /**
   * Reducing what the map tasks routed to r: one record per key routed to r
   * that some map task emitted, ascending, carrying reduceF of all of its
   * values in map-task order.
   */
  lemma ReduceRouted(d: Disk, d': Disk, jobName: GoString, inFiles: seq<GoString>, nReduce: int,
                     mapF: (GoString, GoString) -> seq<KeyValue>,
                     reduceF: (GoString, seq<GoString>) -> GoString, r: int)
    requires 0 <= r < nReduce < TWO_TO_32 && InputsReadable(d, inFiles, |inFiles|)
    requires Gather(d', jobName, r, |inFiles|) == Success(Routed(d, inFiles, mapF, nReduce, r, |inFiles|))
    requires MergeName(jobName, r) !in d'.uncreatable && MergeName(jobName, r) !in d'.unwritable
    ensures ReduceTask(d', jobName, r, |inFiles|, reduceF).Success?
    ensures
      var out := MergedOutput(d', jobName, r, |inFiles|, reduceF);
      ShuffledOutput(out, d, inFiles, mapF, nReduce, reduceF, r)
  {
    var n := |inFiles|;
    var kvs := Routed(d, inFiles, mapF, nReduce, r, n);
    RoutesBelow([], nReduce, r);
    MergedRecords(d', jobName, r, n, reduceF);
    var out := MergedOutput(d', jobName, r, n, reduceF);
    assert forall k :: k in KeysOf(kvs) <==> exists j :: 0 <= j < |out| && out[j].Key == k;
    forall k
      ensures (exists j :: 0 <= j < |out| && out[j].Key == k)
              <==> Bucket(k, nReduce) == r && AllValues(d, inFiles, mapF, k, n) != []
    {
      RoutedKey(d, inFiles, mapF, nReduce, r, k);
      assert k in KeysOf(kvs) <==> Bucket(k, nReduce) == r && AllValues(d, inFiles, mapF, k, n) != [];
    }
    forall j | 0 <= j < |out|
      ensures out[j].Value == reduceF(out[j].Key, AllValues(d, inFiles, mapF, out[j].Key, n))
    {
      RoutedKey(d, inFiles, mapF, nReduce, r, out[j].Key);
    }
  }

  /** A key occurs in what reduce task r reads exactly when it is routed to r and some map task emitted it. */
  lemma RoutedKey(d: Disk, inFiles: seq<GoString>, mapF: (GoString, GoString) -> seq<KeyValue>,
                  nReduce: int, r: int, k: GoString)
    requires 0 <= r < nReduce < TWO_TO_32 && InputsReadable(d, inFiles, |inFiles|)
    ensures
      var kvs := Routed(d, inFiles, mapF, nReduce, r, |inFiles|);
      (k in KeysOf(kvs) <==> Bucket(k, nReduce) == r && AllValues(d, inFiles, mapF, k, |inFiles|) != [])
      && (k in KeysOf(kvs) ==> ValuesOf(kvs, k) == AllValues(d, inFiles, mapF, k, |inFiles|))
  {
    var kvs := Routed(d, inFiles, mapF, nReduce, r, |inFiles|);
    ValuesOfEmpty(kvs, k);
    ValuesOfRouted(d, inFiles, mapF, nReduce, r, k, |inFiles|);
  }

  /**
   * The shuffle end to end: after map tasks 0 .. M-1 succeed, reduce task r
   * completes and its merged file holds, in strictly ascending key order,
   * one record for each key that is routed to r and that some map task
   * emitted, and no other; the record's value is reduceF of all that key's
   * values, in map-task order and, within a map task, in emission order.
   */
  lemma ShuffleEndToEnd(d: Disk, jobName: GoString, inFiles: seq<GoString>, nReduce: int,
                        mapF: (GoString, GoString) -> seq<KeyValue>,
                        reduceF: (GoString, seq<GoString>) -> GoString, r: int)
    requires 0 <= r < nReduce < TWO_TO_32
    requires MapPhase(d, jobName, inFiles, nReduce, mapF, |inFiles|).Success?
    requires MergeName(jobName, r) !in d.uncreatable && MergeName(jobName, r) !in d.unwritable
    ensures InputsReadable(d, inFiles, |inFiles|)
    ensures
      var d' := MapPhase(d, jobName, inFiles, nReduce, mapF, |inFiles|).value;
      ReduceTask(d', jobName, r, |inFiles|, reduceF).Success?
      && var out := MergedOutput(d', jobName, r, |inFiles|, reduceF);
      ShuffledOutput(out, d, inFiles, mapF, nReduce, reduceF, r)
  {
    GatherAfterMap(d, jobName, inFiles, nReduce, mapF, r);
    var d' := MapPhase(d, jobName, inFiles, nReduce, mapF, |inFiles|).value;
    ReduceRouted(d, d', jobName, inFiles, nReduce, mapF, reduceF, r);
  }
}
