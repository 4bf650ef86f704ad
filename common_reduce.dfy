/**
 * The reduce side of the shuffle (common_reduce.go): doReduce reads the
 * shards addressed to one reduce task, groups their values by key, sorts
 * the distinct keys and writes one reduced record per key.
 */
module CommonReduce {
  import opened Common
  import opened GoStrings

  /** The values of the records with key k, in the order of the records. */
  function ValuesOf(kvs: seq<KeyValue>, k: GoString): seq<GoString>
    decreases |kvs|
  {
    if kvs == [] then []
    else
      var last := kvs[|kvs| - 1];
      ValuesOf(kvs[..|kvs| - 1], k) + (if last.Key == k then [last.Value] else [])
  }

  /** The keys that occur in the records. */
  ghost function KeysOf(kvs: seq<KeyValue>): set<GoString>
  {
    set kv | kv in kvs :: kv.Key
  }

  /**
   * The dictionary keyValues after the records kvs were added one at a time
   * (lines 48-52): a key seen for the first time gets an empty list, and
   * each record's value is appended to its key's list.
   */
  function Group(kvs: seq<KeyValue>): map<GoString, seq<GoString>>
    decreases |kvs|
  {
    if kvs == [] then map[]
    else
      var g := Group(kvs[..|kvs| - 1]);
      var last := kvs[|kvs| - 1];
      g[last.Key := (if last.Key in g then g[last.Key] else []) + [last.Value]]
  }

  /** Values of a concatenation: those of the first part, then those of the second. */
  lemma {:induction false} ValuesOfAppend(a: seq<KeyValue>, b: seq<KeyValue>, k: GoString)
    ensures ValuesOf(a + b, k) == ValuesOf(a, k) + ValuesOf(b, k)
    decreases |b|
  {
    if b == [] {
      assert a + b == a;
    } else {
      var init := b[..|b| - 1];
      assert (a + b)[..|a + b| - 1] == a + init;
      ValuesOfAppend(a, init, k);
    }
  }

  /** A key has values exactly when some record carries it. */
  lemma {:induction false} ValuesOfEmpty(kvs: seq<KeyValue>, k: GoString)
    ensures ValuesOf(kvs, k) == [] <==> k !in KeysOf(kvs)
    decreases |kvs|
  {
    if kvs != [] {
      var init, last := kvs[..|kvs| - 1], kvs[|kvs| - 1];
      ValuesOfEmpty(init, k);
      assert kvs == init + [last];
      assert KeysOf(kvs) == KeysOf(init) + {last.Key};
    }
  }

  /**
   * Grouping is complete: keyValues holds exactly the keys of the records
   * read, and each key's list is the non-empty list of its values in the
   * order they were read, nothing lost and nothing repeated.
   */
  lemma {:induction false} GroupComplete(kvs: seq<KeyValue>)
    ensures forall k :: k in Group(kvs) <==> k in KeysOf(kvs)
    ensures forall k :: k in Group(kvs) ==> Group(kvs)[k] == ValuesOf(kvs, k) != []
    decreases |kvs|
  {
    if kvs != [] {
      var init, last := kvs[..|kvs| - 1], kvs[|kvs| - 1];
      GroupComplete(init);
      assert kvs == init + [last];
      assert KeysOf(kvs) == KeysOf(init) + {last.Key};
      forall k | k in Group(kvs)
        ensures Group(kvs)[k] == ValuesOf(kvs, k) != []
      {
        if k != last.Key {
          ValuesOfEmpty(init, k);
        } else if k !in Group(init) {
          ValuesOfEmpty(init, k);
        }
      }
    }
  }

  /**
   * The read loop (lines 33-55): shards 0 .. count-1 of reduce task r, each
   * opened in turn and decoded until its first error.  A shard that cannot
   * be opened stops the reduce task.
   */
  function Gather(d: Disk, jobName: GoString, reduceTask: int, count: int): Result<seq<KeyValue>>
    decreases count
  {
    if count <= 0 then Success([])
    else match Gather(d, jobName, reduceTask, count - 1)
      case Failure(e) => Failure(e)
      case Success(prev) =>
        var name := ReduceName(jobName, count - 1, reduceTask);
        if name !in d.streams then Failure(OpenShard(name))
        else Success(prev + Decoded(d.streams[name]))
  }

  /** Every shard 0 .. count-1 of reduce task r exists. */
  predicate ShardsPresent(d: Disk, jobName: GoString, reduceTask: int, count: int)
  {
    forall m :: 0 <= m < count ==> ReduceName(jobName, m, reduceTask) in d.streams
  }

  /**
   * Reading succeeds exactly when every shard exists, and otherwise stops at
   * the first missing shard; once a shard fails, later counts fail the same way.
   */
  lemma {:induction false} GatherOutcome(d: Disk, jobName: GoString, reduceTask: int, count: int)
    ensures Gather(d, jobName, reduceTask, count).Success? <==> ShardsPresent(d, jobName, reduceTask, count)
    ensures Gather(d, jobName, reduceTask, count).Failure? ==>
      exists m :: 0 <= m < count && ShardsPresent(d, jobName, reduceTask, m)
        && ReduceName(jobName, m, reduceTask) !in d.streams
        && Gather(d, jobName, reduceTask, count).error == OpenShard(ReduceName(jobName, m, reduceTask))
    decreases count
  {
    if count > 0 {
      GatherOutcome(d, jobName, reduceTask, count - 1);
      if Gather(d, jobName, reduceTask, count - 1).Success? {
        assert ShardsPresent(d, jobName, reduceTask, count)
           <==> ShardsPresent(d, jobName, reduceTask, count - 1)
                && ReduceName(jobName, count - 1, reduceTask) in d.streams;
      }
    }
  }

  /** Once reading a shard fails, the whole read loop fails the same way. */
  lemma {:induction false} GatherStops(d: Disk, jobName: GoString, reduceTask: int, k: int, count: int)
    requires k <= count && Gather(d, jobName, reduceTask, k).Failure?
    ensures Gather(d, jobName, reduceTask, count) == Gather(d, jobName, reduceTask, k)
    decreases count
  {
    if count > k {
      GatherStops(d, jobName, reduceTask, k, count - 1);
    }
  }

  /** The records reduceF produces for the keys ks, one per key, in the order of ks. */
  function ReduceAll(ks: seq<GoString>, g: map<GoString, seq<GoString>>,
                     reduceF: (GoString, seq<GoString>) -> GoString): seq<KeyValue>
    requires forall k :: k in ks ==> k in g
    decreases |ks|
  {
    if ks == [] then []
    else
      var k := ks[|ks| - 1];
      ReduceAll(ks[..|ks| - 1], g, reduceF) + [KeyValue(k, reduceF(k, g[k]))]
  }

  lemma {:induction false} ReduceAllSpec(ks: seq<GoString>, g: map<GoString, seq<GoString>>,
                                         reduceF: (GoString, seq<GoString>) -> GoString)
    requires forall k :: k in ks ==> k in g
    ensures |ReduceAll(ks, g, reduceF)| == |ks|
    ensures forall j :: 0 <= j < |ks| ==> ReduceAll(ks, g, reduceF)[j] == KeyValue(ks[j], reduceF(ks[j], g[ks[j]]))
    decreases |ks|
  {
    if ks != [] {
      var init := ks[..|ks| - 1];
      assert forall k :: k in init ==> k in ks;
      ReduceAllSpec(init, g, reduceF);
    }
  }

  /**
   * The records of the merged file (lines 58-72): one per key of the
   * dictionary, in ascending key order, each carrying reduceF of its key
   * and value list.
   */
  ghost function Merged(g: map<GoString, seq<GoString>>, reduceF: (GoString, seq<GoString>) -> GoString): (out: seq<KeyValue>)
    ensures |out| == |g.Keys|
    ensures forall p, q :: 0 <= p < q < |out| ==> Less(out[p].Key, out[q].Key)
    ensures forall j :: 0 <= j < |out| ==> out[j].Key in g && out[j].Value == reduceF(out[j].Key, g[out[j].Key])
    ensures forall k :: k in g ==> exists j :: 0 <= j < |out| && out[j].Key == k
  {
    var ks := SortedKeys(g.Keys);
    ReduceAllSpec(ks, g, reduceF);
    var out := ReduceAll(ks, g, reduceF);
    assert forall k :: k in g ==> k in ks;
    out
  }

  /**
   * doReduce: read shards 0 .. nMap-1 of reduce task r, then create the
   * merged file and write the reduced records into it.  Encode errors are
   * not checked (line 71): when the merged file cannot be written the reduce task
   * still completes, leaving it empty.
   */
  ghost function ReduceTask(d: Disk, jobName: GoString, reduceTask: int, nMap: int,
                            reduceF: (GoString, seq<GoString>) -> GoString): Result<Disk>
  {
    match Gather(d, jobName, reduceTask, nMap)
      case Failure(e) => Failure(e)
      case Success(kvs) =>
        var name := MergeName(jobName, reduceTask);
        if name in d.uncreatable then Failure(CreateMerged(name))
        else
          var out := if name in d.unwritable then [] else EncodeAll(Merged(Group(kvs), reduceF));
          Success(d.(streams := d.streams[name := out]))
  }

  /**
   * doReduce completes exactly when every shard 0 .. nMap-1 exists and the
   * merged file can be created; it then replaces only the merged file.
   */
  lemma ReduceTaskOutcome(d: Disk, jobName: GoString, reduceTask: int, nMap: int,
                          reduceF: (GoString, seq<GoString>) -> GoString)
    ensures ReduceTask(d, jobName, reduceTask, nMap, reduceF).Success?
        <==> ShardsPresent(d, jobName, reduceTask, nMap) && MergeName(jobName, reduceTask) !in d.uncreatable
    ensures ReduceTask(d, jobName, reduceTask, nMap, reduceF).Success? ==>
      var d' := ReduceTask(d, jobName, reduceTask, nMap, reduceF).value;
      d'.inputs == d.inputs && d'.uncreatable == d.uncreatable && d'.unwritable == d.unwritable
      && MergeName(jobName, reduceTask) in d'.streams
      && forall name :: name != MergeName(jobName, reduceTask) ==>
           (name in d'.streams <==> name in d.streams) && (name in d.streams ==> d'.streams[name] == d.streams[name])
  {
    GatherOutcome(d, jobName, reduceTask, nMap);
  }

  /**
   * A missing shard stops doReduce at the first missing shard, before the
   * merged file is created.
   */
  lemma ReduceTaskMissingShard(d: Disk, jobName: GoString, reduceTask: int, nMap: int,
                               reduceF: (GoString, seq<GoString>) -> GoString, m: int)
    requires 0 <= m < nMap && ShardsPresent(d, jobName, reduceTask, m)
    requires ReduceName(jobName, m, reduceTask) !in d.streams
    ensures ReduceTask(d, jobName, reduceTask, nMap, reduceF) == Failure(OpenShard(ReduceName(jobName, m, reduceTask)))
  {
    GatherOutcome(d, jobName, reduceTask, m);
    assert Gather(d, jobName, reduceTask, m + 1) == Failure(OpenShard(ReduceName(jobName, m, reduceTask)));
    GatherStops(d, jobName, reduceTask, m + 1, nMap);
  }

  /**
   * The merged file holds one record per distinct key read, in strictly
   * ascending key order, whose value is reduceF of the key and of all its
   * values in reading order.
   */
  lemma MergedRecords(d: Disk, jobName: GoString, reduceTask: int, nMap: int,
                      reduceF: (GoString, seq<GoString>) -> GoString)
    requires ReduceTask(d, jobName, reduceTask, nMap, reduceF).Success?
    requires MergeName(jobName, reduceTask) !in d.unwritable
    ensures
      var kvs := Gather(d, jobName, reduceTask, nMap).value;
      var out := MergedOutput(d, jobName, reduceTask, nMap, reduceF);
      |out| == |KeysOf(kvs)|
      && (forall p, q :: 0 <= p < q < |out| ==> Less(out[p].Key, out[q].Key))
      && (forall k :: k in KeysOf(kvs) <==> exists j :: 0 <= j < |out| && out[j].Key == k)
      && (forall j :: 0 <= j < |out| ==> out[j].Value == reduceF(out[j].Key, ValuesOf(kvs, out[j].Key)))
  {
    var kvs := Gather(d, jobName, reduceTask, nMap).value;
    var g := Group(kvs);
    GroupComplete(kvs);
    DecodeEncode(Merged(g, reduceF));
    assert g.Keys == KeysOf(kvs);
  }

  /**
   * With no records to read (nMap <= 0, or every shard empty or unreadable
   * from its first entry) the merged file is still created, with no records.
   */
  lemma ReduceTaskNoRecords(d: Disk, jobName: GoString, reduceTask: int, nMap: int,
                            reduceF: (GoString, seq<GoString>) -> GoString)
    requires Gather(d, jobName, reduceTask, nMap) == Success([])
    requires MergeName(jobName, reduceTask) !in d.uncreatable
    ensures ReduceTask(d, jobName, reduceTask, nMap, reduceF)
         == Success(d.(streams := d.streams[MergeName(jobName, reduceTask) := []]))
  {
    var out := Merged(Group([]), reduceF);
    assert |out| == 0;
    assert EncodeAll(out) == [];
  }

  /** The records a completed reduce task left in its merged file, as a decoder reads them back. */
  ghost function MergedOutput(d: Disk, jobName: GoString, reduceTask: int, nMap: int,
                              reduceF: (GoString, seq<GoString>) -> GoString): seq<KeyValue>
    requires ReduceTask(d, jobName, reduceTask, nMap, reduceF).Success?
  {
    Decoded(ReduceTask(d, jobName, reduceTask, nMap, reduceF).value.streams[MergeName(jobName, reduceTask)])
  }

  /** Adding one record to the dictionary: what lines 48-52 do. */
  lemma GroupSnoc(kvs: seq<KeyValue>, kv: KeyValue)
    ensures Group(kvs + [kv])
         == Group(kvs)[kv.Key := (if kv.Key in Group(kvs) then Group(kvs)[kv.Key] else []) + [kv.Value]]
  {
    assert (kvs + [kv])[..|kvs|] == kvs;
  }

  /** The next shard read extends the records read so far by what it decodes to. */
  lemma GatherStep(d: Disk, jobName: GoString, reduceTask: int, i: int, seen: seq<KeyValue>)
    requires 0 <= i && Gather(d, jobName, reduceTask, i) == Success(seen)
    ensures ReduceName(jobName, i, reduceTask) !in d.streams ==>
      Gather(d, jobName, reduceTask, i + 1) == Failure(OpenShard(ReduceName(jobName, i, reduceTask)))
    ensures ReduceName(jobName, i, reduceTask) in d.streams ==>
      Gather(d, jobName, reduceTask, i + 1) == Success(seen + Decoded(d.streams[ReduceName(jobName, i, reduceTask)]))
  {
  }

  /**
   * The decode loop (lines 42-53) on one shard: add the records of the
   * stream to the dictionary, one at a time, until the first entry that
   * does not decode or the end of the stream.
   */
  method ReadShard(keyValues: map<GoString, seq<GoString>>, stream: Stream, ghost seen: seq<KeyValue>)
    returns (grouped: map<GoString, seq<GoString>>)
    requires keyValues == Group(seen)
    ensures grouped == Group(seen + Decoded(stream))
  {
    grouped := keyValues;
    ghost var read := seen;
    var rest := stream;
    assert seen + Decoded(stream) == read + Decoded(rest);
    while true
      invariant grouped == Group(read)
      invariant seen + Decoded(stream) == read + Decoded(rest)
      decreases |rest|
    {
      if rest == [] || rest[0].Malformed? {
        break;
      }
      var kv := rest[0].kv;
      if kv.Key !in grouped {
        grouped := grouped[kv.Key := []];
      }
      GroupSnoc(read, kv);
      MapUpdateTwice(Group(read), kv.Key, [], [kv.Value]);
      grouped := grouped[kv.Key := grouped[kv.Key] + [kv.Value]];
      assert Decoded(rest) == [kv] + Decoded(rest[1..]);
      read := read + [kv];
      rest := rest[1..];
    }
    assert Decoded(rest) == [];
    assert read + [] == read;
  }

  /**
   * The key loop (lines 58-62): the keys of the dictionary, each once, in
   * the map's iteration order, which Go leaves unspecified; any order may
   * come out here.
   */
  method CollectKeys(keyValues: map<GoString, seq<GoString>>) returns (keys: seq<GoString>)
    ensures Distinct(keys)
    ensures forall k :: k in keys <==> k in keyValues
  {
    keys := [];
    var remaining := keyValues.Keys;
    while remaining != {}
      invariant remaining <= keyValues.Keys
      invariant Distinct(keys)
      invariant forall k :: k in keys <==> k in keyValues && k !in remaining
      decreases |remaining|
    {
      var k :| k in remaining;
      keys := keys + [k];
      remaining := remaining - {k};
    }
  }

  /**
   * Lines 58-63: collect the keys of the dictionary and sort them with
   * sort.Strings.  Whatever order the map iteration produced, the result is
   * the keys' ascending order.
   */
  method SortedKeysOf(keyValues: map<GoString, seq<GoString>>) returns (sortedKeys: seq<GoString>)
    ensures sortedKeys == SortedKeys(keyValues.Keys)
  {
    var keys := CollectKeys(keyValues);
    var a := new GoString[|keys|](j requires 0 <= j < |keys| => keys[j]);
    assert a[..] == keys;
    SortStrings(a);
    SortedIsSortedKeys(a[..], keys, keyValues.Keys);
    sortedKeys := a[..];
  }

  /**
   * The output loop (lines 68-72): encode KeyValue{k, reduceF(k,
   * keyValues[k])} for each key in turn.  Encode errors are ignored, so an
   * unwritable file receives nothing and the loop runs to the end.
   */
  method EncodeMerged(sortedKeys: seq<GoString>, keyValues: map<GoString, seq<GoString>>,
                      reduceF: (GoString, seq<GoString>) -> GoString, unwritable: bool)
    returns (out: Stream)
    requires forall k :: k in sortedKeys ==> k in keyValues
    ensures out == if unwritable then [] else EncodeAll(ReduceAll(sortedKeys, keyValues, reduceF))
  {
    out := [];
    var j := 0;
    while j < |sortedKeys|
      invariant 0 <= j <= |sortedKeys|
      invariant out == if unwritable then [] else EncodeAll(ReduceAll(sortedKeys[..j], keyValues, reduceF))
    {
      var k := sortedKeys[j];
      var res := reduceF(k, keyValues[k]);
      assert sortedKeys[..j + 1] == sortedKeys[..j] + [k];
      if !unwritable {
        EncodeAllSnoc(ReduceAll(sortedKeys[..j], keyValues, reduceF), KeyValue(k, res));
        out := out + [Encoded(KeyValue(k, res))];
      }
      j := j + 1;
    }
    assert sortedKeys[..j] == sortedKeys;
  }

  /**
   * doReduce.  The read loop fills keyValues shard by shard, the keys are
   * collected and sorted, and one record per key is encoded into the
   * merged file.
   */
  method DoReduce(disk: Disk, jobName: GoString, reduceTaskNumber: int, nMap: int,
                  reduceF: (GoString, seq<GoString>) -> GoString)
    returns (result: Result<Disk>)
    ensures result == ReduceTask(disk, jobName, reduceTaskNumber, nMap, reduceF)
  {
    var keyValues: map<GoString, seq<GoString>> := map[];
    ghost var seen: seq<KeyValue> := [];
    var i := 0;
    while i < nMap
      invariant 0 <= i && (i <= nMap || i == 0)
      invariant Gather(disk, jobName, reduceTaskNumber, i) == Success(seen)
      invariant keyValues == Group(seen)
    {
      var fileName := ReduceName(jobName, i, reduceTaskNumber);
      GatherStep(disk, jobName, reduceTaskNumber, i, seen);
      if fileName !in disk.streams {
        GatherStops(disk, jobName, reduceTaskNumber, i + 1, nMap);
        return Failure(OpenShard(fileName));
      }
      keyValues := ReadShard(keyValues, disk.streams[fileName], seen);
      seen := seen + Decoded(disk.streams[fileName]);
      i := i + 1;
    }

    var sortedKeys := SortedKeysOf(keyValues);
    var mergeFile := MergeName(jobName, reduceTaskNumber);
    if mergeFile in disk.uncreatable {
      return Failure(CreateMerged(mergeFile));
    }
    var streams := disk.streams[mergeFile := []];
    var out := EncodeMerged(sortedKeys, keyValues, reduceF, mergeFile in disk.unwritable);
    streams := streams[mergeFile := out];
    MapUpdateTwice(disk.streams, mergeFile, [], out);
    return Success(disk.(streams := streams));
  }
}
