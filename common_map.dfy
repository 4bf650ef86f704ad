/**
 * The map side of the shuffle: ihash, the routing of one record to one
 * shard, and doMap, which runs the user's map function on one input file
 * and writes its records into nReduce intermediate files.
 */
module CommonMap {
  import opened Common

  /** FNV-1a, 32-bit: offset basis and prime. */
  const OFFSET_BASIS_32: bv32 := 2166136261
  const PRIME_32: bv32 := 16777619

  /** The number of values of a uint32. */
  const TWO_TO_32: int := 0x1_0000_0000

  /** One round of FNV-1a: xor the byte into the state, then multiply by the prime modulo 2^32. */
  function FnvStep(h: bv32, b: Byte): bv32
  {
    (h ^ (b as bv32)) * PRIME_32
  }

  /** hash.Hash32.Write on an FNV-1a state: one round per byte, first byte first. */
  function FnvWrite(h: bv32, s: seq<Byte>): bv32
    decreases |s|
  {
    if s == [] then h else FnvWrite(FnvStep(h, s[0]), s[1..])
  }

  /** ihash(s): a fresh fnv.New32a(), the key's bytes written once, then Sum32. */
  function Ihash(s: GoString): bv32
  {
    FnvWrite(OFFSET_BASIS_32, s)
  }

  /**
   * FNV-1a as it is published: the hash of a string extended by one byte is
   * one round applied to the hash of the string.
   */
  function Fnv1a(s: seq<Byte>): bv32
    decreases |s|
  {
    if s == [] then OFFSET_BASIS_32 else FnvStep(Fnv1a(s[..|s| - 1]), s[|s| - 1])
  }

  /** Writing bytes in two pieces leaves the same state as writing them at once. */
  lemma {:induction false} FnvWriteChunks(h: bv32, s: seq<Byte>, t: seq<Byte>)
    ensures FnvWrite(h, s + t) == FnvWrite(FnvWrite(h, s), t)
    decreases |s|
  {
    if s != [] {
      assert (s + t)[0] == s[0] && (s + t)[1..] == s[1..] + t;
      FnvWriteChunks(FnvStep(h, s[0]), s[1..], t);
    } else {
      assert s + t == t;
    }
  }

  /** ihash computes exactly the published 32-bit FNV-1a of the key's bytes. */
  lemma {:induction false} IhashIsFnv1a(s: GoString)
    ensures Ihash(s) == Fnv1a(s)
    decreases |s|
  {
    if s != [] {
      var init, last := s[..|s| - 1], s[|s| - 1];
      IhashIsFnv1a(init);
      FnvWriteChunks(OFFSET_BASIS_32, init, [last]);
      assert init + [last] == s;
      assert FnvWrite(Ihash(init), [last]) == FnvWrite(FnvStep(Ihash(init), last), []);
    }
  }

  /** Published FNV-1a 32-bit test values: the empty string, "a" and "foobar". */
  lemma IhashSamples()
    ensures Ihash([]) == 0x811c9dc5
    ensures Ihash([97]) == 0xe40c292c
    ensures Ihash([102, 111, 111, 98, 97, 114]) == 0xbf9cf968
  {
  }

  /** Go's uint32(x) on an int: the low 32 bits, read as unsigned. */
  function Uint32(x: int): (u: nat)
    ensures u < 0x1_0000_0000
    ensures 0 <= x < 0x1_0000_0000 ==> u == x
  {
    x % 0x1_0000_0000
  }

  /**
   * The remainder of a by m, by repeated subtraction.  Written this way
   * (rather than with %) so that proofs about routing do not see a
   * division by a variable; Remainder proves it is a % m.
   */
  function Mod(a: nat, m: nat): (r: nat)
    requires m > 0
    ensures r < m
    decreases a
  {
    if a < m then a else Mod(a - m, m)
  }

  lemma {:induction false} Remainder(a: nat, m: nat)
    requires m > 0
    ensures Mod(a, m) == a % m
    decreases a
  {
    if a >= m {
      Remainder(a - m, m);
      RemainderStep(a, m);
    }
  }

  /** Taking m away does not change the remainder by m. */
  lemma RemainderStep(a: int, m: int)
    requires m > 0
    ensures (a - m) % m == a % m
  {
    var q := (a - m) / m;
    var k := a / m - (q + 1);
    assert a == (a / m) * m + a % m;
    assert a - m == q * m + (a - m) % m;
    assert k * m == (a / m) * m - (q + 1) * m;
    assert k * m == (a - m) % m - a % m;
    SmallMultiple(k, m);
  }

  /** The only multiple of m strictly between -m and m is zero. */
  lemma SmallMultiple(k: int, m: int)
    requires m > 0 && -m < k * m < m
    ensures k == 0
  {
    MultipleSign(k, m);
  }

  lemma MultipleSign(k: int, m: int)
    requires m > 0
    ensures k >= 1 ==> k * m >= m
    ensures k <= -1 ==> k * m <= -m
  {
    if k >= 1 {
      assert k * m == (k - 1) * m + m;
      assert (k - 1) * m >= 0;
    } else if k <= -1 {
      var j := -k;
      assert k * m == -(j * m);
      assert j * m == (j - 1) * m + m;
      assert (j - 1) * m >= 0;
    }
  }

  /** ihash(key) % uint32(nReduce): the shard a key is routed to. */
  function Bucket(key: GoString, nReduce: int): (b: nat)
    requires Uint32(nReduce) != 0
    ensures b < Uint32(nReduce)
  {
    Mod(Ihash(key) as int, Uint32(nReduce))
  }

  /** Bucket is the remainder Go computes on line 56. */
  lemma BucketIsRemainder(key: GoString, nReduce: int)
    requires Uint32(nReduce) != 0
    ensures Bucket(key, nReduce) == (Ihash(key) as int) % Uint32(nReduce)
  {
    Remainder(Ihash(key) as int, Uint32(nReduce));
  }

  /** The test of line 56: a record with this key goes to shard i. */
  predicate Routes(key: GoString, nReduce: int, i: int)
    requires Uint32(nReduce) != 0
  {
    Bucket(key, nReduce) == Uint32(i)
  }

  /** The modulo of line 56 does not divide by zero for these records. */
  predicate CanRoute(res: seq<KeyValue>, nReduce: int)
  {
    res == [] || Uint32(nReduce) != 0
  }

  /** The records of res that belong in shard i, in the order the map function emitted them. */
  function Shard(res: seq<KeyValue>, nReduce: int, i: int): seq<KeyValue>
    requires CanRoute(res, nReduce)
    decreases |res|
  {
    if res == [] then []
    else
      var last := res[|res| - 1];
      Shard(res[..|res| - 1], nReduce, i) + (if Routes(last.Key, nReduce, i) then [last] else [])
  }

  /** Routing distributes over concatenation: a shard of a longer output extends the shorter one's. */
  lemma {:induction false} ShardAppend(a: seq<KeyValue>, b: seq<KeyValue>, nReduce: int, i: int)
    requires CanRoute(a + b, nReduce)
    ensures CanRoute(a, nReduce) && CanRoute(b, nReduce)
    ensures Shard(a + b, nReduce, i) == Shard(a, nReduce, i) + Shard(b, nReduce, i)
    decreases |b|
  {
    if b != [] {
      var init := b[..|b| - 1];
      assert (a + b)[..|a + b| - 1] == a + init;
      ShardAppend(a, init, nReduce, i);
    } else {
      assert a + b == a;
    }
  }

  /** A record is in shard i exactly when the map function emitted it and its key is routed to i. */
  lemma {:induction false} ShardMembers(res: seq<KeyValue>, nReduce: int, i: int, kv: KeyValue)
    requires Uint32(nReduce) != 0
    ensures kv in Shard(res, nReduce, i) <==> kv in res && Routes(kv.Key, nReduce, i)
    decreases |res|
  {
    if res != [] {
      var init := res[..|res| - 1];
      ShardMembers(init, nReduce, i, kv);
      assert res == init + [res[|res| - 1]];
    }
  }

  /** With 0 < nReduce < 2^32 every key is routed to exactly one shard in [0, nReduce). */
  lemma RoutedToOne(key: GoString, nReduce: int)
    requires 0 < nReduce < TWO_TO_32
    ensures Uint32(nReduce) == nReduce
    ensures 0 <= Bucket(key, nReduce) < nReduce && Routes(key, nReduce, Bucket(key, nReduce))
    ensures forall i :: 0 <= i < nReduce && Routes(key, nReduce, i) ==> i == Bucket(key, nReduce)
  {
  }

  /** The records held by shards 0 .. count-1 together. */
  function ShardUnion(res: seq<KeyValue>, nReduce: int, count: int): multiset<KeyValue>
    requires CanRoute(res, nReduce)
    decreases count
  {
    if count <= 0 then multiset{}
    else ShardUnion(res, nReduce, count - 1) + multiset(Shard(res, nReduce, count - 1))
  }

  lemma {:induction false} ShardUnionEmpty(nReduce: int, count: int)
    ensures ShardUnion([], nReduce, count) == multiset{}
    decreases count
  {
    if count > 0 {
      ShardUnionEmpty(nReduce, count - 1);
    }
  }

  /** A record emitted after res joins the end of its own shard and of no other. */
  lemma ShardSnoc(res: seq<KeyValue>, kv: KeyValue, nReduce: int, i: int)
    requires Uint32(nReduce) != 0
    ensures Shard(res + [kv], nReduce, i) == Shard(res, nReduce, i) + (if Routes(kv.Key, nReduce, i) then [kv] else [])
  {
    assert (res + [kv])[..|res + [kv]| - 1] == res;
  }

  /** Below 2^32 the conversions of line 56 are the identity, and routing to i means the bucket is i. */
  lemma RoutesBelow(key: GoString, nReduce: int, i: int)
    requires 0 <= i < nReduce < TWO_TO_32
    ensures Uint32(nReduce) == nReduce && Uint32(i) == i
    ensures Routes(key, nReduce, i) <==> Bucket(key, nReduce) == i
  {
  }

  /** Adding one copy of kv to a shard's multiset. */
  lemma MultisetSnoc(shard: seq<KeyValue>, kv: KeyValue, routed: bool)
    ensures multiset(shard + (if routed then [kv] else []))
         == multiset(shard) + (if routed then multiset{kv} else multiset{})
  {
    if !routed {
      assert shard + [] == shard;
    }
  }

  /** One more record adds one copy to the union when it is routed below count, none otherwise. */
  lemma ShardUnionSnoc(res: seq<KeyValue>, kv: KeyValue, nReduce: int, count: int)
    requires 0 < nReduce < TWO_TO_32 && count <= nReduce
    ensures ShardUnion(res + [kv], nReduce, count)
         == ShardUnion(res, nReduce, count) + (if Bucket(kv.Key, nReduce) < count then multiset{kv} else multiset{})
    decreases count
  {
    if count > 0 {
      ShardUnionSnoc(res, kv, nReduce, count - 1);
      ShardUnionSnocStep(res, kv, nReduce, count);
    } else {
      assert ShardUnion(res + [kv], nReduce, count) == multiset{} == ShardUnion(res, nReduce, count);
    }
  }

  /** The step of ShardUnionSnoc: from shards below count-1 to shards below count. */
  lemma ShardUnionSnocStep(res: seq<KeyValue>, kv: KeyValue, nReduce: int, count: int)
    requires 0 < nReduce < TWO_TO_32 && 0 < count <= nReduce
    requires ShardUnion(res + [kv], nReduce, count - 1)
          == ShardUnion(res, nReduce, count - 1) + (if Bucket(kv.Key, nReduce) < count - 1 then multiset{kv} else multiset{})
    ensures ShardUnion(res + [kv], nReduce, count)
         == ShardUnion(res, nReduce, count) + (if Bucket(kv.Key, nReduce) < count then multiset{kv} else multiset{})
  {
    RoutesBelow(kv.Key, nReduce, count - 1);
    var routed := Routes(kv.Key, nReduce, count - 1);
    ShardSnoc(res, kv, nReduce, count - 1);
    MultisetSnoc(Shard(res, nReduce, count - 1), kv, routed);
  }

  /**
   * The shards partition the map output: taken together, shards 0 ..
   * nReduce-1 hold every emitted record exactly as often as it was emitted.
   */
  lemma {:induction false} ShardsPartition(res: seq<KeyValue>, nReduce: int)
    requires 0 < nReduce < TWO_TO_32
    ensures ShardUnion(res, nReduce, nReduce) == multiset(res)
    decreases |res|
  {
    if res == [] {
      ShardUnionEmpty(nReduce, nReduce);
    } else {
      var init, last := res[..|res| - 1], res[|res| - 1];
      ShardsPartition(init, nReduce);
      assert init + [last] == res;
      ShardUnionSnoc(init, last, nReduce, nReduce);
    }
  }

  /** The total number of records written to shards 0 .. count-1. */
  function ShardSizes(res: seq<KeyValue>, nReduce: int, count: int): nat
    requires CanRoute(res, nReduce)
    decreases count
  {
    if count <= 0 then 0 else ShardSizes(res, nReduce, count - 1) + |Shard(res, nReduce, count - 1)|
  }

  lemma {:induction false} ShardSizesOfUnion(res: seq<KeyValue>, nReduce: int, count: int)
    requires CanRoute(res, nReduce)
    ensures ShardSizes(res, nReduce, count) == |ShardUnion(res, nReduce, count)|
    decreases count
  {
    if count > 0 {
      ShardSizesOfUnion(res, nReduce, count - 1);
    }
  }

  /** The shards together hold as many records as the map function emitted. */
  lemma ShardSizesTotal(res: seq<KeyValue>, nReduce: int)
    requires 0 < nReduce < TWO_TO_32
    ensures ShardSizes(res, nReduce, nReduce) == |res|
  {
    ShardsPartition(res, nReduce);
    ShardSizesOfUnion(res, nReduce, nReduce);
  }

  /**
   * uint32(nReduce) wraps: with nReduce = 2^32 + 1 the divisor is 1, so
   * every record passes the test of line 56 for shard 0 and again for
   * shard 2^32, and is written twice.
   */
  lemma {:induction false} WrappedShardCountDuplicates(res: seq<KeyValue>)
    ensures Uint32(TWO_TO_32 + 1) == 1
    ensures Shard(res, TWO_TO_32 + 1, 0) == res
    ensures Shard(res, TWO_TO_32 + 1, TWO_TO_32) == res
    decreases |res|
  {
    if res != [] {
      WrappedShardCountDuplicates(res[..|res| - 1]);
      assert res[..|res| - 1] + [res[|res| - 1]] == res;
    }
  }

  /** The file shard i of map task mapTask holds once written: its records, encoded in order. */
  function ShardFiles(jobName: GoString, mapTask: int, res: seq<KeyValue>, nReduce: int, count: int): map<FileName, Stream>
    requires count > 0 ==> CanRoute(res, nReduce)
  {
    map i | 0 <= i < count :: ReduceName(jobName, mapTask, i) := EncodeAll(Shard(res, nReduce, i))
  }

  /**
   * One iteration of the outer loop (lines 45-65): create shard i, then
   * encode into it every record routed to it.  Creating the file fails on
   * an uncreatable name; the first record tested divides by uint32(nReduce);
   * the first record written to an unwritable file fails to encode.
   */
  function WriteShard(d: Disk, jobName: GoString, mapTask: int, res: seq<KeyValue>, nReduce: int, i: int): Result<Disk>
  {
    var name := ReduceName(jobName, mapTask, i);
    if name in d.uncreatable then Failure(CreateShard(name))
    else if !CanRoute(res, nReduce) then Failure(DivideByZero)
    else
      var shard := Shard(res, nReduce, i);
      if shard != [] && name in d.unwritable then Failure(EncodeRecord(name, shard[0]))
      else Success(d.(streams := d.streams[name := EncodeAll(shard)]))
  }

  /** Shards 0 .. count-1 written in turn, stopping at the first failure. */
  function WriteShards(d: Disk, jobName: GoString, mapTask: int, res: seq<KeyValue>, nReduce: int, count: int): Result<Disk>
    decreases count
  {
    if count <= 0 then Success(d)
    else match WriteShards(d, jobName, mapTask, res, nReduce, count - 1)
      case Failure(e) => Failure(e)
      case Success(d') => WriteShard(d', jobName, mapTask, res, nReduce, count - 1)
  }

  /**
   * doMap: read inFile whole, call mapF once on its name and contents, then
   * write shards 0 .. nReduce-1 (none when nReduce <= 0).
   */
  function MapTask(d: Disk, jobName: GoString, mapTask: int, inFile: GoString, nReduce: int,
                   mapF: (GoString, GoString) -> seq<KeyValue>): Result<Disk>
  {
    if inFile !in d.inputs then Failure(OpenInput(inFile))
    else WriteShards(d, jobName, mapTask, mapF(inFile, d.inputs[inFile]), nReduce, nReduce)
  }

  /**
   * mapF is called once, on inFile and its whole contents: two map
   * functions that agree on that one call give the same map task.
   */
  lemma MapTaskUsesOneCall(d: Disk, jobName: GoString, mapTask: int, inFile: GoString, nReduce: int,
                           mapF: (GoString, GoString) -> seq<KeyValue>, mapG: (GoString, GoString) -> seq<KeyValue>)
    requires inFile in d.inputs ==> mapF(inFile, d.inputs[inFile]) == mapG(inFile, d.inputs[inFile])
    ensures MapTask(d, jobName, mapTask, inFile, nReduce, mapF) == MapTask(d, jobName, mapTask, inFile, nReduce, mapG)
  {
  }

  /** Once writing a shard fails, the map task stops with that failure. */
  lemma {:induction false} WriteShardsStops(d: Disk, jobName: GoString, mapTask: int, res: seq<KeyValue>, nReduce: int, k: int, count: int)
    requires k <= count && WriteShards(d, jobName, mapTask, res, nReduce, k).Failure?
    ensures WriteShards(d, jobName, mapTask, res, nReduce, count) == WriteShards(d, jobName, mapTask, res, nReduce, k)
    decreases count
  {
    if count > k {
      WriteShardsStops(d, jobName, mapTask, res, nReduce, k, count - 1);
    }
  }

  /** Shard i can be written: its name can be created, and written to if anything is routed there. */
  predicate ShardWritable(d: Disk, jobName: GoString, mapTask: int, res: seq<KeyValue>, nReduce: int, i: int)
    requires CanRoute(res, nReduce)
  {
    var name := ReduceName(jobName, mapTask, i);
    name !in d.uncreatable && (Shard(res, nReduce, i) != [] ==> name !in d.unwritable)
  }

  /** Every one of shards 0 .. count-1 can be written. */
  predicate ShardsWritable(d: Disk, jobName: GoString, mapTask: int, res: seq<KeyValue>, nReduce: int, count: int)
  {
    (count > 0 ==> CanRoute(res, nReduce))
    && forall i :: 0 <= i < count ==> ShardWritable(d, jobName, mapTask, res, nReduce, i)
  }

  /** Adding shard count-1 to the files of shards 0 .. count-2. */
  lemma ShardFilesSnoc(jobName: GoString, mapTask: int, res: seq<KeyValue>, nReduce: int, count: int)
    requires count > 0 && CanRoute(res, nReduce)
    ensures ShardFiles(jobName, mapTask, res, nReduce, count)
         == ShardFiles(jobName, mapTask, res, nReduce, count - 1)[ReduceName(jobName, mapTask, count - 1) := EncodeAll(Shard(res, nReduce, count - 1))]
  {
  }

  /** Writing one shard succeeds exactly when it is writable, and then replaces that one file. */
  lemma WriteShardOutcome(d: Disk, jobName: GoString, mapTask: int, res: seq<KeyValue>, nReduce: int, i: int)
    ensures WriteShard(d, jobName, mapTask, res, nReduce, i).Success?
        <==> CanRoute(res, nReduce) && ShardWritable(d, jobName, mapTask, res, nReduce, i)
    ensures WriteShard(d, jobName, mapTask, res, nReduce, i).Success? ==>
      WriteShard(d, jobName, mapTask, res, nReduce, i).value
        == d.(streams := d.streams[ReduceName(jobName, mapTask, i) := EncodeAll(Shard(res, nReduce, i))])
  {
  }

  lemma WriteShardsStep(d: Disk, jobName: GoString, mapTask: int, res: seq<KeyValue>, nReduce: int, count: int)
    requires count > 0 && (count > 1 ==> CanRoute(res, nReduce))
    requires WriteShards(d, jobName, mapTask, res, nReduce, count - 1)
          == Success(d.(streams := d.streams + ShardFiles(jobName, mapTask, res, nReduce, count - 1)))
    ensures WriteShards(d, jobName, mapTask, res, nReduce, count).Success?
        <==> CanRoute(res, nReduce) && ShardWritable(d, jobName, mapTask, res, nReduce, count - 1)
    ensures WriteShards(d, jobName, mapTask, res, nReduce, count).Success? ==>
      WriteShards(d, jobName, mapTask, res, nReduce, count).value
        == d.(streams := d.streams + ShardFiles(jobName, mapTask, res, nReduce, count))
  {
    var files := ShardFiles(jobName, mapTask, res, nReduce, count - 1);
    var prev := d.(streams := d.streams + files);
    assert WriteShards(d, jobName, mapTask, res, nReduce, count) == WriteShard(prev, jobName, mapTask, res, nReduce, count - 1);
    WriteShardOutcome(prev, jobName, mapTask, res, nReduce, count - 1);
    if CanRoute(res, nReduce) {
      assert ShardWritable(prev, jobName, mapTask, res, nReduce, count - 1)
         == ShardWritable(d, jobName, mapTask, res, nReduce, count - 1);
      ShardFilesSnoc(jobName, mapTask, res, nReduce, count);
      StreamsStep(d.streams, files, ReduceName(jobName, mapTask, count - 1), EncodeAll(Shard(res, nReduce, count - 1)));
    }
  }

  /** Adding one more file after a batch of files is adding it to the batch. */
  lemma StreamsStep(streams: map<FileName, Stream>, files: map<FileName, Stream>, name: FileName, s: Stream)
    ensures (streams + files)[name := s] == streams + files[name := s]
  {
  }

  /**
   * Writing shards 0 .. count-1 succeeds exactly when each of them can be
   * written, and then shard i holds the records routed to i and no other
   * file or setting of the disk changes.
   */
  lemma {:induction false} WriteShardsOutcome(d: Disk, jobName: GoString, mapTask: int, res: seq<KeyValue>, nReduce: int, count: int)
    ensures WriteShards(d, jobName, mapTask, res, nReduce, count).Success?
        <==> ShardsWritable(d, jobName, mapTask, res, nReduce, count)
    ensures WriteShards(d, jobName, mapTask, res, nReduce, count).Success? ==>
      WriteShards(d, jobName, mapTask, res, nReduce, count).value
        == d.(streams := d.streams + ShardFiles(jobName, mapTask, res, nReduce, count))
    decreases count
  {
    if count <= 0 {
      assert d.streams + ShardFiles(jobName, mapTask, res, nReduce, count) == d.streams;
    } else {
      WriteShardsOutcome(d, jobName, mapTask, res, nReduce, count - 1);
      if WriteShards(d, jobName, mapTask, res, nReduce, count - 1).Success? {
        WriteShardsStep(d, jobName, mapTask, res, nReduce, count);
        assert ShardsWritable(d, jobName, mapTask, res, nReduce, count)
           <==> CanRoute(res, nReduce) && ShardsWritable(d, jobName, mapTask, res, nReduce, count - 1)
                && ShardWritable(d, jobName, mapTask, res, nReduce, count - 1);
      } else {
        assert !ShardsWritable(d, jobName, mapTask, res, nReduce, count - 1);
      }
    }
  }

  /** What doMap needs to complete: a readable input and shards it can write. */
  predicate MapCanComplete(d: Disk, jobName: GoString, mapTask: int, inFile: GoString, nReduce: int,
                           mapF: (GoString, GoString) -> seq<KeyValue>)
  {
    inFile in d.inputs && ShardsWritable(d, jobName, mapTask, mapF(inFile, d.inputs[inFile]), nReduce, nReduce)
  }

  /**
   * doMap completes exactly when its input can be read and every shard
   * written.  It then creates all nReduce shards of its map task, empty
   * ones included, each holding the records routed to it in emission order,
   * and touches no other file.
   */
  lemma MapTaskOutcome(d: Disk, jobName: GoString, mapTask: int, inFile: GoString, nReduce: int,
                       mapF: (GoString, GoString) -> seq<KeyValue>)
    ensures MapTask(d, jobName, mapTask, inFile, nReduce, mapF).Success?
        <==> MapCanComplete(d, jobName, mapTask, inFile, nReduce, mapF)
    ensures MapTask(d, jobName, mapTask, inFile, nReduce, mapF).Success? ==>
      var res := mapF(inFile, d.inputs[inFile]);
      MapTask(d, jobName, mapTask, inFile, nReduce, mapF).value
        == d.(streams := d.streams + ShardFiles(jobName, mapTask, res, nReduce, nReduce))
  {
    if inFile in d.inputs {
      WriteShardsOutcome(d, jobName, mapTask, mapF(inFile, d.inputs[inFile]), nReduce, nReduce);
    }
  }

  /** name is one of the shards map task mapTask writes: reduceName(jobName, mapTask, i) for some i < count. */
  predicate OwnShard(name: FileName, jobName: GoString, mapTask: int, count: int)
  {
    name.ShardFile? && name.job == jobName && name.mapTask == mapTask && 0 <= name.reduceTask < count
  }

  /** The files ShardFiles describes are exactly the map task's own shards 0 .. count-1. */
  lemma ShardFilesKeys(jobName: GoString, mapTask: int, res: seq<KeyValue>, nReduce: int, count: int)
    requires count > 0 ==> CanRoute(res, nReduce)
    ensures forall name :: name in ShardFiles(jobName, mapTask, res, nReduce, count) <==> OwnShard(name, jobName, mapTask, count)
    ensures forall i :: 0 <= i < count ==>
      ShardFiles(jobName, mapTask, res, nReduce, count)[ReduceName(jobName, mapTask, i)] == EncodeAll(Shard(res, nReduce, i))
  {
    forall name | OwnShard(name, jobName, mapTask, count)
      ensures name in ShardFiles(jobName, mapTask, res, nReduce, count)
    {
      assert name == ReduceName(jobName, mapTask, name.reduceTask);
    }
  }

  /**
   * A map task that completes creates every one of its shards
   * reduceName(jobName, mapTask, i), i < nReduce, each holding the records
   * routed to i in emission order, and leaves every other file and setting
   * as it was.
   */
  lemma MapTaskWrites(d: Disk, jobName: GoString, mapTask: int, inFile: GoString, nReduce: int,
                      mapF: (GoString, GoString) -> seq<KeyValue>)
    requires MapTask(d, jobName, mapTask, inFile, nReduce, mapF).Success?
    ensures inFile in d.inputs
    ensures nReduce > 0 ==> CanRoute(mapF(inFile, d.inputs[inFile]), nReduce)
    ensures
      var d' := MapTask(d, jobName, mapTask, inFile, nReduce, mapF).value;
      var res := mapF(inFile, d.inputs[inFile]);
      d'.inputs == d.inputs && d'.uncreatable == d.uncreatable && d'.unwritable == d.unwritable
      && (forall i :: 0 <= i < nReduce ==>
            ReduceName(jobName, mapTask, i) in d'.streams
            && d'.streams[ReduceName(jobName, mapTask, i)] == EncodeAll(Shard(res, nReduce, i)))
      && (forall name :: !OwnShard(name, jobName, mapTask, nReduce) ==>
            (name in d'.streams <==> name in d.streams)
            && (name in d.streams ==> d'.streams[name] == d.streams[name]))
  {
    MapTaskOutcome(d, jobName, mapTask, inFile, nReduce, mapF);
    ShardFilesKeys(jobName, mapTask, mapF(inFile, d.inputs[inFile]), nReduce, nReduce);
  }

  /** With nReduce <= 0 the outer loop never runs: nothing is created and nothing is divided. */
  lemma MapTaskNoShards(d: Disk, jobName: GoString, mapTask: int, inFile: GoString, nReduce: int,
                        mapF: (GoString, GoString) -> seq<KeyValue>)
    requires nReduce <= 0 && inFile in d.inputs
    ensures MapTask(d, jobName, mapTask, inFile, nReduce, mapF) == Success(d)
  {
  }

  /** A shard that fails to be written fails the whole map task the same way. */
  lemma ShardFails(d: Disk, jobName: GoString, mapTask: int, res: seq<KeyValue>, nReduce: int, i: int,
                   streams: map<FileName, Stream>, e: Fatal)
    requires 0 <= i < nReduce
    requires WriteShards(d, jobName, mapTask, res, nReduce, i) == Success(d.(streams := streams))
    requires WriteShard(d.(streams := streams), jobName, mapTask, res, nReduce, i) == Failure(e)
    ensures WriteShards(d, jobName, mapTask, res, nReduce, nReduce) == Failure(e)
  {
    assert WriteShards(d, jobName, mapTask, res, nReduce, i + 1) == Failure(e);
    WriteShardsStops(d, jobName, mapTask, res, nReduce, i + 1, nReduce);
  }

  /** A shard whose records were all written extends the disk the loop has built so far. */
  lemma ShardWritten(d: Disk, jobName: GoString, mapTask: int, res: seq<KeyValue>, nReduce: int, i: int,
                     streams: map<FileName, Stream>)
    requires 0 <= i && CanRoute(res, nReduce)
    requires WriteShards(d, jobName, mapTask, res, nReduce, i) == Success(d.(streams := streams))
    requires ShardWritable(d, jobName, mapTask, res, nReduce, i)
    ensures WriteShards(d, jobName, mapTask, res, nReduce, i + 1)
         == Success(d.(streams := streams[ReduceName(jobName, mapTask, i) := EncodeAll(Shard(res, nReduce, i))]))
  {
    WriteShardOutcome(d.(streams := streams), jobName, mapTask, res, nReduce, i);
  }

  /**
   * The inner loop of doMap (lines 53-63): test every record against shard
   * i, in emission order, and encode the routed ones into the shard's file.
   * It stops at the first record when uint32(nReduce) is zero, and at the
   * first routed record when the file cannot be written.
   */
  method EncodeShard(res: seq<KeyValue>, nReduce: int, i: int, fileName: FileName, unwritable: bool)
    returns (outcome: Result<Stream>)
    ensures outcome.Success? <==> CanRoute(res, nReduce) && (unwritable ==> Shard(res, nReduce, i) == [])
    ensures outcome.Success? ==> outcome.value == EncodeAll(Shard(res, nReduce, i))
    ensures outcome.Failure? && !CanRoute(res, nReduce) ==> outcome.error == DivideByZero
    ensures outcome.Failure? && CanRoute(res, nReduce) ==>
      Shard(res, nReduce, i) != [] && outcome.error == EncodeRecord(fileName, Shard(res, nReduce, i)[0])
  {
    var stream := [];
    assert res[..0] == [] && EncodeAll([]) == [];
    var r := 0;
    while r < |res|
      invariant 0 <= r <= |res|
      invariant CanRoute(res[..r], nReduce)
      invariant stream == EncodeAll(Shard(res[..r], nReduce, i))
      invariant unwritable ==> Shard(res[..r], nReduce, i) == []
    {
      var kv := res[r];
      var divisor := Uint32(nReduce);
      if divisor == 0 {
        return Failure(DivideByZero);
      }
      assert res[..r + 1] == res[..r] + [kv];
      BucketIsRemainder(kv.Key, nReduce);
      ShardSnoc(res[..r], kv, nReduce, i);
      if (Ihash(kv.Key) as int) % divisor == Uint32(i) {
        if unwritable {
          ShardAppend(res[..r + 1], res[r + 1..], nReduce, i);
          assert res[..r + 1] + res[r + 1..] == res;
          return Failure(EncodeRecord(fileName, kv));
        }
        EncodeAllSnoc(Shard(res[..r], nReduce, i), kv);
        stream := stream + [Encoded(kv)];
      } else {
        assert Shard(res[..r], nReduce, i) + [] == Shard(res[..r], nReduce, i);
      }
      r := r + 1;
    }
    assert res[..r] == res;
    return Success(stream);
  }

  /**
   * doMap.  The outer loop creates shard i and the inner loop encodes into
   * it, one at a time, the records routed to i.
   */
  method DoMap(disk: Disk, jobName: GoString, mapTaskNumber: int, inFile: GoString, nReduce: int,
               mapF: (GoString, GoString) -> seq<KeyValue>)
    returns (result: Result<Disk>)
    ensures result == MapTask(disk, jobName, mapTaskNumber, inFile, nReduce, mapF)
  {
    if inFile !in disk.inputs {
      return Failure(OpenInput(inFile));
    }
    var res := mapF(inFile, disk.inputs[inFile]);
    var streams := disk.streams;
    var i := 0;
    while i < nReduce
      invariant 0 <= i && (i <= nReduce || i == 0)
      invariant WriteShards(disk, jobName, mapTaskNumber, res, nReduce, i) == Success(disk.(streams := streams))
    {
      var fileName := ReduceName(jobName, mapTaskNumber, i);
      if fileName in disk.uncreatable {
        ShardFails(disk, jobName, mapTaskNumber, res, nReduce, i, streams, CreateShard(fileName));
        return Failure(CreateShard(fileName));
      }
      ghost var before := streams;
      streams := streams[fileName := []];
      var outcome := EncodeShard(res, nReduce, i, fileName, fileName in disk.unwritable);
      if outcome.Failure? {
        ShardFails(disk, jobName, mapTaskNumber, res, nReduce, i, before, outcome.error);
        return Failure(outcome.error);
      }
      streams := streams[fileName := outcome.value];
      MapUpdateTwice(before, fileName, [], outcome.value);
      ShardWritten(disk, jobName, mapTaskNumber, res, nReduce, i, before);
      i := i + 1;
    }
    return Success(disk.(streams := streams));
  }
}
