/**
 * The vocabulary shared by the map and the reduce side of the shuffle:
 * Go strings as byte sequences, the KeyValue record, the names of the
 * intermediate and merged files, the record streams kept in those files,
 * and the file system the tasks run against.
 */
module Common {

  /** A byte of a Go string. */
  type Byte = bv8

  /**
   * A Go string: an immutable sequence of bytes.  Both the key hash and
   * sort.Strings look at the bytes, so the model keeps them.
   */
  type GoString = seq<Byte>

  /** The record the user's map function emits and the reduce side merges. */
  datatype KeyValue = KeyValue(Key: GoString, Value: GoString)

  /**
   * Names of the files the shuffle creates.  reduceName and mergeName live
   * outside the modelled files; all the shuffle relies on is that they are
   * injective and never collide with each other, which the two
   * constructors give by construction.
   */
  datatype FileName =
    | ShardFile(job: GoString, mapTask: int, reduceTask: int)
    | MergeFile(job: GoString, reduceTask: int)

  /** reduceName(jobName, mapTask, reduceTask): the shard one map task writes for one reduce task. */
  function ReduceName(jobName: GoString, mapTask: int, reduceTask: int): FileName
  {
    ShardFile(jobName, mapTask, reduceTask)
  }

  /** mergeName(jobName, reduceTask): the output file of one reduce task. */
  function MergeName(jobName: GoString, reduceTask: int): FileName
  {
    MergeFile(jobName, reduceTask)
  }

  /**
   * One JSON value in a file as json.Decoder meets it: either a record that
   * encoding/json wrote, or bytes that do not decode (a truncated or
   * corrupted tail).
   */
  datatype Entry = Encoded(kv: KeyValue) | Malformed

  type Stream = seq<Entry>

  /** What json.Encoder.Encode appends for each record, in order. */
  function EncodeAll(kvs: seq<KeyValue>): Stream
  {
    seq(|kvs|, j requires 0 <= j < |kvs| => Encoded(kvs[j]))
  }

  /**
   * Repeated json.Decoder.Decode until the first error: the records before
   * the first entry that does not decode.  End of file and a malformed
   * entry both end the stream.
   */
  function Decoded(s: Stream): seq<KeyValue>
  {
    if s == [] then []
    else match s[0]
      case Malformed => []
      case Encoded(kv) => [kv] + Decoded(s[1..])
  }

  /** Encoding records one at a time is encoding them all at once. */
  lemma EncodeAllSnoc(kvs: seq<KeyValue>, kv: KeyValue)
    ensures EncodeAll(kvs + [kv]) == EncodeAll(kvs) + [Encoded(kv)]
  {
    assert forall j :: 0 <= j < |kvs| + 1 ==> EncodeAll(kvs + [kv])[j] == (EncodeAll(kvs) + [Encoded(kv)])[j];
  }

  /** Every record written by the encoder is read back, in order and unchanged. */
  lemma {:induction false} DecodeEncode(kvs: seq<KeyValue>)
    ensures Decoded(EncodeAll(kvs)) == kvs
  {
    if kvs != [] {
      assert EncodeAll(kvs)[1..] == EncodeAll(kvs[1..]);
      DecodeEncode(kvs[1..]);
    }
  }

  /**
   * A stream whose tail does not decode gives the records before the tail,
   * exactly as if the file ended there.
   */
  lemma {:induction false} DecodeStopsAtMalformed(kvs: seq<KeyValue>, tail: Stream)
    ensures Decoded(EncodeAll(kvs) + [Malformed] + tail) == kvs
  {
    if kvs == [] {
      assert (EncodeAll(kvs) + [Malformed] + tail)[0] == Malformed;
    } else {
      var s := EncodeAll(kvs) + [Malformed] + tail;
      assert s[0] == Encoded(kvs[0]);
      assert s[1..] == EncodeAll(kvs[1..]) + [Malformed] + tail;
      DecodeStopsAtMalformed(kvs[1..], tail);
    }
  }

  /** Writing a file twice leaves the second contents. */
  lemma MapUpdateTwice<K, V>(m: map<K, V>, k: K, v: V, w: V)
    ensures m[k := v][k := w] == m[k := w]
  {
  }

  /**
   * The file system a task runs against.
   *   inputs:      input files that can be opened, stat'ed and read whole
   *   streams:     the intermediate and merged files and their entries
   *   uncreatable: names on which os.Create fails
   *   unwritable:  names that can be created but on which every write fails
   */
  datatype Disk = Disk(
    inputs: map<GoString, GoString>,
    streams: map<FileName, Stream>,
    uncreatable: set<FileName>,
    unwritable: set<FileName>)

  /** The causes for which a task stops (log.Fatal, or the runtime's divide-by-zero panic). */
  datatype Fatal =
    | OpenInput(path: GoString)
    | CreateShard(name: FileName)
    | DivideByZero
    | EncodeRecord(name: FileName, kv: KeyValue)
    | OpenShard(name: FileName)
    | CreateMerged(name: FileName)

  /** The outcome of one task: the disk it leaves behind, or why it stopped. */
  datatype Result<T> = Success(value: T) | Failure(error: Fatal)
}
