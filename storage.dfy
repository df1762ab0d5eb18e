/**
 * The AWS services the two Lambda functions talk to, reduced to the state
 * they hold: an S3 bucket as a key/object map, an SNS topic as the list of
 * messages published to it, and an SQS queue as the set of receipt handles
 * still in flight.
 */
module Storage {

  /** The dict a Lambda handler returns: a status code and a JSON-encoded body. */
  datatype Response = Response(statusCode: int, body: string)

  /** The map a bucket holds after a sequence of successful puts, applied in order. */
  function ApplyWrites<T>(m: map<string, T>, writes: seq<(string, T)>): map<string, T>
  {
    if |writes| == 0 then m
    else
      var last := writes[|writes| - 1];
      ApplyWrites(m, writes[..|writes| - 1])[last.0 := last.1]
  }

  /** No write after the `i`-th touches its key. */
  predicate LastWriteTo<T>(writes: seq<(string, T)>, i: nat)
    requires i < |writes|
  {
    forall j :: i < j < |writes| ==> writes[j].0 != writes[i].0
  }

  /**
   * After the writes, a key holds the value of the last write to it, or its
   * old value when no write touched it.
   */
  lemma {:induction false} ApplyWritesAt<T>(m: map<string, T>, writes: seq<(string, T)>, key: string)
    ensures (key in ApplyWrites(m, writes)) <==> key in m || key in KeysOf(writes)
    ensures key !in KeysOf(writes) && key in m ==> ApplyWrites(m, writes)[key] == m[key]
    ensures forall i :: 0 <= i < |writes| && writes[i].0 == key && LastWriteTo(writes, i) ==>
      ApplyWrites(m, writes)[key] == writes[i].1
  {
    if |writes| > 0 {
      var front := writes[..|writes| - 1];
      ApplyWritesAt(m, front, key);
      assert KeysOf(writes) == KeysOf(front) + [writes[|writes| - 1].0];
      forall i | 0 <= i < |writes| - 1 ensures front[i] == writes[i] { }
    }
  }

  /** The keys of a sequence of writes, in write order. */
  function KeysOf<T>(writes: seq<(string, T)>): (keys: seq<string>)
    ensures |keys| == |writes|
    ensures forall i :: 0 <= i < |writes| ==> keys[i] == writes[i].0
  {
    if |writes| == 0 then [] else KeysOf(writes[..|writes| - 1]) + [writes[|writes| - 1].0]
  }

  /**
   * How many of `writes` go through before the first one whose key the
   * store refuses: the writes that happen when the writer stops at its first
   * failed put.
   */
  function Accepted<T>(writes: seq<(string, T)>, refuses: set<string>): (n: nat)
    ensures n <= |writes|
    ensures forall i :: 0 <= i < n ==> writes[i].0 !in refuses
    ensures n < |writes| ==> writes[n].0 in refuses
  {
    if |writes| == 0 then 0
    else if writes[0].0 in refuses then 0
    else 1 + Accepted(writes[1..], refuses)
  }

  /** An S3 bucket. A put of a key in `refuses` fails (an I/O error) and changes nothing. */
  class Bucket<T> {
    var objects: map<string, T>
    var writeLog: seq<string>
    const refuses: set<string>

    constructor (initial: map<string, T>, refuses: set<string>)
      ensures objects == initial && writeLog == [] && this.refuses == refuses
    {
      objects := initial;
      writeLog := [];
      this.refuses := refuses;
    }

    /** `put_object`: stores `value` under `key` unless the store refuses the key. */
    method Put(key: string, value: T) returns (ok: bool)
      modifies this
      ensures ok == (key !in refuses)
      ensures objects == if ok then old(objects)[key := value] else old(objects)
      ensures writeLog == if ok then old(writeLog) + [key] else old(writeLog)
    {
      ok := key !in refuses;
      if ok {
        objects := objects[key := value];
        writeLog := writeLog + [key];
      }
    }
  }

  /** An SNS topic: the messages published to it, oldest first. */
  class Topic {
    var messages: seq<string>

    constructor ()
      ensures messages == []
    {
      messages := [];
    }

    method Publish(msg: string)
      modifies this
      ensures messages == old(messages) + [msg]
    {
      messages := messages + [msg];
    }
  }

  /** An SQS queue: the receipt handles of messages delivered and not yet deleted. */
  class Queue {
    var inFlight: set<string>

    constructor (inFlight: set<string>)
      ensures this.inFlight == inFlight
    {
      this.inFlight := inFlight;
    }

    /** `delete_message`: acknowledges the message with this receipt handle. */
    method Delete(receipt: string)
      modifies this
      ensures inFlight == old(inFlight) - {receipt}
    {
      inFlight := inFlight - {receipt};
    }
  }
}
