/** collector/internal/store.go: validation of a record and the table with its unique index
    on (gpu_id, timestamp), where the first row inserted under a key stays. */
module Telemetry {
  import opened Types

  /** A decoded JSON object: `gpuId` and `timestamp` are empty when the field is absent or
      not a string, `data` is the object marshalled again. */
  datatype Record = Record(gpuId: Bytes, timestamp: Bytes, data: Bytes)

  /** The library functions used, as given: JSON decoding and RFC 3339 parsing (section 5.6),
      the latter at the resolution of the timestamp column. */
  datatype Codec = Codec(unmarshal: Bytes -> Option<Record>, instant: Bytes -> Option<int>)

  datatype Key = Key(gpuId: Bytes, instant: int)

  type Table = map<Key, Bytes>

  predicate ValidRecord(codec: Codec, rec: Record) {
    rec.gpuId != [] && rec.timestamp != [] && codec.instant(rec.timestamp).Some?
  }

  function KeyOf(codec: Codec, rec: Record): Key
    requires ValidRecord(codec, rec)
  {
    Key(rec.gpuId, codec.instant(rec.timestamp).value)
  }

  /** `ON CONFLICT DO NOTHING`. */
  function InsertRecord(codec: Codec, table: Table, rec: Record): Table {
    if !ValidRecord(codec, rec) || KeyOf(codec, rec) in table then table
    else table[KeyOf(codec, rec) := rec.data]
  }

  /** What the collector does with one message: decode, validate, insert, ignore errors. */
  function Store(codec: Codec, table: Table, m: Message): Table {
    match codec.unmarshal(m.payload)
    case None => table
    case Some(rec) => InsertRecord(codec, table, rec)
  }

  function StoreAll(codec: Codec, table: Table, ms: seq<Message>): Table
    decreases |ms|
  {
    if ms == [] then table else
      Store(codec, StoreAll(codec, table, ms[..|ms| - 1]), ms[|ms| - 1])
  }

  /** The same when the database refuses some of the inserts, by place in the batch. */
  function StoreAccepted(codec: Codec, table: Table, ms: seq<Message>, refused: nat -> bool): Table
    decreases |ms|
  {
    if ms == [] then table else
      var before := StoreAccepted(codec, table, ms[..|ms| - 1], refused);
      if refused(|ms| - 1) then before else Store(codec, before, ms[|ms| - 1])
  }

  /** The payload decodes to a record of this GPU with a timestamp that names this instant. */
  predicate Carries(codec: Codec, m: Message, key: Key) {
    match codec.unmarshal(m.payload)
    case None => false
    case Some(rec) =>
      rec.gpuId == key.gpuId != [] && rec.timestamp != [] && codec.instant(rec.timestamp) == Some(key.instant)
  }

  function DataOf(codec: Codec, m: Message): Bytes {
    match codec.unmarshal(m.payload)
    case None => []
    case Some(rec) => rec.data
  }

  /** First wins: a key that was there keeps its row; any other key has a row exactly when
      some message carries it, and then the row of the first such message. */
  lemma {:induction false} StoreAllIsFirstWins(codec: Codec, table: Table, ms: seq<Message>, key: Key)
    ensures var t := StoreAll(codec, table, ms);
      && (key in table ==> key in t && t[key] == table[key])
      && (key !in table && key in t ==>
            exists i :: 0 <= i < |ms| && Carries(codec, ms[i], key) && t[key] == DataOf(codec, ms[i]) &&
              forall j :: 0 <= j < i ==> !Carries(codec, ms[j], key))
      && (forall i :: 0 <= i < |ms| && Carries(codec, ms[i], key) ==> key in t)
    decreases |ms|
  {
    if ms != [] {
      StoreAllIsFirstWins(codec, table, ms[..|ms| - 1], key);
    }
  }

  /** Two records with GPUs and timestamps that parse get one row between them exactly when both
      the GPUs and the instants agree, and then it has the first one's data. */
  lemma SamplesShareARowExactlyWhen(codec: Codec, table: Table, a: Record, b: Record, x: int, y: int)
    requires a.gpuId != [] && a.timestamp != [] && codec.instant(a.timestamp) == Some(x)
    requires b.gpuId != [] && b.timestamp != [] && codec.instant(b.timestamp) == Some(y)
    requires Key(a.gpuId, x) !in table && Key(b.gpuId, y) !in table
    ensures var t := InsertRecord(codec, InsertRecord(codec, table, a), b);
      && Key(a.gpuId, x) in t && t[Key(a.gpuId, x)] == a.data
      && Key(b.gpuId, y) in t
      && t.Keys == table.Keys + {Key(a.gpuId, x), Key(b.gpuId, y)}
      && (|t| == |table| + 1 <==> a.gpuId == b.gpuId && x == y)
      && (a.gpuId != b.gpuId || x != y ==> t[Key(b.gpuId, y)] == b.data)
  {
    var ka, kb := Key(a.gpuId, x), Key(b.gpuId, y);
    var t1 := table[ka := a.data];
    RowAdded(table, ka, a.data);
    assert InsertRecord(codec, table, a) == t1;
    if ka == kb {
      assert t1.Keys == table.Keys + {ka, kb};
    } else {
      RowAdded(t1, kb, b.data);
      assert InsertRecord(codec, t1, b) == t1[kb := b.data];
      assert t1[kb := b.data].Keys == table.Keys + {ka, kb};
    }
  }

  lemma RowAdded(table: Table, key: Key, data: Bytes)
    requires key !in table
    ensures |table[key := data]| == |table| + 1
  {
    assert table[key := data].Keys == table.Keys + {key};
    assert |table[key := data].Keys| == |table.Keys| + 1;
  }

  /** Storing again a message that is already part of the fold changes nothing. */
  lemma StoreIsIdempotent(codec: Codec, table: Table, ms: seq<Message>, i: nat)
    requires i < |ms|
    ensures Store(codec, StoreAll(codec, table, ms), ms[i]) == StoreAll(codec, table, ms)
  {
    var decoded := codec.unmarshal(ms[i].payload);
    if decoded.Some? && ValidRecord(codec, decoded.value) {
      StoreAllIsFirstWins(codec, table, ms, KeyOf(codec, decoded.value));
    }
  }

  /** The payload decodes to no valid record, or its key has a row already. */
  predicate Redundant(codec: Codec, table: Table, m: Message) {
    match codec.unmarshal(m.payload)
    case None => true
    case Some(rec) => !ValidRecord(codec, rec) || KeyOf(codec, rec) in table
  }

  /** Exactly the redundant messages leave the table as it is. */
  lemma StoreChangesNothingExactly(codec: Codec, table: Table, m: Message)
    ensures Store(codec, table, m) == table <==> Redundant(codec, table, m)
    ensures Redundant(codec, table, m) <==> forall key :: Carries(codec, m, key) ==> key in table
  {
    match codec.unmarshal(m.payload)
    case None =>
    case Some(rec) =>
      if ValidRecord(codec, rec) {
        assert Carries(codec, m, KeyOf(codec, rec));
      }
  }

  /** A message that does not carry a key leaves the row under it, or its absence, alone. */
  lemma StoreLeavesOtherKeys(codec: Codec, table: Table, m: Message, key: Key)
    requires !Carries(codec, m, key)
    ensures key in Store(codec, table, m) <==> key in table
    ensures key in table ==> Store(codec, table, m)[key] == table[key]
  {
  }

  /** A key has a row exactly when it had one or some message not refused carries it. */
  lemma {:induction false} StoreAcceptedRows(
      codec: Codec, table: Table, ms: seq<Message>, refused: nat -> bool, key: Key)
    ensures key in StoreAccepted(codec, table, ms, refused) <==>
      key in table || exists i: nat :: i < |ms| && !refused(i) && Carries(codec, ms[i], key)
    decreases |ms|
  {
    if ms != [] {
      var n, front := |ms| - 1, ms[..|ms| - 1];
      StoreAcceptedRows(codec, table, front, refused, key);
      assert forall i: nat :: i < n ==> front[i] == ms[i];
      if !Carries(codec, ms[n], key) {
        StoreLeavesOtherKeys(codec, StoreAccepted(codec, table, front, refused), ms[n], key);
      }
    }
  }

  /** Every refused message is redundant when its turn comes. */
  predicate Harmless(codec: Codec, table: Table, ms: seq<Message>, refused: nat -> bool) {
    forall i :: 0 <= i < |ms| && refused(i) ==> Redundant(codec, StoreAccepted(codec, table, ms[..i], refused), ms[i])
  }

  /** Harmless refusals leave the fold of the whole batch. */
  lemma {:induction false} HarmlessRefusalsDoNotShow(codec: Codec, table: Table, ms: seq<Message>, refused: nat -> bool)
    requires Harmless(codec, table, ms, refused)
    ensures StoreAccepted(codec, table, ms, refused) == StoreAll(codec, table, ms)
    decreases |ms|
  {
    if ms != [] {
      var front := ms[..|ms| - 1];
      assert forall i :: 0 <= i < |front| ==> front[..i] == ms[..i];
      HarmlessRefusalsDoNotShow(codec, table, front, refused);
      StoreChangesNothingExactly(codec, StoreAccepted(codec, table, front, refused), ms[|ms| - 1]);
    }
  }
}
