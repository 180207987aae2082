/** Which records have rows when the database may refuse any insert: redundancy decides
    whether the table stays the fold of the log, accepted inserts decide the rows. */
module Rows {
  import opened Types
  import opened PartitionSpec
  import opened Telemetry
  import opened Delivery

  /** The event tries to insert a message that carries the key. */
  predicate Tries(codec: Codec, w: World, e: Event, key: Key) {
    && e.InsertNext? && Inserting(w.lane, e.c)
    && Carries(codec, w.lane.flights[e.c].batch[w.lane.flights[e.c].done], key)
  }

  /** The first accepted insert of the run that carries the key: its message. */
  ghost function Landed(codec: Codec, g: Bytes, w: World, events: seq<Event>, key: Key): Option<Message>
    decreases |events|
  {
    if events == [] then None
    else if Tries(codec, w, events[0], key) && events[0].accepted then
      Some(w.lane.flights[events[0].c].batch[w.lane.flights[events[0].c].done])
    else Landed(codec, g, Next(codec, g, w, events[0]), events[1..], key)
  }

  /** For any state and any events: a key has a row exactly when it had one or some accepted
      insert carried it, and the row is that of the first. */
  lemma {:induction false} RowsAreWhatLanded(codec: Codec, g: Bytes, w: World, events: seq<Event>, key: Key)
    ensures var table, landed := Run(codec, g, w, events).table, Landed(codec, g, w, events, key);
      && (key in table <==> key in w.table || landed.Some?)
      && (key in table ==> table[key] == if key in w.table then w.table[key] else DataOf(codec, landed.value))
    decreases |events|
  {
    if events != [] {
      StepLands(codec, g, w, events[0], key);
      RowsAreWhatLanded(codec, g, Next(codec, g, w, events[0]), events[1..], key);
    }
  }

  lemma StepLands(codec: Codec, g: Bytes, w: World, e: Event, key: Key)
    ensures var table, lands := Next(codec, g, w, e).table, Tries(codec, w, e, key) && e.accepted;
      && (key in table <==> key in w.table || lands)
      && (key in w.table ==> table[key] == w.table[key])
      && (lands && key !in w.table ==>
            table[key] == DataOf(codec, w.lane.flights[e.c].batch[w.lane.flights[e.c].done]))
  {
    if e.InsertNext? && Inserting(w.lane, e.c) {
      var m := w.lane.flights[e.c].batch[w.lane.flights[e.c].done];
      if !Carries(codec, m, key) {
        StoreLeavesOtherKeys(codec, w.table, m, key);
      }
    } else if !e.InsertNext? {
      OthersKeepTheFold(codec, g, w, e);
    }
  }

  // ---------- Runs with any refusals ----------

  /** What `LegalStep` asks of the timing; inserts may be refused at will. */
  ghost predicate Timely(codec: Codec, g: Bytes, w: World, events: seq<Event>)
    decreases |events|
  {
    events == [] ||
    ((events[0].InsertNext? || LegalStep(codec, g, w, events[0])) &&
     Timely(codec, g, Next(codec, g, w, events[0]), events[1..]))
  }

  lemma TimelyStepKeepsSound(codec: Codec, g: Bytes, c0: nat, w: World, e: Event)
    requires Sound(w.lane, g, c0) && (e.InsertNext? || LegalStep(codec, g, w, e))
    ensures Sound(Next(codec, g, w, e).lane, g, c0)
  {
    if e.InsertNext? {
      InsertKeepsSound(codec, g, c0, w, e.c, e.accepted);
    } else {
      StepKeepsSound(codec, g, c0, w, e);
    }
  }

  lemma {:induction false} TimelyRunKeepsSound(codec: Codec, g: Bytes, c0: nat, w: World, events: seq<Event>)
    requires Sound(w.lane, g, c0) && Timely(codec, g, w, events)
    ensures Sound(Run(codec, g, w, events).lane, g, c0)
    decreases |events|
  {
    if events != [] {
      TimelyStepKeepsSound(codec, g, c0, w, events[0]);
      TimelyRunKeepsSound(codec, g, c0, Next(codec, g, w, events[0]), events[1..]);
    }
  }

  /** Some insert of the run was of a message that carries the key, accepted or not. */
  ghost predicate SomeTries(codec: Codec, g: Bytes, w: World, events: seq<Event>, key: Key)
    decreases |events|
  {
    events != [] &&
    (Tries(codec, w, events[0], key) || SomeTries(codec, g, Next(codec, g, w, events[0]), events[1..], key))
  }

  /** Every one of them was refused. */
  ghost predicate AllRefused(codec: Codec, g: Bytes, w: World, events: seq<Event>, key: Key)
    decreases |events|
  {
    events == [] ||
    ((Tries(codec, w, events[0], key) ==> !events[0].accepted) &&
     AllRefused(codec, g, Next(codec, g, w, events[0]), events[1..], key))
  }

  lemma {:induction false} AllRefusedIsNoneLanded(codec: Codec, g: Bytes, w: World, events: seq<Event>, key: Key)
    ensures AllRefused(codec, g, w, events, key) <==> Landed(codec, g, w, events, key).None?
    decreases |events|
  {
    if events != [] {
      AllRefusedIsNoneLanded(codec, g, Next(codec, g, w, events[0]), events[1..], key);
    }
  }

  /** The processed prefix grows by the message just inserted and by nothing else. */
  lemma StepTriesTheNext(codec: Codec, g: Bytes, c0: nat, w: World, e: Event, i: nat)
    requires Sound(w.lane, g, c0)
    ensures var l := Next(codec, g, w, e).lane;
      && w.lane.part.log <= l.part.log
      && (w.lane.hi <= i < l.hi ==>
            && e.InsertNext? && Inserting(w.lane, e.c) && i < |l.part.log|
            && w.lane.flights[e.c].batch[w.lane.flights[e.c].done] == l.part.log[i])
  {
    if e.InsertNext? && Inserting(w.lane, e.c) {
      assert Airborne(w.lane, c0, w.lane.flights[e.c]);
    }
  }

  ghost function LogAfter(codec: Codec, g: Bytes, w: World, events: seq<Event>): seq<Message> {
    Run(codec, g, w, events).lane.part.log
  }

  lemma {:induction false} EveryProcessedMessageWasTried(
      codec: Codec, g: Bytes, c0: nat, w: World, events: seq<Event>, i: nat, key: Key)
    requires Sound(w.lane, g, c0) && Timely(codec, g, w, events)
    requires w.lane.hi <= i < Run(codec, g, w, events).lane.hi
    requires i < |LogAfter(codec, g, w, events)| && Carries(codec, LogAfter(codec, g, w, events)[i], key)
    ensures SomeTries(codec, g, w, events, key)
    decreases |events|
  {
    var w1 := Next(codec, g, w, events[0]);
    TimelyStepKeepsSound(codec, g, c0, w, events[0]);
    StepTriesTheNext(codec, g, c0, w, events[0], i);
    LogsOnlyGrow(codec, g, w1, events[1..]);
    if i >= w1.lane.hi {
      EveryProcessedMessageWasTried(codec, g, c0, w1, events[1..], i, key);
    }
  }

  lemma {:induction false} LogsOnlyGrow(codec: Codec, g: Bytes, w: World, events: seq<Event>)
    ensures w.lane.part.log <= LogAfter(codec, g, w, events)
    decreases |events|
  {
    if events != [] {
      StepGrowsLog(codec, g, w, events[0]);
      LogsOnlyGrow(codec, g, Next(codec, g, w, events[0]), events[1..]);
    }
  }

  lemma StepGrowsLog(codec: Codec, g: Bytes, w: World, e: Event)
    ensures w.lane.part.log <= Next(codec, g, w, e).lane.part.log
  {
  }

  /** Whatever the database refuses: an insert of each valid record the group has passed since
      the start was tried, and the record lacks a row exactly when its key had none at the
      start and every insert that carried the key was refused. */
  lemma CommittedRowIsMissingExactlyWhen(codec: Codec, g: Bytes, w0: World, events: seq<Event>, i: nat, key: Key)
    requires Start(w0, g) && Timely(codec, g, w0, events)
    requires Position(w0.lane.part, g) <= i < Position(Run(codec, g, w0, events).lane.part, g)
    requires i < |LogAfter(codec, g, w0, events)| ==> Carries(codec, LogAfter(codec, g, w0, events)[i], key)
    ensures i < |LogAfter(codec, g, w0, events)|
    ensures SomeTries(codec, g, w0, events, key)
    ensures key !in Run(codec, g, w0, events).table <==> key !in w0.table && AllRefused(codec, g, w0, events, key)
  {
    TimelyRunKeepsSound(codec, g, w0.lane.hi, w0, events);
    EveryProcessedMessageWasTried(codec, g, w0.lane.hi, w0, events, i, key);
    RowsAreWhatLanded(codec, g, w0, events, key);
    AllRefusedIsNoneLanded(codec, g, w0, events, key);
  }
}
