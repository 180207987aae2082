/** Several collectors of one group drain one partition: consume, insert and ack as a step
    protocol without leases, where acks may move the offset backward.

    A consume reads the batch first and the group's offset again for the response, so it is
    two steps. What the results need beyond that is stated in `LegalStep`: the group stands at
    the same place at both reads; a compaction that removes something happens only once the
    group has committed and while no answered batch is in flight; an insert the database
    refuses is one of a redundant message: no valid record, or a key that has a row. */
module Delivery {
  import opened Types
  import opened PartitionSpec
  import opened Telemetry
  import Refinement

  /** A batch on its way to, or held by, a collector. `next` is the offset the response told
      it to ack, once it is answered; `start` is the position of its first message in the
      uncut log (history). */
  datatype Flight = Flight(start: nat, batch: seq<Message>, next: Option<int>, done: nat)

  /** One partition, who holds what of it, and two history variables: the positions handed
      out, and the end `hi` of the prefix that has been processed. */
  datatype Lane = Lane(part: State, flights: map<int, Flight>, delivered: set<nat>, hi: nat)

  datatype World = World(lane: Lane, table: Table)

  datatype Event =
    | Arrive(m: Message)
    | ReadBatch(c: int, batch: int)
    | Answer(c: int)
    | InsertNext(c: int, accepted: bool)
    | SendAck(c: int)
    | Abandon(c: int)
    | Sweep
    | OtherAck(h: Bytes, offset: int)

  function Positions(from: nat, n: nat): (positions: set<nat>)
    ensures forall i :: i in positions <==> from <= i < from + n
  {
    if n == 0 then {} else Positions(from, n - 1) + {from + n - 1}
  }

  /** The first half of a consume: `Queue.Consume`. */
  function Fetched(s: State, g: Bytes, batch: int): Option<Flight> {
    if batch <= 0 then None else
      var r := ReadFrom(s, Offset(s, g), batch);
      if r.Err? || r.value == [] then None
      else Some(Flight(Position(s, g), r.value, None, 0))
  }

  /** The second half: `HandleConsume` computes the next offset from the group's offset now. */
  function Answered(s: State, g: Bytes, f: Flight): Flight {
    f.(next := Some(Offset(s, g) + |f.batch|))
  }

  /** The collector has the answer and messages left to insert. */
  predicate Inserting(l: Lane, c: int) {
    c in l.flights && l.flights[c].next.Some? && l.flights[c].done < |l.flights[c].batch|
  }

  /** An event that cannot happen in a state leaves it as it is. */
  ghost function Next(codec: Codec, g: Bytes, w: World, e: Event): World {
    var l := w.lane;
    match e
    case Arrive(m) =>
      w.(lane := l.(part := Append(l.part, m).0))
    case ReadBatch(c, batch) =>
      var fetched := Fetched(l.part, g, batch);
      if c in l.flights || fetched.None? then w else
        w.(lane := l.(flights := l.flights[c := fetched.value],
                      delivered := l.delivered + Positions(fetched.value.start, |fetched.value.batch|)))
    case Answer(c) =>
      if c !in l.flights || l.flights[c].next.Some? then w else
        w.(lane := l.(flights := l.flights[c := Answered(l.part, g, l.flights[c])]))
    case InsertNext(c, accepted) =>
      if !Inserting(l, c) then w else
        var f := l.flights[c];
        var end := f.start + f.done + 1;
        World(l.(flights := l.flights[c := f.(done := f.done + 1)], hi := if l.hi < end then end else l.hi),
              if accepted then Store(codec, w.table, f.batch[f.done]) else w.table)
    case SendAck(c) =>
      if c !in l.flights || l.flights[c].next.None? || Inserting(l, c) then w else
        w.(lane := l.(part := Commit(l.part, g, l.flights[c].next.value).0, flights := l.flights - {c}))
    case Abandon(c) =>
      w.(lane := l.(flights := l.flights - {c}))
    case Sweep =>
      w.(lane := l.(part := Compact(l.part).0))
    case OtherAck(h, offset) =>
      w.(lane := l.(part := Commit(l.part, h, offset).0))
  }

  ghost function Run(codec: Codec, g: Bytes, w: World, events: seq<Event>): World
    decreases |events|
  {
    if events == [] then w else Run(codec, g, Next(codec, g, w, events[0]), events[1..])
  }

  lemma RunOfCons(codec: Codec, g: Bytes, w: World, e: Event, ys: seq<Event>)
    ensures Run(codec, g, w, [e] + ys) == Run(codec, g, Next(codec, g, w, e), ys)
  {
    assert ([e] + ys)[1..] == ys;
  }

  lemma RunOfOne(codec: Codec, g: Bytes, w: World, e: Event)
    ensures Run(codec, g, w, [e]) == Next(codec, g, w, e)
  {
    assert [e][1..] == [];
  }

  lemma {:induction false} RunOfConcat(codec: Codec, g: Bytes, w: World, xs: seq<Event>, ys: seq<Event>)
    ensures Run(codec, g, w, xs + ys) == Run(codec, g, Run(codec, g, w, xs), ys)
    decreases |xs|
  {
    if xs == [] {
      assert xs + ys == ys;
    } else {
      assert (xs + ys)[1..] == xs[1..] + ys;
      RunOfConcat(codec, g, Next(codec, g, w, xs[0]), xs[1..], ys);
    }
  }

  ghost predicate LegalStep(codec: Codec, g: Bytes, w: World, e: Event) {
    var l := w.lane;
    match e
    case Answer(c) => c in l.flights && l.flights[c].next.None? ==> Position(l.part, g) == l.flights[c].start
    case InsertNext(c, accepted) =>
      !accepted && Inserting(l, c) ==> Redundant(codec, w.table, l.flights[c].batch[l.flights[c].done])
    case Sweep =>
      Cut(l.part) == 0 || (g in l.part.offsets && forall c :: c in l.flights ==> l.flights[c].next.None?)
    case OtherAck(h, offset) => h != g
    case _ => true
  }

  ghost predicate Legal(codec: Codec, g: Bytes, w: World, events: seq<Event>)
    decreases |events|
  {
    events == [] ||
    (LegalStep(codec, g, w, events[0]) && Legal(codec, g, Next(codec, g, w, events[0]), events[1..]))
  }

  // ---------- The invariant ----------

  /** A flight is a stretch of the log whose processed part lies in the processed prefix and
      whose ack names its end. */
  ghost predicate Airborne(l: Lane, c0: nat, f: Flight) {
    && c0 <= f.start && f.done <= |f.batch|
    && f.start + f.done <= l.hi
    && f.start + |f.batch| <= |l.part.log|
    && f.batch == l.part.log[f.start..f.start + |f.batch|]
    && (f.next.Some? ==> l.part.base <= f.start && l.part.base + f.next.value == f.start + |f.batch|)
    && (f.next.None? ==> f.done == 0)
    && Positions(f.start, |f.batch|) <= l.delivered
  }

  ghost predicate Sound(l: Lane, g: Bytes, c0: nat) {
    && InBounds(l.part)
    && c0 <= Position(l.part, g) <= l.hi <= |l.part.log|
    && (forall i: nat :: c0 <= i < l.hi ==> i in l.delivered)
    && forall c :: c in l.flights ==> Airborne(l, c0, l.flights[c])
  }

  ghost predicate Inv(codec: Codec, g: Bytes, c0: nat, t0: Table, w: World) {
    && Sound(w.lane, g, c0)
    && w.table == StoreAll(codec, t0, w.lane.part.log[c0..w.lane.hi])
  }

  lemma FetchIsAirborne(l: Lane, g: Bytes, c0: nat, batch: int)
    requires Sound(l, g, c0) && Fetched(l.part, g, batch).Some?
    ensures var f := Fetched(l.part, g, batch).value;
      Airborne(l.(delivered := l.delivered + Positions(f.start, |f.batch|)), c0, f)
  {
  }

  /** The heart of the protocol: storing message `i` when `c0..hi` has been stored either
      repeats one of those or, at `i == hi`, adds the one just after them. */
  lemma StoringExtendsTheFold(codec: Codec, t0: Table, log: seq<Message>, c0: nat, hi: nat, i: nat)
    requires c0 <= i <= hi <= |log| && i < |log|
    ensures Store(codec, StoreAll(codec, t0, log[c0..hi]), log[i]) ==
            StoreAll(codec, t0, log[c0..if hi < i + 1 then i + 1 else hi])
  {
    if i < hi {
      StoreIsIdempotent(codec, t0, log[c0..hi], i - c0);
    } else {
      assert log[c0..i + 1] == log[c0..i] + [log[i]];
    }
  }

  lemma ReadKeepsSound(codec: Codec, g: Bytes, c0: nat, w: World, c: int, batch: int)
    requires Sound(w.lane, g, c0)
    ensures Sound(Next(codec, g, w, ReadBatch(c, batch)).lane, g, c0)
  {
    if c !in w.lane.flights && Fetched(w.lane.part, g, batch).Some? {
      FetchIsAirborne(w.lane, g, c0, batch);
    }
  }

  /** What appends, acks of other groups and permitted compactions do to the partition. */
  lemma PartitionMoves(l: Lane, g: Bytes, c0: nat, part: State)
    requires Sound(l, g, c0) && InBounds(part)
    requires l.part.log <= part.log && Position(part, g) == Position(l.part, g)
    requires part.base == l.part.base || forall c :: c in l.flights ==> l.flights[c].next.None?
    ensures Sound(l.(part := part), g, c0)
  {
  }

  lemma InsertKeepsSound(codec: Codec, g: Bytes, c0: nat, w: World, c: int, accepted: bool)
    requires Sound(w.lane, g, c0)
    ensures Sound(Next(codec, g, w, InsertNext(c, accepted)).lane, g, c0)
  {
  }

  lemma AnswerKeepsSound(codec: Codec, g: Bytes, c0: nat, w: World, c: int)
    requires Sound(w.lane, g, c0) && LegalStep(codec, g, w, Answer(c))
    ensures Sound(Next(codec, g, w, Answer(c)).lane, g, c0)
  {
  }

  lemma AckKeepsSound(codec: Codec, g: Bytes, c0: nat, w: World, c: int)
    requires Sound(w.lane, g, c0)
    ensures Sound(Next(codec, g, w, SendAck(c)).lane, g, c0)
  {
    if c in w.lane.flights {
      assert Airborne(w.lane, c0, w.lane.flights[c]);
    }
  }

  lemma SweepKeepsSound(l: Lane, g: Bytes, c0: nat)
    requires Sound(l, g, c0)
    requires Cut(l.part) == 0 || (g in l.part.offsets && forall c :: c in l.flights ==> l.flights[c].next.None?)
    ensures Sound(l.(part := Compact(l.part).0), g, c0)
  {
    assert g in l.part.offsets ==> Cut(l.part) <= l.part.offsets[g];
    PartitionMoves(l, g, c0, Compact(l.part).0);
  }

  lemma ArriveKeepsSound(l: Lane, g: Bytes, c0: nat, m: Message)
    requires Sound(l, g, c0)
    ensures Sound(l.(part := Append(l.part, m).0), g, c0)
  {
    PartitionMoves(l, g, c0, Append(l.part, m).0);
  }

  lemma OtherAckKeepsSound(l: Lane, g: Bytes, c0: nat, h: Bytes, offset: int)
    requires Sound(l, g, c0) && h != g
    ensures Sound(l.(part := Commit(l.part, h, offset).0), g, c0)
  {
    PartitionMoves(l, g, c0, Commit(l.part, h, offset).0);
  }

  lemma StepKeepsSound(codec: Codec, g: Bytes, c0: nat, w: World, e: Event)
    requires Sound(w.lane, g, c0) && LegalStep(codec, g, w, e)
    ensures Sound(Next(codec, g, w, e).lane, g, c0)
  {
    var l := w.lane;
    match e
    case Arrive(m) => ArriveKeepsSound(l, g, c0, m);
    case ReadBatch(c, batch) => ReadKeepsSound(codec, g, c0, w, c, batch);
    case Answer(c) => AnswerKeepsSound(codec, g, c0, w, c);
    case InsertNext(c, accepted) => InsertKeepsSound(codec, g, c0, w, c, accepted);
    case SendAck(c) => AckKeepsSound(codec, g, c0, w, c);
    case Abandon(c) =>
    case Sweep => SweepKeepsSound(l, g, c0);
    case OtherAck(h, offset) => OtherAckKeepsSound(l, g, c0, h, offset);
  }

  /** Only inserts touch the table or the processed prefix, and logs only grow. */
  lemma OthersKeepTheFold(codec: Codec, g: Bytes, w: World, e: Event)
    requires !e.InsertNext?
    ensures var w' := Next(codec, g, w, e);
      w'.table == w.table && w'.lane.hi == w.lane.hi && w.lane.part.log <= w'.lane.part.log
  {
  }

  lemma InsertKeepsInv(codec: Codec, g: Bytes, c0: nat, t0: Table, w: World, c: int, accepted: bool)
    requires Inv(codec, g, c0, t0, w) && Inserting(w.lane, c)
    requires LegalStep(codec, g, w, InsertNext(c, accepted))
    ensures Inv(codec, g, c0, t0, Next(codec, g, w, InsertNext(c, accepted)))
  {
    var f := w.lane.flights[c];
    InsertKeepsSound(codec, g, c0, w, c, accepted);
    assert f.batch[f.done] == w.lane.part.log[f.start + f.done];
    StoringExtendsTheFold(codec, t0, w.lane.part.log, c0, w.lane.hi, f.start + f.done);
    StoreChangesNothingExactly(codec, w.table, f.batch[f.done]);
  }

  lemma StepKeepsInv(codec: Codec, g: Bytes, c0: nat, t0: Table, w: World, e: Event)
    requires Inv(codec, g, c0, t0, w) && LegalStep(codec, g, w, e)
    ensures Inv(codec, g, c0, t0, Next(codec, g, w, e))
  {
    if e.InsertNext? {
      if Inserting(w.lane, e.c) {
        InsertKeepsInv(codec, g, c0, t0, w, e.c, e.accepted);
      }
    } else {
      StepKeepsSound(codec, g, c0, w, e);
      OthersKeepTheFold(codec, g, w, e);
      var log, hi := w.lane.part.log, w.lane.hi;
      assert Next(codec, g, w, e).lane.part.log[c0..hi] == log[c0..hi];
    }
  }

  lemma {:induction false} RunKeepsInv(codec: Codec, g: Bytes, c0: nat, t0: Table, w: World, events: seq<Event>)
    requires Inv(codec, g, c0, t0, w) && Legal(codec, g, w, events)
    ensures Inv(codec, g, c0, t0, Run(codec, g, w, events))
    decreases |events|
  {
    if events != [] {
      StepKeepsInv(codec, g, c0, t0, w, events[0]);
      RunKeepsInv(codec, g, c0, t0, Next(codec, g, w, events[0]), events[1..]);
    }
  }

  // ---------- Main results ----------

  /** A partition at the start of a run: nothing in flight, processed up to the group. */
  ghost predicate Start(w: World, g: Bytes) {
    && InBounds(w.lane.part)
    && w.lane.flights == map[]
    && w.lane.hi == Position(w.lane.part, g)
  }

  /** What holds in every reachable state: the table is the first-wins fold of a prefix of the
      log that reaches at least to the committed position, and every message below that
      position has been handed out. */
  ghost predicate Accounted(codec: Codec, g: Bytes, c0: nat, t0: Table, w: World) {
    && c0 <= Position(w.lane.part, g) <= w.lane.hi <= |w.lane.part.log|
    && w.table == StoreAll(codec, t0, w.lane.part.log[c0..w.lane.hi])
    && forall i: nat :: c0 <= i < Position(w.lane.part, g) ==> i in w.lane.delivered
  }

  /** However many collectors interleave, fail or die, and however their acks fall. */
  lemma TableIsFoldOfProcessedPrefix(codec: Codec, g: Bytes, w0: World, events: seq<Event>)
    requires Start(w0, g) && Legal(codec, g, w0, events)
    ensures Accounted(codec, g, Position(w0.lane.part, g), w0.table, Run(codec, g, w0, events))
  {
    var c0 := Position(w0.lane.part, g);
    assert w0.lane.part.log[c0..c0] == [];
    RunKeepsInv(codec, g, c0, w0.table, w0, events);
  }

  /** Hence at-least-once storage: each valid record between the start and the committed
      position has a row under its key. */
  lemma CommittedRecordsAreStored(codec: Codec, g: Bytes, c0: nat, t0: Table, w: World, i: nat, key: Key)
    requires Accounted(codec, g, c0, t0, w)
    requires c0 <= i < Position(w.lane.part, g) && Carries(codec, w.lane.part.log[i], key)
    ensures key in w.table
  {
    var stored := w.lane.part.log[c0..w.lane.hi];
    assert stored[i - c0] == w.lane.part.log[i];
    StoreAllIsFirstWins(codec, t0, stored, key);
  }

  /** Confluence: once the group stands at the tail, the table is the fold of the whole log
      from the start, whatever the number of collectors and their interleaving. */
  lemma DrainedTableIsDetermined(codec: Codec, g: Bytes, w0: World, events: seq<Event>)
    requires Start(w0, g) && Legal(codec, g, w0, events)
    ensures var c0 := Position(w0.lane.part, g);
      var w := Run(codec, g, w0, events);
      Position(w.lane.part, g) == |w.lane.part.log| ==>
        0 <= c0 <= |w.lane.part.log| && w.table == StoreAll(codec, w0.table, w.lane.part.log[c0..])
  {
    TableIsFoldOfProcessedPrefix(codec, g, w0, events);
    FoldAtTheTail(codec, g, Position(w0.lane.part, g), w0.table, Run(codec, g, w0, events));
  }

  lemma FoldAtTheTail(codec: Codec, g: Bytes, c0: nat, t0: Table, w: World)
    requires Accounted(codec, g, c0, t0, w)
    ensures c0 <= |w.lane.part.log|
    ensures Position(w.lane.part, g) == |w.lane.part.log| ==>
      w.table == StoreAll(codec, t0, w.lane.part.log[c0..])
  {
    assert w.lane.part.log[c0..|w.lane.part.log|] == w.lane.part.log[c0..];
  }

  // ---------- Why the hypotheses are needed ----------

  /** An answer names the end of its batch shifted by how far the group moved between the two
      reads: exactly the end when it did not move. */
  lemma AnswerDrift(s: State, t: State, g: Bytes, batch: int)
    requires Consistent(s) && Consistent(t) && Fetched(s, g, batch).Some?
    ensures var f := Fetched(s, g, batch).value;
      var named := t.base + Answered(t, g, f).next.value;
      var end := f.start + |f.batch|;
      && named - end == Position(t, g) - Position(s, g)
      && (named == end <==> Position(t, g) == Position(s, g))
  {
  }

  /** Over the appends, commits and compactions between the two reads: the answer names the end
      of the batch exactly when the last commit of the group among them put it back where it
      stood or, without one, it had committed before or nothing was cut. */
  lemma AnswerNamesTheEndExactlyWhen(s: State, ops: seq<Refinement.Op>, g: Bytes, batch: int)
    requires InBounds(s) && Fetched(s, g, batch).Some?
    ensures var f := Fetched(s, g, batch).value;
      var t := Refinement.Run(s, ops);
      t.base + Answered(t, g, f).next.value == f.start + |f.batch| <==>
        match Refinement.PutAt(s, ops, g)
        case Some(place) => place == Position(s, g)
        case None => g in s.offsets || !exists k :: Refinement.CutsAt(s, ops, k)
  {
    Refinement.RunKeeps(s, ops);
    Refinement.GroupStandsExactlyWhen(s, ops, g);
    AnswerDrift(s, Refinement.Run(s, ops), g, batch);
  }

  /** A refused insert keeps the table the fold of the processed prefix exactly when the
      message is redundant. */
  lemma RefusedInsertKeepsFoldExactly(codec: Codec, g: Bytes, c0: nat, t0: Table, w: World, c: int)
    requires Inv(codec, g, c0, t0, w) && Inserting(w.lane, c)
    ensures var f := w.lane.flights[c];
      var w' := Next(codec, g, w, InsertNext(c, false));
      && c0 <= w'.lane.hi <= |w'.lane.part.log|
      && (w'.table == StoreAll(codec, t0, w'.lane.part.log[c0..w'.lane.hi]) <==>
          Redundant(codec, w.table, f.batch[f.done]))
  {
    var f := w.lane.flights[c];
    InsertKeepsSound(codec, g, c0, w, c, false);
    assert f.batch[f.done] == w.lane.part.log[f.start + f.done];
    StoringExtendsTheFold(codec, t0, w.lane.part.log, c0, w.lane.hi, f.start + f.done);
    StoreChangesNothingExactly(codec, w.table, f.batch[f.done]);
  }

  /** The ack does not ask. After the refused insert of the last message of a batch it passes
      that message, and every record the message carries has a row exactly when the message
      was redundant. */
  lemma AckPassesRefusedInsert(codec: Codec, g: Bytes, c0: nat, t0: Table, w: World, c: int)
    requires Inv(codec, g, c0, t0, w) && Inserting(w.lane, c) && g != []
    requires w.lane.flights[c].done == |w.lane.flights[c].batch| - 1
    ensures var f := w.lane.flights[c];
      var i := f.start + f.done;
      var w' := Next(codec, g, Next(codec, g, w, InsertNext(c, false)), SendAck(c));
      && i < Position(w'.lane.part, g) && i < |w'.lane.part.log| && w'.lane.part.log[i] == f.batch[f.done]
      && ((forall key :: Carries(codec, w'.lane.part.log[i], key) ==> key in w'.table) <==>
          Redundant(codec, w.table, f.batch[f.done]))
  {
    var f := w.lane.flights[c];
    assert Airborne(w.lane, c0, f);
    assert f.batch[f.done] == w.lane.part.log[f.start + f.done];
    StoreChangesNothingExactly(codec, w.table, f.batch[f.done]);
  }

  function OneMessage(g: Bytes, m: Message, offset: int): State {
    State([m], 0, map[g := offset], [m], 0)
  }

  /** One collector, one message whose record has no row: read, answered, refused, acked. The
      group has passed the message and its record has no row. */
  lemma RefusedRecordIsLost(codec: Codec, g: Bytes, m: Message, key: Key, table: Table)
    requires g != [] && Carries(codec, m, key) && key !in table
    ensures var f := FirstMessage(m);
      var w0 := World(Lane(OneMessage(g, m, 0), map[], {}, 0), table);
      var w1 := World(Lane(OneMessage(g, m, 0), map[1 := f], {0}, 0), table);
      var w2 := World(Lane(OneMessage(g, m, 0), map[1 := f.(next := Some(1))], {0}, 0), table);
      var w3 := World(Lane(OneMessage(g, m, 0), map[1 := f.(next := Some(1), done := 1)], {0}, 1), table);
      var w4 := World(Lane(OneMessage(g, m, 1), map[], {0}, 1), table);
      && Start(w0, g)
      && Next(codec, g, w0, ReadBatch(1, 1)) == w1
      && Next(codec, g, w1, Answer(1)) == w2
      && Next(codec, g, w2, InsertNext(1, false)) == w3
      && Next(codec, g, w3, SendAck(1)) == w4
      && Position(w4.lane.part, g) == 1 && key !in w4.table
  {
    assert OneMessage(g, m, 0).live[0..1] == [m];
    assert Positions(0, 1) == {0};
    assert map[1 := FirstMessage(m).(next := Some(1), done := 1)] - {1} == map[];
  }

  function TwoMessages(g: Bytes, m: Message, n: Message, offset: int): State {
    State([m, n], 0, map[g := offset], [m, n], 0)
  }

  function FirstMessage(m: Message): Flight {
    Flight(0, [m], None, 0)
  }

  ghost function BothRead(codec: Codec, g: Bytes, w: World): World {
    Next(codec, g, Next(codec, g, w, ReadBatch(1, 1)), ReadBatch(2, 1))
  }

  ghost function Finish(codec: Codec, g: Bytes, w: World, c: int): World {
    Next(codec, g, Next(codec, g, Next(codec, g, w, Answer(c)), InsertNext(c, true)), SendAck(c))
  }

  lemma BothHoldTheFirst(codec: Codec, g: Bytes, m: Message, n: Message, table: Table)
    ensures var s := TwoMessages(g, m, n, 0);
      BothRead(codec, g, World(Lane(s, map[], {}, 0), table)) ==
      World(Lane(s, map[1 := FirstMessage(m), 2 := FirstMessage(m)], {0}, 0), table)
  {
    var s := TwoMessages(g, m, n, 0);
    var w0 := World(Lane(s, map[], {}, 0), table);
    assert Fetched(s, g, 1) == Some(FirstMessage(m)) by { assert s.live[0..1] == [m]; WrapOfOneSum(1); }
    assert Positions(0, 1) == {0};
    assert Next(codec, g, w0, ReadBatch(1, 1)) == World(Lane(s, map[1 := FirstMessage(m)], {0}, 0), table);
  }

  /** Being answered now, a collector acks one past where the group stands now. */
  lemma FinishMovesTheGroup(
      codec: Codec, g: Bytes, m: Message, n: Message, table: Table,
      flights: map<int, Flight>, c: int, offset: nat, hi: nat)
    requires g != [] && offset < 2 && hi < 2
    requires c in flights && flights[c] == FirstMessage(m)
    ensures Finish(codec, g, World(Lane(TwoMessages(g, m, n, offset), flights, {0}, hi), table), c) ==
            World(Lane(TwoMessages(g, m, n, offset + 1), flights - {c}, {0}, 1), Store(codec, table, m))
  {
    var s := TwoMessages(g, m, n, offset);
    var f := FirstMessage(m).(next := Some(offset + 1));
    var w0 := World(Lane(s, flights, {0}, hi), table);
    var w1 := World(Lane(s, flights[c := f], {0}, hi), table);
    var w2 := World(Lane(s, flights[c := f.(done := 1)], {0}, 1), Store(codec, table, m));
    assert Next(codec, g, w0, Answer(c)) == w1;
    assert flights[c := f][c := f.(done := 1)] == flights[c := f.(done := 1)];
    assert Next(codec, g, w1, InsertNext(c, true)) == w2;
    assert flights[c := f.(done := 1)] - {c} == flights - {c};
  }

  lemma StoredTwiceLeaves(codec: Codec, table: Table, m: Message, key: Key)
    requires !Carries(codec, m, key) && key !in table
    ensures key !in Store(codec, Store(codec, table, m), m)
  {
    StoreLeavesOtherKeys(codec, table, m, key);
    StoreLeavesOtherKeys(codec, Store(codec, table, m), m, key);
  }

  /** Two collectors and two messages. Both read the first message; the second collector is
      answered, stores it and acks; only then is the first one answered, told to ack 2, and
      does so. Now the group stands at the tail although the second message was never handed
      out, and a record that only the second message carries has no row: a consume split by
      another collector's ack breaks at-least-once. */
  lemma LateAnswerSkipsMessages(codec: Codec, g: Bytes, m: Message, n: Message, key: Key, table: Table)
    requires g != []
    requires Carries(codec, n, key) && !Carries(codec, m, key) && key !in table
    ensures var f, stored := FirstMessage(m), Store(codec, table, m);
      var w0 := World(Lane(TwoMessages(g, m, n, 0), map[], {}, 0), table);
      var w1 := World(Lane(TwoMessages(g, m, n, 0), map[1 := f, 2 := f], {0}, 0), table);
      var w2 := World(Lane(TwoMessages(g, m, n, 1), map[1 := f, 2 := f] - {2}, {0}, 1), stored);
      var w3 := World(Lane(TwoMessages(g, m, n, 2), map[1 := f, 2 := f] - {2} - {1}, {0}, 1), Store(codec, stored, m));
      && Start(w0, g)
      && BothRead(codec, g, w0) == w1
      && Finish(codec, g, w1, 2) == w2
      && Finish(codec, g, w2, 1) == w3
      && Position(w3.lane.part, g) == |w3.lane.part.log| && 1 !in w3.lane.delivered
      && key !in w3.table
  {
    var f := FirstMessage(m);
    BothHoldTheFirst(codec, g, m, n, table);
    FinishMovesTheGroup(codec, g, m, n, table, map[1 := f, 2 := f], 2, 0, 0);
    FinishMovesTheGroup(codec, g, m, n, Store(codec, table, m), map[1 := f, 2 := f] - {2}, 1, 1, 1);
    StoredTwiceLeaves(codec, table, m, key);
  }
}
