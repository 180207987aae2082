/** An ack as the two steps it really is: the queue checks the offset against the tail and
    stores it later. Under the timing the protocol asks for, an answered batch holds off the
    compactions that cut, so each split ack is an atomic one at the moment of its store. */
module AckSteps {
  import opened Types
  import opened PartitionSpec
  import opened Telemetry
  import opened Delivery

  /** The protocol's state, and the collectors whose ack has passed its check. */
  datatype Fine = Fine(world: World, checked: set<int>)

  /** A store that does not land went to a counter that a concurrent first commit replaced. */
  datatype Step =
    | Whole(e: Event)
    | CheckAck(c: int)
    | StoreAck(c: int, lands: bool)

  /** The collector has stored its batch and can ack it. */
  predicate Ackable(l: Lane, c: int) {
    c in l.flights && l.flights[c].next.Some? && !Inserting(l, c)
  }

  ghost function FineNext(codec: Codec, g: Bytes, f: Fine, step: Step): Fine {
    var l := f.world.lane;
    match step
    case Whole(e) => f.(world := Next(codec, g, f.world, e))
    case CheckAck(c) =>
      if !Ackable(l, c) || Commit(l.part, g, l.flights[c].next.value).1.Err? then f else
        f.(checked := f.checked + {c})
    case StoreAck(c, lands) =>
      if c !in f.checked || !Ackable(l, c) then f else
        var part := if lands then l.part.(offsets := l.part.offsets[g := l.flights[c].next.value]) else l.part;
        Fine(f.world.(lane := l.(part := part, flights := l.flights - {c})), f.checked - {c})
  }

  ghost function FineRun(codec: Codec, g: Bytes, f: Fine, steps: seq<Step>): Fine
    decreases |steps|
  {
    if steps == [] then f else FineRun(codec, g, FineNext(codec, g, f, steps[0]), steps[1..])
  }

  /** Whole events as before; an ack under way is not sent again and not given up. */
  ghost predicate FineLegalStep(codec: Codec, g: Bytes, f: Fine, step: Step) {
    match step
    case Whole(e) => LegalStep(codec, g, f.world, e) && ((e.SendAck? || e.Abandon?) ==> e.c !in f.checked)
    case CheckAck(_) => true
    case StoreAck(c, _) => c in f.checked
  }

  ghost predicate FineLegal(codec: Codec, g: Bytes, f: Fine, steps: seq<Step>)
    decreases |steps|
  {
    steps == [] ||
    (FineLegalStep(codec, g, f, steps[0]) && FineLegal(codec, g, FineNext(codec, g, f, steps[0]), steps[1..]))
  }

  /** The same run with each ack whole at the moment of its store; a lost one was never sent. */
  function Coarse(steps: seq<Step>): seq<Event>
    decreases |steps|
  {
    if steps == [] then [] else CoarseStep(steps[0]) + Coarse(steps[1..])
  }

  function CoarseStep(step: Step): seq<Event> {
    match step
    case Whole(e) => [e]
    case CheckAck(_) => []
    case StoreAck(c, lands) => [if lands then SendAck(c) else Abandon(c)]
  }

  /** A checked ack would pass its check again now. */
  ghost predicate FineSound(f: Fine, g: Bytes, c0: nat) {
    && Sound(f.world.lane, g, c0)
    && forall c :: c in f.checked ==> Ackable(f.world.lane, c) && g != []
  }

  lemma CheckStillPasses(l: Lane, g: Bytes, c0: nat, c: int)
    requires Sound(l, g, c0) && Ackable(l, c) && g != []
    ensures Commit(l.part, g, l.flights[c].next.value).1.Ok?
  {
    assert Airborne(l, c0, l.flights[c]);
  }

  lemma StepIsCoarse(codec: Codec, g: Bytes, c0: nat, f: Fine, step: Step)
    requires FineSound(f, g, c0) && FineLegalStep(codec, g, f, step)
    ensures var w := FineNext(codec, g, f, step).world;
      if CoarseStep(step) == [] then w == f.world
      else LegalStep(codec, g, f.world, CoarseStep(step)[0]) && w == Next(codec, g, f.world, CoarseStep(step)[0])
  {
    if step.StoreAck? {
      CheckStillPasses(f.world.lane, g, c0, step.c);
    }
  }

  lemma StepIsFineSound(codec: Codec, g: Bytes, c0: nat, f: Fine, step: Step)
    requires FineSound(f, g, c0) && FineLegalStep(codec, g, f, step)
    ensures FineSound(FineNext(codec, g, f, step), g, c0)
  {
    StepIsCoarse(codec, g, c0, f, step);
    if CoarseStep(step) != [] {
      StepKeepsSound(codec, g, c0, f.world, CoarseStep(step)[0]);
    }
    forall c | c in FineNext(codec, g, f, step).checked
      ensures Ackable(FineNext(codec, g, f, step).world.lane, c) && g != []
    {
      StaysAckable(codec, g, f, step, c);
    }
  }

  lemma StaysAckable(codec: Codec, g: Bytes, f: Fine, step: Step, c: int)
    requires FineLegalStep(codec, g, f, step)
    requires forall d :: d in f.checked ==> Ackable(f.world.lane, d) && g != []
    requires c in FineNext(codec, g, f, step).checked
    ensures Ackable(FineNext(codec, g, f, step).world.lane, c) && g != []
  {
  }

  /** Every legal run with split acks is a legal run with whole ones. */
  lemma {:induction false} SplitAcksAreAtomic(codec: Codec, g: Bytes, c0: nat, f: Fine, steps: seq<Step>)
    requires FineSound(f, g, c0) && FineLegal(codec, g, f, steps)
    ensures Legal(codec, g, f.world, Coarse(steps))
    ensures FineRun(codec, g, f, steps).world == Run(codec, g, f.world, Coarse(steps))
    decreases |steps|
  {
    if steps != [] {
      var f1 := FineNext(codec, g, f, steps[0]);
      StepIsCoarse(codec, g, c0, f, steps[0]);
      StepIsFineSound(codec, g, c0, f, steps[0]);
      SplitAcksAreAtomic(codec, g, c0, f1, steps[1..]);
      if CoarseStep(steps[0]) == [] {
        assert Coarse(steps) == Coarse(steps[1..]);
      } else {
        assert Coarse(steps)[0] == CoarseStep(steps[0])[0] && Coarse(steps)[1..] == Coarse(steps[1..]);
      }
    }
  }

  /** So the table is accounted for with split acks too. */
  lemma SplitAcksAreAccounted(codec: Codec, g: Bytes, w0: World, steps: seq<Step>)
    requires Start(w0, g) && FineLegal(codec, g, Fine(w0, {}), steps)
    ensures Accounted(codec, g, Position(w0.lane.part, g), w0.table, FineRun(codec, g, Fine(w0, {}), steps).world)
  {
    SplitAcksAreAtomic(codec, g, Position(w0.lane.part, g), Fine(w0, {}), steps);
    TableIsFoldOfProcessedPrefix(codec, g, w0, Coarse(steps));
  }
}
