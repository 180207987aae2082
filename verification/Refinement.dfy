/** Whole runs of one partition: what compaction keeps, and that a log which renumbers
    itself answers like one that is never cut. */
module Refinement {
  import opened Types
  import opened PartitionSpec

  /** The calls that change a partition, each taken as one atomic step. */
  datatype Op =
    | DoAppend(m: Message)
    | DoCommit(g: Bytes, offset: int)
    | DoCompact

  ghost function Step(s: State, op: Op): (s': State)
    requires Consistent(s)
    ensures Consistent(s')
  {
    match op
    case DoAppend(m) => Append(s, m).0
    case DoCommit(g, offset) => Commit(s, g, offset).0
    case DoCompact => Compact(s).0
  }

  ghost function Run(s: State, ops: seq<Op>): (s': State)
    requires Consistent(s)
    ensures Consistent(s')
    decreases |ops|
  {
    if ops == [] then s else Run(Step(s, ops[0]), ops[1..])
  }

  // ---------- Invariants and conservation ----------

  /** What no step ever undoes. */
  ghost predicate Grows(s: State, t: State)
    requires Consistent(s) && Consistent(t)
  {
    && s.log <= t.log
    && s.base <= t.base
    && s.capacity == t.capacity
    && s.offsets.Keys <= t.offsets.Keys
  }

  lemma {:induction false} RunKeeps(s: State, ops: seq<Op>)
    requires InBounds(s)
    ensures InBounds(Run(s, ops)) && Grows(s, Run(s, ops))
    decreases |ops|
  {
    if ops != [] {
      RunKeeps(Step(s, ops[0]), ops[1..]);
    }
  }

  function AcceptedBy(s: State, op: Op): seq<Message> {
    if op.DoAppend? && Append(s, op.m).1.Ok? then [op.m] else []
  }

  ghost function RemovedBy(s: State, op: Op): nat
    requires Consistent(s)
  {
    if op.DoCompact? then Compact(s).1 else 0
  }

  /** The messages a run's appends got accepted, in order. */
  ghost function Accepted(s: State, ops: seq<Op>): seq<Message>
    requires Consistent(s)
    decreases |ops|
  {
    if ops == [] then [] else AcceptedBy(s, ops[0]) + Accepted(Step(s, ops[0]), ops[1..])
  }

  /** The sum of what the run's compactions report. */
  ghost function Removed(s: State, ops: seq<Op>): nat
    requires Consistent(s)
    decreases |ops|
  {
    if ops == [] then 0 else RemovedBy(s, ops[0]) + Removed(Step(s, ops[0]), ops[1..])
  }

  lemma StepConserves(s: State, op: Op)
    requires Consistent(s)
    ensures Step(s, op).log == s.log + AcceptedBy(s, op)
    ensures Step(s, op).base == s.base + RemovedBy(s, op)
  {
  }

  /** Accepted appends extend the log in order; reported removals add up to the base. */
  lemma {:induction false} RunConserves(s: State, ops: seq<Op>)
    requires Consistent(s)
    ensures Run(s, ops).log == s.log + Accepted(s, ops)
    ensures Run(s, ops).base == s.base + Removed(s, ops)
    decreases |ops|
  {
    if ops != [] {
      var s1 := Step(s, ops[0]);
      StepConserves(s, ops[0]);
      RunConserves(s1, ops[1..]);
      assert s.log + (AcceptedBy(s, ops[0]) + Accepted(s1, ops[1..])) == s1.log + Accepted(s1, ops[1..]);
    }
  }

  /** Appended is removed plus live, over any run from an empty partition. */
  lemma AppendedIsRemovedPlusLive(capacity: int, ops: seq<Op>)
    ensures |Accepted(Empty(capacity), ops)| == Removed(Empty(capacity), ops) + |Run(Empty(capacity), ops).live|
    ensures Run(Empty(capacity), ops).live == Accepted(Empty(capacity), ops)[Removed(Empty(capacity), ops)..]
  {
    RunConserves(Empty(capacity), ops);
    assert [] + Accepted(Empty(capacity), ops) == Accepted(Empty(capacity), ops);
  }

  // ---------- Compaction ----------

  /** One compaction moves no committed group, leaves the slowest group's lag as the live
      count, and leaves nothing for a second one. */
  lemma CompactionExact(s: State)
    requires InBounds(s)
    ensures var t := Compact(s).0;
      && (forall g :: g in s.offsets ==> Position(t, g) == Position(s, g))
      && Watermark(t.offsets) == 0
      && Compact(t) == (t, 0)
      && (s.offsets == map[] ==> t == s)
      && (forall g :: g in s.offsets ==> |s.live| - s.offsets[g] <= |t.live|)
      && (s.offsets != map[] ==>
            exists g :: g in s.offsets && |s.live| - s.offsets[g] == |t.live|)
  {
    var t := Compact(s).0;
    if s.offsets != map[] {
      var g :| g in s.offsets && s.offsets[g] == Watermark(s.offsets);
      assert t.offsets[g] == 0;
      assert IsLeast(t.offsets, 0);
    } else {
      assert t.offsets == s.offsets;
      assert s.live[0..] == s.live;
    }
    assert t.live[0..] == t.live;
    assert (map g | g in t.offsets :: t.offsets[g] - 0) == t.offsets;
  }

  /** Step `k` of the run is the compaction that removed message `i`, and every group that
      had committed by then, of which there was at least one, stood above it and stays put. */
  ghost predicate RemovedAt(s: State, ops: seq<Op>, i: nat, k: nat)
    requires Consistent(s)
  {
    && k < |ops| && ops[k] == DoCompact
    && var t := Run(s, ops[..k]);
       var t' := Compact(t).0;
       && t.base <= i < t'.base
       && t.offsets != map[]
       && forall g :: g in t.offsets ==> i < Position(t, g) == Position(t', g)
  }

  /** Over any run, every removed message was consumed by all committed groups first. */
  lemma {:induction false} RemovedWasConsumed(s: State, ops: seq<Op>, i: nat)
    requires InBounds(s) && s.base <= i < Run(s, ops).base
    ensures exists k :: RemovedAt(s, ops, i, k)
    decreases |ops|
  {
    var s1 := Step(s, ops[0]);
    if i < s1.base {
      assert ops[0] == DoCompact;
      CompactionExact(s);
      assert RemovedAt(s, ops, i, 0);
    } else {
      RemovedWasConsumed(s1, ops[1..], i);
      var k :| RemovedAt(s1, ops[1..], i, k);
      RemovedLater(s, ops, i, k);
    }
  }

  lemma RemovedLater(s: State, ops: seq<Op>, i: nat, k: nat)
    requires Consistent(s) && ops != []
    requires RemovedAt(Step(s, ops[0]), ops[1..], i, k)
    ensures RemovedAt(s, ops, i, k + 1)
  {
    assert ops[..k + 1][1..] == ops[1..][..k];
  }

  /** Hence no committed group ever stands below the removed prefix. */
  lemma NeverBelowBase(s: State, ops: seq<Op>, g: Bytes)
    requires InBounds(s) && g in Run(s, ops).offsets
    ensures Run(s, ops).base <= Position(Run(s, ops), g) <= |Run(s, ops).log|
  {
    RunKeeps(s, ops);
  }

  // ---------- The group that is not protected ----------

  /** One compaction moves a group's place exactly when the group has not committed and there
      is something to cut. */
  lemma CompactionMovesExactly(s: State, g: Bytes)
    requires InBounds(s)
    ensures var t := Compact(s).0;
      && (Position(t, g) != Position(s, g) <==> g !in s.offsets && Cut(s) > 0)
      && Position(t, g) - Position(s, g) == if g in s.offsets then 0 else Cut(s)
  {
    CompactionExact(s);
  }

  /** Step `k` of the run is a compaction that cuts something. */
  ghost predicate CutsAt(s: State, ops: seq<Op>, k: nat)
    requires Consistent(s)
  {
    k < |ops| && ops[k] == DoCompact && Cut(Run(s, ops[..k])) > 0
  }

  lemma {:induction false} SomethingRemovedExactlyWhenCut(s: State, ops: seq<Op>)
    requires Consistent(s)
    ensures Removed(s, ops) > 0 <==> exists k :: CutsAt(s, ops, k)
    decreases |ops|
  {
    if ops != [] {
      var s1 := Step(s, ops[0]);
      SomethingRemovedExactlyWhenCut(s1, ops[1..]);
      CutsShift(s, ops);
    }
  }

  /** Something is cut in a run exactly when its first step or some later one cuts. */
  lemma CutsShift(s: State, ops: seq<Op>)
    requires Consistent(s) && ops != []
    ensures (exists k :: CutsAt(s, ops, k)) <==>
      RemovedBy(s, ops[0]) > 0 || exists k :: CutsAt(Step(s, ops[0]), ops[1..], k)
  {
    var s1 := Step(s, ops[0]);
    if RemovedBy(s, ops[0]) > 0 {
      assert CutsAt(s, ops, 0);
    }
    forall k: nat ensures CutsAt(s1, ops[1..], k) <==> CutsAt(s, ops, k + 1) {
      if k + 1 < |ops| {
        assert ops[..k + 1][1..] == ops[1..][..k];
      }
    }
    forall k: nat | CutsAt(s, ops, k) && k > 0 ensures CutsAt(s1, ops[1..], k - 1) {
      assert CutsAt(s, ops, k - 1 + 1);
    }
  }

  /** Over any run, a group that has not committed by its end has been moved, past exactly the
      removed messages, which it is never handed, exactly when some compaction cut something.
      From then on it reads from the base. */
  lemma UncommittedGroupStartsAtBase(s: State, ops: seq<Op>, g: Bytes, max: int)
    requires InBounds(s) && g !in Run(s, ops).offsets
    ensures var t := Run(s, ops);
      && Position(s, g) == s.base && Position(t, g) == t.base
      && t.base - s.base == Removed(s, ops)
      && (Position(t, g) != Position(s, g) <==> exists k :: CutsAt(s, ops, k))
      && (NoOverflow(0, max) ==> ReadFrom(t, Offset(t, g), max) == Ok(Window(t.log, t.base, max)))
  {
    RunKeeps(s, ops);
    RunConserves(s, ops);
    SomethingRemovedExactlyWhenCut(s, ops);
    if NoOverflow(0, max) {
      ReadOfLog(Run(s, ops), 0, max);
    }
  }

  /** One message, one committed group, one compaction: a second group is handed nothing
      although it has consumed nothing. */
  lemma LateGroupMissesMessages(m: Message, a: Bytes, b: Bytes)
    requires a != [] && a != b
    ensures var t := Run(Empty(0), [DoAppend(m), DoCommit(a, 1), DoCompact]);
      && t.log == [m] && t.base == 1 && b !in t.offsets
      && ReadFrom(t, Offset(t, b), 0) == Ok([])
  {
    var ops := [DoAppend(m), DoCommit(a, 1), DoCompact];
    var s1 := State([m], 0, map[], [m], 0);
    var s2 := State([m], 0, map[a := 1], [m], 0);
    assert ops[1..] == [DoCommit(a, 1), DoCompact] && ops[1..][1..] == [DoCompact] && ops[1..][1..][1..] == [];
    assert Step(Empty(0), ops[0]) == s1;
    assert Step(s1, ops[1]) == s2;
    WatermarkOfOne(a, 1);
    assert Run(s2, [DoCompact]) == Compact(s2).0 by { assert [DoCompact][1..] == []; }
  }

  // ---------- Where a run leaves a group ----------

  /** Where the last accepted commit of `g` in the run puts it, if there is one. */
  ghost function PutAt(s: State, ops: seq<Op>, g: Bytes): Option<int>
    requires Consistent(s)
    decreases |ops|
  {
    if ops == [] then None else
      var later := PutAt(Step(s, ops[0]), ops[1..], g);
      if later.Some? then later
      else if ops[0].DoCommit? && ops[0].g == g && Commit(s, g, ops[0].offset).1.Ok? then Some(s.base + ops[0].offset)
      else None
  }

  /** A run leaves a group where its last commit put it; without one a committed group stands
      still, and one that has not committed is moved past what is removed. */
  lemma {:induction false} PlaceOfGroup(s: State, ops: seq<Op>, g: Bytes)
    requires InBounds(s)
    ensures Position(Run(s, ops), g) ==
      match PutAt(s, ops, g)
      case Some(place) => place
      case None => Position(s, g) + if g in s.offsets then 0 else Removed(s, ops)
    decreases |ops|
  {
    if ops != [] {
      StepPlaces(s, ops[0], g);
      PlaceOfGroup(Step(s, ops[0]), ops[1..], g);
    }
  }

  lemma StepPlaces(s: State, op: Op, g: Bytes)
    requires InBounds(s)
    ensures InBounds(Step(s, op))
    ensures var committed := op.DoCommit? && op.g == g && Commit(s, g, op.offset).1.Ok?;
      && (g in Step(s, op).offsets <==> committed || g in s.offsets)
      && Position(Step(s, op), g) ==
           if committed then s.base + op.offset
           else Position(s, g) + if g in s.offsets then 0 else RemovedBy(s, op)
  {
    CompactionMovesExactly(s, g);
  }

  /** So it stands where it stood exactly when its last commit put it back there, or there was
      no commit and it had committed before or nothing was cut. */
  lemma GroupStandsExactlyWhen(s: State, ops: seq<Op>, g: Bytes)
    requires InBounds(s)
    ensures Position(Run(s, ops), g) == Position(s, g) <==>
      match PutAt(s, ops, g)
      case Some(place) => place == Position(s, g)
      case None => g in s.offsets || !exists k :: CutsAt(s, ops, k)
  {
    PlaceOfGroup(s, ops, g);
    SomethingRemovedExactlyWhenCut(s, ops);
  }

  // ---------- Refinement of the log that is never cut ----------

  /** `u` holds the same log as `s` but has removed less of it; every group stands at the
      same place in both. `u` has no capacity limit. */
  ghost predicate Refines(s: State, u: State) {
    && InBounds(s) && InBounds(u)
    && s.log == u.log && u.base <= s.base
    && u.capacity <= 0
    && s.offsets.Keys == u.offsets.Keys
    && forall g :: g in s.offsets ==> Position(s, g) == Position(u, g)
  }

  /** One step as a log with base `b` sees it: refused calls and compactions leave no
      trace, and a commit names its position counted from `b`. */
  ghost function MirrorStep(s: State, op: Op, b: nat): seq<Op>
    requires Consistent(s)
  {
    match op
    case DoAppend(m) => if Append(s, m).1.Ok? then [op] else []
    case DoCommit(g, offset) =>
      if Commit(s, g, offset).1.Ok? then [DoCommit(g, s.base + offset - b)] else []
    case DoCompact => []
  }

  ghost function Mirror(s: State, ops: seq<Op>, b: nat): (mirrored: seq<Op>)
    requires Consistent(s)
    ensures DoCompact !in mirrored
    decreases |ops|
  {
    if ops == [] then [] else
      MirrorStep(s, ops[0], b) + Mirror(Step(s, ops[0]), ops[1..], b)
  }

  lemma MirrorStepRefines(s: State, u: State, op: Op)
    requires Refines(s, u)
    ensures var m := MirrorStep(s, op, u.base);
      if m == [] then Refines(Step(s, op), u)
      else m == [m[0]] && Refines(Step(s, op), Step(u, m[0])) && Step(u, m[0]).base == u.base
  {
    if op.DoCompact? {
      CompactionExact(s);
    }
  }

  lemma {:induction false} MirrorRefines(s: State, u: State, ops: seq<Op>)
    requires Refines(s, u)
    ensures Refines(Run(s, ops), Run(u, Mirror(s, ops, u.base)))
    ensures Run(u, Mirror(s, ops, u.base)).base == u.base
    decreases |ops|
  {
    if ops != [] {
      var s1 := Step(s, ops[0]);
      var m := MirrorStep(s, ops[0], u.base);
      var rest := Mirror(s1, ops[1..], u.base);
      MirrorStepRefines(s, u, ops[0]);
      if m == [] {
        assert m + rest == rest;
        MirrorRefines(s1, u, ops[1..]);
      } else {
        assert (m + rest)[1..] == rest;
        MirrorRefines(s1, Step(u, m[0]), ops[1..]);
      }
    }
  }

  /** Related logs answer alike: reads at a group's offset, and commits of one absolute
      position at or above the base. Below the base the cut log refuses. */
  lemma RefinesAnswers(s: State, u: State, g: Bytes, max: int, position: int)
    requires Refines(s, u)
    ensures g in s.offsets && NoOverflow(Offset(u, g), max) ==>
      ReadFrom(s, Offset(s, g), max) == ReadFrom(u, Offset(u, g), max)
    ensures s.base <= position ==>
      Commit(s, g, position - s.base).1 == Commit(u, g, position - u.base).1
    ensures position < s.base ==> Commit(s, g, position - s.base).1.Err?
  {
    if g in s.offsets && NoOverflow(Offset(u, g), max) {
      ReadOfLog(s, Offset(s, g), max);
      ReadOfLog(u, Offset(u, g), max);
    }
  }

  /** `s` answers group `g` as the uncut `u` does, positions counted from the start. */
  ghost predicate AnswersAlike(s: State, u: State, g: Bytes, max: int, position: int) {
    && u.live == u.log == s.log
    && (g in s.offsets <==> g in u.offsets)
    && (g in s.offsets ==> Offset(u, g) == s.base + Offset(s, g))
    && (g in s.offsets && NoOverflow(s.base + Offset(s, g), max) ==>
          ReadFrom(s, Offset(s, g), max) == ReadFrom(u, s.base + Offset(s, g), max))
    && (s.base <= position ==> Commit(s, g, position - s.base).1 == Commit(u, g, position).1)
    && (position < s.base ==> Commit(s, g, position - s.base).1.Err?)
  }

  lemma RefinesFromTheStart(s: State, u: State, g: Bytes, max: int, position: int)
    requires Refines(s, u) && u.base == 0
    ensures AnswersAlike(s, u, g, max, position)
  {
    RefinesAnswers(s, u, g, max, position);
    assert u.log[0..] == u.log;
  }

  /** The refinement: a run from an empty partition of any capacity, beside the same run
      on an unbounded partition on which nothing is ever removed. */
  lemma CompactedLogRefinesUncutLog(capacity: int, ops: seq<Op>, g: Bytes, max: int, position: int)
    ensures AnswersAlike(Run(Empty(capacity), ops), Run(Empty(0), Mirror(Empty(capacity), ops, 0)), g, max, position)
  {
    MirrorRefines(Empty(capacity), Empty(0), ops);
    RefinesFromTheStart(Run(Empty(capacity), ops), Run(Empty(0), Mirror(Empty(capacity), ops, 0)), g, max, position);
  }

  // ---------- Erasing compactions ----------

  /** The same interface as a client uses it, in terms of its own group's progress. Answers
      name positions in the uncut log. */
  datatype Call =
    | Publish(m: Message)
    | Poll(g: Bytes, max: int)
    | Advance(g: Bytes, n: int)
    | Sweep

  datatype Answer =
    | Appended(position: int)
    | Polled(position: int, batch: Result<seq<Message>>)
    | Advanced(reached: Result<int>)

  ghost function Serve(s: State, c: Call): (r: (State, seq<Answer>))
    requires Consistent(s)
    ensures Consistent(r.0)
  {
    match c
    case Publish(m) =>
      var (s', r) := Append(s, m);
      (s', [Appended(if r.Ok? then s.base + r.value else -1)])
    case Poll(g, max) =>
      (s, [Polled(Position(s, g), ReadFrom(s, Offset(s, g), max))])
    case Advance(g, n) =>
      var (s', r) := Commit(s, g, Offset(s, g) + n);
      (s', [Advanced(if r.Ok? then Ok(Position(s, g) + n) else Err(r.error))])
    case Sweep =>
      (Compact(s).0, [])
  }

  ghost function Answers(s: State, calls: seq<Call>): seq<Answer>
    requires Consistent(s)
    decreases |calls|
  {
    if calls == [] then [] else
      Serve(s, calls[0]).1 + Answers(Serve(s, calls[0]).0, calls[1..])
  }

  function Unswept(calls: seq<Call>): seq<Call>
    decreases |calls|
  {
    if calls == [] then [] else
      (if calls[0].Sweep? then [] else [calls[0]]) + Unswept(calls[1..])
  }

  /** Batches whose end cannot overflow. */
  predicate Ordinary(size: nat, calls: seq<Call>) {
    forall c :: c in calls && c.Poll? ==> size + |calls| + c.max <= MAX_INT
  }

  /** The call does not show that `s` is bounded or cut further than `b`: a publish finds room;
      a poll is that of a committed group, or nothing more has been cut; an ack of a committed
      group does not fall below the base to a place a log cut to `b` still has, and a first
      commit, if more has been cut, is refused by both. */
  predicate Answerable(s: State, b: nat, c: Call) {
    match c
    case Publish(_) => !Full(s)
    case Poll(g, _) => g in s.offsets || s.base == b
    case Advance(g, n) =>
      g == [] ||
      if g in s.offsets then 0 <= Offset(s, g) + n || Position(s, g) + n < b
      else s.base == b || n < 0 || |s.log| < b + n
    case Sweep => true
  }

  ghost predicate AllAnswerable(s: State, b: nat, calls: seq<Call>)
    requires Consistent(s)
    decreases |calls|
  {
    calls == [] || (Answerable(s, b, calls[0]) && AllAnswerable(Serve(s, calls[0]).0, b, calls[1..]))
  }

  lemma PollRefines(s: State, u: State, g: Bytes, max: int)
    requires Refines(s, u) && |s.log| + max <= MAX_INT
    ensures Serve(s, Poll(g, max)).1 == Serve(u, Poll(g, max)).1 <==> Answerable(s, u.base, Poll(g, max))
  {
    RefinesAnswers(s, u, g, max, 0);
  }

  lemma AdvanceRefines(s: State, u: State, g: Bytes, n: int)
    requires Refines(s, u)
    ensures var c := Advance(g, n);
      && (Serve(s, c).1 == Serve(u, c).1 <==> Answerable(s, u.base, c))
      && (Answerable(s, u.base, c) ==> Refines(Serve(s, c).0, Serve(u, c).0))
  {
  }

  /** One call on both sides gets the same answer exactly when it is answerable, and then
      keeps the relation. A sweep on the left alone keeps it too. */
  lemma ServeRefines(s: State, u: State, c: Call)
    requires Refines(s, u)
    requires c.Poll? ==> |s.log| + c.max <= MAX_INT
    ensures c.Sweep? ==> Refines(Serve(s, c).0, u)
    ensures !c.Sweep? ==> (Serve(s, c).1 == Serve(u, c).1 <==> Answerable(s, u.base, c))
    ensures !c.Sweep? && Answerable(s, u.base, c) ==> Refines(Serve(s, c).0, Serve(u, c).0)
    ensures Serve(u, c).0.base == u.base || c.Sweep?
    ensures |Serve(s, c).0.log| <= |s.log| + 1
  {
    match c
    case Publish(m) => MirrorStepRefines(s, u, DoAppend(m));
    case Poll(g, max) => PollRefines(s, u, g, max);
    case Advance(g, n) => AdvanceRefines(s, u, g, n);
    case Sweep => MirrorStepRefines(s, u, DoCompact);
  }

  lemma SameHead(xs: seq<Answer>, ys: seq<Answer>, a: Answer, b: Answer)
    ensures [a] + xs == [b] + ys <==> a == b && xs == ys
  {
    assert ([a] + xs)[0] == a && ([b] + ys)[0] == b;
    assert ([a] + xs)[1..] == xs && ([b] + ys)[1..] == ys;
  }

  lemma {:induction false} SweepsAreInvisibleFrom(s: State, u: State, calls: seq<Call>)
    requires Refines(s, u)
    requires Ordinary(|s.log|, calls)
    ensures Answers(s, calls) == Answers(u, Unswept(calls)) <==> AllAnswerable(s, u.base, calls)
    decreases |calls|
  {
    if calls != [] {
      var c, rest := calls[0], calls[1..];
      assert c in calls && forall d :: d in rest ==> d in calls;
      ServeRefines(s, u, c);
      var s', u' := Serve(s, c).0, Serve(u, c).0;
      if c.Sweep? {
        assert Unswept(calls) == Unswept(rest);
        SweepsAreInvisibleFrom(s', u, rest);
      } else {
        assert Unswept(calls)[0] == c && Unswept(calls)[1..] == Unswept(rest);
        SameHead(Answers(s', rest), Answers(u', Unswept(rest)), Serve(s, c).1[0], Serve(u, c).1[0]);
        if Answerable(s, u.base, c) {
          SweepsAreInvisibleFrom(s', u', rest);
        }
      }
    }
  }

  /** Deleting every compaction from a run of calls by any groups and giving the partition
      room without end changes no answer exactly when every call is answerable in the state
      the compacting partition is in by then. */
  lemma SweepsAreInvisible(s: State, calls: seq<Call>)
    requires InBounds(s)
    requires Ordinary(|s.log|, calls)
    ensures Answers(s, calls) == Answers(s.(capacity := 0), Unswept(calls)) <==> AllAnswerable(s, s.base, calls)
  {
    SweepsAreInvisibleFrom(s, s.(capacity := 0), calls);
  }

  /** One message, consumed by one group: its ack one back is accepted before a compaction
      and refused after it. */
  lemma BackwardAckShowsTheSweep(m: Message, g: Bytes)
    requires g != []
    ensures var s := State([m], 0, map[g := 1], [m], 0);
      && InBounds(s)
      && Answers(s, [Sweep, Advance(g, -1)]) == [Advanced(Err(CommitTooLarge))]
      && Answers(s, [Advance(g, -1)]) == [Advanced(Ok(0))]
  {
    var s := State([m], 0, map[g := 1], [m], 0);
    WatermarkOfOne(g, 1);
    AnswersToSwept(s, Advance(g, -1));
    assert Serve(s, Sweep).0.offsets[g] == 0;
  }

  /** The same message polled by a second group: handed out before a compaction and not after. */
  lemma LatePollShowsTheSweep(m: Message, a: Bytes, b: Bytes)
    requires a != b
    ensures var s := State([m], 0, map[a := 1], [m], 0);
      && InBounds(s)
      && Answers(s, [Sweep, Poll(b, 1)]) == [Polled(1, Ok([]))]
      && Answers(s, [Poll(b, 1)]) == [Polled(0, Ok([m]))]
  {
    var s := State([m], 0, map[a := 1], [m], 0);
    WatermarkOfOne(a, 1);
    WrapOfOneSum(1);
    AnswersToSwept(s, Poll(b, 1));
    assert s.live[0..1] == [m];
  }

  lemma AnswersToSwept(s: State, c: Call)
    requires Consistent(s)
    ensures Answers(s, [c]) == Serve(s, c).1
    ensures Answers(s, [Sweep, c]) == Serve(Serve(s, Sweep).0, c).1
  {
    assert [Sweep, c][1..] == [c] && [c][1..] == [];
    assert Answers(Serve(s, Sweep).0, [c]) == Serve(Serve(s, Sweep).0, c).1;
  }

  /** On an unbounded partition every call is answerable if acks only move forward and only
      committed groups poll and ack. */
  lemma {:induction false} ForwardCallsAreAnswerable(s: State, b: nat, calls: seq<Call>)
    requires Consistent(s) && s.capacity <= 0
    requires forall c :: c in calls && c.Advance? ==> 0 <= c.n
    requires forall c :: c in calls && (c.Poll? || c.Advance?) ==> c.g in s.offsets
    ensures AllAnswerable(s, b, calls)
    decreases |calls|
  {
    if calls != [] {
      assert calls[0] in calls;
      ForwardCallsAreAnswerable(Serve(s, calls[0]).0, b, calls[1..]);
    }
  }

  // ---------- Capacity ----------

  lemma {:induction false} StaysWithinCapacity(s: State, ops: seq<Op>)
    requires Consistent(s) && 0 < s.capacity && |s.live| <= s.capacity
    ensures |Run(s, ops).live| <= s.capacity
    decreases |ops|
  {
    if ops != [] {
      StaysWithinCapacity(Step(s, ops[0]), ops[1..]);
    }
  }

  function Appends(ms: seq<Message>): seq<Op> {
    seq(|ms|, i requires 0 <= i < |ms| => DoAppend(ms[i]))
  }

  /** Appends alone are accepted up to the free room and refused from there on. */
  lemma {:induction false} AppendsFillTheRoom(s: State, ms: seq<Message>)
    requires Consistent(s) && 0 < s.capacity && |s.live| <= s.capacity
    ensures var room := s.capacity - |s.live|;
      Accepted(s, Appends(ms)) == if |ms| <= room then ms else ms[..room]
    decreases |ms|
  {
    if ms != [] {
      var s1 := Step(s, DoAppend(ms[0]));
      assert Appends(ms)[1..] == Appends(ms[1..]);
      AppendsFillTheRoom(s1, ms[1..]);
    }
  }

  /** Compacting a full partition that removes `k` messages frees exactly `k` appends. */
  lemma CompactionRegainsRoom(s: State, ms: seq<Message>)
    requires Consistent(s) && 0 < s.capacity == |s.live|
    ensures var (t, k) := Compact(s);
      Accepted(t, Appends(ms)) == if |ms| <= k then ms else ms[..k]
  {
    AppendsFillTheRoom(Compact(s).0, ms);
  }

  // ---------- Late acks ----------

  lemma BatchIsStretch(s: State, g: Bytes, max: int)
    requires InBounds(s) && ReadFrom(s, Offset(s, g), max).Ok?
    ensures var batch := ReadFrom(s, Offset(s, g), max).value;
      Position(s, g) + |batch| <= |s.log| && batch == s.log[Position(s, g)..Position(s, g) + |batch|]
  {
  }

  /** A batch read at the group's offset, then any steps that remove `k` messages, then the
      ack of the end of that batch: refused when it exceeds the new tail, otherwise it
      lands `k` past the end of the batch, which is the end exactly when `k` is 0. */
  lemma LateAckDrift(s: State, g: Bytes, max: int, ops: seq<Op>)
    requires InBounds(s) && g != []
    requires ReadFrom(s, Offset(s, g), max).Ok?
    ensures var batch := ReadFrom(s, Offset(s, g), max).value;
      var next := Offset(s, g) + |batch|;
      var end := Position(s, g) + |batch|;
      var k := Removed(s, ops);
      var t := Run(s, ops);
      var (t', ack) := Commit(t, g, next);
      && end <= |s.log| && batch == s.log[Position(s, g)..end]
      && (ack.Err? <==> |t.live| < next)
      && (ack.Err? ==> t' == t)
      && (ack.Ok? ==> Position(t', g) == end + k)
      && (k == 0 <==> ack.Ok? && Position(t', g) == end)
  {
    BatchIsStretch(s, g, max);
    RunKeeps(s, ops);
    RunConserves(s, ops);
  }

  /** The drift on an input: the group stands at 1 of three messages and reads the second; a
      compaction removes the first; the ack of 2 is accepted and lands at 3, past the third
      message, which was never handed out. */
  lemma LateAckSkipsMessages(m: Message, n: Message, g: Bytes)
    requires g != []
    ensures var s := State([m, m, n], 0, map[g := 1], [m, m, n], 0);
      var (t, k) := Compact(s);
      var (t', ack) := Commit(t, g, 2);
      && InBounds(s) && ReadFrom(s, Offset(s, g), 1) == Ok([m])
      && k == 1 && ack.Ok?
      && Position(t', g) == 3 == |t'.log| && t'.log[2] == n
  {
    var s := State([m, m, n], 0, map[g := 1], [m, m, n], 0);
    WatermarkOfOne(g, 1);
    WrapOfOneSum(2);
    assert s.live[1..2] == [m];
  }
}
