/** The steps between the locks of mq/internal/partition.go. `Commit` checks the tail under
    the read lock and stores the offset without one; `Compact` holds the write lock while it
    scans the counters, cuts the slice and adjusts the counters one by one, each by a load
    and a later store. Stores of commits may land between any of these. */
module Interleaving {
  import opened Types
  import PartitionSpec

  /** An adjustment that has read its counter and not yet stored. A first commit landing
      meanwhile may have put a new counter in its place. */
  datatype Load = Load(g: Bytes, before: int, replaced: bool)

  /** A `Range` visits each key once: those of `due`, present when it began, for certain.
      History of an adjustment: `moved` has the groups whose present offset it computed, with
      the offset it read; `meant` has for each group the last offset stored for it. */
  datatype Phase =
    | Idle
    | Scanning(due: set<Bytes>, seen: set<Bytes>, least: int)
    | Adjusting(due: set<Bytes>, seen: set<Bytes>, cut: int, loaded: Option<Load>,
                moved: map<Bytes, int>, meant: map<Bytes, int>)

  /** `live` is the length of the slice; `base` (history) how much has been cut so far;
      `checked` are the commits between their check and their store. */
  datatype State = State(
    live: int,
    base: int,
    offsets: map<Bytes, int>,
    checked: seq<(Bytes, int)>,
    phase: Phase)

  /** A store or an adjustment whose counter was replaced meanwhile by that of a concurrent
      first commit of the same group does not land. */
  datatype Event =
    | Append
    | CheckCommit(g: Bytes, offset: int)
    | StoreCommit(i: nat, lands: bool)
    | BeginCompact
    | Scan(g: Bytes)
    | Cut
    | AdjustLoad(g: Bytes)
    | AdjustStore(hits: bool)
    | EndCompact

  predicate CanHappen(s: State, e: Event) {
    match e
    case Append => s.phase.Idle?
    case CheckCommit(g, offset) => s.phase.Idle? && g != [] && 0 <= offset <= s.live
    case StoreCommit(i, lands) => i < |s.checked| && (lands || s.checked[i].0 in s.offsets)
    case BeginCompact => s.phase.Idle? && s.live != 0
    case Scan(g) => s.phase.Scanning? && g in s.offsets && g !in s.phase.seen
    case Cut => s.phase.Scanning? && s.phase.due <= s.phase.seen && s.phase.least > 0
    case AdjustLoad(g) => s.phase.Adjusting? && s.phase.loaded.None? && g in s.offsets && g !in s.phase.seen
    case AdjustStore(hits) => s.phase.Adjusting? && s.phase.loaded.Some? && (hits || s.phase.loaded.value.replaced)
    case EndCompact =>
      !s.phase.Idle? && s.phase.due <= s.phase.seen &&
      (if s.phase.Scanning? then s.phase.least <= 0 else s.phase.loaded.None?)
  }

  function CutOf(s: State): int
    requires s.phase.Scanning?
  {
    if s.phase.least > s.live then s.live else s.phase.least
  }

  /** What a store of `g` that lands means for an adjustment under way. */
  function Noticed(phase: Phase, g: Bytes, offset: int): Phase {
    if !phase.Adjusting? then phase else
      phase.(meant := phase.meant[g := offset],
             moved := phase.moved - {g},
             loaded := if phase.loaded.Some? && phase.loaded.value.g == g
                       then Some(phase.loaded.value.(replaced := true)) else phase.loaded)
  }

  function Next(s: State, e: Event): State
    requires CanHappen(s, e)
  {
    match e
    case Append => s.(live := s.live + 1)
    case CheckCommit(g, offset) => s.(checked := s.checked + [(g, offset)])
    case StoreCommit(i, lands) =>
      var (g, offset) := s.checked[i];
      var rest := s.checked[..i] + s.checked[i + 1..];
      if lands then s.(offsets := s.offsets[g := offset], checked := rest, phase := Noticed(s.phase, g, offset))
      else s.(checked := rest)
    case BeginCompact => s.(phase := Scanning(s.offsets.Keys, {}, -1))
    case Scan(g) =>
      var least := s.phase.least;
      s.(phase := s.phase.(seen := s.phase.seen + {g},
           least := if least == -1 || s.offsets[g] < least then s.offsets[g] else least))
    case Cut =>
      var cut := CutOf(s);
      s.(live := s.live - cut, base := s.base + cut,
         phase := Adjusting(s.offsets.Keys, {}, cut, None, map[], s.offsets))
    case AdjustLoad(g) =>
      s.(phase := s.phase.(seen := s.phase.seen + {g}, loaded := Some(Load(g, s.offsets[g], false))))
    case AdjustStore(hits) =>
      var load := s.phase.loaded.value;
      if hits then
        s.(offsets := s.offsets[load.g := Adjusted(load.before, s.phase.cut)],
           phase := s.phase.(loaded := None, moved := s.phase.moved[load.g := load.before]))
      else s.(phase := s.phase.(loaded := None))
    case EndCompact => s.(phase := Idle)
  }

  function Adjusted(offset: int, cut: int): int {
    if offset - cut < 0 then 0 else offset - cut
  }

  predicate CanRun(s: State, events: seq<Event>)
    decreases |events|
  {
    events == [] || (CanHappen(s, events[0]) && CanRun(Next(s, events[0]), events[1..]))
  }

  function Run(s: State, events: seq<Event>): State
    requires CanRun(s, events)
    decreases |events|
  {
    if events == [] then s else Run(Next(s, events[0]), events[1..])
  }

  // ---------- Safety under every interleaving ----------

  /** Every offset, stored or on its way, is a place in the log as it was ever written. */
  predicate Safe(s: State) {
    && 0 <= s.live && 0 <= s.base
    && (forall g :: g in s.offsets ==> 0 <= s.offsets[g] <= s.live + s.base)
    && (forall i :: 0 <= i < |s.checked| ==> 0 <= s.checked[i].1 <= s.live + s.base)
    && match s.phase
       case Idle => true
       case Scanning(_, seen, least) => 0 < s.live && if seen == {} then least == -1 else 0 <= least
       case Adjusting(_, _, cut, loaded, _, _) =>
         0 < cut && (loaded.Some? ==> 0 <= loaded.value.before <= s.live + s.base)
  }

  lemma StepIsSafe(s: State, e: Event)
    requires Safe(s) && CanHappen(s, e)
    ensures Safe(Next(s, e))
    ensures e.Cut? ==> 0 < CutOf(s) <= s.live
  {
  }

  /** The cut that step `k` makes is a valid slice bound when it is made. */
  predicate CutInRange(s: State, events: seq<Event>, k: nat) {
    && k < |events|
    && CanRun(s, events[..k])
    && var t := Run(s, events[..k]);
       t.phase.Scanning? && 0 < CutOf(t) <= t.live
  }

  lemma CutLater(s: State, events: seq<Event>, k: nat)
    requires events != [] && CanHappen(s, events[0]) && CutInRange(Next(s, events[0]), events[1..], k)
    ensures CutInRange(s, events, k + 1)
  {
    assert events[..k + 1][1..] == events[1..][..k];
  }

  /** Over every interleaving no offset turns negative and no cut leaves the slice, also from
      states in which some offset already exceeds the tail. */
  lemma {:induction false} RunIsSafe(s: State, events: seq<Event>)
    requires Safe(s) && CanRun(s, events)
    ensures Safe(Run(s, events))
    ensures forall k :: 0 <= k < |events| && events[k].Cut? ==> CutInRange(s, events, k)
    decreases |events|
  {
    if events != [] {
      StepIsSafe(s, events[0]);
      RunIsSafe(Next(s, events[0]), events[1..]);
      forall k | 0 <= k < |events| && events[k].Cut? ensures CutInRange(s, events, k) {
        if k > 0 {
          assert events[1..][k - 1] == events[k];
          CutLater(s, events, k - 1);
        }
      }
    }
  }

  // ---------- When the tail bounds every offset ----------

  /** No cut while a commit is between its check and its store. */
  predicate NoCutOverCommits(s: State, events: seq<Event>)
    requires CanRun(s, events)
    decreases |events|
  {
    events == [] ||
    ((events[0].Cut? ==> s.checked == []) && NoCutOverCommits(Next(s, events[0]), events[1..]))
  }

  /** Offsets are within the tail; while counters are being adjusted, those not yet adjusted
      are within the tail as it was before the cut. */
  predicate Bounded(s: State) {
    && 0 <= s.live
    && (forall i :: 0 <= i < |s.checked| ==> s.checked[i].1 <= s.live)
    && if !s.phase.Adjusting? then forall g :: g in s.offsets ==> s.offsets[g] <= s.live else
         && s.checked == [] && s.phase.due == s.offsets.Keys
         && (s.phase.loaded.Some? ==>
               var load := s.phase.loaded.value;
               load.g in s.offsets && load.before <= s.live + s.phase.cut && !load.replaced)
         && forall g :: g in s.offsets ==>
              s.offsets[g] <= s.live + s.phase.cut &&
              (g in s.phase.seen && !(s.phase.loaded.Some? && s.phase.loaded.value.g == g) ==> s.offsets[g] <= s.live)
  }

  lemma StepIsBounded(s: State, e: Event)
    requires Safe(s) && Bounded(s) && CanHappen(s, e)
    requires e.Cut? ==> s.checked == []
    ensures Bounded(Next(s, e))
  {
  }

  /** If no cut passes over a checked commit, then between compactions no offset exceeds the
      tail, which is what the atomic model takes for granted. */
  lemma {:induction false} TailBoundsOffsets(s: State, events: seq<Event>)
    requires Safe(s) && Bounded(s) && CanRun(s, events) && NoCutOverCommits(s, events)
    ensures Bounded(Run(s, events))
    ensures var t := Run(s, events);
      t.phase.Idle? ==> forall g :: g in t.offsets ==> 0 <= t.offsets[g] <= t.live
    decreases |events|
  {
    if events != [] {
      StepIsSafe(s, events[0]);
      StepIsBounded(s, events[0]);
      TailBoundsOffsets(Next(s, events[0]), events[1..]);
    }
  }

  /** Without that condition it fails: two groups, one message; the second group's first
      commit is checked, a compaction sees only the first group and removes the message,
      then the checked offset is stored. */
  lemma OffsetCanExceedTail(a: Bytes, b: Bytes)
    requires a != b && b != []
    ensures var s := State(1, 0, map[a := 1], [], Idle);
      var events := [CheckCommit(b, 1), BeginCompact, Scan(a), Cut, StoreCommit(0, true)];
      && Safe(s) && Bounded(s) && CanRun(s, events)
      && var t := Run(s, events); b in t.offsets && t.offsets[b] == 1 > t.live == 0
  {
    var s := State(1, 0, map[a := 1], [], Idle);
    var s1 := s.(checked := [(b, 1)]);
    var s2 := s1.(phase := Scanning({a}, {}, -1));
    var s3 := s1.(phase := Scanning({a}, {a}, 1));
    assert s.offsets.Keys == {a} && {} + {a} == {a};
    assert [] + [(b, 1)] == [(b, 1)];
    RunOfFour(s1, BeginCompact, s2, Scan(a), s3, Cut, Next(s3, Cut), StoreCommit(0, true));
    RunOfCons(s, CheckCommit(b, 1), [BeginCompact, Scan(a), Cut, StoreCommit(0, true)]);
    assert [CheckCommit(b, 1)] + [BeginCompact, Scan(a), Cut, StoreCommit(0, true)] ==
           [CheckCommit(b, 1), BeginCompact, Scan(a), Cut, StoreCommit(0, true)];
  }

  lemma RunOfTwo(s: State, d: Event, e: Event)
    requires CanHappen(s, d) && CanHappen(Next(s, d), e)
    ensures CanRun(s, [d, e]) && Run(s, [d, e]) == Next(Next(s, d), e)
  {
    RunOfCons(Next(s, d), e, []);
    assert [e] + [] == [e];
    RunOfCons(s, d, [e]);
    assert [d] + [e] == [d, e];
  }

  // ---------- Exactly when a stored offset exceeds the tail ----------

  function AppendsIn(events: seq<Event>): nat
    decreases |events|
  {
    if events == [] then 0 else (if events[0].Append? then 1 else 0) + AppendsIn(events[1..])
  }

  /** Cuts move messages from the slice to the base; only appends add to the two. */
  lemma {:induction false} LengthIsConserved(s: State, events: seq<Event>)
    requires CanRun(s, events)
    ensures Run(s, events).live + Run(s, events).base == s.live + s.base + AppendsIn(events)
    decreases |events|
  {
    if events != [] {
      LengthIsConserved(Next(s, events[0]), events[1..]);
    }
  }

  /** A commit that passed its check, then any events, then its store: the offset ends above
      the tail exactly when more was cut meanwhile than the slack it was checked with plus
      what was appended meanwhile. It means its old place exactly when nothing was cut. */
  lemma StoreExceedsTailExactlyWhen(s: State, g: Bytes, offset: int, events: seq<Event>, i: nat)
    requires CanHappen(s, CheckCommit(g, offset))
    requires CanRun(Next(s, CheckCommit(g, offset)), events)
    requires var t := Run(Next(s, CheckCommit(g, offset)), events); i < |t.checked| && t.checked[i] == (g, offset)
    ensures var t := Run(Next(s, CheckCommit(g, offset)), events);
      var u := Next(t, StoreCommit(i, true));
      var cutMeanwhile := t.base - s.base;
      && (u.offsets[g] > u.live <==> cutMeanwhile > (s.live - offset) + AppendsIn(events))
      && (u.base + u.offsets[g] == s.base + offset <==> cutMeanwhile == 0)
  {
    LengthIsConserved(Next(s, CheckCommit(g, offset)), events);
  }

  // ---------- A compaction disturbed by commits ----------

  function Max(a: int, b: int): int {
    if a <= b then b else a
  }

  /** What an adjustment under way has made of each offset: moved by the cut from what it
      read, or as it was last stored. */
  predicate Ledger(s: State) {
    s.phase.Adjusting? ==>
      && s.phase.cut > 0
      && s.offsets.Keys == s.phase.meant.Keys
      && (s.phase.loaded.Some? ==> s.phase.loaded.value.g in s.offsets)
      && forall g :: g in s.offsets ==>
           s.offsets[g] ==
             if g in s.phase.moved then Adjusted(s.phase.moved[g], s.phase.cut) else s.phase.meant[g]
  }

  /** Where `g` was last put, if it was. */
  function Put(s: State, g: Bytes): Option<int> {
    if g in s.offsets then Some(s.offsets[g]) else None
  }

  /** The last offset whose store for `g` lands, `sofar` if none does. */
  function Wanted(s: State, events: seq<Event>, g: Bytes, sofar: Option<int>): Option<int>
    requires CanRun(s, events)
    decreases |events|
  {
    if events == [] then sofar else
      Wanted(Next(s, events[0]), events[1..], g, WantedNext(s, events[0], g, sofar))
  }

  function WantedNext(s: State, e: Event, g: Bytes, sofar: Option<int>): Option<int>
    requires CanHappen(s, e)
  {
    if Stores(s, e, g) then Some(s.checked[e.i].1) else sofar
  }

  predicate Stores(s: State, e: Event, g: Bytes)
    requires CanHappen(s, e)
  {
    e.StoreCommit? && e.lands && s.checked[e.i].0 == g
  }

  /** `wanted` is where `g` was last put, if it was, counted from the base at `origin`. */
  predicate Tracks(s: State, g: Bytes, wanted: Option<int>, origin: int) {
    && Ledger(s)
    && s.base == origin + (if s.phase.Adjusting? then s.phase.cut else 0)
    && wanted == if s.phase.Adjusting? && g in s.phase.meant then Some(s.phase.meant[g]) else Put(s, g)
  }

  lemma StepTracks(s: State, e: Event, g: Bytes, wanted: Option<int>, origin: int)
    requires Tracks(s, g, wanted, origin) && Safe(s) && CanHappen(s, e) && !e.EndCompact?
    ensures Tracks(Next(s, e), g, WantedNext(s, e, g, wanted), origin)
  {
  }

  lemma {:induction false} RunTracks(s: State, events: seq<Event>, g: Bytes, wanted: Option<int>, origin: int)
    requires Tracks(s, g, wanted, origin) && Safe(s) && CanRun(s, events) && EndCompact !in events
    ensures Tracks(Run(s, events), g, Wanted(s, events, g, wanted), origin)
    decreases |events|
  {
    if events != [] {
      StepIsSafe(s, events[0]);
      StepTracks(s, events[0], g, wanted, origin);
      RunTracks(Next(s, events[0]), events[1..], g, WantedNext(s, events[0], g, wanted), origin);
    }
  }

  /** A whole compaction with commits landing anywhere in it. A group whose counter was moved
      ends at the offset read for it or at the cut, whichever is further; any other ends as
      far past its last commit as was cut. So it stands where it was last put exactly when its
      counter was moved, and that further place is the one it was put. It ends above the tail
      exactly when what was read, or what was stored unmoved, did. */
  lemma DisturbedCompaction(s: State, events: seq<Event>, g: Bytes)
    requires s.phase.Idle? && Safe(s)
    requires CanRun(s, events) && EndCompact !in events
    requires var t := Run(s, events); t.phase.Adjusting? && CanHappen(t, EndCompact)
    ensures var t := Run(s, events);
      var u := Next(t, EndCompact);
      var wanted := Wanted(s, events, g, Put(s, g));
      var cut, moved := t.phase.cut, t.phase.moved;
      && cut > 0
      && (g in u.offsets <==> wanted.Some?)
      && (wanted.Some? ==>
           && u.base + u.offsets[g] == s.base + (if g in moved then Max(moved[g], cut) else cut + wanted.value)
           && (u.base + u.offsets[g] == s.base + wanted.value <==> g in moved && Max(moved[g], cut) == wanted.value)
           && (u.offsets[g] > u.live <==> if g in moved then moved[g] > u.live + cut else wanted.value > u.live))
  {
    RunTracks(s, events, g, Put(s, g), s.base);
    RunIsSafe(s, events);
  }

  /** No store for `g` lands. */
  predicate Untouched(s: State, events: seq<Event>, g: Bytes)
    requires CanRun(s, events)
    decreases |events|
  {
    events == [] || (!Stores(s, events[0], g) && Untouched(Next(s, events[0]), events[1..], g))
  }

  /** A group none of whose commits lands: `offset` is scanned, cut below and moved as one. */
  predicate Steady(s: State, g: Bytes, offset: int) {
    && g in s.offsets
    && match s.phase
       case Idle => s.offsets[g] == offset
       case Scanning(due, seen, least) =>
         s.offsets[g] == offset && g in due && (g in seen ==> 0 <= least <= offset)
       case Adjusting(due, seen, cut, loaded, moved, _) =>
         && g in due && cut <= offset
         && (loaded.Some? && loaded.value.g == g ==> loaded.value.before == offset && !loaded.value.replaced && g in seen)
         && (g in seen && !(loaded.Some? && loaded.value.g == g) ==> g in moved && moved[g] == offset)
         && (g in moved ==> moved[g] == offset && g in seen)
         && (g !in moved ==> s.offsets[g] == offset)
  }

  lemma StepIsSteady(s: State, e: Event, g: Bytes, offset: int)
    requires Steady(s, g, offset) && Safe(s) && CanHappen(s, e) && !Stores(s, e, g) && !e.EndCompact?
    ensures Steady(Next(s, e), g, offset)
  {
  }

  lemma {:induction false} RunIsSteady(s: State, events: seq<Event>, g: Bytes, offset: int)
    requires Steady(s, g, offset) && Safe(s) && CanRun(s, events) && Untouched(s, events, g) && EndCompact !in events
    ensures Steady(Run(s, events), g, offset)
    decreases |events|
  {
    if events != [] {
      StepIsSafe(s, events[0]);
      StepIsSteady(s, events[0], g, offset);
      RunIsSteady(Next(s, events[0]), events[1..], g, offset);
    }
  }

  lemma {:induction false} UntouchedWantsTheSame(s: State, events: seq<Event>, g: Bytes, sofar: Option<int>)
    requires CanRun(s, events) && Untouched(s, events, g)
    ensures Wanted(s, events, g, sofar) == sofar
    decreases |events|
  {
    if events != [] {
      UntouchedWantsTheSame(Next(s, events[0]), events[1..], g, sofar);
    }
  }

  /** A compaction never moves a group none of whose own commits lands during it, whatever the
      other groups do meanwhile. */
  lemma UndisturbedGroupKeepsPlace(s: State, events: seq<Event>, g: Bytes)
    requires s.phase.Idle? && Safe(s) && g in s.offsets
    requires CanRun(s, events) && EndCompact !in events && Untouched(s, events, g)
    requires var t := Run(s, events); t.phase.Adjusting? && CanHappen(t, EndCompact)
    ensures var u := Next(Run(s, events), EndCompact);
      g in u.offsets && u.base + u.offsets[g] == s.base + s.offsets[g]
  {
    DisturbedCompaction(s, events, g);
    RunIsSteady(s, events, g, s.offsets[g]);
    UntouchedWantsTheSame(s, events, g, Put(s, g));
  }

  /** Once its counter was read, and with no commit of its own landing after that, a group is
      moved from what was read. */
  predicate ReadAs(s: State, g: Bytes, before: int) {
    && s.phase.Adjusting? && g in s.phase.seen
    && if s.phase.loaded.Some? && s.phase.loaded.value.g == g
       then s.phase.loaded.value == Load(g, before, false)
       else g in s.phase.moved && s.phase.moved[g] == before
  }

  lemma {:induction false} ReadStays(s: State, events: seq<Event>, g: Bytes, before: int)
    requires ReadAs(s, g, before) && CanRun(s, events) && Untouched(s, events, g) && EndCompact !in events
    ensures ReadAs(Run(s, events), g, before)
    decreases |events|
  {
    if events != [] {
      ReadStays(Next(s, events[0]), events[1..], g, before);
    }
  }

  lemma ReadEnds(t: State, g: Bytes, wanted: int, origin: int)
    requires Tracks(t, g, Some(wanted), origin) && ReadAs(t, g, wanted) && CanHappen(t, EndCompact)
    ensures g in t.offsets && t.base + t.offsets[g] == origin + Max(wanted, t.phase.cut)
  {
  }

  /** The commits of a group land, if at all, before its counter is read: then it keeps the
      place it was last put exactly when that is not below the cut, and is carried forward to
      the cut when a backward commit landed after the scan had passed it. */
  lemma CommitsBeforeTheRead(s: State, xs: seq<Event>, ys: seq<Event>, g: Bytes)
    requires s.phase.Idle? && Safe(s)
    requires CanRun(s, xs) && EndCompact !in xs && CanHappen(Run(s, xs), AdjustLoad(g)) && g !in Run(s, xs).phase.moved
    requires var r := Next(Run(s, xs), AdjustLoad(g));
      && CanRun(r, ys) && EndCompact !in ys && Untouched(r, ys, g)
      && Run(r, ys).phase.Adjusting? && CanHappen(Run(r, ys), EndCompact)
    ensures var t := Run(Next(Run(s, xs), AdjustLoad(g)), ys);
      var u := Next(t, EndCompact);
      var wanted := Wanted(s, xs, g, Put(s, g));
      && g in u.offsets && wanted.Some?
      && u.base + u.offsets[g] == s.base + Max(wanted.value, t.phase.cut)
      && (u.base + u.offsets[g] == s.base + wanted.value <==> t.phase.cut <= wanted.value)
  {
    var q, wanted := Run(s, xs), Wanted(s, xs, g, Put(s, g));
    var r := Next(q, AdjustLoad(g));
    RunTracks(s, xs, g, Put(s, g), s.base);
    RunIsSafe(s, xs);
    StepTracks(q, AdjustLoad(g), g, wanted, s.base);
    StepIsSafe(q, AdjustLoad(g));
    RunTracks(r, ys, g, wanted, s.base);
    UntouchedWantsTheSame(r, ys, g, wanted);
    ReadStays(r, ys, g, q.offsets[g]);
    ReadEnds(Run(r, ys), g, wanted.value, s.base);
  }

  /** One group, in the midst of a compaction that has removed the first `cut` of three
      messages: committed at `offset`, with `checked` on their way. */
  function CutBefore(a: Bytes, offset: int, cut: int, checked: seq<(Bytes, int)>): State {
    State(3 - cut, cut, map[a := offset], checked, Adjusting({a}, {}, cut, None, map[], map[a := offset]))
  }

  lemma StoredAfterScan(a: Bytes)
    requires a != []
    ensures var s := State(3, 0, map[a := 2], [], Idle);
      var events := [CheckCommit(a, 0), BeginCompact, Scan(a), StoreCommit(0, true)];
      && CanRun(s, events)
      && Run(s, events) == State(3, 0, map[a := 0], [], Scanning({a}, {a}, 2))
  {
    var s := State(3, 0, map[a := 2], [], Idle);
    var s1 := s.(checked := [(a, 0)]);
    var s2 := s1.(phase := Scanning({a}, {}, -1));
    var s3 := s1.(phase := Scanning({a}, {a}, 2));
    assert s.offsets.Keys == {a} && {} + {a} == {a};
    assert [] + [(a, 0)] == [(a, 0)];
    RunOfFour(s, CheckCommit(a, 0), s1, BeginCompact, s2, Scan(a), s3, StoreCommit(0, true));
  }

  /** A backward commit carried forward over two messages: it passes its check, lands after
      the scan, and the group ends at 2 although it was put at 0. */
  lemma BackwardCommitIsCarriedForward(a: Bytes)
    requires a != []
    ensures var s := State(3, 0, map[a := 2], [], Idle);
      var events := [CheckCommit(a, 0), BeginCompact, Scan(a), StoreCommit(0, true)] +
                    [Cut, AdjustLoad(a), AdjustStore(true), EndCompact];
      && CanRun(s, events)
      && var u := Run(s, events); u.phase.Idle? && a in u.offsets && u.base + u.offsets[a] == 2
  {
    StoredAfterScan(a);
    var t := State(3, 0, map[a := 0], [], Scanning({a}, {a}, 2));
    var t1 := CutBefore(a, 0, 2, []);
    var t2 := Next(t1, AdjustLoad(a));
    assert t.offsets.Keys == {a};
    RunOfFour(t, Cut, t1, AdjustLoad(a), t2, AdjustStore(true), Next(t2, AdjustStore(true)), EndCompact);
    RunOfConcat(State(3, 0, map[a := 2], [], Idle), [CheckCommit(a, 0), BeginCompact, Scan(a), StoreCommit(0, true)],
                [Cut, AdjustLoad(a), AdjustStore(true), EndCompact]);
  }

  lemma CheckedBeforeCut(a: Bytes)
    requires a != []
    ensures var s := State(3, 0, map[a := 1], [], Idle);
      var events := [CheckCommit(a, 3), BeginCompact, Scan(a), Cut];
      && CanRun(s, events)
      && Run(s, events) == CutBefore(a, 1, 1, [(a, 3)])
  {
    var s := State(3, 0, map[a := 1], [], Idle);
    var s1 := s.(checked := [(a, 3)]);
    var s2 := s1.(phase := Scanning({a}, {}, -1));
    var s3 := s1.(phase := Scanning({a}, {a}, 1));
    assert s.offsets.Keys == {a} && {} + {a} == {a};
    assert [] + [(a, 3)] == [(a, 3)];
    RunOfFour(s, CheckCommit(a, 3), s1, BeginCompact, s2, Scan(a), s3, Cut);
  }

  /** A commit that is reported as accepted and lost: it lands between the read and the write
      of its counter, and the group ends at 1 although it was put at 3. */
  lemma CommitIsOverwritten(a: Bytes)
    requires a != []
    ensures var s := State(3, 0, map[a := 1], [], Idle);
      var events := [CheckCommit(a, 3), BeginCompact, Scan(a), Cut] +
                    [AdjustLoad(a), StoreCommit(0, true), AdjustStore(true), EndCompact];
      && CanRun(s, events)
      && var u := Run(s, events); u.phase.Idle? && a in u.offsets && u.base + u.offsets[a] == 1
  {
    CheckedBeforeCut(a);
    var t := CutBefore(a, 1, 1, [(a, 3)]);
    var t1 := Next(t, AdjustLoad(a));
    var t2 := Next(t1, StoreCommit(0, true));
    RunOfFour(t, AdjustLoad(a), t1, StoreCommit(0, true), t2, AdjustStore(true), Next(t2, AdjustStore(true)), EndCompact);
    RunOfConcat(State(3, 0, map[a := 1], [], Idle), [CheckCommit(a, 3), BeginCompact, Scan(a), Cut],
                [AdjustLoad(a), StoreCommit(0, true), AdjustStore(true), EndCompact]);
  }

  lemma RunOfFour(s0: State, b: Event, s1: State, c: Event, s2: State, d: Event, s3: State, e: Event)
    requires CanHappen(s0, b) && s1 == Next(s0, b)
    requires CanHappen(s1, c) && s2 == Next(s1, c)
    requires CanHappen(s2, d) && s3 == Next(s2, d)
    requires CanHappen(s3, e)
    ensures CanRun(s0, [b, c, d, e]) && Run(s0, [b, c, d, e]) == Next(s3, e)
  {
    RunOfTwo(s2, d, e);
    RunOfCons(s1, c, [d, e]);
    RunOfCons(s0, b, [c] + [d, e]);
    assert [b] + ([c] + [d, e]) == [b, c, d, e];
  }

  // ---------- Undisturbed, the steps are the atomic compaction ----------

  /** What the fine-grained state shows of a partition value. */
  function Fine(s: PartitionSpec.State): State {
    State(|s.live|, s.base, s.offsets, [], Idle)
  }

  /** A commit checks and stores, and undisturbed it does what the atomic one does. */
  lemma UndisturbedCommitIsAtomic(s: PartitionSpec.State, g: Bytes, offset: int)
    ensures CanHappen(Fine(s), CheckCommit(g, offset)) <==> PartitionSpec.Commit(s, g, offset).1.Ok?
    ensures CanHappen(Fine(s), CheckCommit(g, offset)) ==>
      var events := [CheckCommit(g, offset), StoreCommit(0, true)];
      CanRun(Fine(s), events) && Run(Fine(s), events) == Fine(PartitionSpec.Commit(s, g, offset).0)
  {
    if CanHappen(Fine(s), CheckCommit(g, offset)) {
      var t := Next(Fine(s), CheckCommit(g, offset));
      assert t.checked == [(g, offset)] && t.checked[..0] + t.checked[1..] == [];
      RunOfTwo(Fine(s), CheckCommit(g, offset), StoreCommit(0, true));
    }
  }

  predicate Distinct(order: seq<Bytes>) {
    forall i, j :: 0 <= i < j < |order| ==> order[i] != order[j]
  }

  function Scans(order: seq<Bytes>): seq<Event> {
    seq(|order|, i requires 0 <= i < |order| => Scan(order[i]))
  }

  function Adjusts(order: seq<Bytes>): seq<Event> {
    if order == [] then [] else [AdjustLoad(order[0]), AdjustStore(true)] + Adjusts(order[1..])
  }

  /** One compaction with nothing in between, each `Range` in its own order. */
  function CompactEvents(scan: seq<Bytes>, adjust: seq<Bytes>): seq<Event> {
    [BeginCompact] + (Scans(scan) + ([Cut] + (Adjusts(adjust) + [EndCompact])))
  }

  lemma {:induction false} RunOfConcat(s: State, xs: seq<Event>, ys: seq<Event>)
    requires CanRun(s, xs) && CanRun(Run(s, xs), ys)
    ensures CanRun(s, xs + ys) && Run(s, xs + ys) == Run(Run(s, xs), ys)
    decreases |xs|
  {
    if xs == [] {
      assert xs + ys == ys;
    } else {
      assert (xs + ys)[1..] == xs[1..] + ys;
      RunOfConcat(Next(s, xs[0]), xs[1..], ys);
    }
  }

  lemma RunOfCons(s: State, e: Event, ys: seq<Event>)
    requires CanHappen(s, e) && CanRun(Next(s, e), ys)
    ensures CanRun(s, [e] + ys) && Run(s, [e] + ys) == Run(Next(s, e), ys)
  {
    assert ([e] + ys)[1..] == ys;
  }

  /** `least` is -1 before the first key and the least offset seen after it. */
  ghost predicate LeastOf(offsets: map<Bytes, int>, seen: set<Bytes>, least: int) {
    if seen == {} then least == -1 else
      && (exists g :: g in seen && g in offsets && offsets[g] == least)
      && forall g :: g in seen && g in offsets ==> 0 <= least <= offsets[g]
  }

  function Keys(order: seq<Bytes>): set<Bytes> {
    set g | g in order
  }

  lemma FirstIsApart(order: seq<Bytes>)
    requires order != [] && Distinct(order)
    ensures order == [order[0]] + order[1..] && Distinct(order[1..])
    ensures order[0] in order && order[0] !in order[1..] && forall g :: g in order[1..] ==> g in order
    ensures Keys(order) == {order[0]} + Keys(order[1..])
  {
  }

  lemma ScanKeepsLeast(s: State, g: Bytes)
    requires s.phase.Scanning? && g in s.offsets && g !in s.phase.seen
    requires forall h :: h in s.offsets ==> 0 <= s.offsets[h]
    requires LeastOf(s.offsets, s.phase.seen, s.phase.least)
    ensures var s1 := Next(s, Scan(g));
      s1.phase.Scanning? && LeastOf(s1.offsets, s1.phase.seen, s1.phase.least)
  {
    assert g in Next(s, Scan(g)).phase.seen;
  }

  lemma RestIsUnseen(s: State, order: seq<Bytes>)
    requires s.phase.Scanning? && order != [] && Distinct(order)
    requires forall g :: g in order ==> g in s.offsets && g !in s.phase.seen
    ensures var s1 := Next(s, Scan(order[0]));
      && s1 == s.(phase := s1.phase)
      && s1.phase == Scanning(s.phase.due, s.phase.seen + {order[0]}, s1.phase.least)
      && forall g :: g in order[1..] ==> g in s1.offsets && g !in s1.phase.seen
  {
    FirstIsApart(order);
  }

  lemma ScansOfFirst(order: seq<Bytes>)
    requires order != []
    ensures Scans(order) == [Scan(order[0])] + Scans(order[1..])
  {
  }

  lemma {:induction false} ScansFindTheLeast(s: State, order: seq<Bytes>)
    requires s.phase.Scanning? && Distinct(order)
    requires forall g :: g in order ==> g in s.offsets && g !in s.phase.seen
    requires forall g :: g in s.offsets ==> 0 <= s.offsets[g]
    requires LeastOf(s.offsets, s.phase.seen, s.phase.least)
    ensures CanRun(s, Scans(order))
    ensures var t := Run(s, Scans(order));
      && t.phase.Scanning?
      && t == s.(phase := t.phase)
      && t.phase == Scanning(s.phase.due, s.phase.seen + Keys(order), t.phase.least)
      && LeastOf(t.offsets, t.phase.seen, t.phase.least)
    decreases |order|
  {
    if order != [] {
      var s1 := Next(s, Scan(order[0]));
      FirstIsApart(order);
      ScanKeepsLeast(s, order[0]);
      RestIsUnseen(s, order);
      ScansFindTheLeast(s1, order[1..]);
      assert s.phase.seen + Keys(order) == s1.phase.seen + Keys(order[1..]);
      ScansOfFirst(order);
      RunOfCons(s, Scan(order[0]), Scans(order[1..]));
    }
  }

  lemma {:induction false} AdjustsMoveEachOffset(s: State, order: seq<Bytes>)
    requires s.phase.Adjusting? && s.phase.loaded.None? && Distinct(order)
    requires forall g :: g in order ==> g in s.offsets && g !in s.phase.seen
    ensures CanRun(s, Adjusts(order))
    ensures var t := Run(s, Adjusts(order));
      && t.phase.Adjusting? && t == s.(phase := t.phase, offsets := t.offsets)
      && t.phase == s.phase.(seen := s.phase.seen + Keys(order), moved := t.phase.moved)
      && t.offsets == map g | g in s.offsets ::
           if g in order then Adjusted(s.offsets[g], s.phase.cut) else s.offsets[g]
    decreases |order|
  {
    if order != [] {
      var g := order[0];
      var s1 := Next(s, AdjustLoad(g));
      var s2 := Next(s1, AdjustStore(true));
      FirstIsApart(order);
      AdjustsMoveEachOffset(s2, order[1..]);
      assert s.phase.seen + Keys(order) == s2.phase.seen + Keys(order[1..]);
      RunOfCons(s1, AdjustStore(true), Adjusts(order[1..]));
      RunOfCons(s, AdjustLoad(g), [AdjustStore(true)] + Adjusts(order[1..]));
      assert Adjusts(order) == [AdjustLoad(g)] + ([AdjustStore(true)] + Adjusts(order[1..]));
    }
  }

  /** Single events around two stretches, run one after the other. */
  lemma ComposeParts(s0: State, begin: Event, s1: State, xs: seq<Event>, s2: State, mid: Event, s3: State,
                     ys: seq<Event>, s4: State, end: Event)
    requires CanHappen(s0, begin) && s1 == Next(s0, begin)
    requires CanRun(s1, xs) && s2 == Run(s1, xs)
    requires CanHappen(s2, mid) && s3 == Next(s2, mid)
    requires CanRun(s3, ys) && s4 == Run(s3, ys)
    requires CanHappen(s4, end)
    ensures var all := [begin] + (xs + ([mid] + (ys + [end])));
      CanRun(s0, all) && Run(s0, all) == Next(s4, end)
  {
    assert [end] + [] == [end];
    RunOfCons(s4, end, []);
    RunOfConcat(s3, ys, [end]);
    RunOfCons(s2, mid, ys + [end]);
    RunOfConcat(s1, xs, [mid] + (ys + [end]));
    RunOfCons(s0, begin, xs + ([mid] + (ys + [end])));
  }

  /** The scan ends with the watermark. */
  lemma ScanReachesWatermark(s: PartitionSpec.State, scan: seq<Bytes>)
    requires PartitionSpec.Consistent(s) && s.offsets != map[] && s.live != []
    requires Distinct(scan) && Keys(scan) == s.offsets.Keys
    ensures var s1 := Next(Fine(s), BeginCompact);
      && CanRun(s1, Scans(scan))
      && Run(s1, Scans(scan)) ==
           Fine(s).(phase := Scanning(s.offsets.Keys, s.offsets.Keys, PartitionSpec.Watermark(s.offsets)))
  {
    var s1 := Next(Fine(s), BeginCompact);
    assert forall g :: g in scan ==> g in Keys(scan);
    ScansFindTheLeast(s1, scan);
    var least := Run(s1, Scans(scan)).phase.least;
    assert PartitionSpec.IsLeast(s.offsets, least);
    assert {} + Keys(scan) == s.offsets.Keys;
  }

  lemma AdjustedAreCompacted(s: PartitionSpec.State, cut: int, offsets: map<Bytes, int>)
    requires PartitionSpec.Consistent(s) && cut == PartitionSpec.Cut(s)
    requires offsets == map g | g in s.offsets :: Adjusted(s.offsets[g], cut)
    ensures offsets == PartitionSpec.Compact(s).0.offsets
  {
    forall g | g in s.offsets ensures cut <= s.offsets[g] {
      assert PartitionSpec.Watermark(s.offsets) <= s.offsets[g];
    }
  }

  /** The adjustment ends with the offsets of the atomic compaction. */
  lemma AdjustReachesCompact(s: PartitionSpec.State, cut: int, adjust: seq<Bytes>)
    requires PartitionSpec.Consistent(s) && cut == PartitionSpec.Cut(s)
    requires Distinct(adjust) && Keys(adjust) == s.offsets.Keys
    ensures var s3 := AfterCut(s, cut);
      && CanRun(s3, Adjusts(adjust))
      && CanHappen(Run(s3, Adjusts(adjust)), EndCompact)
      && Next(Run(s3, Adjusts(adjust)), EndCompact) == Fine(PartitionSpec.Compact(s).0)
  {
    var s3 := AfterCut(s, cut);
    assert forall g :: g in adjust <==> g in Keys(adjust);
    AdjustsMoveEachOffset(s3, adjust);
    AdjustedAreCompacted(s, cut, Run(s3, Adjusts(adjust)).offsets);
    assert {} + Keys(adjust) == s.offsets.Keys;
  }

  function AfterCut(s: PartitionSpec.State, cut: int): State {
    State(|s.live| - cut, s.base + cut, s.offsets, [], Adjusting(s.offsets.Keys, {}, cut, None, map[], s.offsets))
  }

  /** Whatever orders the two ranges take, the uninterrupted steps end where the atomic
      `Compact` does. */
  lemma UndisturbedStepsAreCompact(s: PartitionSpec.State, scan: seq<Bytes>, adjust: seq<Bytes>)
    requires PartitionSpec.Consistent(s) && PartitionSpec.Cut(s) > 0
    requires Distinct(scan) && Keys(scan) == s.offsets.Keys
    requires Distinct(adjust) && Keys(adjust) == s.offsets.Keys
    ensures CanRun(Fine(s), CompactEvents(scan, adjust))
    ensures Run(Fine(s), CompactEvents(scan, adjust)) == Fine(PartitionSpec.Compact(s).0)
  {
    var cut, keys := PartitionSpec.Cut(s), s.offsets.Keys;
    var s1 := Next(Fine(s), BeginCompact);
    var s2 := Fine(s).(phase := Scanning(keys, keys, PartitionSpec.Watermark(s.offsets)));
    ScanReachesWatermark(s, scan);
    AdjustReachesCompact(s, cut, adjust);
    ComposeParts(Fine(s), BeginCompact, s1, Scans(scan), s2, Cut, AfterCut(s, cut),
                 Adjusts(adjust), Run(AfterCut(s, cut), Adjusts(adjust)), EndCompact);
  }

  /** With nothing to cut but messages in the slice, they end from the scan, and the atomic
      compaction changes nothing either. On an empty slice neither takes a step. */
  lemma UndisturbedIdleCompaction(s: PartitionSpec.State, scan: seq<Bytes>)
    requires PartitionSpec.Consistent(s) && PartitionSpec.Cut(s) == 0
    requires Distinct(scan) && Keys(scan) == s.offsets.Keys
    ensures var events := [BeginCompact] + (Scans(scan) + [EndCompact]);
      && Fine(PartitionSpec.Compact(s).0) == Fine(s)
      && (s.live == [] ==> !CanHappen(Fine(s), BeginCompact))
      && (s.live != [] ==> CanRun(Fine(s), events) && Run(Fine(s), events) == Fine(s))
  {
    assert (map g | g in s.offsets :: s.offsets[g] - 0) == s.offsets;
    if s.live != [] {
      var s1 := Next(Fine(s), BeginCompact);
      assert forall g :: g in scan ==> g in Keys(scan);
      ScansFindTheLeast(s1, scan);
      var s2 := Run(s1, Scans(scan));
      assert {} + Keys(scan) == s.offsets.Keys;
      if s.offsets != map[] {
        assert PartitionSpec.IsLeast(s.offsets, s2.phase.least);
      }
      RunOfCons(s2, EndCompact, []);
      assert [EndCompact] + [] == [EndCompact];
      RunOfConcat(s1, Scans(scan), [EndCompact]);
      RunOfCons(Fine(s), BeginCompact, Scans(scan) + [EndCompact]);
    }
  }
}
