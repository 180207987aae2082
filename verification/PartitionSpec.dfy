/** The partition as a value: what each operation of mq/internal/partition.go does to the
    live slice and the committed offsets, and the laws of one operation.

    `log` and `base` are history: every message ever appended, and how many of them
    compaction has removed. No operation reads them to decide anything. */
module PartitionSpec {
  import opened Types

  datatype State = State(
    live: seq<Message>,
    capacity: int,
    offsets: map<Bytes, int>,
    log: seq<Message>,
    base: nat)

  /** The live slice is the log without the removed prefix; offsets are never negative. */
  ghost predicate Consistent(s: State) {
    && s.base <= |s.log|
    && s.live == s.log[s.base..]
    && forall g :: g in s.offsets ==> 0 <= s.offsets[g]
  }

  /** What holds as well when every operation is atomic: no offset exceeds the tail. */
  ghost predicate InBounds(s: State) {
    && Consistent(s)
    && forall g :: g in s.offsets ==> s.offsets[g] <= |s.live|
  }

  function Empty(capacity: int): State {
    State([], capacity, map[], [], 0)
  }

  /** Where a group stands in the log that was never cut. */
  function Position(s: State, g: Bytes): int {
    s.base + Offset(s, g)
  }

  // ---------- Operations ----------

  predicate Full(s: State) {
    0 < s.capacity <= |s.live|
  }

  function Append(s: State, m: Message): (State, Result<int>) {
    if Full(s) then (s, Err(PartitionFull))
    else (s.(live := s.live + [m], log := s.log + [m]), Ok(|s.live|))
  }

  /** `start + max` is computed in 64 bits. An end before the start makes the copy panic: its
      length, computed in 64 bits again, is `max`, more than any slice can hold. */
  function ReadFrom(s: State, offset: int, max: int): Result<seq<Message>> {
    if offset < 0 || |s.live| < offset then Err(OffsetOutOfRange)
    else if offset == |s.live| then Ok([])
    else
      var candidate := Wrap64(offset + max);
      var end := if 0 < max && candidate < |s.live| then candidate else |s.live|;
      if end < offset then Err(Panicked) else Ok(s.live[offset..end])
  }

  function Commit(s: State, g: Bytes, offset: int): (State, Result<()>) {
    if g == [] then (s, Err(EmptyGroup))
    else if offset < 0 || |s.live| < offset then (s, Err(CommitTooLarge))
    else (s.(offsets := s.offsets[g := offset]), Ok(()))
  }

  function Offset(s: State, g: Bytes): int {
    if g in s.offsets then s.offsets[g] else 0
  }

  ghost predicate IsLeast(offsets: map<Bytes, int>, w: int) {
    && (exists g :: g in offsets && offsets[g] == w)
    && forall g :: g in offsets ==> w <= offsets[g]
  }

  lemma {:induction false} LeastExists(offsets: map<Bytes, int>)
    requires offsets != map[]
    ensures exists w :: IsLeast(offsets, w)
    decreases |offsets|
  {
    var g :| g in offsets;
    var rest := offsets - {g};
    if rest == map[] {
      assert forall h :: h in offsets ==> h == g by {
        assert forall h :: h in offsets && h != g ==> h in rest;
      }
      assert IsLeast(offsets, offsets[g]);
    } else {
      assert |rest.Keys| < |offsets.Keys| by { assert rest.Keys == offsets.Keys - {g}; }
      LeastExists(rest);
      var w :| IsLeast(rest, w);
      var least := if w <= offsets[g] then w else offsets[g];
      assert forall h :: h in offsets && h != g ==> h in rest;
      assert IsLeast(offsets, least);
    }
  }

  /** The least committed offset, or 0 when no group has committed. */
  ghost function Watermark(offsets: map<Bytes, int>): (w: int)
    ensures if offsets == map[] then w == 0 else IsLeast(offsets, w)
  {
    if offsets == map[] then 0 else
      LeastExists(offsets);
      var w :| IsLeast(offsets, w); w
  }

  lemma WatermarkOfOne(g: Bytes, offset: int)
    ensures Watermark(map[g := offset]) == offset
  {
    assert g in map[g := offset];
  }

  /** How much `Compact` removes: the watermark, but never more than there is. */
  ghost function Cut(s: State): nat {
    var w := Watermark(s.offsets);
    if w < 0 then 0 else if w <= |s.live| then w else |s.live|
  }

  ghost function Compact(s: State): (State, nat) {
    var cut := Cut(s);
    (s.(live := s.live[cut..],
        offsets := map g | g in s.offsets :: s.offsets[g] - cut,
        base := s.base + cut),
     cut)
  }

  // ---------- Laws of one operation ----------

  /** A batch size that cannot overflow the end computation. */
  predicate NoOverflow(offset: int, max: int) {
    max <= 0 || offset + max <= MAX_INT
  }

  /** The messages a reader is promised: up to `max` from `from`, all when `max <= 0`. */
  function Window(log: seq<Message>, from: nat, max: int): seq<Message>
    requires from <= |log|
  {
    if 0 < max < |log| - from then log[from..from + max] else log[from..]
  }

  /** A read answers with the promised window exactly when the end fits in 64 bits or
      nothing is left to read; otherwise it panics. Slice lengths always fit. */
  lemma ReadIsWindow(s: State, offset: int, max: int)
    requires |s.live| <= MAX_INT && max <= MAX_INT
    requires 0 <= offset <= |s.live|
    ensures ReadFrom(s, offset, max) ==
            if offset == |s.live| || NoOverflow(offset, max)
            then Ok(Window(s.live, offset, max)) else Err(Panicked)
  {
    if 0 < max {
      WrapOfOneSum(offset + max);
    }
    assert s.live[offset..|s.live|] == s.live[offset..];
  }

  /** Below 0 and above the tail a read is refused, and nowhere else. */
  lemma ReadIsRefusedOutside(s: State, offset: int, max: int)
    ensures ReadFrom(s, offset, max) == Err(OffsetOutOfRange) <==> !(0 <= offset <= |s.live|)
  {
  }

  /** Such a read: from the second of two messages, with the largest batch size. */
  lemma LargestBatchPanics(m: Message)
    ensures ReadFrom(State([m, m], 0, map[], [m, m], 0), 1, MAX_INT) == Err(Panicked)
  {
    ReadIsWindow(State([m, m], 0, map[], [m, m], 0), 1, MAX_INT);
  }

  /** The same in terms of the log: the live slice starts at the base. */
  lemma ReadOfLog(s: State, offset: int, max: int)
    requires Consistent(s) && 0 <= offset <= |s.live| && NoOverflow(offset, max)
    ensures ReadFrom(s, offset, max) == Ok(Window(s.log, s.base + offset, max))
  {
    if 0 < max {
      WrapOfOneSum(offset + max);
    }
    assert s.live[offset..|s.live|] == s.log[s.base + offset..];
    if 0 < max < |s.live| - offset {
      assert s.live[offset..offset + max] == s.log[s.base + offset..s.base + offset + max];
    }
  }

  lemma WrapOfOneSum(x: int)
    requires 0 <= x <= 2 * MAX_INT
    ensures Wrap64(x) == if x <= MAX_INT then x else x - 2 * MAX_INT - 2
  {
  }
}
