/** One collector alone: what it receives over many rounds, and when it is done. */
module Drain {
  import opened Types
  import opened PartitionSpec
  import Delivery

  datatype Turn =
    | More(m: Message)
    | Shrink
    | Round(batch: int)

  /** A whole round: consume, process, ack the offset the response named. */
  function PlayRound(s: State, g: Bytes, batch: int): (State, seq<Message>)
    requires Consistent(s)
  {
    match Delivery.Fetched(s, g, batch)
    case None => (s, [])
    case Some(f) => (Commit(s, g, Delivery.Answered(s, g, f).next.value).0, f.batch)
  }

  /** The partition after some turns, and everything received during them. */
  ghost function Play(s: State, g: Bytes, turns: seq<Turn>): (r: (State, seq<Message>))
    requires Consistent(s)
    ensures Consistent(r.0)
    decreases |turns|
  {
    if turns == [] then (s, []) else
      match turns[0]
      case More(m) => Play(Append(s, m).0, g, turns[1..])
      case Shrink => Play(Compact(s).0, g, turns[1..])
      case Round(batch) =>
        var (s1, got) := PlayRound(s, g, batch);
        var (s2, later) := Play(s1, g, turns[1..]);
        (s2, got + later)
  }

  lemma RoundAdvances(s: State, g: Bytes, batch: int)
    requires InBounds(s) && g in s.offsets && g != []
    ensures var (s1, got) := PlayRound(s, g, batch);
      && InBounds(s1) && g in s1.offsets && s1.log == s.log
      && Position(s1, g) == Position(s, g) + |got| <= |s.log|
      && got == s.log[Position(s, g)..Position(s1, g)]
  {
  }

  lemma CompactionKeepsPlace(s: State, g: Bytes)
    requires InBounds(s) && g in s.offsets
    ensures var t := Compact(s).0;
      InBounds(t) && g in t.offsets && t.log == s.log && Position(t, g) == Position(s, g)
  {
  }

  lemma AdjacentStretches(log: seq<Message>, longer: seq<Message>, a: nat, b: nat, c: nat)
    requires log <= longer && a <= b <= |log| && b <= c <= |longer|
    ensures log[a..b] + longer[b..c] == longer[a..c]
  {
  }

  /** With appends at any time and compactions between an ack and the next consume, the
      batches put together are exactly the log from the first position to the last. */
  lemma {:induction false} ReceivesEachMessageOnceInOrder(s: State, g: Bytes, turns: seq<Turn>)
    requires InBounds(s) && g in s.offsets && g != []
    ensures var (t, got) := Play(s, g, turns);
      && s.log <= t.log && InBounds(t) && g in t.offsets
      && Position(s, g) <= Position(t, g) <= |t.log|
      && got == t.log[Position(s, g)..Position(t, g)]
    decreases |turns|
  {
    if turns != [] {
      match turns[0]
      case More(m) =>
        ReceivesEachMessageOnceInOrder(Append(s, m).0, g, turns[1..]);
      case Shrink =>
        CompactionKeepsPlace(s, g);
        ReceivesEachMessageOnceInOrder(Compact(s).0, g, turns[1..]);
      case Round(batch) =>
        RoundAdvances(s, g, batch);
        var (s1, got) := PlayRound(s, g, batch);
        ReceivesEachMessageOnceInOrder(s1, g, turns[1..]);
        var (t, later) := Play(s1, g, turns[1..]);
        AdjacentStretches(s.log, t.log, Position(s, g), Position(s1, g), Position(t, g));
    }
  }

  function Rounds(batch: int, k: nat): seq<Turn> {
    seq(k, _ => Round(batch))
  }

  function Min(a: int, b: int): int {
    if a <= b then a else b
  }

  lemma FullRound(s: State, g: Bytes, batch: nat)
    requires InBounds(s) && g in s.offsets && g != []
    requires 0 < batch && |s.log| + batch <= MAX_INT
    ensures Position(PlayRound(s, g, batch).0, g) == Min(Position(s, g) + batch, |s.log|)
  {
    ReadOfLog(s, Offset(s, g), batch);
  }

  lemma OneMoreRound(p: nat, batch: nat, k: nat, n: nat)
    requires 0 < k
    ensures Min(Min(p + batch, n) + (k - 1) * batch, n) == Min(p + k * batch, n)
  {
    assert k * batch == (k - 1) * batch + batch;
  }

  /** Without new appends, `k` rounds of `batch` advance by exactly `k * batch` or to the tail. */
  lemma {:induction false} RoundsAdvance(s: State, g: Bytes, batch: nat, k: nat)
    requires InBounds(s) && g in s.offsets && g != []
    requires 0 < batch && |s.log| + batch <= MAX_INT
    ensures var t := Play(s, g, Rounds(batch, k)).0;
      t.log == s.log && Position(t, g) == Min(Position(s, g) + k * batch, |s.log|)
    decreases k
  {
    if k != 0 {
      var s1 := PlayRound(s, g, batch).0;
      RoundAdvances(s, g, batch);
      FullRound(s, g, batch);
      assert Rounds(batch, k)[1..] == Rounds(batch, k - 1);
      RoundsAdvance(s1, g, batch, k - 1);
      OneMoreRound(Position(s, g), batch, k, |s.log|);
    }
  }

  /** `n` waiting messages are drained after `k` rounds exactly when `k` is at least the
      quotient of `n` by the batch size, rounded up. */
  lemma DrainsInCeilingManyRounds(s: State, g: Bytes, batch: nat, k: nat)
    requires InBounds(s) && g in s.offsets && g != []
    requires 0 < batch && |s.log| + batch <= MAX_INT
    ensures var n := |s.log| - Position(s, g);
      var t := Play(s, g, Rounds(batch, k)).0;
      Position(t, g) == |t.log| <==> (n + batch - 1) / batch <= k
  {
    RoundsAdvance(s, g, batch, k);
    CeilingOfQuotient(|s.log| - Position(s, g), batch, k);
  }

  lemma CeilingOfQuotient(n: nat, d: nat, k: nat)
    requires 0 < d
    ensures (n + d - 1) / d <= k <==> n <= k * d
  {
    var q := (n + d - 1) / d;
    assert d * q <= n + d - 1 < d * q + d;
    MultiplesAreMonotone(d, q, k);
    MultiplesAreMonotone(d, k + 1, q);
    assert d * (k + 1) == k * d + d;
  }

  lemma MultiplesAreMonotone(d: nat, a: nat, b: nat)
    ensures a <= b ==> d * a <= d * b
  {
  }
}
