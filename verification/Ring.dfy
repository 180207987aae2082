/** The consistent-hash ring of mq/internal/topic.go: how it is built, how a key finds its
    owner by binary search, and what happens when partitions are added. */
module Ring {
  import opened Types
  import opened Fnv

  /** Where replica `r` of partition `p` sits. The laws below hold for any such function. */
  type Points = (nat, nat) -> Word

  function PointsOf(name: Bytes): Points {
    (p, r) => Hash(ReplicaKey(name, p, r))
  }

  // ---------- The linear specification ----------

  ghost predicate Produces(points: Points, p: nat, replicas: nat, x: Word) {
    exists r: nat :: r < replicas && points(p, r) == x
  }

  ghost predicate OnRing(points: Points, partitions: nat, replicas: nat, x: Word) {
    exists p: nat :: p < partitions && Produces(points, p, replicas, x)
  }

  /** How far one travels clockwise from `k` to reach `x`. */
  function Clockwise(k: Word, x: Word): nat {
    if k <= x then x - k else MODULUS - k + x
  }

  /** The first ring point met from `k` on, wrapping around. */
  ghost predicate IsSuccessor(points: Points, partitions: nat, replicas: nat, k: Word, x: Word) {
    && OnRing(points, partitions, replicas, x)
    && forall y :: OnRing(points, partitions, replicas, y) ==> Clockwise(k, x) <= Clockwise(k, y)
  }

  /** The highest partition index that produced `x`: it wrote the hash map last. */
  ghost predicate IsHolder(points: Points, partitions: nat, replicas: nat, x: Word, p: nat) {
    && p < partitions && Produces(points, p, replicas, x)
    && forall q: nat :: p < q < partitions ==> !Produces(points, q, replicas, x)
  }

  ghost predicate IsOwner(points: Points, partitions: nat, replicas: nat, k: Word, p: nat) {
    exists x ::
      && IsSuccessor(points, partitions, replicas, k, x)
      && IsHolder(points, partitions, replicas, x, p)
  }

  lemma OwnerIsUnique(points: Points, partitions: nat, replicas: nat, k: Word, p: nat, q: nat)
    requires IsOwner(points, partitions, replicas, k, p)
    requires IsOwner(points, partitions, replicas, k, q)
    ensures p == q
  {
    var x :| IsSuccessor(points, partitions, replicas, k, x) && IsHolder(points, partitions, replicas, x, p);
    var y :| IsSuccessor(points, partitions, replicas, k, y) && IsHolder(points, partitions, replicas, y, q);
    assert Clockwise(k, x) == Clockwise(k, y);
    assert x == y;
  }

  ghost predicate IsNearest(candidates: set<Word>, k: Word, x: Word) {
    x in candidates && forall y :: y in candidates ==> Clockwise(k, x) <= Clockwise(k, y)
  }

  lemma {:induction false} NearestExists(candidates: set<Word>, k: Word)
    requires candidates != {}
    ensures exists x :: IsNearest(candidates, k, x)
    decreases candidates
  {
    var x :| x in candidates;
    var others := candidates - {x};
    if others == {} {
      assert candidates == {x};
      assert IsNearest(candidates, k, x);
    } else {
      NearestExists(others, k);
      var y :| IsNearest(others, k, y);
      assert forall z :: z in candidates ==> z == x || z in others;
      assert IsNearest(candidates, k, if Clockwise(k, x) <= Clockwise(k, y) then x else y);
    }
  }

  lemma {:induction false} HolderExists(points: Points, partitions: nat, replicas: nat, x: Word)
    requires OnRing(points, partitions, replicas, x)
    ensures exists p :: IsHolder(points, partitions, replicas, x, p)
    decreases partitions
  {
    if Produces(points, partitions - 1, replicas, x) {
      assert IsHolder(points, partitions, replicas, x, partitions - 1);
    } else {
      HolderExists(points, partitions - 1, replicas, x);
      var p :| IsHolder(points, partitions - 1, replicas, x, p);
      assert IsHolder(points, partitions, replicas, x, p);
    }
  }

  /** A ring with at least one point gives every key an owner. */
  lemma OwnerExists(points: Points, partitions: nat, replicas: nat, k: Word)
    requires 0 < partitions && 0 < replicas
    ensures exists p :: IsOwner(points, partitions, replicas, k, p)
  {
    var all := set p, r | 0 <= p < partitions && 0 <= r < replicas :: points(p, r);
    assert points(0, 0) in all;
    NearestExists(all, k);
    var x :| IsNearest(all, k, x);
    forall y: Word | OnRing(points, partitions, replicas, y) ensures y in all {
      var p: nat :| p < partitions && Produces(points, p, replicas, y);
      var r: nat :| r < replicas && points(p, r) == y;
    }
    var p0, r0 :| 0 <= p0 < partitions && 0 <= r0 < replicas && points(p0, r0) == x;
    assert Produces(points, p0, replicas, x);
    HolderExists(points, partitions, replicas, x);
    var p :| IsHolder(points, partitions, replicas, x, p);
    assert IsSuccessor(points, partitions, replicas, k, x);
    assert IsOwner(points, partitions, replicas, k, p);
  }

  /** The successor in the order of the numbers: the least point at or above the key's hash, and
      the least of all if there is none. */
  lemma SuccessorIsLeastAtOrAbove(points: Points, partitions: nat, replicas: nat, k: Word, x: Word)
    ensures IsSuccessor(points, partitions, replicas, k, x) <==>
      && OnRing(points, partitions, replicas, x)
      && if exists y :: OnRing(points, partitions, replicas, y) && k <= y
         then k <= x && forall y :: OnRing(points, partitions, replicas, y) && k <= y ==> x <= y
         else forall y :: OnRing(points, partitions, replicas, y) ==> x <= y
  {
  }

  /** A key that hashes onto a ring point belongs to the last partition that produced it. */
  lemma SharedPointGoesToTheLast(points: Points, partitions: nat, replicas: nat, k: Word, p: nat)
    requires OnRing(points, partitions, replicas, k)
    ensures IsOwner(points, partitions, replicas, k, p) <==>
      && p < partitions && Produces(points, p, replicas, k)
      && forall q: nat :: q < partitions && Produces(points, q, replicas, k) ==> q <= p
  {
    assert IsSuccessor(points, partitions, replicas, k, k);
    forall x | IsSuccessor(points, partitions, replicas, k, x) ensures x == k {
      assert Clockwise(k, x) <= Clockwise(k, k) == 0;
    }
  }

  // ---------- Adding partitions ----------

  /** Going from `small` to `large` partitions leaves every key in place or moves it to one
      of the new partitions, whatever collides and wherever the search wraps. */
  lemma GrowthMovesKeysOnlyToNewPartitions(
      points: Points, small: nat, large: nat, replicas: nat, k: Word, p: nat, q: nat)
    requires small <= large
    requires IsOwner(points, small, replicas, k, p)
    requires IsOwner(points, large, replicas, k, q)
    ensures q == p || small <= q < large
  {
    var x :| IsSuccessor(points, small, replicas, k, x) && IsHolder(points, small, replicas, x, p);
    var y :| IsSuccessor(points, large, replicas, k, y) && IsHolder(points, large, replicas, y, q);
    assert OnRing(points, large, replicas, x);
    if q < small {
      assert OnRing(points, small, replicas, y);
      assert Clockwise(k, x) == Clockwise(k, y);
      assert x == y;
    }
  }

  // ---------- The stored ring ----------

  predicate Sorted(hashes: seq<Word>) {
    forall i, j :: 0 <= i < j < |hashes| ==> hashes[i] <= hashes[j]
  }

  /** Sorted hashes with duplicates, and the last writer of each. */
  datatype Stored = Stored(hashes: seq<Word>, owners: map<Word, nat>)

  ghost predicate Represents(ring: Stored, points: Points, partitions: nat, replicas: nat) {
    && Sorted(ring.hashes)
    && Entries(ring, points, partitions, replicas)
  }

  ghost predicate Entries(ring: Stored, points: Points, partitions: nat, replicas: nat) {
    && (forall x :: x in ring.hashes <==> OnRing(points, partitions, replicas, x))
    && (forall x :: x in ring.hashes ==> x in ring.owners)
    && (forall x :: x in ring.hashes ==> IsHolder(points, partitions, replicas, x, ring.owners[x]))
  }

  /** What the two nested loops have entered before replica `r` of partition `p`. */
  ghost predicate Entered(ring: Stored, points: Points, p: nat, r: nat, replicas: nat) {
    && (forall x :: x in ring.hashes <==>
          OnRing(points, p, replicas, x) || Produces(points, p, r, x))
    && (forall x :: x in ring.hashes ==> x in ring.owners)
    && (forall x :: x in ring.hashes ==>
          if Produces(points, p, r, x) then ring.owners[x] == p
          else IsHolder(points, p, replicas, x, ring.owners[x]))
  }

  lemma EnterReplica(ring: Stored, points: Points, p: nat, r: nat, replicas: nat)
    requires Entered(ring, points, p, r, replicas) && r < replicas
    ensures var x := points(p, r);
      Entered(Stored(ring.hashes + [x], ring.owners[x := p]), points, p, r + 1, replicas)
  {
    forall x ensures Produces(points, p, r + 1, x) <==> Produces(points, p, r, x) || x == points(p, r) {
    }
  }

  lemma EnterPartition(ring: Stored, points: Points, p: nat, replicas: nat)
    requires Entered(ring, points, p, replicas, replicas)
    ensures Entries(ring, points, p + 1, replicas)
    ensures Entered(ring, points, p + 1, 0, replicas)
  {
    forall x ensures OnRing(points, p + 1, replicas, x) <==>
        OnRing(points, p, replicas, x) || Produces(points, p, replicas, x) {
    }
  }

  method Build(name: Bytes, partitions: nat, replicas: nat) returns (ring: Stored)
    requires 0 < partitions && 0 < replicas
    ensures ring.hashes != []
    ensures Represents(ring, PointsOf(name), partitions, replicas)
  {
    ghost var points := PointsOf(name);
    ring := Stored([], map[]);
    for p := 0 to partitions
      invariant Entered(ring, points, p, 0, replicas)
      invariant p > 0 ==> ring.hashes != [] && Entries(ring, points, p, replicas)
    {
      for r := 0 to replicas
        invariant Entered(ring, points, p, r, replicas)
        invariant r > 0 ==> ring.hashes != []
      {
        EnterReplica(ring, points, p, r, replicas);
        var hash := Fnv32(ReplicaKey(name, p, r));
        ring := Stored(ring.hashes + [hash], ring.owners[hash := p]);
      }
      EnterPartition(ring, points, p, replicas);
    }
    var sorted := Sort(ring.hashes);
    assert forall x :: x in ring.hashes <==> x in multiset(ring.hashes);
    assert forall x :: x in sorted <==> x in multiset(sorted);
    ring := ring.(hashes := sorted);
  }

  function Inserted(hashes: seq<Word>, x: Word, at: nat): seq<Word>
    requires at <= |hashes|
  {
    hashes[..at] + [x] + hashes[at..]
  }

  lemma InsertedInOrder(hashes: seq<Word>, x: Word, at: nat)
    requires Sorted(hashes) && at <= |hashes|
    requires forall i :: 0 <= i < at ==> hashes[i] < x
    requires forall i :: at <= i < |hashes| ==> x <= hashes[i]
    ensures Sorted(Inserted(hashes, x, at))
    ensures multiset(Inserted(hashes, x, at)) == multiset(hashes) + multiset{x}
  {
    assert hashes == hashes[..at] + hashes[at..];
  }

  /** A sorted permutation, as `sort.Slice` promises. */
  method Sort(hashes: seq<Word>) returns (sorted: seq<Word>)
    ensures Sorted(sorted) && multiset(sorted) == multiset(hashes)
  {
    sorted := [];
    for i := 0 to |hashes|
      invariant Sorted(sorted) && multiset(sorted) == multiset(hashes[..i])
    {
      var at := Search(sorted, hashes[i]);
      assert hashes[..i + 1] == hashes[..i] + [hashes[i]];
      InsertedInOrder(sorted, hashes[i], at);
      sorted := Inserted(sorted, hashes[i], at);
    }
    assert hashes[..|hashes|] == hashes;
  }

  /** The binary search of `sort.Search` for the first hash at or above `k`. */
  method Search(hashes: seq<Word>, k: Word) returns (at: nat)
    requires Sorted(hashes)
    ensures at <= |hashes|
    ensures forall i :: 0 <= i < at ==> hashes[i] < k
    ensures forall i :: at <= i < |hashes| ==> k <= hashes[i]
  {
    at := 0;
    var end := |hashes|;
    while at < end
      invariant 0 <= at <= end <= |hashes|
      invariant forall i :: 0 <= i < at ==> hashes[i] < k
      invariant forall i :: end <= i < |hashes| ==> k <= hashes[i]
    {
      var mid := (at + end) / 2;
      if !(hashes[mid] >= k) {
        at := mid + 1;
      } else {
        end := mid;
      }
    }
  }

  /** The ring lookup: binary search, wrap around, read the hash map. */
  method Lookup(ring: Stored, k: Word, ghost points: Points, ghost partitions: nat, ghost replicas: nat)
    returns (owner: nat)
    requires Represents(ring, points, partitions, replicas) && ring.hashes != []
    ensures IsOwner(points, partitions, replicas, k, owner)
    ensures owner < partitions
  {
    var at := Search(ring.hashes, k);
    if at == |ring.hashes| {
      at := 0;
    }
    var x := ring.hashes[at];
    assert forall y :: y in ring.hashes ==> Clockwise(k, x) <= Clockwise(k, y);
    assert IsSuccessor(points, partitions, replicas, k, x);
    owner := ring.owners[x];
  }

  // ---------- The modulo router, for comparison ----------

  /** Topics made by `CreateTopic` route by `hash % partitions` instead. */
  predicate StaysOrMovesOn(h: Word, small: nat, large: nat)
    requires 0 < small <= large
  {
    h % large == h % small || small <= h % large
  }

  /** That keeps every hash or moves it to a new partition exactly when the old count divides
      the new one. */
  lemma ModuloGrowsLikeARingOnlyByMultiples(small: nat, large: nat)
    requires 0 < small <= large < MODULUS
    ensures (forall h: Word :: StaysOrMovesOn(h, small, large)) <==> large % small == 0
  {
    if large % small == 0 {
      forall h: Word ensures StaysOrMovesOn(h, small, large) {
        RemainderOfMultiple(h, small, large);
      }
    } else {
      RemainderOfItself(large);
      assert !StaysOrMovesOn(large, small, large);
    }
  }

  lemma RemainderOfItself(n: nat)
    requires 0 < n
    ensures n % n == 0
  {
  }

  lemma RemainderOfMultiple(h: Word, small: nat, large: nat)
    requires 0 < small <= large && large % small == 0
    ensures StaysOrMovesOn(h, small, large)
  {
    if h % large < small {
      QuotientAndRemainder(h, large);
      QuotientAndRemainder(large, small);
      SmallRemainder(h, large, small, h / large, large / small, h % large);
    }
  }

  lemma QuotientAndRemainder(n: nat, d: nat)
    requires 0 < d
    ensures n == d * (n / d) + n % d
  {
  }

  lemma SmallRemainder(h: nat, large: nat, small: nat, q: nat, m: nat, x: nat)
    requires h == large * q + x && large == small * m && x < small
    ensures h % small == x
  {
    assert h == small * (m * q) + x;
    RemainderIsUnique(small, m * q, x);
  }

  /** The remainder is the one number below `n` that is congruent to `h`. */
  lemma RemainderIsCongruent(h: nat, n: nat, p: nat)
    requires 0 < n
    ensures h % n == p <==> p < n && (h - p) % n == 0
  {
    if h % n == p {
      QuotientAndRemainder(h, n);
      RemainderIsUnique(n, h / n, 0);
    } else if p < n && (h - p) % n == 0 {
      DivisionIsExact(h - p, n);
      RemainderIsUnique(n, (h - p) / n, p);
    }
  }

  lemma DivisionIsExact(x: int, n: nat)
    requires 0 < n && x % n == 0
    ensures n * (x / n) == x
  {
  }

  lemma RemainderIsUnique(d: nat, k: int, r: nat)
    requires r < d
    ensures (d * k + r) % d == r
  {
    var a := d * k + r;
    var gap := k - a / d;
    assert d * gap == a % d - r;
    MultipleIsFar(d, gap);
  }

  lemma MultipleIsFar(d: nat, gap: int)
    ensures 1 <= gap ==> d <= d * gap
    ensures gap <= -1 ==> d * gap <= 0 - d
  {
  }
}
