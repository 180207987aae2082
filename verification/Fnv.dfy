/** The 32-bit FNV-1a hash of mq/internal/queue.go on integers, with its xor and its
    multiplication modulo 2^32 written out. */
module Fnv {
  import opened Types

  const MODULUS: int := 0x1_0000_0000
  const OFFSET_BASIS: int := 2166136261
  const PRIME: int := 16777619
  /** PRIME * PRIME_INVERSE is 1 modulo 2^32. */
  const PRIME_INVERSE: int := 899433627

  type Word = h: int | 0 <= h < MODULUS

  /** Bitwise exclusive or. */
  function Xor(a: nat, b: nat): nat {
    if a == 0 && b == 0 then 0 else 2 * Xor(a / 2, b / 2) + (a + b) % 2
  }

  function Pow2(k: nat): nat {
    if k == 0 then 1 else 2 * Pow2(k - 1)
  }

  /** Xor works bit by bit. */
  lemma XorOfBits(a: nat, p: nat, b: nat, q: nat)
    requires p < 2 && q < 2
    ensures Xor(2 * a + p, 2 * b + q) == 2 * Xor(a, b) + (p + q) % 2
  {
    assert (2 * a + p) / 2 == a && (2 * b + q) / 2 == b;
    assert (2 * a + p + (2 * b + q)) % 2 == (p + q) % 2;
  }

  lemma {:induction false} XorUndoesItself(a: nat, b: nat)
    ensures Xor(Xor(a, b), b) == a
    decreases a + b
  {
    if a != 0 || b != 0 {
      var p, q := a % 2, b % 2;
      XorOfBits(a / 2, p, b / 2, q);
      XorUndoesItself(a / 2, b / 2);
      XorOfBits(Xor(a / 2, b / 2), (p + q) % 2, b / 2, q);
      BitUndoesItself(p, q);
      assert a == 2 * (a / 2) + p && b == 2 * (b / 2) + q;
    }
  }

  lemma BitUndoesItself(p: nat, q: nat)
    requires p < 2 && q < 2
    ensures ((p + q) % 2 + q) % 2 == p
  {
  }

  lemma {:induction false} XorCommutes(a: nat, b: nat)
    ensures Xor(a, b) == Xor(b, a)
    decreases a + b
  {
    if a != 0 || b != 0 {
      XorCommutes(a / 2, b / 2);
    }
  }

  lemma {:induction false} XorWithZero(a: nat)
    ensures Xor(a, 0) == a
  {
    if a != 0 {
      XorWithZero(a / 2);
    }
  }

  lemma {:induction false} XorStaysInside(a: nat, b: nat, k: nat)
    requires a < Pow2(k) && b < Pow2(k)
    ensures Xor(a, b) < Pow2(k)
    decreases k
  {
    if k != 0 && (a != 0 || b != 0) {
      XorStaysInside(a / 2, b / 2, k - 1);
    }
  }

  function Mix(h: Word, b: Byte): Word {
    assert Pow2(32) == MODULUS by { Pow2Of32(); }
    XorStaysInside(h, b, 32);
    Xor(h, b)
  }

  lemma Pow2Of32()
    ensures Pow2(32) == MODULUS
  {
    assert Pow2(8) == 256;
    assert Pow2(16) == 65536;
    assert Pow2(24) == 16777216;
  }

  function Times(h: Word, factor: nat): Word {
    (h * factor) % MODULUS
  }

  /** One round: xor the byte in, then multiply. */
  function Round(h: Word, b: Byte): Word {
    Times(Mix(h, b), PRIME)
  }

  function Fold(h: Word, s: Bytes): Word
    decreases |s|
  {
    if s == [] then h else Fold(Round(h, s[0]), s[1..])
  }

  function Hash(s: Bytes): Word {
    Fold(OFFSET_BASIS, s)
  }

  method Fnv32(s: Bytes) returns (h: Word)
    ensures h == Hash(s)
  {
    h := OFFSET_BASIS;
    var i := 0;
    while i < |s|
      invariant 0 <= i <= |s|
      invariant Fold(h, s[i..]) == Hash(s)
    {
      assert s[i..][1..] == s[i + 1..];
      h := Mix(h, s[i]);
      h := Times(h, PRIME);
      i := i + 1;
    }
  }

  lemma HashOfOneByte(s: Bytes, b: Byte, mixed: nat)
    requires s == [b] && Xor(OFFSET_BASIS, b) == mixed
    ensures Hash(s) == (mixed * PRIME) % MODULUS
  {
    assert s[1..] == [];
    assert Fold(Round(OFFSET_BASIS, b), []) == Round(OFFSET_BASIS, b);
  }

  lemma BasisMixedWithA()
    ensures Xor(OFFSET_BASIS, 97) == 2166136228
  {
    XorWithZero(16922939);
    assert Xor(33845879, 1) == 33845878;
    assert Xor(67691758, 3) == 67691757;
    assert Xor(135383516, 6) == 135383514;
    assert Xor(270767032, 12) == 270767028;
    assert Xor(541534065, 24) == 541534057;
    assert Xor(1083068130, 48) == 1083068114;
  }

  lemma ProductWithPrime()
    ensures (2166136228 * PRIME) % MODULUS == 0xe40c292c
  {
    ModuloOf(0xe40c292c, 8461672);
  }

  /** The published 32-bit FNV-1a value of the string "a". */
  lemma HashOfA(s: Bytes)
    requires s == [97]
    ensures Hash(s) == 0xe40c292c
  {
    BasisMixedWithA();
    ProductWithPrime();
    HashOfOneByte(s, 97, Xor(OFFSET_BASIS, 97));
  }

  // ---------- Bijectivity ----------

  lemma TimesInverse(h: Word)
    ensures Times(Times(h, PRIME), PRIME_INVERSE) == h
    ensures Times(Times(h, PRIME_INVERSE), PRIME) == h
  {
    TimesCancels(h, PRIME, PRIME_INVERSE);
    TimesCancels(h, PRIME_INVERSE, PRIME);
  }

  lemma TimesCancels(h: Word, f: nat, g: nat)
    requires f * g == 3513497 * MODULUS + 1
    ensures Times(Times(h, f), g) == h
  {
    var q := h * f / MODULUS;
    calc {
      Times(h, f) * g;
      (h * f - MODULUS * q) * g;
      h * (f * g) - MODULUS * (q * g);
      h + MODULUS * (3513497 * h - q * g);
    }
    ModuloOf(h, 3513497 * h - q * g);
  }

  lemma ModuloOf(h: Word, k: int)
    ensures (h + MODULUS * k) % MODULUS == h
  {
  }

  /** For each byte, one round is a bijection on 32-bit states; `Unround` is its inverse. */
  function Unround(h: Word, b: Byte): Word {
    Mix(Times(h, PRIME_INVERSE), b)
  }

  lemma RoundIsBijective(h: Word, b: Byte)
    ensures Unround(Round(h, b), b) == h
    ensures Round(Unround(h, b), b) == h
  {
    TimesInverse(Mix(h, b));
    TimesInverse(h);
    XorUndoesItself(h, b);
    XorUndoesItself(Times(h, PRIME_INVERSE), b);
  }

  /** For each state, distinct bytes lead to distinct states. */
  lemma RoundSeparatesBytes(h: Word, b: Byte, c: Byte)
    requires Round(h, b) == Round(h, c)
    ensures b == c
  {
    TimesInverse(Mix(h, b));
    TimesInverse(Mix(h, c));
    XorCommutes(h, b);
    XorCommutes(h, c);
    XorUndoesItself(b, h);
    XorUndoesItself(c, h);
  }

  /** Hashing a common tail never merges two states. */
  lemma {:induction false} FoldIsInjective(h: Word, g: Word, s: Bytes)
    ensures Fold(h, s) == Fold(g, s) ==> h == g
    decreases |s|
  {
    if s != [] {
      FoldIsInjective(Round(h, s[0]), Round(g, s[0]), s[1..]);
      RoundIsBijective(h, s[0]);
      RoundIsBijective(g, s[0]);
    }
  }

  lemma {:induction false} FoldOfConcat(h: Word, s: Bytes, t: Bytes)
    ensures Fold(h, s + t) == Fold(Fold(h, s), t)
    decreases |s|
  {
    if s == [] {
      assert s + t == t;
    } else {
      assert (s + t)[1..] == s[1..] + t;
      FoldOfConcat(Round(h, s[0]), s[1..], t);
    }
  }

  /** Two equally long keys that differ in exactly one byte never collide. */
  lemma OneByteNeverCollides(prefix: Bytes, b: Byte, c: Byte, suffix: Bytes)
    requires b != c
    ensures Hash(prefix + [b] + suffix) != Hash(prefix + [c] + suffix)
  {
    var h := Hash(prefix);
    FoldOfConcat(OFFSET_BASIS, prefix + [b], suffix);
    FoldOfConcat(OFFSET_BASIS, prefix + [c], suffix);
    FoldOfConcat(OFFSET_BASIS, prefix, [b]);
    FoldOfConcat(OFFSET_BASIS, prefix, [c]);
    assert Fold(h, [b]) == Round(h, b) && Fold(h, [c]) == Round(h, c);
    FoldIsInjective(Round(h, b), Round(h, c), suffix);
    if Round(h, b) == Round(h, c) {
      RoundSeparatesBytes(h, b, c);
    }
  }

  // ---------- The hashes of a ring's replicas ----------

  /** `fmt.Sprintf("%d", n)`. */
  function Decimal(n: nat): (digits: Bytes)
    ensures digits != [] && (|digits| == 1 <==> n < 10)
  {
    if n < 10 then [48 + n] else Decimal(n / 10) + [48 + n % 10]
  }

  lemma {:induction false} DecimalIsInjective(m: nat, n: nat)
    ensures Decimal(m) == Decimal(n) ==> m == n
  {
    var s, t := Decimal(m), Decimal(n);
    assert s[|s| - 1] == 48 + m % 10 && t[|t| - 1] == 48 + n % 10;
    if 10 <= m && 10 <= n {
      assert s[..|s| - 1] == Decimal(m / 10) && t[..|t| - 1] == Decimal(n / 10);
      DecimalIsInjective(m / 10, n / 10);
    }
  }

  /** The number that decimal digits denote. */
  function ValueOf(digits: Bytes): int
    decreases |digits|
  {
    if digits == [] then 0 else 10 * ValueOf(digits[..|digits| - 1]) + digits[|digits| - 1] - 48
  }

  /** Decimal digits that denote the number, without a leading zero. */
  lemma {:induction false} DecimalDenotes(n: nat)
    ensures ValueOf(Decimal(n)) == n
    ensures forall i :: 0 <= i < |Decimal(n)| ==> 48 <= Decimal(n)[i] <= 57
    ensures 0 < n ==> Decimal(n)[0] != 48
  {
    var digits := Decimal(n);
    if n < 10 {
      assert digits[..0] == [];
    } else {
      DecimalDenotes(n / 10);
      assert digits[..|digits| - 1] == Decimal(n / 10);
    }
  }

  const DASH: Byte := 45

  /** `fmt.Sprintf("%s-%d-%d", name, partition, replica)`. */
  function ReplicaKey(name: Bytes, partition: nat, replica: nat): Bytes {
    name + [DASH] + Decimal(partition) + [DASH] + Decimal(replica)
  }

  /** The key of replica 12 of partition 3 of topic "t" is "t-3-12". */
  lemma ReplicaKeyIsSpelled()
    ensures ReplicaKey([116], 3, 12) == [116, 45, 51, 45, 49, 50]
  {
    assert Decimal(12) == Decimal(1) + [50];
  }

  /** Replicas of one partition whose numbers differ only in the last decimal digit occupy
      distinct ring points: all of them while there are at most ten. */
  lemma ReplicasAreDistinct(name: Bytes, partition: nat, r: nat, q: nat)
    requires r != q && r / 10 == q / 10
    ensures Hash(ReplicaKey(name, partition, r)) != Hash(ReplicaKey(name, partition, q))
  {
    var stem := name + [DASH] + Decimal(partition) + [DASH];
    var prefix := if r < 10 then stem else stem + Decimal(r / 10);
    assert ReplicaKey(name, partition, r) == prefix + [48 + r % 10] + [];
    assert ReplicaKey(name, partition, q) == prefix + [48 + q % 10] + [];
    OneByteNeverCollides(prefix, 48 + r % 10, 48 + q % 10, []);
  }
}
