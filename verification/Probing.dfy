/**
 Number theory behind the probe sequence of dyld3's hash tables: starting at a
 hash and adding 1, 2, 3, ... modulo a power-of-two table size.
 */
module Probing {
  import opened Lists

  ghost predicate IsPow2(n: nat) {
    n == 1 || (n > 1 && n % 2 == 0 && IsPow2(n / 2))
  }

  /** The sum 1 + 2 + ... + k. */
  ghost function ProbeSum(k: nat): nat {
    if k == 0 then 0 else ProbeSum(k - 1) + k
  }

  /** The slot examined after k unsuccessful probes. */
  ghost function Probe(h: nat, count: nat, k: nat): nat
    requires count > 0
  {
    (h + ProbeSum(k)) % count
  }

  /** An incremental step of the loop moves from the k-th to the next probe. */
  lemma {:induction false} ProbeStep(h: nat, count: nat, k: nat)
    requires count > 0
    ensures (Probe(h, count, k) + (k + 1)) % count == Probe(h, count, k + 1)
  {
    ModAdd(h + ProbeSum(k), k + 1, count);
  }

  lemma {:induction false} ModAdd(a: nat, b: nat, n: nat)
    requires n > 0
    ensures (a % n + b) % n == (a + b) % n
  {
    var q := a / n;
    assert a == q * n + a % n;
    assert a + b == q * n + (a % n + b);
    ModShift(a % n + b, q, n);
  }

  lemma {:induction false} ModShift(a: nat, q: nat, n: nat)
    requires n > 0
    ensures (q * n + a) % n == a % n
  {
    DivModUnique(q * n + a, n, q + a / n, a % n);
  }

  lemma {:induction false} DivModUnique(x: int, n: nat, q: int, r: int)
    requires n > 0 && 0 <= r < n && x == q * n + r
    ensures x / n == q && x % n == r
  {
    var q', r' := x / n, x % n;
    assert x == q' * n + r';
    SmallMultiple(q - q', n);
  }

  lemma {:induction false} SmallMultiple(d: int, n: int)
    requires n >= 0
    ensures d >= 1 ==> d * n >= n
    ensures d <= -1 ==> d * n <= -n
  {
  }

  lemma {:induction false} ClosedForm(k: nat)
    ensures 2 * ProbeSum(k) == k * (k + 1)
  {
    if k > 0 {
      ClosedForm(k - 1);
    }
  }

  /** An odd factor contributes nothing to divisibility by a power of two. */
  lemma {:induction false} OddFactor(n: nat, a: nat, b: int, q: int) returns (r: int)
    requires IsPow2(n) && a % 2 == 1 && a * b == q * n
    ensures b == r * n
  {
    if n == 1 {
      r := b;
    } else {
      var half, a2 := n / 2, a / 2;
      var c := q * half - a2 * b;
      assert n == 2 * half && a == 2 * a2 + 1;
      assert q * n == 2 * (q * half) by { assert q * (2 * half) == 2 * (q * half); }
      assert a * b == 2 * (a2 * b) + b by { Distribute(2 * a2, 1, b); assert 2 * a2 * b == 2 * (a2 * b); }
      assert b == 2 * c;
      assert a * c == q * half by { assert a * b == a * (2 * c) == 2 * (a * c); }
      r := OddFactor(half, a, c, q);
      assert r * n == 2 * (r * half) by { assert r * (2 * half) == 2 * (r * half); }
    }
  }

  lemma {:induction false} Distribute(x: int, y: int, z: int)
    ensures (x + y) * z == x * z + y * z
  {
  }

  /** If two probes coincide, the distance of the two sums is a multiple of the count. */
  lemma {:induction false} SameSlotDistance(x: nat, y: nat, count: nat) returns (q: int)
    requires count > 0 && x % count == y % count
    ensures y - x == q * count
  {
    q := y / count - x / count;
    Distribute(y / count, -(x / count), count);
  }

  /** Two numbers below 2n, one of them odd, have no product that is a multiple of 2n. */
  lemma {:induction false} NoSmallProduct(n: nat, odd: nat, other: nat, q: int)
    requires IsPow2(n) && 0 < other < n
    ensures odd % 2 == 1 ==> odd * other != q * n
  {
    if odd % 2 == 1 && odd * other == q * n {
      var r := OddFactor(n, odd, other, q);
      SmallMultiple(r, n);
      assert false;
    }
  }

  lemma {:induction false} EndsDifferInParity(i: nat, j: nat)
    requires i < j
    ensures (j - i) % 2 == 1 || (j + i + 1) % 2 == 1
  {
    assert j + i + 1 == (j - i) + 2 * i + 1;
  }

  /** j(j+1) - i(i+1) factors into two numbers of different parity. */
  lemma {:induction false} ProductOfEnds(i: nat, j: nat, q: int, count: nat)
    requires j * (j + 1) - i * (i + 1) == 2 * (q * count)
    ensures (j - i) * (j + i + 1) == q * (2 * count)
  {
    assert (j - i) * (j + i + 1) == j * (j + 1) - i * (i + 1);
    assert q * (2 * count) == 2 * (q * count);
  }

  /** Two probes of the same slot give a factorization of a multiple of twice the table size. */
  lemma {:induction false} SameSlotFactors(h: nat, count: nat, i: nat, j: nat) returns (q: int)
    requires 0 < count && i < j && Probe(h, count, i) == Probe(h, count, j)
    ensures (j - i) * (j + i + 1) == q * (2 * count)
  {
    q := SameSlotDistance(h + ProbeSum(i), h + ProbeSum(j), count);
    ClosedForm(i);
    ClosedForm(j);
    ProductOfEnds(i, j, q, count);
  }

  lemma {:induction false} NoFactors(n: nat, a: nat, b: nat, q: int)
    requires IsPow2(n) && 0 < a < n && 0 < b < n && (a % 2 == 1 || b % 2 == 1)
    ensures a * b != q * n
  {
    assert a * b == b * a;
    NoSmallProduct(n, a, b, q);
    NoSmallProduct(n, b, a, q);
  }

  /** The first `count` probes of a power-of-two table examine different slots. */
  lemma {:induction false} ProbeInjective(h: nat, count: nat, i: nat, j: nat)
    requires IsPow2(count) && i < j < count
    ensures Probe(h, count, i) != Probe(h, count, j)
  {
    if Probe(h, count, i) == Probe(h, count, j) {
      var q := SameSlotFactors(h, count, i, j);
      EndsDifferInParity(i, j);
      assert IsPow2(2 * count);
      NoFactors(2 * count, j - i, j + i + 1, q);
    }
  }

  /** Every slot is examined by exactly one of the first `count` probes. */
  lemma {:induction false} ProbeCovers(h: nat, count: nat, slot: nat) returns (k: nat)
    requires IsPow2(count) && slot < count
    ensures k < count && Probe(h, count, k) == slot
    ensures forall j: nat :: j < count && Probe(h, count, j) == slot ==> j == k
  {
    var visited: seq<int> := seq(count, i requires 0 <= i => Probe(h, count, i));
    forall i, j | 0 <= i < j < count ensures visited[i] != visited[j] {
      ProbeInjective(h, count, i, j);
    }
    Pigeonhole(visited, count);
    assert slot in visited;
    k :| 0 <= k < count && visited[k] == slot;
    forall j: nat | j < count && j != k ensures Probe(h, count, j) != slot {
      ProbeInjective(h, count, if j < k then j else k, if j < k then k else j);
    }
  }
}
