/** Which source and destination node a load-test request uses, in 64-bit arithmetic. */
module Pairs {
  import opened Basics

  const U64: nat := 0x1_0000_0000_0000_0000
  const MAX_SEEDED: nat := 20_000

  datatype Pair = Pair(src: nat, dst: nat)

  function WrappingMul(a: nat, b: nat): nat {
    (a * b) % U64
  }

  function WrappingAdd(a: nat, b: nat): nat {
    (a + b) % U64
  }

  /** The indices `pair_for` picks out of `n` prepared pairs. */
  function PairFor(request: nat, n: nat): Pair
    requires n > 0
  {
    Pair(request % n, WrappingAdd(WrappingMul(request, 31), 7) % n)
  }

  /** How often 31 * request + 7 passes 2^64. */
  function Wraps(request: nat): nat {
    (31 * request + 7) / U64
  }

  predicate NoWrap(request: nat) {
    31 * request + 7 < U64
  }

  // ---- Modular arithmetic ----

  lemma SmallMultiple(q: int, n: int)
    requires n > 0 && -n < q * n < n
    ensures q == 0
  {
    MultipleGrows(q, n);
  }

  lemma MultipleGrows(q: int, n: int)
    requires n > 0
    ensures q >= 1 ==> q * n >= n
    ensures q <= -1 ==> q * n <= -n
  {
    if q >= 1 {
      assert (q - 1) * n >= 0;
    } else if q <= -1 {
      assert (q + 1) * n <= 0;
    }
  }

  /** The remainder is the only one of its kind. */
  lemma RemainderIs(x: int, q: int, r: int, n: int)
    requires n > 0 && x == q * n + r && 0 <= r < n
    ensures x % n == r && x / n == q
  {
    assert x == (x / n) * n + x % n;
    assert (q - x / n) * n == x % n - r;
    SmallMultiple(q - x / n, n);
  }

  lemma MultipleRemainder(d: int, n: int)
    requires n > 0
    ensures (d * n) % n == 0
  {
    RemainderIs(d * n, d, 0, n);
  }

  lemma SameRemainder(a: int, b: int, n: int)
    requires n > 0
    ensures a % n == b % n <==> (a - b) % n == 0
  {
    var q, r := b / n, b % n;
    assert b == q * n + r;
    if (a - b) % n == 0 {
      var m := (a - b) / n;
      assert a - b == m * n;
      RemainderIs(a, m + q, r, n);
    }
    if a % n == b % n {
      var p := a / n;
      assert a == p * n + r;
      assert a - b == (p - q) * n;
      MultipleRemainder(p - q, n);
    }
  }

  /** Adding a multiple of the modulus changes nothing. */
  lemma ShiftRemainder(a: int, d: int, n: int)
    requires n > 0
    ensures (a + d * n) % n == a % n
  {
    MultipleRemainder(d, n);
    SameRemainder(a + d * n, a, n);
  }

  lemma DstUnwrapped(request: nat, n: nat)
    requires n > 0
    ensures PairFor(request, n).dst == (31 * request + 7 - Wraps(request) * U64) % n
    ensures NoWrap(request) ==> PairFor(request, n).dst == (31 * request + 7) % n
  {
    var x := request * 31;
    var q := x / U64;
    assert x == q * U64 + x % U64;
    ShiftRemainder(x % U64 + 7, q, U64);
    assert (x % U64 + 7) % U64 == (x + 7) % U64;
    assert x + 7 == (x + 7) / U64 * U64 + (x + 7) % U64;
  }

  /** The source is the request's own index, counted round `n`. */
  lemma SrcExactly(request: nat, n: nat)
    requires n > 0
    ensures PairFor(request, n).src < n
    ensures (request - PairFor(request, n).src) % n == 0
    ensures request < n ==> PairFor(request, n).src == request
  {
    SameRemainder(request, request % n, n);
    RemainderIs(request % n, 0, request % n, n);
    if request < n {
      RemainderIs(request, 0, request, n);
    }
  }

  // ---- Requests repeat with period n ----

  /** A request uses the same pair as its index modulo `n` exactly when 2^64 times the
      difference in wrap-arounds is a multiple of `n`. */
  lemma PeriodicExactly(request: nat, n: nat)
    requires n > 0
    ensures PairFor(request, n) == PairFor(request % n, n) <==>
      ((Wraps(request) - Wraps(request % n)) * U64) % n == 0
  {
    var i, j := request, request % n;
    var k := i / n;
    assert i == k * n + j;
    RemainderIs(j, 0, j, n);
    DstUnwrapped(i, n);
    DstUnwrapped(j, n);
    var a, b := 31 * i + 7 - Wraps(i) * U64, 31 * j + 7 - Wraps(j) * U64;
    var d := (Wraps(i) - Wraps(j)) * U64;
    hide *;
    ApartBy(i, j, k, n, Wraps(i), Wraps(j));
    MultipleApart(a, b, 31 * k, d, n);
  }

  lemma ApartBy(i: int, j: int, k: int, n: int, v: int, w: int)
    requires i == k * n + j
    ensures (31 * i + 7 - v * U64) - (31 * j + 7 - w * U64) == (31 * k) * n - (v - w) * U64
  {
    assert (31 * k) * n == 31 * (k * n);
  }

  /** Two numbers a multiple of `n` less `d` apart agree modulo `n` when `n` divides `d`. */
  lemma MultipleApart(a: int, b: int, k: int, d: int, n: int)
    requires n > 0 && a - b == k * n - d
    ensures a % n == b % n <==> d % n == 0
  {
    SameRemainder(a, b, n);
    ShiftRemainder(-d, k, n);
    NegatedMultiple(d, n);
  }

  lemma NegatedMultiple(d: int, n: int)
    requires n > 0
    ensures (-d) % n == 0 <==> d % n == 0
  {
    if d % n == 0 {
      assert -d == -(d / n) * n;
      MultipleRemainder(-(d / n), n);
    }
    if (-d) % n == 0 {
      assert d == -((-d) / n) * n;
      MultipleRemainder(-((-d) / n), n);
    }
  }

  lemma NoWrapMeansZero(request: nat)
    requires NoWrap(request)
    ensures Wraps(request) == 0
  {
  }

  lemma RemainderAtMost(x: nat, n: nat)
    requires n > 0
    ensures x % n <= x
  {
    if x < n { RemainderIs(x, 0, x, n); }
  }

  lemma PeriodicWithoutWrap(request: nat, n: nat)
    requires n > 0 && NoWrap(request)
    ensures PairFor(request, n) == PairFor(request % n, n)
  {
    hide PairFor, Wraps;
    RemainderAtMost(request, n);
    NoWrapMeansZero(request);
    NoWrapMeansZero(request % n);
    PeriodicExactly(request, n);
    RemainderIs(0, 0, 0, n);
  }

  /** The first request that wraps leaves the period when there are three pairs. */
  lemma WrapBreaksThePeriod()
    ensures PairFor(595056260442243601, 3) != PairFor(595056260442243601 % 3, 3)
  {
  }

  // ---- Seeding ----

  /** `seed_edges_for_queries`: the pairs that get an edge before the queries run. The first
      upsert that fails ends the seeding. */
  method SeedEdges(n: nat, upsertOk: nat -> bool) returns (seeded: seq<Pair>, failed: bool)
    ensures |seeded| <= Min(n, 20_000)
    ensures !failed ==> |seeded| == Min(n, 20_000)
    ensures failed ==> |seeded| < Min(n, 20_000) && !upsertOk(|seeded|)
    ensures forall i | 0 <= i < |seeded| :: upsertOk(i)
    ensures forall i | 0 <= i < |seeded| :: seeded[i] == PairFor(i, n)
  {
    var seedReqs := Min(n, MAX_SEEDED);
    seeded, failed := [], false;
    if seedReqs == 0 {
      return;
    }
    var reqIdx := 0;
    while |seeded| < seedReqs
      invariant reqIdx == |seeded| <= seedReqs && !failed
      invariant forall i | 0 <= i < |seeded| :: upsertOk(i)
      invariant forall i | 0 <= i < |seeded| :: seeded[i] == PairFor(i, n)
    {
      failed := !upsertOk(reqIdx);
      if failed {
        return;
      }
      seeded := seeded + [PairFor(reqIdx, n)];
      reqIdx := reqIdx + 1;
    }
  }

  /** A query hits a seeded edge exactly when its source is among the seeded sources; with
      at most 20000 pairs that is every query. */
  lemma HitsSeededExactly(seeded: seq<Pair>, request: nat, n: nat)
    requires n > 0 && NoWrap(request)
    requires |seeded| == Min(n, MAX_SEEDED)
    requires forall i | 0 <= i < |seeded| :: seeded[i] == PairFor(i, n)
    ensures PairFor(request, n) in seeded <==> request % n < 20_000
    ensures n <= 20_000 ==> PairFor(request, n) in seeded
  {
    var j := request % n;
    PeriodicWithoutWrap(request, n);
    if j < |seeded| {
      assert seeded[j] == PairFor(j, n);
    }
    if PairFor(request, n) in seeded {
      var i :| 0 <= i < |seeded| && seeded[i] == PairFor(request, n);
      RemainderIs(i, 0, i, n);
    }
  }

  // ---- Destinations over a window of n requests ----

  /** Multiplicative inverses modulo 31. */
  const INVERSES: seq<nat> :=
    [0, 1, 16, 21, 8, 25, 26, 9, 4, 7, 28, 17, 13, 12, 20, 29,
     2, 11, 19, 18, 14, 3, 24, 27, 22, 5, 6, 23, 10, 15, 30]

  /** When 31 does not divide `n`, some multiple of `n` is one more than a multiple of 31. */
  lemma InverseOf(n: nat) returns (a: int, k: int)
    requires n % 31 != 0
    ensures a * n == 31 * k + 1
  {
    var r, q := n % 31, n / 31;
    a := INVERSES[r];
    InverseTable(r);
    assert n == 31 * q + r;
    k := a * q + (a * r) / 31;
    assert a * r == 31 * ((a * r) / 31) + 1;
    assert a * n == 31 * (a * q) + a * r;
  }

  lemma InverseTable(r: nat)
    requires 0 < r < 31
    ensures (INVERSES[r] * r) % 31 == 1
  {
  }

  function Dst(request: nat, n: nat): nat
    requires n > 0
  {
    PairFor(request, n).dst
  }

  ghost predicate NoRepeat(start: nat, n: nat)
    requires n > 0
  {
    forall i, j | start <= i < j < start + n :: Dst(i, n) != Dst(j, n)
  }

  ghost predicate Reached(start: nat, n: nat, v: nat)
    requires n > 0
  {
    exists i | start <= i < start + n :: Dst(i, n) == v
  }

  ghost predicate Covers(start: nat, n: nat)
    requires n > 0
  {
    forall v: nat | v < n :: Reached(start, n, v)
  }

  lemma Cancel31(a: int, k: int, d: int, m: int, n: int)
    requires a * n == 31 * k + 1 && 31 * d == m * n
    ensures d == (a * d - k * m) * n
  {
    assert (a * d - k * m) * n == (a * n) * d - k * (m * n);
    assert (31 * k + 1) * d == 31 * (k * d) + d;
    assert k * (31 * d) == 31 * (k * d);
  }

  lemma DividesThrough31(d: nat, n: nat)
    requires n % 31 != 0 && (31 * d) % n == 0
    ensures d % n == 0
  {
    var m := (31 * d) / n;
    assert 31 * d == m * n;
    var a, k := InverseOf(n);
    Cancel31(a, k, d, m, n);
    MultipleRemainder(a * d - k * m, n);
  }

  lemma NoRepeatUnless31(i: nat, d: nat, n: nat)
    requires n % 31 != 0 && 0 < d < n && NoWrap(i + d)
    ensures Dst(i, n) != Dst(i + d, n)
  {
    DstUnwrapped(i, n);
    DstUnwrapped(i + d, n);
    SameRemainder(31 * (i + d) + 7, 31 * i + 7, n);
    RemainderIs(d, 0, d, n);
    if (31 * d) % n == 0 {
      DividesThrough31(d, n);
    }
  }

  lemma Solves31(a: int, k: int, n: int, u: int)
    requires a * n == 31 * k + 1
    ensures 31 * (-k * u) == u - (a * u) * n
  {
    assert (a * u) * n == (a * n) * u;
    assert (31 * k + 1) * u == 31 * (k * u) + u;
  }

  lemma CoversUnless31(start: nat, n: nat, v: nat) returns (i: nat)
    requires n % 31 != 0 && v < n && NoWrap(start + n - 1)
    ensures start <= i < start + n && Dst(i, n) == v
  {
    var a, k := InverseOf(n);
    var x := -k * (v - 7);
    Solves31(a, k, n, v - 7);
    var q := (x - start) / n;
    i := start + (x - start) % n;
    assert i == x - q * n;
    hide *;
    DstIs(i, n);
    LandsOn(v, n, a * (v - 7), q, i, x);
  }

  lemma DstIs(request: nat, n: nat)
    requires n > 0 && 31 * request + 7 < U64
    ensures Dst(request, n) == (31 * request + 7) % n
  {
    DstUnwrapped(request, n);
  }

  lemma LandsOn(v: nat, n: nat, b: int, q: int, i: int, x: int)
    requires v < n && i == x - q * n && 31 * x == (v - 7) - b * n
    ensures (31 * i + 7) % n == v
  {
    var d := -b - 31 * q;
    assert d * n == -(b * n) - 31 * (q * n);
    RemainderIs(31 * i + 7, d, v, n);
  }

  lemma RepeatsWhen31(start: nat, n: nat)
    requires n > 0 && n % 31 == 0 && NoWrap(start + n - 1)
    ensures n / 31 < n && Dst(start, n) == Dst(start + n / 31, n)
  {
    var m := n / 31;
    DstUnwrapped(start, n);
    DstUnwrapped(start + m, n);
    ShiftRemainder(31 * start + 7, 1, n);
  }

  lemma ZeroMissedWhen31(i: nat, n: nat)
    requires n > 0 && n % 31 == 0 && NoWrap(i)
    ensures Dst(i, n) != 0
  {
    DstUnwrapped(i, n);
    var m, q := n / 31, (31 * i + 7) / n;
    var t := q * m;
    assert q * n == 31 * t;
    assert 31 * i + 7 == q * n + (31 * i + 7) % n;
    assert (31 * i + 7) % n == 31 * (i - t) + 7;
  }

  /** Over any `n` consecutive requests that do not wrap, the destinations are a permutation
      of `0..n` exactly when 31 does not divide `n`. */
  lemma DestinationsPermutedExactly(start: nat, n: nat)
    requires n > 0 && NoWrap(start + n - 1)
    ensures NoRepeat(start, n) <==> n % 31 != 0
    ensures Covers(start, n) <==> n % 31 != 0
  {
    hide PairFor, Dst;
    if n % 31 != 0 {
      forall i, j | start <= i < j < start + n ensures Dst(i, n) != Dst(j, n) {
        NoRepeatUnless31(i, j - i, n);
      }
      forall v: nat | v < n ensures Reached(start, n, v) {
        var i := CoversUnless31(start, n, v);
      }
    } else {
      RepeatsWhen31(start, n);
      forall i | start <= i < start + n ensures Dst(i, n) != 0 {
        ZeroMissedWhen31(i, n);
      }
      assert !Reached(start, n, 0);
    }
  }
}
