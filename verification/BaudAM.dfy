/** The divisors of the AM chip, which has only some of the fractions: two candidates are tried. */
module BaudAM {
  import opened Bits
  import opened Baud

  const AM_CLK := 24000000
  const AM_MAX_DIVISOR := 0x1FFF8

  /** The four fractions, in eighths. */
  predicate SupportedFraction(d: nat) {
    d % 8 == 0 || d % 8 == 1 || d % 8 == 2 || d % 8 == 4
  }

  /** The divisors the chip has: /1, and from /2 on in steps of 0.125, 0.25 and 0.5. */
  predicate Supported(d: nat) {
    d == 8 || (16 <= d <= AM_MAX_DIVISOR && SupportedFraction(d))
  }

  function AdjustUp(fraction: nat): nat
    requires fraction < 8
  {
    [0, 0, 0, 1, 0, 3, 2, 1][fraction]
  }

  function AdjustDown(fraction: nat): nat
    requires fraction < 8
  {
    [0, 0, 0, 1, 0, 1, 2, 3][fraction]
  }

  /** The rate of a divisor, to the nearest integer. */
  function Estimate(d: nat): nat
    requires d > 0
  {
    (AM_CLK + d / 2) / d
  }

  function Distance(a: int, b: int): (d: nat) {
    if a < b then b - a else a - b
  }

  /** The divisor tried in round `i`: rounded up to a supported one. */
  function Candidate(divisor: int, i: nat): (d: nat)
    requires divisor >= 0
    ensures d >= 8
  {
    var t := divisor + i;
    if t <= 8 then 8
    else if divisor < 16 then 16
    else
      var u := t + AdjustUp(t % 8);
      if u > AM_MAX_DIVISOR then AM_MAX_DIVISOR else u
  }

  /** The divisor that the search starts from: rounded down to a supported fraction. */
  function StartDivisor(baudrate: nat): (d: int)
    requires baudrate > 0
    ensures d >= 0
  {
    var d := AM_CLK / baudrate;
    d - AdjustDown(d % 8)
  }

  /** The better candidate; the first one if they are equally good. */
  function BestOfTwo(baudrate: nat): (d: nat)
    requires baudrate > 0
    ensures d >= 8
  {
    var c0, c1 := Candidate(StartDivisor(baudrate), 0), Candidate(StartDivisor(baudrate), 1);
    if Distance(Estimate(c1), baudrate) < Distance(Estimate(c0), baudrate) then c1 else c0
  }

  function EncodeAM(d: nat): nat {
    var e := Encode(d);
    if e == 1 then 0 else if e == 0x4001 then 1 else e
  }

  /** `c` is the smallest divisor of the chip that is not below `t`, or its largest if there is none. */
  ghost predicate NextSupported(c: nat, t: nat) {
    && Supported(c) && (c >= t || c == AM_MAX_DIVISOR)
    && forall e: nat :: Supported(e) && e >= t ==> c <= e
  }

  /** Rounding up with the table: no supported fraction is skipped. */
  lemma RoundedUp(t: nat, e: nat)
    ensures var u := t + AdjustUp(t % 8);
      SupportedFraction(u) && (SupportedFraction(e) && e >= t ==> u <= e)
  {
    var k, m := t / 8, t % 8;
    assert t == 8 * k + m && e == 8 * (e / 8) + e % 8;
    assert AdjustUp(m) == 0 || m == 3 || m == 5 || m == 6 || m == 7;
  }

  lemma CandidateIsNext(divisor: nat, i: nat)
    requires i < 2
    ensures NextSupported(Candidate(divisor, i), divisor + i)
  {
    var c, t := Candidate(divisor, i), divisor + i;
    RoundedUp(t, 8);
    forall e: nat | Supported(e) && e >= t
      ensures c <= e
    {
      RoundedUp(t, e);
    }
  }

  method TryDivisor(divisor: nat, i: nat) returns (tryDivisor: nat)
    requires i < 2
    ensures tryDivisor == Candidate(divisor, i)
    ensures NextSupported(tryDivisor, divisor + i)
  {
    CandidateIsNext(divisor, i);
    tryDivisor := divisor + i;
    if tryDivisor <= 8 {
      tryDivisor := 8;
    } else if divisor < 16 {
      tryDivisor := 16;
    } else {
      tryDivisor := tryDivisor + AdjustUp(tryDivisor % 8);
      if tryDivisor > AM_MAX_DIVISOR {
        tryDivisor := AM_MAX_DIVISOR;
      }
    }
  }

  /** The search: the best of the two rounds so far, with an early way out when it is spot on. */
  method SearchAM(baudrate: nat, divisor: nat) returns (bestDivisor: nat, bestBaud: nat)
    requires baudrate > 0 && divisor == StartDivisor(baudrate)
    ensures bestDivisor == BestOfTwo(baudrate) && bestBaud == Estimate(bestDivisor)
  {
    bestDivisor, bestBaud := 0, 0;
    var bestBaudDiff := 0;
    var i := 0;
    ghost var c0, best := Candidate(divisor, 0), BestOfTwo(baudrate);
    while i < 2
      invariant 0 <= i <= 2
      invariant i == 1 ==> bestDivisor == c0
      invariant i == 2 ==> bestDivisor == best
      invariant i > 0 ==>
        bestDivisor > 0 && bestBaud == Estimate(bestDivisor) && bestBaudDiff == Distance(bestBaud, baudrate)
    {
      var tryDivisor := TryDivisor(divisor, i);
      var baudEstimate := Estimate(tryDivisor);
      var baudDiff := Distance(baudEstimate, baudrate);
      if i == 0 || baudDiff < bestBaudDiff {
        bestDivisor, bestBaud, bestBaudDiff := tryDivisor, baudEstimate, baudDiff;
        if baudDiff == 0 {
          break;
        }
      }
      i := i + 1;
    }
  }

  /** `ftdi_to_clkbits_AM`. */
  method ToClkBitsAM(baudrate: nat) returns (bestBaud: nat, encodedDivisor: nat)
    requires baudrate > 0
    ensures bestBaud == Estimate(BestOfTwo(baudrate))
    ensures encodedDivisor == EncodeAM(BestOfTwo(baudrate))
  {
    var divisor := AM_CLK / baudrate;
    divisor := divisor - AdjustDown(divisor % 8);
    var bestDivisor;
    bestDivisor, bestBaud := SearchAM(baudrate, divisor);
    encodedDivisor := Or(bestDivisor / 8, FracCode(bestDivisor % 8) * 0x4000);
    if encodedDivisor == 1 {
      encodedDivisor := 0;
    } else if encodedDivisor == 0x4001 {
      encodedDivisor := 1;
    }
  }

  /** The estimate rounds 2 * AM_CLK / (2 * d). */
  lemma EstimateRounds(d: nat)
    requires d > 0
    ensures Rounded(Estimate(d), 2 * AM_CLK, d)
  {
    var r := Estimate(d);
    QuotientBounds(AM_CLK + d / 2, d);
    assert (2 * r - 1) * d == 2 * (r * d) - d && (2 * r + 1) * d == 2 * (r * d) + d;
    assert (r + 1) * d == r * d + d;
  }

  /** A divisor that is small enough for the request overshoots, a larger one undershoots. */
  lemma Overshoot(d: nat, baudrate: nat)
    requires d > 0
    ensures d * baudrate <= AM_CLK ==> Estimate(d) >= baudrate
    ensures d * baudrate >= AM_CLK ==> Estimate(d) <= baudrate
  {
    var r := Estimate(d);
    EstimateRounds(d);
    if d * baudrate <= AM_CLK {
      assert 2 * baudrate * d == 2 * (d * baudrate);
      RoundedAtLeast(r, 2 * AM_CLK, d, 2 * baudrate);
    }
    if d * baudrate >= AM_CLK {
      assert (2 * baudrate + 1) * d == 2 * (d * baudrate) + d;
      RoundedAtMost(r, 2 * AM_CLK, d, 2 * baudrate + 1);
    }
  }

  lemma MulMonoRight(x: int, d: int, e: int)
    requires x >= 0 && d <= e
    ensures x * d <= x * e
  {
  }

  lemma EstimateMonotone(d: nat, e: nat)
    requires 0 < d <= e
    ensures Estimate(d) >= Estimate(e)
  {
    var r, t := Estimate(d), Estimate(e);
    EstimateRounds(d);
    EstimateRounds(e);
    if r < t {
      MulMono(2 * r + 1, 2 * t - 1, d);
      MulMonoRight(2 * t - 1, d, e);
      assert false;
    }
  }

  /** No supported divisor gives a rate nearer to the request. */
  ghost predicate Nearest(d: nat, baudrate: nat)
    requires d > 0
  {
    forall e: nat :: Supported(e) ==> Distance(Estimate(d), baudrate) <= Distance(Estimate(e), baudrate)
  }

  /** `lo` and `hi` bracket the exact divisor, with no supported divisor between them. */
  ghost predicate Brackets(lo: nat, hi: nat, baudrate: nat) {
    && 0 < lo <= hi
    && (forall e: nat :: Supported(e) ==> e <= lo || hi <= e)
    && (lo * baudrate <= AM_CLK || forall e: nat :: Supported(e) ==> lo <= e)
    && (hi * baudrate >= AM_CLK || forall e: nat :: Supported(e) ==> e <= hi)
  }

  lemma BracketContainsNearest(lo: nat, hi: nat, baudrate: nat, d: nat)
    requires Brackets(lo, hi, baudrate) && baudrate > 0 && (d == lo || d == hi)
    requires Distance(Estimate(d), baudrate) <= Distance(Estimate(lo), baudrate)
    requires Distance(Estimate(d), baudrate) <= Distance(Estimate(hi), baudrate)
    ensures Nearest(d, baudrate)
  {
    Overshoot(lo, baudrate);
    Overshoot(hi, baudrate);
    forall e: nat | Supported(e)
      ensures Distance(Estimate(d), baudrate) <= Distance(Estimate(e), baudrate)
    {
      if e <= lo {
        EstimateMonotone(e, lo);
      }
      if hi <= e {
        EstimateMonotone(hi, e);
      }
    }
  }

  /** Neighbours of the quotient bracket the exact divisor; the largest divisor of all may be below it. */
  lemma BracketQuotient(q: nat, lo: nat, hi: nat, baudrate: nat)
    requires q * baudrate <= AM_CLK < (q + 1) * baudrate
    requires 0 < lo <= q && lo <= hi && (hi < AM_MAX_DIVISOR ==> q < hi)
    requires forall e: nat :: Supported(e) ==> e <= lo || hi <= e
    ensures Brackets(lo, hi, baudrate)
  {
    MulMono(lo, q, baudrate);
    if hi < AM_MAX_DIVISOR {
      MulMono(q + 1, hi, baudrate);
    }
  }

  /** The adjust tables, for one eighth `m`: the fraction rounded down, and the one after it rounded up. */
  lemma AdjustTables(m: nat)
    requires m < 8
    ensures var lo := m - AdjustDown(m);
      && 0 <= lo <= m && lo + 1 < 8 && (lo == 0 || lo == 1 || lo == 2 || lo == 4)
      && var hi := lo + 1 + AdjustUp(lo + 1);
         m < hi && (hi == 1 || hi == 2 || hi == 4 || hi == 8)
         && (lo == 0 ==> hi == 1) && (lo == 1 ==> hi == 2) && (lo == 2 ==> hi == 4) && (lo == 4 ==> hi == 8)
  {
  }

  /** No supported fraction lies between the two. */
  lemma NoFractionBetween(k: nat, lo: nat, hi: nat, e: nat)
    requires (lo == 0 && hi == 1) || (lo == 1 && hi == 2) || (lo == 2 && hi == 4) || (lo == 4 && hi == 8)
    ensures SupportedFraction(8 * k + lo) && SupportedFraction(8 * k + hi)
    ensures SupportedFraction(e) ==> e <= 8 * k + lo || 8 * k + hi <= e
  {
    var i, m := e / 8, e % 8;
    assert e == 8 * i + m;
  }

  /** The adjust tables round to the supported fractions next to `q`. */
  lemma AdjustedNeighbours(q: nat, e: nat)
    ensures var s := q - AdjustDown(q % 8);
      && 0 <= s <= q < s + 1 + AdjustUp((s + 1) % 8)
      && SupportedFraction(s) && SupportedFraction(s + 1 + AdjustUp((s + 1) % 8))
      && (SupportedFraction(e) ==> e <= s || s + 1 + AdjustUp((s + 1) % 8) <= e)
  {
    var k, m := q / 8, q % 8;
    var lo := m - AdjustDown(m);
    AdjustTables(m);
    NoFractionBetween(k, lo, lo + 1 + AdjustUp(lo + 1), e);
    assert q - AdjustDown(q % 8) == 8 * k + lo && (8 * k + lo + 1) % 8 == lo + 1;
  }

  lemma NoneBetween(q: nat, s: nat, e: nat)
    requires q >= 16 && s == q - AdjustDown(q % 8) && s >= 16 && Supported(e)
    ensures e <= Candidate(s, 0) || Candidate(s, 1) <= e
  {
    AdjustedNeighbours(q, e);
  }

  lemma SupportedNeighbours(q: nat)
    requires q >= 16
    ensures var s := q - AdjustDown(q % 8);
      var lo, hi := Candidate(s, 0), Candidate(s, 1);
      && lo <= q && lo <= hi && Supported(lo) && Supported(hi)
      && (hi < AM_MAX_DIVISOR ==> q < hi)
      && forall e: nat :: Supported(e) ==> e <= lo || hi <= e
  {
    var s := q - AdjustDown(q % 8);
    AdjustedNeighbours(q, 0);
    assert s >= 16;
    forall e: nat | Supported(e)
      ensures e <= Candidate(s, 0) || Candidate(s, 1) <= e
    {
      NoneBetween(q, s, e);
    }
  }

  /** From /2 on, the two candidates are the supported divisors next to the exact one, or the largest. */
  lemma FineCandidates(baudrate: nat)
    requires baudrate > 0 && AM_CLK / baudrate >= 16
    ensures var s := StartDivisor(baudrate);
      && Brackets(Candidate(s, 0), Candidate(s, 1), baudrate)
      && Supported(Candidate(s, 0)) && Supported(Candidate(s, 1))
  {
    var q, s := AM_CLK / baudrate, StartDivisor(baudrate);
    QuotientBounds(AM_CLK, baudrate);
    SupportedNeighbours(q);
    BracketQuotient(q, Candidate(s, 0), Candidate(s, 1), baudrate);
  }

  lemma QuotientAtLeast(q: nat, k: nat, b: nat)
    requires q * b <= AM_CLK < (q + 1) * b
    ensures q >= k <==> k * b <= AM_CLK
  {
    if q >= k {
      MulMono(k, q, b);
    } else {
      MulMono(q + 1, k, b);
    }
  }

  /** Which requests lead to which integer quotients. */
  lemma QuotientRange(baudrate: nat)
    requires baudrate > 0
    ensures AM_CLK / baudrate >= 16 <==> baudrate <= 1500000
    ensures AM_CLK / baudrate >= 9 <==> baudrate <= 2666666
    ensures AM_CLK / baudrate >= 8 <==> baudrate <= 3000000
  {
    var q := AM_CLK / baudrate;
    QuotientBounds(AM_CLK, baudrate);
    QuotientAtLeast(q, 16, baudrate);
    QuotientAtLeast(q, 9, baudrate);
    QuotientAtLeast(q, 8, baudrate);
  }

  lemma FineIsNearest(baudrate: nat)
    requires 0 < baudrate <= 1500000
    ensures Nearest(BestOfTwo(baudrate), baudrate)
  {
    var s := StartDivisor(baudrate);
    QuotientRange(baudrate);
    FineCandidates(baudrate);
    BracketContainsNearest(Candidate(s, 0), Candidate(s, 1), baudrate, BestOfTwo(baudrate));
  }

  /** The candidates above half the clock. */
  lemma CoarseCandidates(baudrate: nat)
    requires baudrate > 1500000
    ensures var s := StartDivisor(baudrate);
      && Candidate(s, 0) == (if baudrate <= 2666666 then 16 else 8)
      && Candidate(s, 1) == (if baudrate <= 3000000 then 16 else 8)
  {
    QuotientRange(baudrate);
    AdjustedNeighbours(AM_CLK / baudrate, 8);
  }

  lemma CoarseIsNearest(baudrate: nat)
    requires 1500000 < baudrate
    ensures Nearest(BestOfTwo(baudrate), baudrate) <==> baudrate <= 2250000 || baudrate >= 2666667
  {
    CoarseCandidates(baudrate);
    assert Estimate(8) == 3000000 && Estimate(16) == 1500000;
    if 2250000 < baudrate < 2666667 {
      assert BestOfTwo(baudrate) == 16 && Supported(8);
    } else if baudrate <= 3000000 {
      assert Brackets(8, 16, baudrate);
      BracketContainsNearest(8, 16, baudrate, BestOfTwo(baudrate));
    } else {
      assert Brackets(8, 8, baudrate);
      BracketContainsNearest(8, 8, baudrate, 8);
    }
  }

  /** AM divisor optimality, exactly: the divisor chosen is the best one the chip has if and only if the
      request is not in the gap between 1.5 and 3 Mbaud where only /2 is tried but /1 is nearer. */
  lemma NearestIff(baudrate: nat)
    requires baudrate > 0
    ensures Nearest(BestOfTwo(baudrate), baudrate) <==> baudrate <= 2250000 || baudrate >= 2666667
  {
    if baudrate <= 1500000 {
      FineIsNearest(baudrate);
    } else {
      CoarseIsNearest(baudrate);
    }
  }

  /** The divisor chosen is always one the chip has. */
  lemma BestIsSupported(baudrate: nat)
    requires baudrate > 0
    ensures Supported(BestOfTwo(baudrate))
  {
    QuotientRange(baudrate);
    if baudrate <= 1500000 {
      FineCandidates(baudrate);
    } else {
      CoarseCandidates(baudrate);
    }
  }
}
