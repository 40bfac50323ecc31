/** How near the rates of the chips other than AM come to the request.  The documentation of
    `ftdi_convert_baudrate` promises the nearest supported rate; the code rounds the divisor instead. */
module BaudNearest {
  import opened Baud
  import opened BaudAM
  import opened BaudSet

  /** The rate of a divisor. */
  function Rate(clk: nat, d: nat): nat
    requires d > 0
  {
    HalfOfQuotient(Base(clk), d)
  }

  function Error(clk: nat, d: nat, baudrate: nat): nat
    requires d > 0
  {
    Distance(Rate(clk, d), baudrate)
  }

  /** No divisor of the chip gives a nearer rate. */
  ghost predicate NearestRate(clk: nat, d: nat, baudrate: nat)
    requires d > 0
  {
    forall e: nat :: HasDivisor(BM, e) ==> Error(clk, d, baudrate) <= Error(clk, e, baudrate)
  }

  /** A divisor below the exact one overshoots the request, a larger one undershoots. */
  lemma RateOvershoots(clk: nat, d: nat, b: nat)
    requires d > 0
    ensures 2 * (d * b) <= Base(clk) ==> Rate(clk, d) >= b
    ensures 2 * (d * b) >= Base(clk) ==> Rate(clk, d) <= b
  {
    var r := Rate(clk, d);
    HalfOfQuotientRounds(Base(clk), d);
    if 2 * (d * b) <= Base(clk) {
      assert 2 * b * d == 2 * (d * b);
      RoundedAtLeast(r, Base(clk), d, 2 * b);
    }
    if 2 * (d * b) >= Base(clk) {
      assert (2 * b + 1) * d == 2 * (d * b) + d;
      RoundedAtMost(r, Base(clk), d, 2 * b + 1);
    }
  }

  lemma RateMonotone(clk: nat, d: nat, e: nat)
    requires 0 < d <= e
    ensures Rate(clk, d) >= Rate(clk, e)
  {
    var r, t := Rate(clk, d), Rate(clk, e);
    HalfOfQuotientRounds(Base(clk), d);
    HalfOfQuotientRounds(Base(clk), e);
    if r < t {
      MulMono(2 * r + 1, 2 * t - 1, d);
      MulMonoRight(2 * t - 1, d, e);
      assert false;
    }
  }

  /** `d` is the exact divisor rounded to the nearest one. */
  lemma NeighboursBracket(clk: nat, d: nat, b: nat)
    requires d > 1 && Rounded(d, Base(clk), b)
    ensures Rate(clk, d - 1) >= b >= Rate(clk, d + 1)
  {
    assert (2 * d - 1) * b == 2 * (d * b) - b && (2 * d + 1) * b == 2 * (d * b) + b;
    assert (d - 1) * b == d * b - b && (d + 1) * b == d * b + b;
    RateOvershoots(clk, d - 1, b);
    RateOvershoots(clk, d + 1, b);
  }

  lemma ScaleUp(x: int, y: int, d: int)
    requires x <= y && d >= 0
    ensures x * d <= y * d
  {
  }

  lemma Regroup(x: int, u: int, v: int)
    ensures x * u * v == x * (v * u) && v * u == u * v
  {
  }

  lemma Distribute2(a: int, u: int, v: int)
    ensures a * u + a * v == a * (u + v) && a * u == u * a && a * v == v * a && (u + v) * a == a * (u + v)
  {
  }

  lemma SquareOfOdd(d: int, b: int)
    ensures (2 * d - 1) * b * (2 * d - 1) == 4 * b * (d * (d - 1)) + b
  {
    var k := 2 * d - 1;
    assert k * k == 4 * (d * (d - 1)) + 1;
    assert k * b * k == b * (k * k);
  }

  lemma Convexity(r: nat, t: nat, d: nat, b: nat, n: nat)
    requires d > 1 && b > 0 && Rounded(d, n, b) && Rounded(r, n, d) && Rounded(t, n, d - 1)
    ensures t + r >= 2 * b
  {
    if t + r < 2 * b {
      var m, x, y, k := d * (d - 1), 2 * t + 1, 2 * r + 1, 2 * d - 1;
      ScaleUp(n + 1, x * (d - 1), d);
      Regroup(x, d - 1, d);
      ScaleUp(n + 1, y * d, d - 1);
      Regroup(y, d, d - 1);
      Distribute2(n + 1, d, d - 1);
      Distribute2(m, x, y);
      MulMono(x + y, 4 * b, m);
      ScaleUp(k * b, n, k);
      Distribute2(k, n, 1);
      SquareOfOdd(d, b);
      assert false;
    }
  }

  /** Rates get closer together as divisors grow, so the next smaller divisor is never better. */
  lemma SmallerIsNotBetter(clk: nat, d: nat, b: nat)
    requires d > 1 && b > 0 && Rounded(d, Base(clk), b)
    ensures Error(clk, d, b) <= Error(clk, d - 1, b)
  {
    var r, t := Rate(clk, d), Rate(clk, d - 1);
    NeighboursBracket(clk, d, b);
    RateMonotone(clk, d - 1, d);
    HalfOfQuotientRounds(Base(clk), d);
    HalfOfQuotientRounds(Base(clk), d - 1);
    if r < b && t + r < 2 * b {
      Convexity(r, t, d, b, Base(clk));
    }
  }

  /** Below half the clock the rate is the nearest one exactly when the next larger divisor is no better. */
  lemma FineNearestIff(clk: nat, clkDiv: nat, baudrate: nat)
    requires Serves(baudrate, clk, clkDiv) && baudrate < clk / (2 * clkDiv)
    ensures var d := BestDivisor(baudrate, clk, clkDiv);
      && d > 0
      && (NearestRate(clk, d, baudrate)
          <==> d == MAX_DIVISOR || Error(clk, d, baudrate) <= Error(clk, d + 1, baudrate))
  {
    var d := BestDivisor(baudrate, clk, clkDiv);
    DivisorRange(baudrate, clk, clkDiv);
    if baudrate >= 184 {
      FineSetting(baudrate, clk, clkDiv);
      SmallerIsNotBetter(clk, d, baudrate);
      NeighboursBracket(clk, d, baudrate);
    } else {
      assert Rate(clk, d) == 183;
    }
    if d == MAX_DIVISOR || Error(clk, d, baudrate) <= Error(clk, d + 1, baudrate) {
      forall e: nat | HasDivisor(BM, e)
        ensures Error(clk, d, baudrate) <= Error(clk, e, baudrate)
      {
        if e < d {
          RateMonotone(clk, e, if baudrate >= 184 then d - 1 else d);
        } else if e > d {
          RateMonotone(clk, d + 1, e);
        }
      }
    }
  }

  /** What a caller can check of a request: below half the clock, that it is not in the lower half of a gap
      between two rates although it rounds to the divisor of the faster one; above it, that it is in the
      lower half of the gap between two of the three fastest rates, or above all of them. */
  ghost predicate NearestCondition(clk: nat, baudrate: nat) {
    var f := Base(clk) / 16;
    if baudrate < f / 2 then
      forall k: nat ::
        16 <= k < MAX_DIVISOR && Rounded(k, Base(clk), baudrate) ==> Rate(clk, k) + Rate(clk, k + 1) <= 2 * baudrate
    else if baudrate < f / 3 * 2 then baudrate <= f / 12 * 7
    else if baudrate < f then baudrate <= f / 6 * 5
    else true
  }

  lemma RoundedIsUnique(n: nat, b: nat, d: nat, k: nat)
    requires b > 0 && Rounded(d, n, b) && Rounded(k, n, b)
    ensures d == k
  {
    RoundedAtLeast(d, n, b, 2 * k - 1);
    RoundedAtLeast(k, n, b, 2 * d - 1);
  }

  lemma OnlyFromHere(clk: nat, b: nat, k: nat)
    requires 0 < b && k < MAX_DIVISOR && Rounded(k, Base(clk), b)
    ensures b >= 184
  {
    if b < 184 {
      RoundedAtLeast(k, Base(clk), b, 0x40002);
    }
  }

  /** ... and below half the clock that says the same as the comparison with the next larger divisor. */
  lemma FineCondition(clk: nat, clkDiv: nat, baudrate: nat)
    requires Serves(baudrate, clk, clkDiv) && baudrate < clk / (2 * clkDiv)
    ensures var d := BestDivisor(baudrate, clk, clkDiv);
      && d > 0
      && (NearestCondition(clk, baudrate)
          <==> d == MAX_DIVISOR || Error(clk, d, baudrate) <= Error(clk, d + 1, baudrate))
  {
    var d, n := BestDivisor(baudrate, clk, clkDiv), Base(clk);
    DivisorRange(baudrate, clk, clkDiv);
    ClockNumbers(clk, clkDiv);
    forall k: nat | 16 <= k < MAX_DIVISOR && Rounded(k, n, baudrate)
      ensures k == d && baudrate >= 184
    {
      OnlyFromHere(clk, baudrate, k);
      RoundedIsUnique(n, baudrate, d, k);
    }
    if baudrate >= 184 {
      NeighboursBracket(clk, d, baudrate);
      RateMonotone(clk, d, d + 1);
    }
  }

  /** The divisor of a request above half the clock. */
  function CoarseDivisor(clk: nat, baudrate: nat): (d: nat)
    ensures d > 0
  {
    var f := Base(clk) / 16;
    if baudrate >= f then 8 else if baudrate >= f / 3 * 2 then 12 else 16
  }

  lemma CoarseRates(clk: nat)
    requires clk == H_CLK || clk == C_CLK
    ensures var f := Base(clk) / 16; Rate(clk, 8) == f && Rate(clk, 12) == f / 3 * 2 && Rate(clk, 16) == f / 2
  {
  }

  lemma CoarseSetting(baudrate: nat, clk: nat, clkDiv: nat)
    requires Serves(baudrate, clk, clkDiv) && baudrate >= clk / (2 * clkDiv)
    ensures var s := ToClkBits(baudrate, clk, clkDiv);
      && s.encoded < 3 && DecodedDivisor(s.encoded) == CoarseDivisor(clk, baudrate)
      && s.rate == Rate(clk, CoarseDivisor(clk, baudrate))
  {
    CoarseRates(clk);
    SpecialSetting(baudrate, clk, clkDiv);
  }

  lemma CoarseIsNearest(clk: nat, d: nat, e: nat, baudrate: nat)
    requires clk == H_CLK || clk == C_CLK
    requires baudrate >= Base(clk) / 16 / 2 && d == CoarseDivisor(clk, baudrate)
    requires NearestCondition(clk, baudrate) && HasDivisor(BM, e)
    ensures Error(clk, d, baudrate) <= Error(clk, e, baudrate)
  {
    CoarseRates(clk);
    var f := Base(clk) / 16;
    assert f == 12000000 || f == 3000000;
    if e >= 16 {
      RateMonotone(clk, 16, e);
    }
  }

  lemma UpperHalf(lo: nat, hi: nat, b: nat)
    requires lo <= b < hi && lo + hi < 2 * b
    ensures Distance(hi, b) < Distance(lo, b)
  {
  }

  lemma CoarseIsNotNearest(clk: nat, d: nat, baudrate: nat)
    requires clk == H_CLK || clk == C_CLK
    requires baudrate >= Base(clk) / 16 / 2 && d == CoarseDivisor(clk, baudrate)
    requires !NearestCondition(clk, baudrate)
    ensures !NearestRate(clk, d, baudrate)
  {
    CoarseRates(clk);
    var f := Base(clk) / 16;
    assert f == 12000000 || f == 3000000;
    if d == 16 {
      assert HasDivisor(BM, 12);
      UpperHalf(f / 2, f / 3 * 2, baudrate);
    } else {
      assert HasDivisor(BM, 8);
      UpperHalf(f / 3 * 2, f, baudrate);
    }
  }

  lemma CoarseNearestIff(clk: nat, d: nat, baudrate: nat)
    requires clk == H_CLK || clk == C_CLK
    requires baudrate >= Base(clk) / 16 / 2 && d == CoarseDivisor(clk, baudrate)
    ensures NearestRate(clk, d, baudrate) <==> NearestCondition(clk, baudrate)
  {
    if NearestCondition(clk, baudrate) {
      forall e: nat | HasDivisor(BM, e)
        ensures Error(clk, d, baudrate) <= Error(clk, e, baudrate)
      {
        CoarseIsNearest(clk, d, e, baudrate);
      }
    } else {
      CoarseIsNotNearest(clk, d, baudrate);
    }
  }

  /** Exactly when the returned rate is the nearest one the chip has. */
  lemma NearestRateIff(baudrate: nat, clk: nat, clkDiv: nat)
    requires Serves(baudrate, clk, clkDiv)
    ensures var s := ToClkBits(baudrate, clk, clkDiv);
      && s.encoded < 0x20000 && DecodedDivisor(s.encoded) > 0
      && s.rate == Rate(clk, DecodedDivisor(s.encoded))
      && (NearestRate(clk, DecodedDivisor(s.encoded), baudrate) <==> NearestCondition(clk, baudrate))
  {
    assert clk / (2 * clkDiv) == Base(clk) / 16 / 2;
    if baudrate < clk / (2 * clkDiv) {
      FineNearestIff(clk, clkDiv, baudrate);
      FineCondition(clk, clkDiv, baudrate);
      FineSetting(baudrate, clk, clkDiv);
      DivisorRange(baudrate, clk, clkDiv);
      EncodeRoundTrip(BestDivisor(baudrate, clk, clkDiv));
    } else {
      CoarseSetting(baudrate, clk, clkDiv);
      CoarseNearestIff(clk, DecodedDivisor(ToClkBits(baudrate, clk, clkDiv).encoded), baudrate);
    }
  }

  /** The documented promise fails: 1455000 baud is served with 1500000, but 1411765 is nearer. */
  lemma NotAlwaysNearest()
    ensures ToClkBits(1455000, C_CLK, 16) == Setting(1500000, 2)
    ensures Rate(C_CLK, 17) == 1411765 && HasDivisor(BM, 17)
    ensures Distance(1411765, 1455000) < Distance(1500000, 1455000)
  {
    assert Encode(16) == 2;
  }
}
