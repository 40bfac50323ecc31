/** The rates that an FT8U232AM accepts: its divisors are far apart at the fast end, so there are gaps. */
module BaudAMSet {
  import opened Baud
  import opened BaudAM
  import opened BaudSet

  /** The accepted requests. */
  predicate InAMRates(b: int) {
    || 175 <= b <= 630000 || 634921 <= b <= 787500 || 816327 <= b <= 1050000 || 1142858 <= b <= 1260000
    || 1269841 <= b <= 1575000 || 2857143 <= b <= 3150000
  }

  /** The rate of the better of two divisors. */
  function BetterRate(lo: nat, hi: nat, b: nat): nat
    requires lo > 0 && hi > 0
  {
    if Distance(Estimate(hi), b) < Distance(Estimate(lo), b) then Estimate(hi) else Estimate(lo)
  }

  lemma CloseRates(lo: nat, hi: nat, r: nat, t: nat)
    requires 64 <= lo < hi <= lo + 4 && Rounded(r, 2 * AM_CLK, lo) && Rounded(t, 2 * AM_CLK, hi)
    ensures 16 * r <= 17 * t + 16
  {
    MulMonoRight(2 * t + 1, 16 * hi, 17 * lo);
    assert (2 * t + 1) * (16 * hi) == 16 * ((2 * t + 1) * hi) && (2 * t + 1) * (17 * lo) == 17 * (2 * t + 1) * lo;
    assert 16 * (2 * r - 1) * lo == 16 * ((2 * r - 1) * lo);
    MulLess(16 * (2 * r - 1), 17 * (2 * t + 1), lo);
  }

  /** Where neighbouring divisors are close, the better one is always within the tolerance. */
  lemma CloseDivisors(lo: nat, hi: nat, b: nat)
    requires 64 <= lo < hi <= lo + 4 && lo * b <= AM_CLK <= hi * b && b >= 184
    ensures Tolerated(BetterRate(lo, hi, b), b)
  {
    var r, t := Estimate(lo), Estimate(hi);
    EstimateRounds(lo);
    EstimateRounds(hi);
    Overshoot(lo, b);
    Overshoot(hi, b);
    CloseRates(lo, hi, r, t);
  }

  lemma Divisors16(lo: nat, hi: nat, b: nat)
    requires (lo == 16 && hi == 17) || (lo == 17 && hi == 18)
          || (lo == 18 && hi == 20) || (lo == 20 && hi == 24)
    requires lo * b <= AM_CLK <= hi * b
    ensures Tolerated(BetterRate(lo, hi, b), b) <==> InAMRates(b)
  {
    assert Estimate(16) == 1500000 && Estimate(17) == 1411765 && Estimate(18) == 1333333
        && Estimate(20) == 1200000 && Estimate(24) == 1000000;
  }

  lemma Divisors24(lo: nat, hi: nat, b: nat)
    requires (lo == 24 && hi == 25) || (lo == 25 && hi == 26)
          || (lo == 26 && hi == 28) || (lo == 28 && hi == 32)
    requires lo * b <= AM_CLK <= hi * b
    ensures Tolerated(BetterRate(lo, hi, b), b) <==> InAMRates(b)
  {
    assert Estimate(24) == 1000000 && Estimate(25) == 960000 && Estimate(26) == 923077
        && Estimate(28) == 857143 && Estimate(32) == 750000;
  }

  lemma Divisors32(lo: nat, hi: nat, b: nat)
    requires (lo == 32 && hi == 33) || (lo == 33 && hi == 34)
          || (lo == 34 && hi == 36) || (lo == 36 && hi == 40)
    requires lo * b <= AM_CLK <= hi * b
    ensures Tolerated(BetterRate(lo, hi, b), b) <==> InAMRates(b)
  {
    assert Estimate(32) == 750000 && Estimate(33) == 727273 && Estimate(34) == 705882
        && Estimate(36) == 666667 && Estimate(40) == 600000;
  }

  lemma Divisors40(lo: nat, hi: nat, b: nat)
    requires (lo == 40 && hi == 41) || (lo == 41 && hi == 42)
          || (lo == 42 && hi == 44) || (lo == 44 && hi == 48)
    requires lo * b <= AM_CLK <= hi * b
    ensures Tolerated(BetterRate(lo, hi, b), b) <==> InAMRates(b)
  {
    assert Estimate(40) == 600000 && Estimate(41) == 585366 && Estimate(42) == 571429
        && Estimate(44) == 545455 && Estimate(48) == 500000;
  }

  lemma Divisors48(lo: nat, hi: nat, b: nat)
    requires (lo == 48 && hi == 49) || (lo == 49 && hi == 50)
          || (lo == 50 && hi == 52) || (lo == 52 && hi == 56)
    requires lo * b <= AM_CLK <= hi * b
    ensures Tolerated(BetterRate(lo, hi, b), b) <==> InAMRates(b)
  {
    assert Estimate(48) == 500000 && Estimate(49) == 489796 && Estimate(50) == 480000
        && Estimate(52) == 461538 && Estimate(56) == 428571;
  }

  lemma Divisors56(lo: nat, hi: nat, b: nat)
    requires (lo == 56 && hi == 57) || (lo == 57 && hi == 58)
          || (lo == 58 && hi == 60) || (lo == 60 && hi == 64)
    requires lo * b <= AM_CLK <= hi * b
    ensures Tolerated(BetterRate(lo, hi, b), b) <==> InAMRates(b)
  {
    assert Estimate(56) == 428571 && Estimate(57) == 421053 && Estimate(58) == 413793
        && Estimate(60) == 400000 && Estimate(64) == 375000;
  }

  /** All pairs of neighbouring divisors from /2 to /8. */
  lemma FastDivisors(lo: nat, hi: nat, b: nat)
    requires 16 <= lo < 64 && SupportedFraction(lo) && hi == lo + 1 + AdjustUp((lo + 1) % 8)
    requires lo * b <= AM_CLK <= hi * b
    ensures Tolerated(BetterRate(lo, hi, b), b) <==> InAMRates(b)
  {
    if lo <= 20 {
      Divisors16(lo, hi, b);
    } else if lo <= 28 {
      Divisors24(lo, hi, b);
    } else if lo <= 36 {
      Divisors32(lo, hi, b);
    } else if lo <= 44 {
      Divisors40(lo, hi, b);
    } else if lo <= 52 {
      Divisors48(lo, hi, b);
    } else {
      Divisors56(lo, hi, b);
    }
  }

  lemma StepsAreSmall(s: nat)
    requires 16 <= s < 130435 && SupportedFraction(s)
    ensures Candidate(s, 0) == s
    ensures Candidate(s, 1) == s + 1 + AdjustUp((s + 1) % 8) <= s + 4
  {
  }

  /** The candidates for a request that is neither clamped nor above half the clock. */
  lemma Candidates(b: nat)
    requires 184 <= b <= 1500000
    ensures var s := StartDivisor(b);
      var lo, hi := Candidate(s, 0), Candidate(s, 1);
      && 16 <= lo < hi <= lo + 4 && SupportedFraction(lo) && hi == lo + 1 + AdjustUp((lo + 1) % 8)
      && lo * b <= AM_CLK <= hi * b
  {
    var q, s := AM_CLK / b, StartDivisor(b);
    var lo, hi := Candidate(s, 0), Candidate(s, 1);
    QuotientRange(b);
    QuotientBounds(AM_CLK, b);
    QuotientAtLeast(q, 130435, b);
    SupportedNeighbours(q);
    AdjustedNeighbours(q, 0);
    StepsAreSmall(s);
    MulMono(lo, q, b);
    MulMono(q + 1, hi, b);
  }

  /** Below 184 baud both candidates are the largest divisor. */
  lemma SlowCandidates(b: nat)
    requires 0 < b < 184
    ensures BestOfTwo(b) == AM_MAX_DIVISOR && Estimate(AM_MAX_DIVISOR) == 183
  {
    var q := AM_CLK / b;
    QuotientBounds(AM_CLK, b);
    QuotientAtLeast(q, 131147, b);
  }

  lemma SlowEnough(lo: nat, b: nat)
    requires lo >= 64 && lo * b <= AM_CLK && b >= 184
    ensures InAMRates(b)
  {
    MulMono(64, lo, b);
  }

  /** The exact set of accepted requests, gaps included. */
  lemma AcceptedRatesAM(baudrate: int)
    requires IsInt(baudrate)
    ensures Accepts(AM, baudrate) <==> InAMRates(baudrate)
  {
    if baudrate > 0 {
      var b: nat := baudrate;
      var s := StartDivisor(b);
      var lo, hi := Candidate(s, 0), Candidate(s, 1);
      assert EncodedSetting(baudrate, AM).rate == BetterRate(lo, hi, b);
      if b < 184 {
        SlowCandidates(b);
      } else if b > 1500000 {
        CoarseCandidates(b);
        assert Estimate(16) == 1500000 && Estimate(8) == 3000000;
      } else {
        Candidates(b);
        if lo < 64 {
          FastDivisors(lo, hi, b);
        } else {
          CloseDivisors(lo, hi, b);
          SlowEnough(lo, b);
        }
      }
    }
  }
}
