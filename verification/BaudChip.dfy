/** The promise of `ftdi_convert_baudrate` for the chip as a whole: the nearest rate of all it has, at either of
    its clocks. */
module BaudChip {
  import opened Bits
  import opened Baud
  import opened BaudAM
  import opened BaudSet
  import opened BaudNearest

  /** The chip has this clock, and this divisor of it. */
  predicate HasRate(chip: ChipType, clk: nat, d: nat) {
    (clk == C_CLK || (HighSpeed(chip) && clk == H_CLK)) && HasDivisor(chip, d)
  }

  /** The chip has no rate that is nearer to the request. */
  ghost predicate NearestOnChip(chip: ChipType, rate: nat, baudrate: nat) {
    forall clk: nat, d: nat :: HasRate(chip, clk, d) && d > 0 ==> Distance(rate, baudrate) <= Error(clk, d, baudrate)
  }

  /** What a caller can check of a request: for the AM, that it is not in the gap between the two fastest
      rates; for the other chips, the condition of the clock that the request leads to, and that this is the
      fast clock of a chip that has it unless the request is too slow for that. */
  ghost predicate ChipCondition(chip: ChipType, baudrate: int)
    requires baudrate > 0
  {
    if chip == AM then baudrate <= 2250000 || baudrate >= 2666667
    else if !HighSpeed(chip) then NearestCondition(C_CLK, baudrate)
    else if I32(baudrate * 10) > H_CLK / 0x3fff then NearestCondition(H_CLK, baudrate)
    else baudrate <= 732
  }

  // ----- one clock -----

  lemma OneClockIff(chip: ChipType, baudrate: nat)
    requires IsInt(baudrate) && baudrate > 0 && chip != AM && !HighSpeed(chip)
    ensures NearestOnChip(chip, EncodedSetting(baudrate, chip).rate, baudrate) <==> ChipCondition(chip, baudrate)
  {
    NearestRateIff(baudrate, C_CLK, 16);
    var s := ToClkBits(baudrate, C_CLK, 16);
    var d := DecodedDivisor(s.encoded);
    if NearestOnChip(chip, s.rate, baudrate) {
      forall e: nat | HasDivisor(BM, e)
        ensures Error(C_CLK, d, baudrate) <= Error(C_CLK, e, baudrate)
      {
        assert HasRate(chip, C_CLK, e);
      }
    }
  }

  /** Both ways of rounding a rate of the AM are the same. */
  lemma EstimateIsRate(d: nat)
    requires d > 0
    ensures Estimate(d) == Rate(C_CLK, d)
  {
    EstimateRounds(d);
    HalfOfQuotientRounds(Base(C_CLK), d);
    RoundedIsUnique(Base(C_CLK), d, Estimate(d), Rate(C_CLK, d));
  }

  lemma AMIff(baudrate: nat)
    requires IsInt(baudrate) && baudrate > 0
    ensures NearestOnChip(AM, EncodedSetting(baudrate, AM).rate, baudrate) <==> ChipCondition(AM, baudrate)
  {
    NearestIff(baudrate);
    var d := BestOfTwo(baudrate);
    forall e: nat | Supported(e)
      ensures HasRate(AM, C_CLK, e) && Distance(Estimate(e), baudrate) == Error(C_CLK, e, baudrate)
    {
      EstimateIsRate(e);
    }
  }

  // ----- two clocks -----

  lemma QuotientIs(n: nat, d: nat, q: nat, r: nat)
    requires r < d && n == q * d + r
    ensures n / d == q
  {
    QuotientBounds(n, d);
    MulLess(q, n / d + 1, d);
    MulLess(n / d, q + 1, d);
  }

  lemma QuotientOfMultiple(n: nat, d: nat)
    requires d > 0
    ensures 4 * n / (4 * d) == n / d
  {
    var q := n / d;
    assert n == q * d + n % d;
    assert 4 * n == q * (4 * d) + 4 * (n % d);
    QuotientIs(4 * n, 4 * d, q, 4 * (n % d));
  }

  /** The slow clock has only rates that the fast clock has, and some below them. */
  lemma SlowRate(e: nat)
    requires e > 0
    ensures Rate(C_CLK, e) == Rate(H_CLK, 4 * e)
  {
    QuotientOfMultiple(48000000, e);
  }

  lemma SlowestFastRate()
    ensures Rate(H_CLK, MAX_DIVISOR) == 732
  {
  }

  lemma SlowIsNotNearer(baudrate: nat, rate: nat, d: nat)
    requires baudrate > 732 && HasDivisor(BM, d)
    requires forall e: nat :: HasDivisor(BM, e) ==> Distance(rate, baudrate) <= Error(H_CLK, e, baudrate)
    ensures Distance(rate, baudrate) <= Error(C_CLK, d, baudrate)
  {
    SlowRate(d);
    if 4 * d <= MAX_DIVISOR {
      assert HasDivisor(BM, 4 * d);
    } else {
      assert HasDivisor(BM, MAX_DIVISOR);
      SlowestFastRate();
      RateMonotone(H_CLK, MAX_DIVISOR, 4 * d);
    }
  }

  /** From 733 baud on, no rate of the slow clock is nearer than all those of the fast one. */
  lemma FastClockIff(baudrate: nat, rate: nat)
    requires baudrate > 732
    ensures NearestOnChip(H2232, rate, baudrate) <==>
      forall e: nat :: HasDivisor(BM, e) ==> Distance(rate, baudrate) <= Error(H_CLK, e, baudrate)
  {
    if forall e: nat :: HasDivisor(BM, e) ==> Distance(rate, baudrate) <= Error(H_CLK, e, baudrate) {
      forall clk: nat, d: nat | HasRate(H2232, clk, d) && d > 0
        ensures Distance(rate, baudrate) <= Error(clk, d, baudrate)
      {
        if clk == C_CLK {
          SlowIsNotNearer(baudrate, rate, d);
        }
      }
    } else {
      var e: nat :| HasDivisor(BM, e) && !(Distance(rate, baudrate) <= Error(H_CLK, e, baudrate));
      assert HasRate(H2232, H_CLK, e);
    }
  }

  lemma LessThanOne(d: nat, x: int, b: nat)
    requires b < d && -(b + d) <= 2 * (d * x) <= b + d
    ensures x == 0
  {
    assert d * x == x * d;
    if x > 0 {
      MulMono(1, x, d);
    } else if x < 0 {
      MulMono(x, -1, d);
    }
  }

  /** Slow requests are met exactly, as long as the divisor fits. */
  lemma SlowIsExact(baudrate: nat)
    requires 184 <= baudrate <= 732
    ensures ToClkBits(baudrate, C_CLK, 16).rate == baudrate
  {
    var r, d := ToClkBits(baudrate, C_CLK, 16).rate, BestDivisor(baudrate, C_CLK, 16);
    Accuracy(baudrate, C_CLK, 16);
    DivisorRange(baudrate, C_CLK, 16);
    RoundedAtLeast(d, Base(C_CLK), baudrate, 1466);
    LessThanOne(d, r - baudrate, baudrate);
  }

  /** Below 184 baud the slowest rate is taken, and all others are further away. */
  lemma SlowestIsNearest(chip: ChipType, baudrate: nat)
    requires 0 < baudrate < 184
    ensures ToClkBits(baudrate, C_CLK, 16).rate == 183
    ensures chip != AM ==> NearestOnChip(chip, 183, baudrate)
  {
    FineSetting(baudrate, C_CLK, 16);
    DivisorRange(baudrate, C_CLK, 16);
    assert Rate(C_CLK, MAX_DIVISOR) == 183;
    if chip != AM {
      forall clk: nat, d: nat | HasRate(chip, clk, d) && d > 0
        ensures Distance(183, baudrate) <= Error(clk, d, baudrate)
      {
        SlowestFastRate();
        RateMonotone(clk, d, MAX_DIVISOR);
      }
    }
  }

  /** Requests so fast that the choice of the clock wraps around get the slow one, and 12 MHz is nearer. */
  lemma TooFast(baudrate: nat)
    requires baudrate >= 12000000
    ensures ToClkBits(baudrate, C_CLK, 16) == Setting(3000000, 0)
    ensures !NearestOnChip(H2232, 3000000, baudrate)
  {
    SpecialSetting(baudrate, C_CLK, 16);
    CoarseRates(H_CLK);
    assert HasRate(H2232, H_CLK, 8) && Rate(H_CLK, 8) == 12000000;
  }

  lemma SameChips(chip: ChipType, rate: nat, baudrate: nat)
    requires HighSpeed(chip)
    ensures NearestOnChip(chip, rate, baudrate) <==> NearestOnChip(H2232, rate, baudrate)
  {
    assert forall clk, d :: HasRate(chip, clk, d) <==> HasRate(H2232, clk, d);
  }

  lemma TwoClocksIff(chip: ChipType, baudrate: nat)
    requires IsInt(baudrate) && baudrate > 0 && HighSpeed(chip)
    ensures NearestOnChip(chip, EncodedSetting(baudrate, chip).rate, baudrate) <==> ChipCondition(chip, baudrate)
  {
    var rate := EncodedSetting(baudrate, chip).rate;
    assert NearestOnChip(chip, rate, baudrate) <==> NearestOnChip(H2232, rate, baudrate) by {
      SameChips(chip, rate, baudrate);
    }
    if I32(baudrate * 10) > H_CLK / 0x3fff {
      FastClockIff(baudrate, rate);
      NearestRateIff(baudrate, H_CLK, 10);
    } else if baudrate > 732 {
      TooFast(baudrate);
    } else if baudrate >= 184 {
      SlowIsExact(baudrate);
    } else {
      SlowestIsNearest(chip, baudrate);
    }
  }

  // ----- every chip -----

  /** Exactly when the returned rate is the nearest one the chip has, for every chip and every positive int. */
  lemma NearestOnChipIff(chip: ChipType, baudrate: int)
    requires IsInt(baudrate) && baudrate > 0
    ensures NearestOnChip(chip, EncodedSetting(baudrate, chip).rate, baudrate) <==> ChipCondition(chip, baudrate)
  {
    if chip == AM {
      AMIff(baudrate);
    } else if HighSpeed(chip) {
      TwoClocksIff(chip, baudrate);
    } else {
      OneClockIff(chip, baudrate);
    }
  }

  /** The condition of the chosen clock is not enough: 300000000 baud wraps around to the slow clock, of which
      3000000 is the nearest rate, but the chip has 12000000. */
  lemma WrongClock()
    ensures EncodedSetting(300000000, H2232) == Setting(3000000, 0) && NearestCondition(C_CLK, 300000000)
    ensures HasRate(H2232, H_CLK, 8) && Rate(H_CLK, 8) == 12000000
    ensures Distance(12000000, 300000000) < Distance(3000000, 300000000)
  {
    TooFast(300000000);
    CoarseRates(H_CLK);
  }
}
