/** Baud rate divisors: from a requested rate to the `value` and `index` of the control transfer.
    A divisor counts eighths: 8 is /1, 12 is /1.5, 16 is /2, and from there on in steps of one. */
module Baud {
  import opened Bits

  datatype ChipType = AM | BM | C2232 | R | H2232 | H4232 | H232 | X230

  const H_CLK := 120000000
  const C_CLK := 48000000

  /** The encoding of the three fraction bits of a divisor. */
  function FracCode(eighths: nat): (code: nat)
    requires eighths < 8
    ensures code < 8
  {
    [0, 3, 2, 4, 1, 5, 6, 7][eighths]
  }

  /** `n / d`, halved and rounded, the way the code decides it from the lowest bit. */
  function HalfOfQuotient(n: nat, d: nat): nat
    requires d > 0
  {
    var q := n / d;
    if q % 2 == 1 then q / 2 + 1 else q / 2
  }

  /** `r` is `n / (2 * d)` rounded to the nearest integer, halves up. */
  ghost predicate Rounded(r: int, n: int, d: int) {
    (2 * r - 1) * d <= n < (2 * r + 1) * d
  }

  lemma QuotientBounds(n: nat, d: nat)
    requires d > 0
    ensures n / d * d <= n < (n / d + 1) * d
  {
  }

  lemma MulMono(x: int, y: int, d: int)
    requires x <= y && d >= 0
    ensures x * d <= y * d
  {
  }

  lemma HalfOfQuotientRounds(n: nat, d: nat)
    requires d > 0
    ensures Rounded(HalfOfQuotient(n, d), n, d)
  {
    var q, r := n / d, HalfOfQuotient(n, d);
    QuotientBounds(n, d);
    assert 2 * r - 1 <= q && q + 1 <= 2 * r + 1;
    MulMono(2 * r - 1, q, d);
    MulMono(q + 1, 2 * r + 1, d);
  }

  lemma MulLess(x: int, y: int, d: int)
    requires x * d < y * d && d >= 0
    ensures x < y
  {
    if x >= y {
      MulMono(y, x, d);
    }
  }

  /** A multiple of `d` that is not above `n` bounds the rounded quotient from below, ... */
  lemma RoundedAtLeast(r: int, n: int, d: int, k: int)
    requires Rounded(r, n, d) && d >= 0 && k * d <= n
    ensures k <= 2 * r
  {
    MulLess(k, 2 * r + 1, d);
  }

  /** ... and one above `n` bounds it from above. */
  lemma RoundedAtMost(r: int, n: int, d: int, k: int)
    requires Rounded(r, n, d) && d >= 0 && n < k * d
    ensures 2 * r <= k
  {
    MulLess(2 * r - 1, k, d);
  }

  /** The achievable rate and the encoded divisor. */
  datatype Setting = Setting(rate: nat, encoded: nat)

  /** The largest supported divisor of all chips but AM. */
  const MAX_DIVISOR := 0x1ffff

  /** `clk * 16 / clk_div`, in unsigned arithmetic. */
  function Scaled(clk: nat, clkDiv: nat): nat
    requires clkDiv > 0
  {
    U32(clk * 16) / clkDiv
  }

  /** `ftdi_to_clkbits`, divisor part: rounds, and clamps what does not fit. */
  function BestDivisor(baudrate: nat, clk: nat, clkDiv: nat): (d: nat)
    requires baudrate > 0 && clkDiv > 0
  {
    var d := HalfOfQuotient(Scaled(clk, clkDiv), baudrate);
    if d > 0x20000 then 0x1ffff else d
  }

  function Encode(d: nat): nat {
    Or(d / 8, FracCode(d % 8) * 0x4000)
  }

  /** The two clocks the code uses: 120 MHz / 10, above 732 baud only, and 48 MHz / 16. */
  predicate Serves(baudrate: nat, clk: nat, clkDiv: nat) {
    && baudrate > 0
    && ((clk == H_CLK && clkDiv == 10 && baudrate > 732) || (clk == C_CLK && clkDiv == 16))
  }

  /** 16 times the frequency that divisor /1 stands for. */
  function Base(clk: nat): nat {
    if clk == H_CLK then 192000000 else 48000000
  }

  /** The two clocks, as the code computes with them. */
  lemma ClockNumbers(clk: nat, clkDiv: nat)
    requires (clk == H_CLK && clkDiv == 10) || (clk == C_CLK && clkDiv == 16)
    ensures Scaled(clk, clkDiv) == Base(clk)
    ensures clk == H_CLK ==>
      clk / clkDiv == 12000000 && clk / (clkDiv + clkDiv / 2) == 8000000 && clk / (2 * clkDiv) == 6000000
    ensures clk == C_CLK ==>
      clk / clkDiv == 3000000 && clk / (clkDiv + clkDiv / 2) == 2000000 && clk / (2 * clkDiv) == 1500000
  {
  }

  /** The range of divisors: never below /2, clamped only below 184 baud, and never 0x20000, so that
      the integer part stays below the fraction bits. */
  lemma DivisorRange(baudrate: nat, clk: nat, clkDiv: nat)
    requires Serves(baudrate, clk, clkDiv) && baudrate < clk / (2 * clkDiv)
    ensures var d := BestDivisor(baudrate, clk, clkDiv);
      && 16 <= d <= MAX_DIVISOR
      && (baudrate >= 184 ==> Rounded(d, Base(clk), baudrate))
      && (baudrate < 184 ==> d == MAX_DIVISOR)
  {
    var n := Base(clk);
    ClockNumbers(clk, clkDiv);
    var d := HalfOfQuotient(n, baudrate);
    HalfOfQuotientRounds(n, baudrate);
    RoundedAtLeast(d, n, baudrate, 32);
    if baudrate >= 184 {
      RoundedAtMost(d, n, baudrate, 0x3ffff);
    } else {
      RoundedAtLeast(d, n, baudrate, 0x40002);
    }
  }

  /** `ftdi_to_clkbits`. */
  function ToClkBits(baudrate: nat, clk: nat, clkDiv: nat): (s: Setting)
    requires Serves(baudrate, clk, clkDiv)
  {
    if baudrate >= clk / clkDiv then Setting(clk / clkDiv, 0)
    else if baudrate >= clk / (clkDiv + clkDiv / 2) then Setting(clk / (clkDiv + clkDiv / 2), 1)
    else if baudrate >= clk / (2 * clkDiv) then Setting(clk / (2 * clkDiv), 2)
    else
      DivisorRange(baudrate, clk, clkDiv);
      var d := BestDivisor(baudrate, clk, clkDiv);
      Setting(HalfOfQuotient(Scaled(clk, clkDiv), d), Encode(d))
  }

  lemma FineChoice(baudrate: nat, clk: nat, clkDiv: nat)
    requires Serves(baudrate, clk, clkDiv) && baudrate < clk / (2 * clkDiv)
    ensures var d := BestDivisor(baudrate, clk, clkDiv);
      d > 0 && ToClkBits(baudrate, clk, clkDiv) == Setting(HalfOfQuotient(Base(clk), d), Encode(d))
  {
    ClockNumbers(clk, clkDiv);
    var n, d := Scaled(clk, clkDiv), BestDivisor(baudrate, clk, clkDiv);
    assert d > 0 by {
      DivisorRange(baudrate, clk, clkDiv);
    }
    assert ToClkBits(baudrate, clk, clkDiv) == Setting(HalfOfQuotient(n, d), Encode(d));
  }

  /** The rate and the divisor below half the clock are both rounded to the nearest integer. */
  lemma FineSetting(baudrate: nat, clk: nat, clkDiv: nat)
    requires Serves(baudrate, clk, clkDiv) && baudrate < clk / (2 * clkDiv)
    ensures var d := BestDivisor(baudrate, clk, clkDiv);
      var s := ToClkBits(baudrate, clk, clkDiv);
      && d > 0 && s == Setting(HalfOfQuotient(Base(clk), d), Encode(d))
      && Rounded(s.rate, Base(clk), d)
      && (baudrate >= 184 ==> Rounded(d, Base(clk), baudrate))
  {
    DivisorRange(baudrate, clk, clkDiv);
    FineChoice(baudrate, clk, clkDiv);
    HalfOfQuotientRounds(Base(clk), BestDivisor(baudrate, clk, clkDiv));
  }

  /** From half the clock on there are only three settings. */
  lemma SpecialSetting(baudrate: nat, clk: nat, clkDiv: nat)
    requires Serves(baudrate, clk, clkDiv) && baudrate >= clk / (2 * clkDiv)
    ensures ToClkBits(baudrate, clk, clkDiv) ==
      if clk == H_CLK then
        if baudrate >= 12000000 then Setting(12000000, 0)
        else if baudrate >= 8000000 then Setting(8000000, 1)
        else Setting(6000000, 2)
      else
        if baudrate >= 3000000 then Setting(3000000, 0)
        else if baudrate >= 2000000 then Setting(2000000, 1)
        else Setting(1500000, 2)
  {
    ClockNumbers(clk, clkDiv);
  }

  /** |r - b| <= 1/2 + b / (2 * d). */
  ghost predicate Accurate(r: int, d: int, b: int) {
    -(b + d) <= 2 * (d * (r - b)) <= b + d
  }

  lemma Distribute(d: int, r: int, b: int)
    ensures d * (r - b) == r * d - d * b
  {
  }

  lemma TwoRoundings(r: nat, d: nat, b: nat, n: nat)
    requires Rounded(r, n, d) && Rounded(d, n, b)
    ensures Accurate(r, d, b)
  {
    var p, q := r * d, d * b;
    Distribute(d, r, b);
    assert (2 * r - 1) * d == 2 * p - d && (2 * r + 1) * d == 2 * p + d;
    assert (2 * d - 1) * b == 2 * q - b && (2 * d + 1) * b == 2 * q + b;
  }

  /** The accuracy of a divisor that is not clamped. */
  lemma Accuracy(baudrate: nat, clk: nat, clkDiv: nat)
    requires Serves(baudrate, clk, clkDiv) && 184 <= baudrate < clk / (2 * clkDiv)
    ensures Accurate(ToClkBits(baudrate, clk, clkDiv).rate, BestDivisor(baudrate, clk, clkDiv), baudrate)
  {
    FineSetting(baudrate, clk, clkDiv);
    TwoRoundings(ToClkBits(baudrate, clk, clkDiv).rate, BestDivisor(baudrate, clk, clkDiv), baudrate, Base(clk));
  }

  /** Within the 5% of `ftdi_set_baudrate`, as a statement about numbers. */
  predicate Tolerated(rate: int, baudrate: int) {
    if rate < baudrate then 20 * baudrate <= 21 * rate else 20 * rate <= 21 * baudrate
  }

  lemma SmallRelativeError(e: int, d: nat, b: nat)
    requires d >= 16 && b >= 184 && 2 * (d * e) <= b + d
    ensures 20 * e <= b && 21 * e <= b
  {
    var p := d * b;
    MulMono(16, d, b - 184);
    assert (b - 184) * d == p - 184 * d && d * (b - 184) == p - 184 * d;
    assert (b + 1) * d == p + d && 21 * e * d == 21 * (d * e);
    MulLess(21 * e, b + 1, d);
  }

  lemma AccurateIsTolerated(r: nat, d: nat, b: nat)
    requires d >= 16 && b >= 184 && Accurate(r, d, b)
    ensures Tolerated(r, b)
  {
    SmallRelativeError(r - b, d, b);
    assert d * (b - r) == -(d * (r - b));
    SmallRelativeError(b - r, d, b);
  }

  lemma FineRatesTolerated(baudrate: nat, clk: nat, clkDiv: nat)
    requires Serves(baudrate, clk, clkDiv) && baudrate < clk / (2 * clkDiv)
    ensures Tolerated(ToClkBits(baudrate, clk, clkDiv).rate, baudrate) <==> baudrate >= 175
  {
    FineSetting(baudrate, clk, clkDiv);
    DivisorRange(baudrate, clk, clkDiv);
    if baudrate >= 184 {
      Accuracy(baudrate, clk, clkDiv);
      AccurateIsTolerated(ToClkBits(baudrate, clk, clkDiv).rate, BestDivisor(baudrate, clk, clkDiv), baudrate);
    } else {
      assert ToClkBits(baudrate, clk, clkDiv).rate == 183;
    }
  }

  /** Which rates `ftdi_to_clkbits` serves within the tolerance: everything from 175 up to 5% above half
      the clock, and then only what is less than 5% above its three fastest rates. */
  lemma ToleratedRates(baudrate: nat, clk: nat, clkDiv: nat)
    requires Serves(baudrate, clk, clkDiv)
    ensures Tolerated(ToClkBits(baudrate, clk, clkDiv).rate, baudrate) <==>
      if clk == H_CLK then baudrate <= 6300000 || 8000000 <= baudrate <= 8400000 || 12000000 <= baudrate <= 12600000
      else 175 <= baudrate <= 1575000 || 2000000 <= baudrate <= 2100000 || 3000000 <= baudrate <= 3150000
  {
    if baudrate < clk / (2 * clkDiv) {
      FineRatesTolerated(baudrate, clk, clkDiv);
    } else {
      SpecialSetting(baudrate, clk, clkDiv);
    }
    ClockNumbers(clk, clkDiv);
  }
}
