/** `ftdi_convert_baudrate` and `ftdi_set_baudrate`: the request that goes to the chip, and how the chip
    reads it. */
module BaudSet {
  import opened Bits
  import opened Baud
  import opened BaudAM

  /** The chips with the 12 MHz clock. */
  predicate HighSpeed(chip: ChipType) {
    chip == H2232 || chip == H4232 || chip == H232
  }

  /** A C `int`. */
  predicate IsInt(x: int) {
    -0x8000_0000 <= x < 0x8000_0000
  }

  /** The rate, and what goes into the control transfer; there is none for a rate that is not positive. */
  datatype Converted = NoRate | Converted(rate: nat, value: nat, index: nat)

  /** The choice of the clock; the multiplication wraps around for very large requests. */
  function EncodedSetting(baudrate: int, chip: ChipType): Setting
    requires IsInt(baudrate) && baudrate > 0
  {
    if HighSpeed(chip) then
      if I32(baudrate * 10) > H_CLK / 0x3fff then
        var s := ToClkBits(baudrate, H_CLK, 10);
        Setting(s.rate, Or(s.encoded, 0x20000))
      else ToClkBits(baudrate, C_CLK, 16)
    else if chip == AM then Setting(Estimate(BestOfTwo(baudrate)), EncodeAM(BestOfTwo(baudrate)))
    else ToClkBits(baudrate, C_CLK, 16)
  }

  /** The split of the encoded divisor over `value` and `index`; `port` selects the interface. */
  function Split(s: Setting, chip: ChipType, port: nat): (c: Converted)
    ensures c.Converted?
  {
    var value := s.encoded % 0x10000;
    if HighSpeed(chip) then
      var index := s.encoded / 0x100 % 0x10000;
      Converted(s.rate, value, Or(port, index - index % 0x100))
    else Converted(s.rate, value, s.encoded / 0x10000 % 0x10000)
  }

  function Convert(baudrate: int, chip: ChipType, port: nat): Converted
    requires IsInt(baudrate)
  {
    if baudrate <= 0 then NoRate else Split(EncodedSetting(baudrate, chip), chip, port)
  }

  // ----- how the chip reads the request -----

  /** The fraction that a code stands for: the inverse of `FracCode`. */
  function CodeFraction(code: nat): nat
    requires code < 8
  {
    [0, 4, 2, 1, 3, 5, 6, 7][code]
  }

  /** The divisor, in eighths, of the 17-bit code: /1 and /1.5 have codes of their own. */
  function DecodedDivisor(code: nat): (d: nat)
    requires code < 0x20000
  {
    if code == 0 then 8
    else if code == 1 then 12
    else code % 0x4000 * 8 + CodeFraction(code / 0x4000)
  }

  /** The code and the clock in a request, for each kind of chip. */
  function ChipCode(chip: ChipType, value: nat, index: nat): nat {
    if HighSpeed(chip) then value + index / 0x100 % 2 * 0x10000
    else if chip == AM then value
    else value + index % 2 * 0x10000
  }

  function ChipBase(chip: ChipType, index: nat): nat {
    if HighSpeed(chip) && index / 0x200 % 2 == 1 then Base(H_CLK) else Base(C_CLK)
  }

  /** The chip has this divisor. */
  predicate HasDivisor(chip: ChipType, d: nat) {
    if chip == AM then Supported(d) else d == 8 || d == 12 || 16 <= d <= MAX_DIVISOR
  }

  lemma EncodeIsSum(d: nat)
    requires d <= MAX_DIVISOR
    ensures Encode(d) == d / 8 + FracCode(d % 8) * 0x4000 < 0x20000
  {
    assert Pow2(14) == 0x4000;
    OrOfDisjoint(d / 8, FracCode(d % 8), 14);
  }

  lemma FractionRoundTrip(f: nat)
    requires f < 8
    ensures CodeFraction(FracCode(f)) == f
  {
  }

  /** Encoding is undone by decoding; from /2 on no divisor gets one of the special codes. */
  lemma EncodeRoundTrip(d: nat)
    requires 16 <= d <= MAX_DIVISOR
    ensures 1 < Encode(d) < 0x20000 && DecodedDivisor(Encode(d)) == d
  {
    EncodeIsSum(d);
    FractionRoundTrip(d % 8);
    var i, f := d / 8, FracCode(d % 8);
    assert (i + f * 0x4000) % 0x4000 == i && (i + f * 0x4000) / 0x4000 == f;
  }

  /** The rate is the clock divided by the decoded divisor, rounded. */
  ghost predicate Realises(s: Setting, clk: nat) {
    s.encoded < 0x20000 && Rounded(s.rate, Base(clk), DecodedDivisor(s.encoded))
  }

  /** The codes of /1, /1.5 and /2. */
  lemma SpecialCodes(clk: nat)
    requires clk == H_CLK || clk == C_CLK
    ensures Realises(Setting(Base(clk) / 16, 0), clk) && DecodedDivisor(0) == 8
    ensures Realises(Setting(Base(clk) / 24, 1), clk) && DecodedDivisor(1) == 12
    ensures Realises(Setting(Base(clk) / 32, 2), clk) && DecodedDivisor(2) == 16
  {
  }

  lemma RateRange(n: nat, d: nat, r: nat)
    requires Rounded(r, n, d) && 16 <= d <= MAX_DIVISOR && n >= 48000000
    ensures 0 < r <= n / 16
  {
    RoundedAtLeast(r, n, d, 1);
    MulMonoRight(2 * r - 1, 16, d);
  }

  lemma FineSettingRealises(baudrate: nat, clk: nat, clkDiv: nat)
    requires Serves(baudrate, clk, clkDiv) && baudrate < clk / (2 * clkDiv)
    ensures var s := ToClkBits(baudrate, clk, clkDiv);
      Realises(s, clk) && HasDivisor(BM, DecodedDivisor(s.encoded)) && 0 < s.rate <= Base(clk) / 16
  {
    var d := BestDivisor(baudrate, clk, clkDiv);
    FineSetting(baudrate, clk, clkDiv);
    DivisorRange(baudrate, clk, clkDiv);
    EncodeRoundTrip(d);
    RateRange(Base(clk), d, ToClkBits(baudrate, clk, clkDiv).rate);
  }

  lemma ToClkBitsRealises(baudrate: nat, clk: nat, clkDiv: nat)
    requires Serves(baudrate, clk, clkDiv)
    ensures var s := ToClkBits(baudrate, clk, clkDiv);
      Realises(s, clk) && HasDivisor(BM, DecodedDivisor(s.encoded)) && 0 < s.rate <= Base(clk) / 16
  {
    if baudrate < clk / (2 * clkDiv) {
      FineSettingRealises(baudrate, clk, clkDiv);
    } else {
      SpecialSetting(baudrate, clk, clkDiv);
      SpecialCodes(clk);
    }
  }

  /** The four fractions of the chip fit two bits, and /1.5 is not among its divisors. */
  lemma AMCode(d: nat)
    requires Supported(d)
    ensures EncodeAM(d) < 0x10000 && DecodedDivisor(EncodeAM(d)) == d
  {
    EncodeIsSum(d);
    if d > 8 {
      EncodeRoundTrip(d);
      assert Encode(d) % 0x4000 == d / 8 >= 2;
    } else {
      assert Encode(8) == 1;
    }
  }

  lemma SupportedRealises(d: nat)
    requires Supported(d)
    ensures Realises(Setting(Estimate(d), EncodeAM(d)), C_CLK)
    ensures EncodeAM(d) < 0x10000 && DecodedDivisor(EncodeAM(d)) == d
    ensures 0 < Estimate(d) <= 3000000
  {
    EstimateRounds(d);
    AMCode(d);
    if d > 8 {
      RateRange(2 * AM_CLK, d, Estimate(d));
    }
  }

  lemma AMRealises(baudrate: nat)
    requires baudrate > 0
    ensures var d := BestOfTwo(baudrate);
      && Realises(Setting(Estimate(d), EncodeAM(d)), C_CLK)
      && EncodeAM(d) < 0x10000 && Supported(DecodedDivisor(EncodeAM(d)))
      && 0 < Estimate(d) <= 3000000
  {
    BestIsSupported(baudrate);
    SupportedRealises(BestOfTwo(baudrate));
  }

  lemma PortBits(port: nat, hi: nat)
    requires port < 0x100
    ensures Or(port, hi * 0x100) == port + hi * 0x100
    ensures (port + hi * 0x100) / 0x100 == hi && (port + hi * 0x100) % 0x100 == port
    ensures (port + hi * 0x100) / 0x200 == hi / 2
  {
    assert Pow2(8) == 0x100;
    OrOfDisjoint(port, hi, 8);
  }

  lemma HighByte(e: nat)
    requires e < 0x40000
    ensures var index := e / 0x100 % 0x10000; index - index % 0x100 == e / 0x10000 * 0x100
  {
  }

  /** Splitting and reassembling gives the encoded divisor back, and the interface number is not
      disturbed by the high bits of the divisor. */
  lemma SplitHighSpeed(s: Setting, chip: ChipType, port: nat)
    requires HighSpeed(chip) && s.encoded < 0x40000 && port < 0x100
    ensures var c := Split(s, chip, port);
      && c.rate == s.rate && c.value < 0x10000 && c.index < 0x400
      && ChipCode(chip, c.value, c.index) == s.encoded % 0x20000
      && c.index / 0x200 == s.encoded / 0x20000
      && c.index % 0x100 == port
  {
    var hi := s.encoded / 0x10000;
    HighByte(s.encoded);
    PortBits(port, hi);
    assert Split(s, chip, port).index == port + hi * 0x100;
    assert hi / 2 == s.encoded / 0x20000;
  }

  lemma ClockBit(e: nat)
    requires e < 0x20000
    ensures Or(e, 0x20000) == e + 0x20000
  {
    assert Pow2(14) == 0x4000 && Pow2(17) == 2 * Pow2(16) && Pow2(16) == 2 * Pow2(15) && Pow2(15) == 2 * Pow2(14);
    OrOfDisjoint(e, 1, 17);
  }

  /** The chip reads a divisor it has out of `value` and `index`, and its rate is the one returned. */
  ghost predicate ReadAs(c: Converted, chip: ChipType, port: nat) {
    && c.Converted? && c.value < 0x10000 && c.index < 0x10000
    && ChipCode(chip, c.value, c.index) < 0x20000
    && HasDivisor(chip, DecodedDivisor(ChipCode(chip, c.value, c.index)))
    && Rounded(c.rate, ChipBase(chip, c.index), DecodedDivisor(ChipCode(chip, c.value, c.index)))
    && (if HighSpeed(chip) then c.index % 0x100 == port && c.index < 0x400 else c.index < 2)
    && (chip == AM ==> c.index == 0)
  }

  lemma SplitFullSpeed(s: Setting, chip: ChipType, port: nat)
    requires !HighSpeed(chip) && chip != AM && Realises(s, C_CLK) && HasDivisor(BM, DecodedDivisor(s.encoded))
    ensures ReadAs(Split(s, chip, port), chip, port)
  {
    var c := Split(s, chip, port);
    assert ChipCode(chip, c.value, c.index) == s.encoded;
  }

  lemma SplitAM(s: Setting, port: nat)
    requires Realises(s, C_CLK) && s.encoded < 0x10000 && Supported(DecodedDivisor(s.encoded))
    ensures ReadAs(Split(s, AM, port), AM, port)
  {
  }

  lemma ClockOf(e: nat, code: nat, clk: nat)
    requires code < 0x20000
    requires (clk == H_CLK && e == code + 0x20000) || (clk == C_CLK && e == code)
    ensures e % 0x20000 == code && e / 0x20000 == if clk == H_CLK then 1 else 0
  {
  }

  lemma HighSpeedReads(t: Setting, s: Setting, chip: ChipType, port: nat, clk: nat)
    requires HighSpeed(chip) && port < 0x100 && Realises(t, clk) && HasDivisor(BM, DecodedDivisor(t.encoded))
    requires s.rate == t.rate
    requires (clk == H_CLK && s.encoded == t.encoded + 0x20000) || (clk == C_CLK && s.encoded == t.encoded)
    ensures ReadAs(Split(s, chip, port), chip, port)
  {
    ClockOf(s.encoded, t.encoded, clk);
    SplitHighSpeed(s, chip, port);
  }

  lemma HighSpeedRoundTrip(baudrate: int, chip: ChipType, port: nat)
    requires IsInt(baudrate) && baudrate > 0 && port < 0x100 && HighSpeed(chip)
    ensures ReadAs(Convert(baudrate, chip, port), chip, port)
  {
    var s := EncodedSetting(baudrate, chip);
    if I32(baudrate * 10) > H_CLK / 0x3fff {
      var t := ToClkBits(baudrate, H_CLK, 10);
      ToClkBitsRealises(baudrate, H_CLK, 10);
      ClockBit(t.encoded);
      HighSpeedReads(t, s, chip, port, H_CLK);
    } else {
      ToClkBitsRealises(baudrate, C_CLK, 16);
      HighSpeedReads(s, s, chip, port, C_CLK);
    }
  }

  /** Round trip: for every positive rate and every chip, what the chip reads out of `value` and `index`
      is a divisor it has, and the rate of that divisor is the rate the function returns. */
  lemma ConvertRoundTrip(baudrate: int, chip: ChipType, port: nat)
    requires IsInt(baudrate) && baudrate > 0 && port < 0x100
    ensures ReadAs(Convert(baudrate, chip, port), chip, port)
  {
    if HighSpeed(chip) {
      HighSpeedRoundTrip(baudrate, chip, port);
    } else if chip == AM {
      AMRealises(baudrate);
      SplitAM(Setting(Estimate(BestOfTwo(baudrate)), EncodeAM(BestOfTwo(baudrate))), port);
    } else {
      ToClkBitsRealises(baudrate, C_CLK, 16);
      SplitFullSpeed(ToClkBits(baudrate, C_CLK, 16), chip, port);
    }
  }

  // ----- the tolerance gate -----

  /** The check of `ftdi_set_baudrate`, in 32-bit arithmetic. */
  predicate Rejected(rate: int, baudrate: int) {
    || I32(rate * 2) < baudrate
    || (if rate < baudrate then I32(rate * 21) < I32(baudrate * 20)
        else I32(baudrate * 21) < I32(rate * 20))
  }

  /** The doubling test comes first, so no multiplication that matters wraps around. */
  lemma GateIsExact(rate: int, baudrate: int)
    requires 0 < rate <= 12000000 && IsInt(baudrate) && baudrate > 0
    ensures Rejected(rate, baudrate) <==> !Tolerated(rate, baudrate)
  {
  }

  predicate Accepts(chip: ChipType, baudrate: int)
    requires IsInt(baudrate)
  {
    baudrate > 0 && Tolerated(EncodedSetting(baudrate, chip).rate, baudrate)
  }

  /** The rates that the chips other than AM accept, exactly.  For the high-speed chips this includes the
      requests whose `baudrate * 10` wraps around: they are rejected whatever clock is chosen. */
  lemma AcceptedRates(chip: ChipType, baudrate: int)
    requires IsInt(baudrate) && chip != AM
    ensures Accepts(chip, baudrate) <==>
      if HighSpeed(chip) then
        175 <= baudrate <= 6300000 || 8000000 <= baudrate <= 8400000 || 12000000 <= baudrate <= 12600000
      else
        175 <= baudrate <= 1575000 || 2000000 <= baudrate <= 2100000 || 3000000 <= baudrate <= 3150000
  {
    if baudrate > 0 {
      if HighSpeed(chip) && I32(baudrate * 10) > H_CLK / 0x3fff {
        ToleratedRates(baudrate, H_CLK, 10);
      } else {
        ToleratedRates(baudrate, C_CLK, 16);
      }
    }
  }

  lemma RateInRange(chip: ChipType, baudrate: int)
    requires IsInt(baudrate) && baudrate > 0
    ensures 0 < EncodedSetting(baudrate, chip).rate <= 12000000
  {
    if HighSpeed(chip) && I32(baudrate * 10) > H_CLK / 0x3fff {
      ToClkBitsRealises(baudrate, H_CLK, 10);
    } else if chip == AM {
      AMRealises(baudrate);
    } else {
      ToClkBitsRealises(baudrate, C_CLK, 16);
    }
  }

  /** The part of `struct ftdi_context` that has to do with the baud rate; `requests` is every `value` and
      `index` sent to the chip. */
  class BaudContext {
    const chip: ChipType
    const index: nat
    var usbOpen: bool
    var bitbangEnabled: bool
    var baudrate: int
    var requests: seq<(nat, nat)>

    constructor (chip: ChipType, index: nat)
      ensures this.chip == chip && this.index == index && usbOpen && !bitbangEnabled && requests == []
    {
      this.chip, this.index := chip, index;
      usbOpen, bitbangEnabled, baudrate, requests := true, false, -1, [];
    }

    method ConvertBaudrate(baudrate: int) returns (bestBaud: int, value: nat, idx: nat)
      requires IsInt(baudrate)
      ensures var c := Convert(baudrate, chip, index);
        if c.NoRate? then bestBaud == -1 else bestBaud == c.rate && value == c.value && idx == c.index
      ensures baudrate > 0 && index < 0x100 ==> bestBaud >= 0 && ReadAs(Converted(bestBaud, value, idx), chip, index)
    {
      if baudrate > 0 && index < 0x100 {
        ConvertRoundTrip(baudrate, chip, index);
      }
      value, idx := 0, 0;
      if baudrate <= 0 {
        return -1, 0, 0;
      }
      var encodedDivisor: nat;
      bestBaud, encodedDivisor := ChooseDivisor(baudrate);
      value, idx := SplitDivisor(bestBaud, encodedDivisor);
    }

    method SplitDivisor(ghost rate: nat, encodedDivisor: nat) returns (value: nat, idx: nat)
      ensures Converted(rate, value, idx) == Split(Setting(rate, encodedDivisor), chip, index)
    {
      value := encodedDivisor % 0x10000;
      if HighSpeed(chip) {
        idx := encodedDivisor / 0x100 % 0x10000;
        idx := idx - idx % 0x100;
        idx := Or(index, idx);
      } else {
        idx := encodedDivisor / 0x10000 % 0x10000;
      }
    }

    /** The choice of the clock, and of the divisor. */
    method ChooseDivisor(baudrate: int) returns (bestBaud: nat, encodedDivisor: nat)
      requires IsInt(baudrate) && baudrate > 0
      ensures Setting(bestBaud, encodedDivisor) == EncodedSetting(baudrate, chip)
    {
      if chip == AM {
        bestBaud, encodedDivisor := ToClkBitsAM(baudrate);
      } else if HighSpeed(chip) && I32(baudrate * 10) > H_CLK / 0x3fff {
        var s := ToClkBits(baudrate, H_CLK, 10);
        bestBaud, encodedDivisor := s.rate, Or(s.encoded, 0x20000);
      } else {
        var s := ToClkBits(baudrate, C_CLK, 16);
        bestBaud, encodedDivisor := s.rate, s.encoded;
      }
    }

    /** `sends` says whether the control transfer succeeds. */
    method SetBaudrate(requested: int, sends: bool) returns (ret: int)
      requires IsInt(requested)
      modifies this`baudrate, this`requests
      ensures var b := if bitbangEnabled then I32(requested * 4) else requested;
        if !usbOpen then ret == -3 && requests == old(requests) && baudrate == old(baudrate)
        else if !Accepts(chip, b) then ret == -1 && requests == old(requests) && baudrate == old(baudrate)
        else
          var c := Convert(b, chip, index);
          && requests == old(requests) + [(c.value, c.index)]
          && ret == (if sends then 0 else -2)
          && baudrate == (if sends then b else old(baudrate))
    {
      if !usbOpen {
        return -3;
      }
      var b := requested;
      if bitbangEnabled {
        b := I32(b * 4);
      }
      var actual, value, idx := ConvertBaudrate(b);
      if actual <= 0 {
        if b > 0 {
          RateInRange(chip, b);
          assert false;
        }
        return -1;
      }
      RateInRange(chip, b);
      GateIsExact(actual, b);
      if Rejected(actual, b) {
        return -1;
      }
      requests := requests + [(value, idx)];
      if !sends {
        return -2;
      }
      baudrate := b;
      return 0;
    }
  }
}
