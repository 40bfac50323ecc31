/** Single bytes of an EEPROM image: which values of the fields survive encoding and decoding. */
module EepromFields {
  import opened Memory
  import opened Baud
  import opened Eeprom
  import opened EepromDecode

  predicate Word16(n: int) {
    0 <= n < 65536
  }

  predicate Byte8(n: int) {
    0 <= n < 256
  }

  lemma ByteValue(n: int)
    ensures Byte(n) as int == n % 256
  {
    ByteHolds(n % 256);
  }

  lemma SmallValue(n: int)
    requires 0 <= n < 256
    ensures Byte(n) as int == n
  {
    ByteValue(n);
  }

  lemma TwoDigits(n: int, lo: int, hi: int)
    requires lo == n % 256 && hi == (n / 256) % 256
    ensures lo + hi * 256 == n % 65536
    ensures lo + hi * 256 == n <==> Word16(n)
  {
  }

  /** A number in two bytes comes back modulo 65536. */
  lemma Int16RoundTrip(r: seq<byte>, k: nat, n: int)
    requires k + 1 < |r| && r[k] == Byte(n) && r[k + 1] == Byte(n / 256)
    ensures Int16(r, k) == n % 65536
    ensures Int16(r, k) == n <==> Word16(n)
  {
    ByteValue(n);
    ByteValue(n / 256);
    TwoDigits(n, r[k] as int, r[k + 1] as int);
  }

  /** The power limit comes back exactly if it is even and at most 510 mA. */
  lemma MaxPowerRoundTrip(b: byte, n: int)
    requires b == Byte(Half(n))
    ensures MAX_POWER_UNIT * (b as int) == n <==> 0 <= n <= 510 && n % 2 == 0
  {
    ByteValue(Half(n));
  }

  lemma ByteRoundTrip(b: byte, n: int)
    requires b == Byte(n)
    ensures b as int == n <==> Byte8(n)
  {
    ByteValue(n);
  }

  lemma PowerFlags(a: bool, b: bool)
    ensures var x := 0x80 | Flag(0x40, a) | Flag(0x20, b);
      Has(x, 0x40) == a && Has(x, 0x20) == b
  {
  }

  // ----- the configuration byte -----

  /** The configuration byte before the part that depends on the chip. */
  function Config(f: Fields): byte {
    With(Flag(1, f.inIsochronous) | Flag(2, f.outIsochronous), 8, f.useSerial)
  }

  lemma ConfigBM(f: Fields)
    ensures var x := With(Config(f), 0x10, f.useUsbVersion);
      && Has(x, 1) == f.inIsochronous && Has(x, 2) == f.outIsochronous && Has(x, 8) == f.useSerial
      && Has(x, 0x10) == f.useUsbVersion
  {
  }

  lemma Config2232C(f: Fields)
    ensures var x := With(With(With(With(Config(f), 1, f.inIsochronous), 2, f.outIsochronous),
                               4, f.suspendPullDowns), 0x10, f.useUsbVersion);
      && Has(x, 1) == f.inIsochronous && Has(x, 2) == f.outIsochronous && Has(x, 8) == f.useSerial
      && Has(x, 4) == f.suspendPullDowns && Has(x, 0x10) == f.useUsbVersion
  {
  }

  lemma ConfigPullDowns(f: Fields)
    ensures var x := With(Config(f), 4, f.suspendPullDowns);
      && Has(x, 1) == f.inIsochronous && Has(x, 2) == f.outIsochronous && Has(x, 8) == f.useSerial
      && Has(x, 4) == f.suspendPullDowns
  {
  }

  // ----- channels -----

  /** The channel types that the FT2232 chips can hold. */
  predicate ChannelType(t: int) {
    t == CHANNEL_IS_UART || t == CHANNEL_IS_FIFO || t == CHANNEL_IS_OPTO || t == CHANNEL_IS_CPU
  }

  lemma TypeBits(t: int, chip: ChipType)
    requires chip == C2232 || chip == H2232 || chip == H232
    ensures var x := Type2Bit(t, chip);
      && (x == 0 || x == 1 || x == 2 || x == 4 || x == 8) && (x == 8 ==> chip == H232)
      && (x as int == t <==> ChannelType(t) || (chip == H232 && t == CHANNEL_IS_FT1284))
  {
    ByteValue(t);
  }

  lemma TypeByte(x: byte, d: bool, mask: byte, h: bool)
    requires (x == 0 || x == 1 || x == 2 || x == 4) && (mask == 0x10 || mask == 0x80)
    ensures var b := x | Flag(8, d) | Flag(mask, h);
      b & 7 == x && Bit2Type(b & 7) == x as int && Has(b, 8) == d && Has(b, mask) == h
  {
  }

  /** A channel of an FT2232C or FT2232H. */
  lemma Channel2232(b: byte, t: int, chip: ChipType, d: bool, mask: byte, h: bool)
    requires (chip == C2232 || chip == H2232) && (mask == 0x10 || mask == 0x80)
    requires b == Type2Bit(t, chip) | Flag(8, d) | Flag(mask, h)
    ensures Bit2Type(b & 7) == t <==> ChannelType(t)
    ensures (b & 7) as int == t <==> ChannelType(t)
    ensures Has(b, 8) == d && Has(b, mask) == h
  {
    TypeBits(t, chip);
    TypeByte(Type2Bit(t, chip), d, mask, h);
  }

  lemma TypeNibble(x: byte, d: bool)
    requires x == 0 || x == 1 || x == 2 || x == 4 || x == 8
    ensures var b := x | Flag(0x10, d);
      LowNibble(b) == x as int && Has(b, 0x10) == d
  {
    assert (x | Flag(0x10, d)) & 0x0f == x;
  }

  lemma Channel232H(b: byte, t: int, d: bool)
    requires b == Type2Bit(t, H232) | Flag(0x10, d)
    ensures LowNibble(b) == t <==> ChannelType(t) || t == CHANNEL_IS_FT1284
    ensures Has(b, 0x10) == d
  {
    TypeBits(t, H232);
    TypeNibble(Type2Bit(t, H232), d);
  }

  lemma TypeBitsR(t: int)
    ensures Type2Bit(t, R) == 0 || Type2Bit(t, R) == 1
  {
  }

  lemma TypeByteR(x: byte, d: bool, h: bool, e: bool)
    requires x == 0 || x == 1
    ensures var b := With(x | Flag(4, h), 8, !d) | Flag(2, e);
      !Has(b, 8) == d && Has(b, 4) == h && Has(b, 2) == e
  {
  }

  lemma ChannelR(b: byte, t: int, d: bool, h: bool, e: bool)
    requires b == With(Type2Bit(t, R) | Flag(4, h), 8, !d) | Flag(2, e)
    ensures !Has(b, 8) == d && Has(b, 4) == h && Has(b, 2) == e
  {
    TypeBitsR(t);
    TypeByteR(Type2Bit(t, R), d, h, e);
  }

  lemma Drivers4232H(a: bool, c: bool)
    ensures var b := With(With(0, 8, a), 0x80, c);
      Has(b, 8) == a && Has(b >> 4, 8) == c
  {
  }

  lemma Rs485(a: bool, b: bool, c: bool, d: bool)
    ensures var x := With(With(With(With(0, 0x10, a), 0x20, b), 0x40, c), 0x80, d);
      Has(x, 0x10) == a && Has(x, 0x20) == b && Has(x, 0x40) == c && Has(x, 0x80) == d
  {
  }

  lemma Control232H(p: bool, c: bool, d: bool, f: bool)
    ensures var x := With(With(With(With(0, 0x80, p), 1, c), 2, d), 4, f);
      Has(x, 0x80) == p && Has(x, 1) == c && Has(x, 2) == d && Has(x, 4) == f
  {
  }

  // ----- groups of pins -----

  predicate DriveFits(g: Group) {
    0 <= g.drive <= 3
  }

  lemma NibbleBits(d: byte, s: bool, w: bool)
    requires d <= 3
    ensures var b := 0 | (d | Flag(8, s) | Flag(4, w));
      b & 3 == d && Has(b, 8) == s && Has(b, 4) == w && b <= 15
  {
  }

  /** A group in the low nibble comes back exactly if its drive strength fits. */
  lemma LowGroup(b: byte, g: Group)
    requires b == 0 | GroupBits(g)
    ensures DecodeGroup(b) == g <==> DriveFits(g)
  {
    if DriveFits(g) {
      ByteValue(g.drive);
      NibbleBits(Byte(g.drive), g.schmitt, g.slew);
    }
  }

  lemma GroupIsNibble(g: Group)
    requires DriveFits(g)
    ensures GroupBits(g) <= 15
  {
    ByteValue(g.drive);
    NibbleBits(Byte(g.drive), g.schmitt, g.slew);
  }

  lemma SameNibble(b: byte, x: byte)
    requires b & 0x0f == x & 0x0f
    ensures DecodeGroup(b) == DecodeGroup(x)
  {
    assert b & 3 == x & 3 && b & 8 == x & 8 && b & 4 == x & 4;
  }

  lemma TwoNibbles(x: byte, y: byte)
    requires x <= 15 && y <= 15
    ensures var b := 0 | x | (y << 4);
      DecodeGroup(b) == DecodeGroup(0 | x) && DecodeGroup(b >> 4) == DecodeGroup(0 | y)
  {
    SameNibble(0 | x | (y << 4), 0 | x);
    assert (0 | x | (y << 4)) >> 4 == 0 | y;
  }

  /** Two groups in one byte come back exactly if both fit: a drive strength below zero would spill into
      the other bits. */
  lemma TwoGroups(b: byte, g: Group, h: Group)
    requires b == 0 | GroupBits(g) | (GroupBits(h) << 4)
    ensures DecodeGroup(b) == g && DecodeGroup(b >> 4) == h <==> DriveFits(g) && DriveFits(h)
  {
    if DriveFits(g) && DriveFits(h) {
      GroupIsNibble(g);
      GroupIsNibble(h);
      TwoNibbles(GroupBits(g), GroupBits(h));
      LowGroup(0 | GroupBits(g), g);
      LowGroup(0 | GroupBits(h), h);
    }
  }

  // ----- pins -----

  lemma Nibbles(x: byte, y: byte)
    requires x as int <= 15 && y as int <= 15
    ensures ((y << 4) | x) & 0x0f == x && ((y << 4) | x) >> 4 == y
  {
    assert x <= 15 && y <= 15;
  }

  lemma PairOfNibbles(x: byte, y: byte)
    requires x as int <= 15 && y as int <= 15
    ensures LowNibble((y << 4) | x) == x as int && HighNibble((y << 4) | x) == y as int
  {
    Nibbles(x, y);
  }

  lemma PairOfPins(low: int, high: int)
    requires 0 <= low <= 15 && 0 <= high <= 15
    ensures LowNibble(PinPair(low, high)) == low && HighNibble(PinPair(low, high)) == high
  {
    SmallValue(low);
    SmallValue(high);
    PairOfNibbles(Byte(low), Byte(high));
  }

  predicate PinFits(n: int, limit: int) {
    0 <= n <= limit
  }

  lemma NibbleRange(b: byte)
    ensures 0 <= LowNibble(b) <= 15 && 0 <= HighNibble(b) <= 15
  {
  }

  /** Two pins in one byte come back exactly if the chip has both functions. */
  lemma TwoPins(b: byte, f: Fields, i: nat, j: nat, di: int, dj: int)
    requires i < 10 && j < 10 && 0 <= di <= 12 && 0 <= dj <= 12
    requires b == PinPair(Pin(f, i, 12, di), Pin(f, j, 12, dj))
    ensures LowNibble(b) == f.cbusFunction[i] && HighNibble(b) == f.cbusFunction[j]
      <==> PinFits(f.cbusFunction[i], 12) && PinFits(f.cbusFunction[j], 12)
  {
    NibbleRange(b);
    if 0 <= f.cbusFunction[i] && 0 <= f.cbusFunction[j] {
      PairOfPins(Pin(f, i, 12, di), Pin(f, j, 12, dj));
    }
  }

  lemma SmallByte(b: byte)
    requires b as int <= 15
    ensures LowNibble(b) == b as int
  {
    assert b <= 15;
    assert b & 0x0f == b;
  }

  lemma SmallPin(b: byte, n: int)
    requires 0 <= n <= 15 && b == Byte(n)
    ensures LowNibble(b) == n
  {
    SmallValue(n);
    SmallByte(b);
  }

  lemma OnePin(b: byte, f: Fields)
    requires b == Byte(Pin(f, 4, 9, 5))
    ensures LowNibble(b) == f.cbusFunction[4] <==> PinFits(f.cbusFunction[4], 9)
  {
    NibbleRange(b);
    if 0 <= f.cbusFunction[4] {
      SmallPin(b, Pin(f, 4, 9, 5));
    }
  }
}
