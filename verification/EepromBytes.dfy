/** The address map of a final image, in numbers: what a chip will find at which address. */
module EepromBytes {
  import opened Memory
  import opened Baud
  import opened Eeprom
  import opened EepromLayout
  import opened EepromDecode
  import opened EepromFields
  import opened EepromReadBack
  import opened EepromSpecific

  // ----- the strings -----

  /** Where the strings of a chip start, and where they end if they use all the room. */
  function FirstAddress(chip: ChipType): nat {
    match chip
    case AM => 0x94
    case BM => 0x94
    case C2232 => 0x96
    case R => 0x98
    case H2232 => 0x9a
    case H4232 => 0x9a
    case H232 => 0xa0
    case X230 => 0xa0
  }

  function LastAddress(chip: ChipType): nat {
    match chip
    case AM => 0xfa
    case BM => 0xfa
    case R => 0xfe
    case X230 => 0xfe
    case _ => 0xf6
  }

  /** The room that `ftdi_eeprom_build` returns is what is left between the end of the strings and the last address
      for them: the checksum for the FT232R and FT230X, four bytes below it for the AM and BM, and eight for the
      others, which are for the plug-and-play bytes. */
  lemma RoomIsToTheEnd(f: Fields, chip: ChipType)
    ensures StringsStart(chip) == FirstAddress(chip)
    ensures UserAreaLeft(f, chip) == LastAddress(chip) - PnpStart(f, chip)
    ensures UserAreaLeft(f, chip) >= 0 <==>
      FirstAddress(chip) + 6 + 2 * (Size(f.manufacturer) + Size(f.product) + Size(f.serial)) <= LastAddress(chip)
  {
  }

  lemma AddressByte(b: byte, i: nat)
    requires 0x80 <= i < 0x100 && b == Byte(i) | 0x80
    ensures b as int == i
  {
    ByteValue(i);
    TopBit(Byte(i));
  }

  lemma LengthByte(b: byte, n: nat)
    requires 2 * n + 2 < 0x100 && b == Byte(2 * n + 2)
    ensures b as int == 2 * n + 2
  {
    ByteValue(2 * n + 2);
  }

  /** The pointer to a string of the final image, and its length. */
  predicate PointsTo(r: seq<byte>, pointer: nat, i: nat, n: nat)
    requires |r| == MAX_SIZE && pointer < 0x13
  {
    r[pointer] as int == i && r[pointer + 1] as int == 2 * n + 2
  }

  lemma StringPoints(r: seq<byte>, pointer: nat, i: nat, text: seq<byte>, size: nat)
    requires |r| == MAX_SIZE && (size == 0x80 || size == 0x100) && 0x0E <= pointer < 0x13
    requires 0x94 <= i && i + 2 * |text| + 2 <= 0x100 && HasString(r, pointer, i, text, size)
    ensures PointsTo(r, pointer, i, |text|)
  {
    AddressByte(r[pointer], i);
    LengthByte(r[pointer + 1], |text|);
  }

  lemma StringsPoint(r: seq<byte>, f: Fields, chip: ChipType, size: nat)
    requires |r| == MAX_SIZE && SizeFor(chip, size) && UserAreaLeft(f, chip) >= 0 && HasStrings(r, f, chip, size)
    ensures PointsTo(r, 0x0E, StringsStart(chip), Size(f.manufacturer))
    ensures PointsTo(r, 0x10, ProductStart(f, chip), Size(f.product))
    ensures PointsTo(r, 0x12, SerialStart(f, chip), Size(f.serial))
  {
    EndOfStrings(f, chip);
    StringPoints(r, 0x0E, StringsStart(chip), Text(f.manufacturer), size);
    StringPoints(r, 0x10, ProductStart(f, chip), Text(f.product), size);
    StringPoints(r, 0x12, SerialStart(f, chip), Text(f.serial), size);
  }

  /** The header of the final image: each string starts where the one before it ends. */
  lemma StringAddresses(img: seq<byte>, f: Fields, chip: ChipType, size: nat)
    requires |img| == MAX_SIZE && SizeFor(chip, size) && UserAreaLeft(f, chip) >= 0
    ensures var r, i := Image(img, f, chip, size), FirstAddress(chip);
      var m, p, s := Size(f.manufacturer), Size(f.product), Size(f.serial);
      && PointsTo(r, 0x0E, i, m) && PointsTo(r, 0x10, i + 2 * m + 2, p) && PointsTo(r, 0x12, i + 2 * m + 2 * p + 4, s)
  {
    ImageHasStrings(img, f, chip, size);
    StringsPoint(Image(img, f, chip, size), f, chip, size);
    RoomIsToTheEnd(f, chip);
  }

  lemma {:induction false} WideBytes(text: seq<byte>, j: nat)
    requires j < |text|
    ensures Wide(text)[2 * j] == text[j] && Wide(text)[2 * j + 1] == 0
    decreases |text|
  {
    if j > 0 {
      WideBytes(text[1..], j - 1);
    }
  }

  lemma SliceAt(r: seq<byte>, k: nat, d: seq<byte>, t: nat)
    requires k + |d| <= |r| && r[k..k + |d|] == d && t < |d|
    ensures r[k + t] == d[t]
  {
    assert r[k..k + |d|][t] == r[k + t];
  }

  /** What it means that a string is in the image: its length, the type of a string descriptor, and each character
      with a zero behind it. */
  lemma DescriptorBytes(r: seq<byte>, pointer: nat, i: nat, text: seq<byte>, size: nat, j: nat)
    requires |r| == MAX_SIZE && (size == 0x80 || size == 0x100) && 0x0E <= pointer < 0x13
    requires 0x94 <= i && i + 2 * |text| + 2 <= 0x100 && HasString(r, pointer, i, text, size)
    ensures var k := Place(i, size);
      && r[k] as int == 2 * |text| + 2 && r[k + 1] == 3
      && (j < |text| ==> r[k + 2 + 2 * j] == text[j] && r[k + 3 + 2 * j] == 0)
  {
    var k, d := Place(i, size), Descriptor(text);
    SliceAt(r, k, d, 0);
    SliceAt(r, k, d, 1);
    LengthByte(d[0], |text|);
    if j < |text| {
      WideBytes(text, j);
      SliceAt(r, k, d, 2 + 2 * j);
      SliceAt(r, k, d, 3 + 2 * j);
    }
  }

  lemma BehindIsFinal(img: seq<byte>, f: Fields, chip: ChipType, size: nat, q: nat)
    requires |img| == MAX_SIZE && SizeFor(chip, size) && UserAreaLeft(f, chip) >= 0
    requires FreeStart(chip) <= q < size - 2
    ensures Image(img, f, chip, size)[q] == Strings(EepromReadBack.Base(img, f, chip), f, chip, size)[q]
  {
    SealedByte(Unsealed(img, f, chip, size), size, q);
    FixedPartOnly(Strings(EepromReadBack.Base(img, f, chip), f, chip, size), f, chip, q);
  }

  lemma PnpWritten(r: seq<byte>, f: Fields, chip: ChipType, size: nat, k: nat)
    requires |r| == MAX_SIZE && SizeFor(chip, size) && UserAreaLeft(f, chip) >= 0
    requires HasPnp(chip) && !Overruns(f, chip) && k == PnpStart(f, chip) - (if size == 0x80 then 0x80 else 0)
    ensures k + 2 < size - 2 && k >= FreeStart(chip)
    ensures var t := WithPnp(r, f, chip, size); t[k] == 2 && t[k + 1] == 3 && t[k + 2] == Byte(f.isNotPnp)
  {
    EndOfStrings(f, chip);
    StartOfStrings(chip, size);
    MaskedAddress(PnpStart(f, chip), size);
    MaskedAddress(PnpStart(f, chip) + 1, size);
    MaskedAddress(PnpStart(f, chip) + 2, size);
  }

  lemma PnpInStrings(base: seq<byte>, f: Fields, chip: ChipType, size: nat, k: nat)
    requires |base| == MAX_SIZE && SizeFor(chip, size) && UserAreaLeft(f, chip) >= 0
    requires HasPnp(chip) && !Overruns(f, chip) && k == PnpStart(f, chip) - (if size == 0x80 then 0x80 else 0)
    ensures k + 2 < size - 2 && k >= FreeStart(chip)
    ensures var t := Strings(base, f, chip, size); t[k] == 2 && t[k + 1] == 3 && t[k + 2] == Byte(f.isNotPnp)
  {
    StringsThenPnp(base, f, chip, size);
    PnpWritten(StringsOnly(base, f, chip, size), f, chip, size, k);
  }

  /** The plug-and-play bytes in the final image, at address `k` behind the strings. */
  lemma PnpBytes(img: seq<byte>, f: Fields, chip: ChipType, size: nat, k: nat)
    requires |img| == MAX_SIZE && SizeFor(chip, size) && UserAreaLeft(f, chip) >= 0
    requires HasPnp(chip) && !Overruns(f, chip) && k == PnpStart(f, chip) - (if size == 0x80 then 0x80 else 0)
    ensures k + 2 < size - 2
    ensures var r := Image(img, f, chip, size);
      r[k] == 2 && r[k + 1] == 3 && r[k + 2] as int == f.isNotPnp % 256
  {
    PnpInStrings(EepromReadBack.Base(img, f, chip), f, chip, size, k);
    BehindIsFinal(img, f, chip, size, k);
    BehindIsFinal(img, f, chip, size, k + 1);
    BehindIsFinal(img, f, chip, size, k + 2);
    ByteValue(f.isNotPnp);
  }

  // ----- the configuration descriptor -----

  lemma PowerFlagsAre(b: byte, s: bool, w: bool)
    requires b == 0x80 | Flag(0x40, s) | Flag(0x20, w)
    ensures Has(b, 0x80) && Has(b, 0x40) == s && Has(b, 0x20) == w && b & 0x1f == 0
  {
  }

  /** Half of `n`, rounded towards zero. */
  predicate IsHalf(n: int, h: int) {
    n == 2 * h || (n > 0 && n == 2 * h + 1) || (n < 0 && n == 2 * h - 1)
  }

  /** The attributes and the power limit: the top bit is always set, and the limit is in units of 2 mA. */
  lemma PowerBytes(img: seq<byte>, f: Fields, chip: ChipType, size: nat, h: int)
    requires |img| == MAX_SIZE && SizeFor(chip, size) && UserAreaLeft(f, chip) >= 0 && IsHalf(f.maxPower, h)
    ensures var r := Image(img, f, chip, size);
      && Has(r[8], 0x80) && Has(r[8], 0x40) == f.selfPowered && Has(r[8], 0x20) == f.remoteWakeup && r[8] & 0x1f == 0
      && r[9] as int == h % 256
  {
    HeaderReaches(img, f, chip, size, 6);
    HeaderReaches(img, f, chip, size, 7);
    PowerFlagsAre(Image(img, f, chip, size)[8], f.selfPowered, f.remoteWakeup);
    assert Half(f.maxPower) == h;
    ByteValue(h);
  }

  // ----- bytes of the chips -----

  /** A group of pins as the chip gets it: no drive strength above 3. */
  function Limited(g: Group): Group {
    g.(drive := Min(3, g.drive))
  }

  lemma LimitedGroup(g: Group)
    requires g.drive >= 0
    ensures DecodeGroup(0 | GroupBits(g)) == Limited(g) && GroupBits(g) <= 15
  {
    LowGroup(0 | GroupBits(Limited(g)), Limited(g));
    GroupIsNibble(Limited(g));
    SmallValue(3);
  }

  lemma TwoLimited(b: byte, g: Group, h: Group)
    requires g.drive >= 0 && h.drive >= 0 && b == 0 | GroupBits(g) | (GroupBits(h) << 4)
    ensures DecodeGroup(b) == Limited(g) && DecodeGroup(b >> 4) == Limited(h)
  {
    LimitedGroup(g);
    LimitedGroup(h);
    TwoNibbles(GroupBits(g), GroupBits(h));
  }

  predicate GroupsAre(r: seq<byte>, f: Fields)
    requires |r| == MAX_SIZE
  {
    && DecodeGroup(r[0x0C]) == Limited(f.group0) && DecodeGroup(r[0x0C] >> 4) == Limited(f.group1)
    && DecodeGroup(r[0x0D]) == Limited(f.group2) && DecodeGroup(r[0x0D] >> 4) == Limited(f.group3)
  }

  lemma GroupsStored(r: seq<byte>, f: Fields)
    requires |r| == MAX_SIZE && BytesOfGroups(r, f)
    requires f.group0.drive >= 0 && f.group1.drive >= 0 && f.group2.drive >= 0 && f.group3.drive >= 0
    ensures GroupsAre(r, f)
  {
    TwoLimited(r[0x0C], f.group0, f.group1);
    TwoLimited(r[0x0D], f.group2, f.group3);
  }

  /** The groups of an FT2232H or FT4232H in the final image: a drive strength that does not exist is the highest. */
  lemma GroupsOfHighSpeed(img: seq<byte>, f: Fields, chip: ChipType, size: nat)
    requires |img| == MAX_SIZE && SizeFor(chip, size) && UserAreaLeft(f, chip) >= 0 && (chip == H2232 || chip == H4232)
    requires f.group0.drive >= 0 && f.group1.drive >= 0 && f.group2.drive >= 0 && f.group3.drive >= 0
    ensures GroupsAre(Image(img, f, chip, size), f)
  {
    var v := Placed(img, f, chip, size);
    if chip == H2232 {
      Stored2232H(Image(img, f, chip, size), v, f);
    } else {
      Stored4232H(Image(img, f, chip, size), v, f);
    }
    GroupsStored(Image(img, f, chip, size), f);
  }

  /** The same for an FT232H, with one group a byte. */
  lemma GroupsOf232H(img: seq<byte>, f: Fields, size: nat)
    requires |img| == MAX_SIZE && SizeFor(H232, size) && UserAreaLeft(f, H232) >= 0
    requires f.group0.drive >= 0 && f.group1.drive >= 0
    ensures var r := Image(img, f, H232, size);
      DecodeGroup(r[0x0C]) == Limited(f.group0) && DecodeGroup(r[0x0D]) == Limited(f.group1)
  {
    var v := Placed(img, f, H232, size);
    Stored232H(Image(img, f, H232, size), v, f);
    LimitedGroup(f.group0);
    LimitedGroup(f.group1);
  }

  /** What is stored for an FT230X, whatever was there: byte 0, the drive strengths, the inversion, and seven
      pins. */
  lemma BytesOf230X(v: seq<byte>, f: Fields, k: nat)
    requires |v| == MAX_SIZE && k < 7
    ensures var r := Specific(v, f, X230);
      && r[0x00] == 0x80 && r[0x0C] == 0 && r[0x0B] as int == f.invert % 256
      && r[0x1A + k] as int == f.cbusFunction[k] % 256
  {
    var ws := SpecificStores(v, f, X230);
    PatchStores(v, ws, 0);
    PatchStores(v, ws, 1);
    PatchStores(v, ws, 2 + k);
    PatchStores(v, ws, 9);
    ByteValue(f.invert);
    ByteValue(f.cbusFunction[k]);
  }

  lemma SecondStoreOfR(v: seq<byte>, f: Fields)
    requires |v| == MAX_SIZE
    ensures SpecificStores(v, f, R)[1] == (0x01, 0x40)
  {
  }

  /** The endpoint size of the FT232R. */
  lemma EndpointSize(img: seq<byte>, f: Fields, size: nat)
    requires |img| == MAX_SIZE && SizeFor(R, size) && UserAreaLeft(f, R) >= 0
    ensures Image(img, f, R, size)[0x01] == 0x40
  {
    var ws := SpecificStores(WithStrings(img, f, R, size), f, R);
    StoresReach(img, f, R, size, ws);
    SecondStoreOfR(WithStrings(img, f, R, size), f);
    assert Image(img, f, R, size)[ws[1].0] == ws[1].1;
  }

  /** What the chip is told of a pin: its function, or a default if there is no such function. */
  function Told(pin: int, limit: int, default: int): int {
    if pin > limit then default else pin
  }

  lemma PairTold(b: byte, f: Fields, i: nat, j: nat, di: int, dj: int)
    requires i < 10 && j < 10 && f.cbusFunction[i] >= 0 && f.cbusFunction[j] >= 0 && 0 <= di <= 12 && 0 <= dj <= 12
    requires b == PinPair(Pin(f, i, 12, di), Pin(f, j, 12, dj))
    ensures LowNibble(b) == Told(f.cbusFunction[i], 12, di) && HighNibble(b) == Told(f.cbusFunction[j], 12, dj)
  {
    PairOfPins(Pin(f, i, 12, di), Pin(f, j, 12, dj));
  }

  lemma LastTold(b: byte, f: Fields)
    requires f.cbusFunction[4] >= 0 && b == Byte(Pin(f, 4, 9, 5))
    ensures LowNibble(b) == Told(f.cbusFunction[4], 9, 5)
  {
    SmallPin(b, Pin(f, 4, 9, 5));
  }

  /** The pins of an FT232R: a function that does not exist is replaced by the default of the pin, TXLED, RXLED,
      TXDEN, PWREN or SLEEP. */
  lemma PinsOfR(img: seq<byte>, f: Fields, size: nat)
    requires |img| == MAX_SIZE && SizeFor(R, size) && UserAreaLeft(f, R) >= 0
    requires forall i :: 0 <= i < 5 ==> f.cbusFunction[i] >= 0
    ensures var r := Image(img, f, R, size);
      && LowNibble(r[0x14]) == Told(f.cbusFunction[0], 12, 3) && HighNibble(r[0x14]) == Told(f.cbusFunction[1], 12, 2)
      && LowNibble(r[0x15]) == Told(f.cbusFunction[2], 12, 0) && HighNibble(r[0x15]) == Told(f.cbusFunction[3], 12, 1)
      && LowNibble(r[0x16]) == Told(f.cbusFunction[4], 9, 5)
  {
    var v := Placed(img, f, R, size);
    var r := Image(img, f, R, size);
    StoredR(r, v, f);
    PairTold(r[0x14], f, 0, 1, 3, 2);
    PairTold(r[0x15], f, 2, 3, 0, 1);
    LastTold(r[0x16], f);
  }

  lemma PairIn232H(r: seq<byte>, f: Fields, k: nat)
    requires |r| == MAX_SIZE && k < 5 && Bytes232H(r, f)
    ensures r[0x18 + k] == PinPair(Pin(f, 2 * k, 12, 0), Pin(f, 2 * k + 1, 12, 0))
  {
    if k == 0 {
    } else if k == 1 {
    } else if k == 2 {
    } else if k == 3 {
    }
  }

  /** The pins of an FT232H: a function that does not exist leaves the pin in tristate. */
  lemma PinsOf232H(img: seq<byte>, f: Fields, size: nat, k: nat)
    requires |img| == MAX_SIZE && SizeFor(H232, size) && UserAreaLeft(f, H232) >= 0
    requires k < 5 && f.cbusFunction[2 * k] >= 0 && f.cbusFunction[2 * k + 1] >= 0
    ensures var b := Image(img, f, H232, size)[0x18 + k];
      LowNibble(b) == Told(f.cbusFunction[2 * k], 12, 0) && HighNibble(b) == Told(f.cbusFunction[2 * k + 1], 12, 0)
  {
    var v := Placed(img, f, H232, size);
    var r := Image(img, f, H232, size);
    Stored232H(r, v, f);
    PairIn232H(r, f, k);
    PairTold(r[0x18 + k], f, 2 * k, 2 * k + 1, 0, 0);
  }
}
