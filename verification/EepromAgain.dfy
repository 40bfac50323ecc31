/** The bytes that a chip stores for the fields that were decoded from its image: when they are the same again. */
module EepromAgain {
  import opened Memory
  import opened Baud
  import opened Eeprom
  import opened EepromDecode
  import opened EepromFields
  import opened EepromSpecific

  // ----- single bytes -----

  lemma ValueBack(b: byte)
    ensures (b as int) as bv8 == b
  {
  }

  lemma NoRemainder(n: int)
    requires 0 <= n < 256
    ensures n % 256 == n
  {
  }

  lemma ByteIs(n: int, b: byte)
    requires n % 256 == b as int
    ensures Byte(n) == b
  {
    ValueBack(b);
  }

  lemma ByteBack(b: byte)
    ensures Byte(b as int) == b
  {
    NoRemainder(b as int);
    ByteIs(b as int, b);
  }

  lemma LowDigit(n: int, lo: int, hi: int)
    requires 0 <= lo < 256 && n == lo + hi * 256
    ensures n % 256 == lo && n / 256 == hi
  {
  }

  lemma LowByteBack(n: int, lo: byte, hi: int)
    requires n == lo as int + hi * 256
    ensures Byte(n) == lo
  {
    LowDigit(n, lo as int, hi);
    ByteIs(n, lo);
  }

  lemma HighByteBack(n: int, lo: byte, hi: byte)
    requires n == lo as int + (hi as int) * 256
    ensures Byte(n / 256) == hi
  {
    LowDigit(n, lo as int, hi as int);
    ByteBack(hi);
  }

  lemma TwoBytesBack(r: seq<byte>, k: nat)
    requires k + 1 < |r|
    ensures r[k] == Byte(Int16(r, k)) && r[k + 1] == Byte(Int16(r, k) / 256)
  {
    LowByteBack(Int16(r, k), r[k], r[k + 1] as int);
    HighByteBack(Int16(r, k), r[k], r[k + 1]);
  }

  lemma TypeBack(x: byte, chip: ChipType)
    requires x == 0 || x == 1 || x == 2 || x == 4 || (x == 8 && chip == H232)
    requires chip == C2232 || chip == H2232 || chip == H232
    ensures Type2Bit(x as int, chip) == x
  {
    ByteBack(x);
  }

  lemma TypeOfR(x: byte, h: bool, d: bool, e: bool)
    requires x == 0 || x == 1
    ensures With(x | Flag(4, h), 8, d) | Flag(2, e) == With(0 | Flag(4, h), 8, d) | Flag(2, e) <==> x == 0
  {
  }

  lemma NibbleOfBits(b: byte)
    ensures (b & 3) | Flag(8, Has(b, 8)) | Flag(4, Has(b, 4)) == b & 0x0f
    ensures b & 3 <= 3
  {
  }

  /** Any nibble is a group of pins. */
  lemma GroupBack(b: byte)
    ensures GroupBits(DecodeGroup(b)) == b & 0x0f
  {
    ByteBack(b & 3);
    NibbleOfBits(b);
  }

  lemma JoinNibbles(b: byte)
    ensures 0 | (b & 0x0f) | (((b >> 4) & 0x0f) << 4) == b
    ensures ((b >> 4) << 4) | (b & 0x0f) == b
  {
  }

  lemma TwoGroupsBack(b: byte)
    ensures 0 | GroupBits(DecodeGroup(b)) | (GroupBits(DecodeGroup(b >> 4)) << 4) == b
  {
    GroupBack(b);
    GroupBack(b >> 4);
    JoinNibbles(b);
  }

  lemma LowBits(b: byte)
    ensures 0 | (b & 0x0f) == b <==> b <= 15
  {
  }

  lemma OneGroupBack(b: byte)
    ensures 0 | GroupBits(DecodeGroup(b)) == b <==> b <= 15
  {
    GroupBack(b);
    LowBits(b);
  }

  /** Both nibbles are pin functions that the chip has. */
  predicate PinNibbles(b: byte) {
    LowNibble(b) <= 12 && HighNibble(b) <= 12
  }

  function Limited(n: int, limit: int, default: int): int {
    if n > limit then default else n
  }

  lemma PinsBack(b: byte, di: int, dj: int)
    requires 0 <= di <= 12 && 0 <= dj <= 12
    ensures PinPair(Limited(LowNibble(b), 12, di), Limited(HighNibble(b), 12, dj)) == b <==> PinNibbles(b)
  {
    NibbleRange(b);
    PairOfPins(Limited(LowNibble(b), 12, di), Limited(HighNibble(b), 12, dj));
    if PinNibbles(b) {
      ByteBack(b & 0x0f);
      ByteBack(b >> 4);
      JoinNibbles(b);
    }
  }

  lemma LastPinBack(b: byte)
    ensures Byte(Limited(LowNibble(b), 9, 5)) == b <==> b <= 9
  {
    NibbleRange(b);
    SmallValue(Limited(LowNibble(b), 9, 5));
    if b <= 9 {
      SmallByte(b);
    }
  }

  // ----- the chips -----

  /** The values for which a chip gets the same bytes again: the FT232R forgets its channel type, and where only
      one group or function of a pin is in a byte, or a default replaces one that the chip does not have,
      negative values can leave bits that are not stored again. */
  predicate StoresRebuild(f: Fields, chip: ChipType) {
    match chip
    case R =>
      && Type2Bit(f.channelAType, R) == 0
      && PinNibbles(PinPair(Pin(f, 0, 12, 3), Pin(f, 1, 12, 2)))
      && PinNibbles(PinPair(Pin(f, 2, 12, 0), Pin(f, 3, 12, 1))) && Byte(Pin(f, 4, 9, 5)) <= 9
    case H232 =>
      && GroupBits(f.group0) <= 15 && GroupBits(f.group1) <= 15
      && PinNibbles(PinByte232H(f, 0)) && PinNibbles(PinByte232H(f, 2)) && PinNibbles(PinByte232H(f, 4))
      && PinNibbles(PinByte232H(f, 6)) && PinNibbles(PinByte232H(f, 8))
    case _ => true
  }

  lemma NaturalPins(f: Fields, k: nat, di: int, dj: int)
    requires k < 9 && 0 <= di <= 12 && 0 <= dj <= 12 && f.cbusFunction[k] >= 0 && f.cbusFunction[k + 1] >= 0
    ensures PinNibbles(PinPair(Pin(f, k, 12, di), Pin(f, k + 1, 12, dj)))
  {
    PairOfPins(Pin(f, k, 12, di), Pin(f, k + 1, 12, dj));
  }

  lemma StrongGroup(g: Group)
    requires g.drive >= 0
    ensures GroupBits(g) <= 15
  {
    GroupIsNibble(g.(drive := if g.drive > 3 then 3 else g.drive));
    SmallValue(3);
  }

  lemma NaturalsR(f: Fields)
    requires (forall i :: 0 <= i < 10 ==> f.cbusFunction[i] >= 0) && Type2Bit(f.channelAType, R) == 0
    ensures StoresRebuild(f, R)
  {
    NaturalPins(f, 0, 3, 2);
    NaturalPins(f, 2, 0, 1);
    SmallValue(Pin(f, 4, 9, 5));
  }

  predicate NaturalPair(f: Fields, k: nat)
    requires k < 9
  {
    f.cbusFunction[k] >= 0 && f.cbusFunction[k + 1] >= 0
  }

  lemma NaturalPins232H(f: Fields, k: nat)
    requires k < 9 && NaturalPair(f, k)
    ensures PinNibbles(PinByte232H(f, k))
  {
    NaturalPins(f, k, 0, 0);
  }

  lemma Naturals232H(f: Fields)
    requires f.group0.drive >= 0 && f.group1.drive >= 0
    requires NaturalPair(f, 0) && NaturalPair(f, 2) && NaturalPair(f, 4) && NaturalPair(f, 6) && NaturalPair(f, 8)
    ensures StoresRebuild(f, H232)
  {
    StrongGroup(f.group0);
    StrongGroup(f.group1);
    NaturalPins232H(f, 0);
    NaturalPins232H(f, 2);
    NaturalPins232H(f, 4);
    NaturalPins232H(f, 6);
    NaturalPins232H(f, 8);
  }

  /** Values that are not negative are all right, whether they fit or not. */
  lemma NaturalsRebuild(f: Fields, chip: ChipType)
    requires f.group0.drive >= 0 && f.group1.drive >= 0 && forall i :: 0 <= i < 10 ==> f.cbusFunction[i] >= 0
    requires chip == R ==> Type2Bit(f.channelAType, R) == 0
    ensures StoresRebuild(f, chip)
  {
    if chip == R {
      NaturalsR(f);
    } else if chip == H232 {
      Naturals232H(f);
    }
  }

  /** The flags of the configuration byte are read back. */
  lemma SameConfigByte(r: seq<byte>, f: Fields, t: Fields)
    requires |r| == MAX_SIZE && ConfigFrom(r, t) && ReadsConfig(r, f)
    ensures Config(t) == Config(f)
    ensures t.inIsochronous == f.inIsochronous && t.outIsochronous == f.outIsochronous && t.useSerial == f.useSerial
  {
  }

  lemma TypeAgain(b: byte, t: int, chip: ChipType, d: bool, mask: byte, h: bool)
    requires (chip == C2232 || chip == H2232) && (mask == 0x10 || mask == 0x80)
    requires b == Type2Bit(t, chip) | Flag(8, d) | Flag(mask, h)
    ensures Type2Bit(Bit2Type(b & 7), chip) == Type2Bit(t, chip)
    ensures Type2Bit((b & 7) as int, chip) == Type2Bit(t, chip)
  {
    TypeBits(t, chip);
    TypeByte(Type2Bit(t, chip), d, mask, h);
    TypeBack(Type2Bit(t, chip), chip);
  }

  lemma AgainBM(r: seq<byte>, v: seq<byte>, f: Fields, t: Fields)
    requires |r| == |v| == MAX_SIZE && ConfigFrom(r, t) && BytesBM(r, f)
    ensures StoresBM(v, DecodeSpecific(r, t, BM)) == StoresBM(v, f)
  {
    MeansBM(r, f);
    TwoBytesBack(r, 0x0C);
  }

  ghost predicate LikeTypes(f: Fields, h: Fields, chip: ChipType) {
    && Type2Bit(h.channelAType, chip) == Type2Bit(f.channelAType, chip)
    && Type2Bit(h.channelBType, chip) == Type2Bit(f.channelBType, chip)
  }

  ghost predicate LikeVersion(f: Fields, h: Fields) {
    Byte(h.usbVersion) == Byte(f.usbVersion) && Byte(h.usbVersion / 256) == Byte(f.usbVersion / 256)
  }

  lemma VersionAgain(r: seq<byte>, f: Fields, h: Fields)
    requires |r| == MAX_SIZE && r[0x0C] == Byte(f.usbVersion) && r[0x0D] == Byte(f.usbVersion / 256)
    requires h.usbVersion == Int16(r, 0x0C)
    ensures LikeVersion(f, h)
  {
    TwoBytesBack(r, 0x0C);
  }

  ghost predicate LikeFlags2232C(f: Fields, h: Fields) {
    && h.inIsochronous == f.inIsochronous && h.outIsochronous == f.outIsochronous
    && h.suspendPullDowns == f.suspendPullDowns && h.useUsbVersion == f.useUsbVersion
    && h.channelADriver == f.channelADriver && h.highCurrentA == f.highCurrentA
    && h.channelBDriver == f.channelBDriver && h.highCurrentB == f.highCurrentB
  }

  lemma FlagsAgain2232C(r: seq<byte>, f: Fields, t: Fields)
    requires |r| == MAX_SIZE && ConfigFrom(r, t) && Bytes2232C(r, f)
    ensures LikeFlags2232C(f, DecodeSpecific(r, t, C2232))
  {
    Means2232C(r, f);
  }

  lemma LikeStores2232C(v: seq<byte>, f: Fields, h: Fields)
    requires |v| == MAX_SIZE && LikeFlags2232C(f, h) && LikeTypes(f, h, C2232) && LikeVersion(f, h)
    requires Byte(h.chip) == Byte(f.chip)
    ensures Stores2232C(v, h) == Stores2232C(v, f)
  {
  }

  lemma Again2232C(r: seq<byte>, v: seq<byte>, f: Fields, t: Fields)
    requires |r| == |v| == MAX_SIZE && ConfigFrom(r, t) && Bytes2232C(r, f)
    ensures Stores2232C(v, DecodeSpecific(r, t, C2232)) == Stores2232C(v, f)
  {
    var h := DecodeSpecific(r, t, C2232);
    FlagsAgain2232C(r, f, t);
    assert LikeTypes(f, h, C2232) by {
      TypeAgain(r[0x00], f.channelAType, C2232, f.channelADriver, 0x10, f.highCurrentA);
      TypeAgain(r[0x01], f.channelBType, C2232, f.channelBDriver, 0x10, f.highCurrentB);
    }
    VersionAgain(r, f, h);
    ByteBack(r[0x14]);
    LikeStores2232C(v, f, h);
  }

  ghost predicate LikeLowGroups(f: Fields, h: Fields) {
    0 | GroupBits(h.group0) | (GroupBits(h.group1) << 4) == 0 | GroupBits(f.group0) | (GroupBits(f.group1) << 4)
  }

  ghost predicate LikeHighGroups(f: Fields, h: Fields) {
    0 | GroupBits(h.group2) | (GroupBits(h.group3) << 4) == 0 | GroupBits(f.group2) | (GroupBits(f.group3) << 4)
  }

  ghost predicate LikeGroups(f: Fields, h: Fields) {
    LikeLowGroups(f, h) && LikeHighGroups(f, h)
  }

  lemma LowGroupsAgain(b: byte, f: Fields, h: Fields)
    requires b == 0 | GroupBits(f.group0) | (GroupBits(f.group1) << 4)
    requires h.group0 == DecodeGroup(b) && h.group1 == DecodeGroup(b >> 4)
    ensures LikeLowGroups(f, h)
  {
    TwoGroupsBack(b);
  }

  lemma HighGroupsAgain(b: byte, f: Fields, h: Fields)
    requires b == 0 | GroupBits(f.group2) | (GroupBits(f.group3) << 4)
    requires h.group2 == DecodeGroup(b) && h.group3 == DecodeGroup(b >> 4)
    ensures LikeHighGroups(f, h)
  {
    TwoGroupsBack(b);
  }

  lemma GroupsAgain(r: seq<byte>, f: Fields, h: Fields)
    requires |r| == MAX_SIZE && BytesOfGroups(r, f)
    requires h.group0 == DecodeGroup(r[0x0C]) && h.group1 == DecodeGroup(r[0x0C] >> 4)
    requires h.group2 == DecodeGroup(r[0x0D]) && h.group3 == DecodeGroup(r[0x0D] >> 4)
    ensures LikeGroups(f, h)
  {
    LowGroupsAgain(r[0x0C], f, h);
    HighGroupsAgain(r[0x0D], f, h);
  }

  ghost predicate LikeFlags2232H(f: Fields, h: Fields) {
    && h.suspendPullDowns == f.suspendPullDowns && h.suspendDbus7 == f.suspendDbus7
    && h.channelADriver == f.channelADriver && h.channelBDriver == f.channelBDriver
  }

  lemma FlagsAgain2232H(r: seq<byte>, f: Fields, t: Fields)
    requires |r| == MAX_SIZE && ConfigFrom(r, t) && Bytes2232H(r, f)
    ensures LikeFlags2232H(f, DecodeSpecific(r, t, H2232))
  {
    Means2232H(r, f);
  }

  lemma OneFlag(b: byte, t: int, d: bool)
    requires b == Type2Bit(t, H2232) | Flag(8, d)
    ensures Type2Bit(Bit2Type(b & 7), H2232) == Type2Bit(t, H2232)
  {
    TypeAgain(b, t, H2232, d, 0x80, false);
  }

  lemma TypesAgain2232H(a: byte, b: byte, f: Fields, h: Fields)
    requires a == Type2Bit(f.channelAType, H2232) | Flag(8, f.channelADriver)
    requires b == Type2Bit(f.channelBType, H2232) | Flag(8, f.channelBDriver) | Flag(0x80, f.suspendDbus7)
    requires h.channelAType == Bit2Type(a & 7) && h.channelBType == Bit2Type(b & 7)
    ensures LikeTypes(f, h, H2232)
  {
    OneFlag(a, f.channelAType, f.channelADriver);
    TypeAgain(b, f.channelBType, H2232, f.channelBDriver, 0x80, f.suspendDbus7);
  }

  lemma LikeStores2232H(v: seq<byte>, f: Fields, h: Fields)
    requires |v| == MAX_SIZE && LikeFlags2232H(f, h) && LikeTypes(f, h, H2232) && LikeGroups(f, h)
    requires Byte(h.chip) == Byte(f.chip) && v[0x0C] == 0 && v[0x0D] == 0
    ensures Stores2232H(v, h) == Stores2232H(v, f)
  {
  }

  lemma Again2232H(r: seq<byte>, v: seq<byte>, f: Fields, t: Fields)
    requires |r| == |v| == MAX_SIZE && ConfigFrom(r, t) && Bytes2232H(r, f) && v[0x0C] == 0 && v[0x0D] == 0
    ensures Stores2232H(v, DecodeSpecific(r, t, H2232)) == Stores2232H(v, f)
  {
    var h := DecodeSpecific(r, t, H2232);
    FlagsAgain2232H(r, f, t);
    TypesAgain2232H(r[0x00], r[0x01], f, h);
    ByteBack(r[0x18]);
    GroupsAgain(r, f, h);
    LikeStores2232H(v, f, h);
  }

  /** What an FT4232H stores is the same for both. */
  ghost predicate Like4232H(f: Fields, h: Fields) {
    && h.suspendPullDowns == f.suspendPullDowns
    && h.channelADriver == f.channelADriver && h.channelBDriver == f.channelBDriver
    && h.channelCDriver == f.channelCDriver && h.channelDDriver == f.channelDDriver
    && h.channelARs485 == f.channelARs485 && h.channelBRs485 == f.channelBRs485
    && h.channelCRs485 == f.channelCRs485 && h.channelDRs485 == f.channelDRs485
    && LikeGroups(f, h) && Byte(h.chip) == Byte(f.chip)
  }

  lemma LikeStores4232H(v: seq<byte>, f: Fields, h: Fields)
    requires |v| == MAX_SIZE && Like4232H(f, h) && v[0x0C] == 0 && v[0x0D] == 0
    ensures Stores4232H(v, h) == Stores4232H(v, f)
  {
  }

  lemma Again4232H(r: seq<byte>, v: seq<byte>, f: Fields, t: Fields)
    requires |r| == |v| == MAX_SIZE && ConfigFrom(r, t) && Bytes4232H(r, f) && v[0x0C] == 0 && v[0x0D] == 0
    ensures Stores4232H(v, DecodeSpecific(r, t, H4232)) == Stores4232H(v, f)
  {
    var h := DecodeSpecific(r, t, H4232);
    Means4232H(r, f);
    ByteBack(r[0x18]);
    GroupsAgain(r, f, h);
    LikeStores4232H(v, f, h);
  }

  /** What an FT232R stores is the same for both, but for the channel type and the pins. */
  ghost predicate LikeR(f: Fields, h: Fields) {
    && h.suspendPullDowns == f.suspendPullDowns && h.highCurrent == f.highCurrent
    && h.channelADriver == f.channelADriver && h.externalOscillator == f.externalOscillator
    && Byte(h.invert) == Byte(f.invert)
    && Byte(h.usbVersion) == Byte(f.usbVersion) && Byte(h.usbVersion / 256) == Byte(f.usbVersion / 256)
  }

  /** The byte with the channel type, for type bits `x`. */
  function FirstByteR(x: byte, f: Fields): byte {
    With(x | Flag(4, f.highCurrent), 8, !f.channelADriver) | Flag(2, f.externalOscillator)
  }

  lemma LikeStoresR(v: seq<byte>, f: Fields, h: Fields)
    requires |v| == MAX_SIZE && LikeR(f, h)
    ensures StoresR(v, h) == StoresR(v, f) <==>
      && FirstByteR(Type2Bit(h.channelAType, R), f) == FirstByteR(Type2Bit(f.channelAType, R), f)
      && PinPair(Pin(h, 0, 12, 3), Pin(h, 1, 12, 2)) == PinPair(Pin(f, 0, 12, 3), Pin(f, 1, 12, 2))
      && PinPair(Pin(h, 2, 12, 0), Pin(h, 3, 12, 1)) == PinPair(Pin(f, 2, 12, 0), Pin(f, 3, 12, 1))
      && Byte(Pin(h, 4, 9, 5)) == Byte(Pin(f, 4, 9, 5))
  {
    var a, b := StoresR(v, h), StoresR(v, f);
    assert a == b <==> a[0] == b[0] && a[6] == b[6] && a[7] == b[7] && a[8] == b[8];
  }

  lemma FirstByteAgainR(f: Fields)
    ensures FirstByteR(Type2Bit(0, R), f) == FirstByteR(Type2Bit(f.channelAType, R), f)
       <==> Type2Bit(f.channelAType, R) == 0
  {
    TypeBitsR(f.channelAType);
    TypeOfR(Type2Bit(f.channelAType, R), f.highCurrent, !f.channelADriver, f.externalOscillator);
  }

  lemma PinsAgainR(a: byte, b: byte, c: byte, f: Fields, h: Fields)
    requires a == PinPair(Pin(f, 0, 12, 3), Pin(f, 1, 12, 2)) && b == PinPair(Pin(f, 2, 12, 0), Pin(f, 3, 12, 1))
    requires c == Byte(Pin(f, 4, 9, 5))
    requires h.cbusFunction[0] == LowNibble(a) && h.cbusFunction[1] == HighNibble(a)
    requires h.cbusFunction[2] == LowNibble(b) && h.cbusFunction[3] == HighNibble(b)
    requires h.cbusFunction[4] == LowNibble(c)
    ensures PinPair(Pin(h, 0, 12, 3), Pin(h, 1, 12, 2)) == a <==> PinNibbles(a)
    ensures PinPair(Pin(h, 2, 12, 0), Pin(h, 3, 12, 1)) == b <==> PinNibbles(b)
    ensures Byte(Pin(h, 4, 9, 5)) == c <==> c <= 9
  {
    PinsBack(a, 3, 2);
    PinsBack(b, 0, 1);
    LastPinBack(c);
  }

  lemma LikeDecodedR(r: seq<byte>, f: Fields, t: Fields)
    requires |r| == MAX_SIZE && ConfigFrom(r, t) && BytesR(r, f)
    ensures LikeR(f, DecodeSpecific(r, t, R))
  {
    MeansR(r, f);
    ByteBack(r[0x0B]);
    TwoBytesBack(r, 0x0C);
  }

  lemma AgainR(r: seq<byte>, v: seq<byte>, f: Fields, t: Fields)
    requires |r| == |v| == MAX_SIZE && ConfigFrom(r, t) && BytesR(r, f)
    ensures StoresR(v, DecodeSpecific(r, t, R)) == StoresR(v, f) <==> StoresRebuild(f, R)
  {
    var h := DecodeSpecific(r, t, R);
    LikeDecodedR(r, f, t);
    LikeStoresR(v, f, h);
    FirstByteAgainR(f);
    PinsAgainR(r[0x14], r[0x15], r[0x16], f, h);
  }

  ghost predicate LikeFlags232H(f: Fields, h: Fields) {
    && h.suspendPullDowns == f.suspendPullDowns && h.channelADriver == f.channelADriver
    && h.powersave == f.powersave && h.clockPolarity == f.clockPolarity
    && h.dataOrder == f.dataOrder && h.flowControl == f.flowControl
  }

  lemma FlagsAgain232H(r: seq<byte>, f: Fields, t: Fields)
    requires |r| == MAX_SIZE && ConfigFrom(r, t) && Bytes232H(r, f)
    ensures LikeFlags232H(f, DecodeSpecific(r, t, H232))
  {
    Means232H(r, f);
  }

  lemma TypeAgain232H(n: int, b: byte, t: int, d: bool)
    requires b == Type2Bit(t, H232) | Flag(0x10, d) && n == LowNibble(b)
    ensures Type2Bit(n, H232) == Type2Bit(t, H232)
  {
    TypeBits(t, H232);
    TypeNibble(Type2Bit(t, H232), d);
    TypeBack(Type2Bit(t, H232), H232);
  }

  /** The stores that can differ: two groups and five pairs of pins. */
  ghost predicate LikePins232H(f: Fields, h: Fields) {
    && PinByte232H(h, 0) == PinByte232H(f, 0) && PinByte232H(h, 2) == PinByte232H(f, 2)
    && PinByte232H(h, 4) == PinByte232H(f, 4) && PinByte232H(h, 6) == PinByte232H(f, 6)
    && PinByte232H(h, 8) == PinByte232H(f, 8)
  }

  ghost predicate LikeGroups232H(f: Fields, h: Fields) {
    0 | GroupBits(h.group0) == 0 | GroupBits(f.group0) && 0 | GroupBits(h.group1) == 0 | GroupBits(f.group1)
  }

  lemma LikeStores232H(v: seq<byte>, f: Fields, h: Fields)
    requires |v| == MAX_SIZE && LikeFlags232H(f, h) && Byte(h.chip) == Byte(f.chip)
    requires Type2Bit(h.channelAType, H232) == Type2Bit(f.channelAType, H232) && v[0x0C] == 0 && v[0x0D] == 0
    ensures LikeGroups232H(f, h) && LikePins232H(f, h) ==> Stores232H(v, h) == Stores232H(v, f)
  {
  }

  lemma StoresLike232H(v: seq<byte>, f: Fields, h: Fields)
    requires |v| == MAX_SIZE && v[0x0C] == 0 && v[0x0D] == 0 && Stores232H(v, h) == Stores232H(v, f)
    ensures LikeGroups232H(f, h) && LikePins232H(f, h)
  {
    var a, b := Stores232H(v, h), Stores232H(v, f);
    assert a[3].1 == b[3].1 && a[4].1 == b[4].1;
    assert a[5].1 == b[5].1 && a[6].1 == b[6].1 && a[7].1 == b[7].1 && a[8].1 == b[8].1 && a[9].1 == b[9].1;
  }

  lemma StoresIff232H(v: seq<byte>, f: Fields, h: Fields)
    requires |v| == MAX_SIZE && LikeFlags232H(f, h) && Byte(h.chip) == Byte(f.chip)
    requires Type2Bit(h.channelAType, H232) == Type2Bit(f.channelAType, H232) && v[0x0C] == 0 && v[0x0D] == 0
    ensures Stores232H(v, h) == Stores232H(v, f) <==> LikeGroups232H(f, h) && LikePins232H(f, h)
  {
    LikeStores232H(v, f, h);
    if Stores232H(v, h) == Stores232H(v, f) {
      StoresLike232H(v, f, h);
    }
  }

  lemma PinPairAgain(b: byte, f: Fields, h: Fields, k: nat)
    requires k < 9 && b == PinByte232H(f, k)
    requires h.cbusFunction[k] == LowNibble(b) && h.cbusFunction[k + 1] == HighNibble(b)
    ensures PinByte232H(h, k) == PinByte232H(f, k) <==> PinNibbles(PinByte232H(f, k))
  {
    PinsBack(b, 0, 0);
  }

  ghost predicate PinsFrom(r: seq<byte>, h: Fields, k: nat)
    requires |r| == MAX_SIZE && k < 5
  {
    h.cbusFunction[2 * k] == LowNibble(r[0x18 + k]) && h.cbusFunction[2 * k + 1] == HighNibble(r[0x18 + k])
  }

  lemma PinsAgain232H(r: seq<byte>, f: Fields, h: Fields)
    requires |r| == MAX_SIZE && r[0x18] == PinByte232H(f, 0) && r[0x19] == PinByte232H(f, 2)
    requires r[0x1A] == PinByte232H(f, 4) && r[0x1B] == PinByte232H(f, 6) && r[0x1C] == PinByte232H(f, 8)
    requires forall k :: 0 <= k < 5 ==> PinsFrom(r, h, k)
    ensures LikePins232H(f, h) <==>
      && PinNibbles(PinByte232H(f, 0)) && PinNibbles(PinByte232H(f, 2)) && PinNibbles(PinByte232H(f, 4))
      && PinNibbles(PinByte232H(f, 6)) && PinNibbles(PinByte232H(f, 8))
  {
    assert PinsFrom(r, h, 0) && PinsFrom(r, h, 1) && PinsFrom(r, h, 2) && PinsFrom(r, h, 3) && PinsFrom(r, h, 4);
    PinPairAgain(r[0x18], f, h, 0);
    PinPairAgain(r[0x19], f, h, 2);
    PinPairAgain(r[0x1A], f, h, 4);
    PinPairAgain(r[0x1B], f, h, 6);
    PinPairAgain(r[0x1C], f, h, 8);
  }

  lemma ZeroOr(b: byte)
    ensures 0 | b == b
  {
  }

  lemma GroupsAgain232H(r: seq<byte>, f: Fields, h: Fields)
    requires |r| == MAX_SIZE && r[0x0C] == 0 | GroupBits(f.group0) && r[0x0D] == 0 | GroupBits(f.group1)
    requires h.group0 == DecodeGroup(r[0x0C]) && h.group1 == DecodeGroup(r[0x0D])
    ensures LikeGroups232H(f, h) <==> GroupBits(f.group0) <= 15 && GroupBits(f.group1) <= 15
  {
    OneGroupBack(r[0x0C]);
    OneGroupBack(r[0x0D]);
    ZeroOr(GroupBits(f.group0));
    ZeroOr(GroupBits(f.group1));
  }

  lemma PinsDecoded(r: seq<byte>, t: Fields)
    requires |r| == MAX_SIZE
    ensures forall k :: 0 <= k < 5 ==> PinsFrom(r, DecodeSpecific(r, t, H232), k)
  {
  }

  lemma ChannelDecoded232H(r: seq<byte>, t: Fields)
    requires |r| == MAX_SIZE
    ensures DecodeSpecific(r, t, H232).channelAType == LowNibble(r[0x00])
  {
  }

  lemma FixedAgain232H(r: seq<byte>, f: Fields, t: Fields)
    requires |r| == MAX_SIZE && ConfigFrom(r, t) && Bytes232H(r, f)
    ensures var h := DecodeSpecific(r, t, H232);
      LikeFlags232H(f, h) && Byte(h.chip) == Byte(f.chip)
      && Type2Bit(h.channelAType, H232) == Type2Bit(f.channelAType, H232)
  {
    FlagsAgain232H(r, f, t);
    ByteBack(r[0x1E]);
    ChannelDecoded232H(r, t);
    TypeAgain232H(DecodeSpecific(r, t, H232).channelAType, r[0x00], f.channelAType, f.channelADriver);
  }

  lemma VaryingAgain232H(r: seq<byte>, f: Fields, t: Fields)
    requires |r| == MAX_SIZE && Bytes232H(r, f)
    ensures var h := DecodeSpecific(r, t, H232);
      LikeGroups232H(f, h) && LikePins232H(f, h) <==> StoresRebuild(f, H232)
  {
    var h := DecodeSpecific(r, t, H232);
    PinsDecoded(r, t);
    GroupsAgain232H(r, f, h);
    PinsAgain232H(r, f, h);
  }

  lemma Again232H(r: seq<byte>, v: seq<byte>, f: Fields, t: Fields)
    requires |r| == |v| == MAX_SIZE && ConfigFrom(r, t) && Bytes232H(r, f) && v[0x0C] == 0 && v[0x0D] == 0
    ensures Stores232H(v, DecodeSpecific(r, t, H232)) == Stores232H(v, f) <==> StoresRebuild(f, H232)
  {
    FixedAgain232H(r, f, t);
    VaryingAgain232H(r, f, t);
    StoresIff232H(v, f, DecodeSpecific(r, t, H232));
  }
}
