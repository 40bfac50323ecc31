/** The fields that only some chips have come back exactly if their values fit. */
module EepromSpecific {
  import opened Memory
  import opened Baud
  import opened Eeprom
  import opened EepromLayout
  import opened EepromDecode
  import opened EepromReadBack
  import opened EepromFields

  // ----- what fits, and what is the same -----

  /** The values of the fields of a chip that fit into its image. */
  predicate EncodableSpecific(f: Fields, chip: ChipType) {
    match chip
    case AM => true
    case BM => Word16(f.usbVersion)
    case C2232 =>
      ChannelType(f.channelAType) && ChannelType(f.channelBType) && Word16(f.usbVersion) && Byte8(f.chip)
    case R =>
      && Word16(f.usbVersion) && Byte8(f.invert)
      && (PinFits(f.cbusFunction[0], 12) && PinFits(f.cbusFunction[1], 12))
      && (PinFits(f.cbusFunction[2], 12) && PinFits(f.cbusFunction[3], 12)) && PinFits(f.cbusFunction[4], 9)
    case H2232 =>
      && ChannelType(f.channelAType) && ChannelType(f.channelBType)
      && DriveFits(f.group0) && DriveFits(f.group1) && DriveFits(f.group2) && DriveFits(f.group3) && Byte8(f.chip)
    case H4232 =>
      DriveFits(f.group0) && DriveFits(f.group1) && DriveFits(f.group2) && DriveFits(f.group3) && Byte8(f.chip)
    case H232 =>
      && (ChannelType(f.channelAType) || f.channelAType == CHANNEL_IS_FT1284)
      && DriveFits(f.group0) && DriveFits(f.group1) && Byte8(f.chip)
      && forall i :: 0 <= i < 10 ==> PinFits(f.cbusFunction[i], 12)
    case X230 => false
  }

  predicate SameConfig(f: Fields, g: Fields) {
    g.inIsochronous == f.inIsochronous && g.outIsochronous == f.outIsochronous && g.useSerial == f.useSerial
  }

  predicate SameGroups(f: Fields, g: Fields) {
    g.group0 == f.group0 && g.group1 == f.group1 && g.group2 == f.group2 && g.group3 == f.group3
  }

  /** The fields of a chip that both directions handle. */
  predicate SameSpecific(f: Fields, g: Fields, chip: ChipType) {
    match chip
    case AM => true
    case BM => SameConfig(f, g) && g.useUsbVersion == f.useUsbVersion && g.usbVersion == f.usbVersion
    case C2232 =>
      && SameConfig(f, g) && g.suspendPullDowns == f.suspendPullDowns && g.useUsbVersion == f.useUsbVersion
      && g.channelAType == f.channelAType && g.channelADriver == f.channelADriver && g.highCurrentA == f.highCurrentA
      && g.channelBType == f.channelBType && g.channelBDriver == f.channelBDriver && g.highCurrentB == f.highCurrentB
      && g.usbVersion == f.usbVersion && g.chip == f.chip
    case R =>
      && SameConfig(f, g) && g.suspendPullDowns == f.suspendPullDowns && g.usbVersion == f.usbVersion
      && g.channelADriver == f.channelADriver && g.highCurrent == f.highCurrent
      && g.externalOscillator == f.externalOscillator && g.invert == f.invert
      && g.cbusFunction[..5] == f.cbusFunction[..5]
    case H2232 =>
      && SameConfig(f, g) && g.suspendPullDowns == f.suspendPullDowns
      && g.channelAType == f.channelAType && g.channelADriver == f.channelADriver
      && g.channelBType == f.channelBType && g.channelBDriver == f.channelBDriver
      && g.suspendDbus7 == f.suspendDbus7 && SameGroups(f, g) && g.chip == f.chip
    case H4232 =>
      && SameConfig(f, g) && g.suspendPullDowns == f.suspendPullDowns
      && g.channelADriver == f.channelADriver && g.channelBDriver == f.channelBDriver
      && g.channelCDriver == f.channelCDriver && g.channelDDriver == f.channelDDriver
      && g.channelARs485 == f.channelARs485 && g.channelBRs485 == f.channelBRs485
      && g.channelCRs485 == f.channelCRs485 && g.channelDRs485 == f.channelDRs485
      && SameGroups(f, g) && g.chip == f.chip
    case H232 =>
      && SameConfig(f, g) && g.suspendPullDowns == f.suspendPullDowns
      && g.channelAType == f.channelAType && g.channelADriver == f.channelADriver
      && g.clockPolarity == f.clockPolarity && g.dataOrder == f.dataOrder && g.flowControl == f.flowControl
      && g.powersave == f.powersave && g.group0 == f.group0 && g.group1 == f.group1
      && g.cbusFunction == f.cbusFunction && g.chip == f.chip
    case X230 => false
  }

  /** The fields were read from the header of this image. */
  predicate ConfigFrom(r: seq<byte>, t: Fields)
    requires |r| == MAX_SIZE
  {
    && t.inIsochronous == Has(r[0x0A], 1) && t.outIsochronous == Has(r[0x0A], 2)
    && t.suspendPullDowns == Has(r[0x0A], 4) && t.useSerial == Has(r[0x0A], 8)
    && t.useUsbVersion == Has(r[0x0A], 0x10) && t.usbVersion == Int16(r, 0x0C)
  }

  // ----- the bytes of the image -----

  predicate Started(v: seq<byte>, f: Fields)
    requires |v| == MAX_SIZE
  {
    v[0x0A] == Config(f) && v[0x00] == 0 && v[0x01] == 0 && v[0x0B] == 0 && v[0x0C] == 0 && v[0x0D] == 0
  }

  lemma StartByte(img: seq<byte>, f: Fields, chip: ChipType, size: nat, q: nat)
    requires |img| == MAX_SIZE && SizeFor(chip, size) && UserAreaLeft(f, chip) >= 0
    requires q < 2 || 0x0B <= q <= 0x0D
    requires Overruns(f, chip) ==> q != 0
    ensures WithStrings(img, f, chip, size)[q] == 0
  {
    FixedPart(img, f, chip, size, q);
    BaseIsZero(img, f, chip, q);
  }

  /** The bytes of the fixed part before the stores that depend on the chip. */
  lemma StartBytes(img: seq<byte>, f: Fields, chip: ChipType, size: nat)
    requires |img| == MAX_SIZE && SizeFor(chip, size) && UserAreaLeft(f, chip) >= 0 && chip != AM && chip != X230
    ensures var v := WithStrings(img, f, chip, size);
      v[0x0A] == Config(f) && (chip != R ==> Started(v, f))
  {
    HeaderByte(img, f, chip, 8);
    FixedPart(img, f, chip, size, 0x0A);
    StartByte(img, f, chip, size, 0x0B);
    StartByte(img, f, chip, size, 0x0C);
    StartByte(img, f, chip, size, 0x0D);
    if chip != R {
      StartByte(img, f, chip, size, 0);
      StartByte(img, f, chip, size, 1);
    }
  }

  /** All bytes that depend on the chip reach the final image. */
  predicate Holds(r: seq<byte>, ws: Stores)
    requires |r| == MAX_SIZE && InImage(ws)
  {
    forall i :: 0 <= i < |ws| ==> r[ws[i].0] == ws[i].1
  }

  lemma StoresReach(img: seq<byte>, f: Fields, chip: ChipType, size: nat, ws: Stores)
    requires |img| == MAX_SIZE && SizeFor(chip, size)
    requires ws == SpecificStores(WithStrings(img, f, chip, size), f, chip)
    ensures Holds(Image(img, f, chip, size), ws)
  {
    var v := WithStrings(img, f, chip, size);
    forall i | 0 <= i < |ws|
      ensures Image(img, f, chip, size)[ws[i].0] == ws[i].1
    {
      assert ws[i].0 < FreeStart(chip);
      PatchStores(v, ws, i);
      SealedByte(Unsealed(img, f, chip, size), size, ws[i].0);
    }
  }

  // ----- the chips -----

  lemma FivePins(a: Pins, b: Pins)
    ensures a[..5] == b[..5] <==> a[0] == b[0] && a[1] == b[1] && a[2] == b[2] && a[3] == b[3] && a[4] == b[4]
  {
    if a[..5] == b[..5] {
      assert forall i :: 0 <= i < 5 ==> a[..5][i] == b[..5][i];
    }
  }

  predicate ReadsConfig(r: seq<byte>, f: Fields)
    requires |r| == MAX_SIZE
  {
    Has(r[0x0A], 1) == f.inIsochronous && Has(r[0x0A], 2) == f.outIsochronous && Has(r[0x0A], 8) == f.useSerial
  }

  predicate BytesOfGroups(r: seq<byte>, f: Fields)
    requires |r| == MAX_SIZE
  {
    && r[0x0C] == 0 | GroupBits(f.group0) | (GroupBits(f.group1) << 4)
    && r[0x0D] == 0 | GroupBits(f.group2) | (GroupBits(f.group3) << 4)
  }

  /** The two stores of the groups, into bytes that were zero. */
  lemma StoredGroups(r: seq<byte>, v: seq<byte>, f: Fields)
    requires |r| == |v| == MAX_SIZE && v[0x0C] == v[0x0D] == 0
    requires r[0x0C] == v[0x0C] | GroupBits(f.group0) | (GroupBits(f.group1) << 4)
    requires r[0x0D] == v[0x0D] | GroupBits(f.group2) | (GroupBits(f.group3) << 4)
    ensures BytesOfGroups(r, f)
  {
  }

  predicate ReadsGroups(r: seq<byte>, f: Fields)
    requires |r| == MAX_SIZE
  {
    && (DecodeGroup(r[0x0C]) == f.group0 && DecodeGroup(r[0x0C] >> 4) == f.group1
        <==> DriveFits(f.group0) && DriveFits(f.group1))
    && (DecodeGroup(r[0x0D]) == f.group2 && DecodeGroup(r[0x0D] >> 4) == f.group3
        <==> DriveFits(f.group2) && DriveFits(f.group3))
  }

  lemma GroupsMean(r: seq<byte>, f: Fields)
    requires |r| == MAX_SIZE && BytesOfGroups(r, f)
    ensures ReadsGroups(r, f)
  {
    TwoGroups(r[0x0C], f.group0, f.group1);
    TwoGroups(r[0x0D], f.group2, f.group3);
  }

  /** The bytes of an image of the FT232BM that hold these fields. */
  predicate BytesBM(r: seq<byte>, f: Fields)
    requires |r| == MAX_SIZE
  {
    && r[0x0C] == Byte(f.usbVersion)
    && r[0x0D] == Byte(f.usbVersion / 256)
    && r[0x0A] == With(Config(f), 0x10, f.useUsbVersion)
  }

  lemma StoredBM(r: seq<byte>, v: seq<byte>, f: Fields)
    requires |r| == |v| == MAX_SIZE && Started(v, f) && Holds(r, StoresBM(v, f))
    ensures BytesBM(r, f)
  {
    var ws := StoresBM(v, f);
    assert r[ws[0].0] == ws[0].1;
    assert r[ws[1].0] == ws[1].1;
    assert r[ws[2].0] == ws[2].1;
  }

  /** What such bytes say about the fields. */
  predicate ReadsBM(r: seq<byte>, f: Fields)
    requires |r| == MAX_SIZE
  {
    && ReadsConfig(r, f)
    && Has(r[0x0A], 0x10) == f.useUsbVersion
    && (Int16(r, 0x0C) == f.usbVersion <==> Word16(f.usbVersion))
  }

  lemma MeansBM(r: seq<byte>, f: Fields)
    requires |r| == MAX_SIZE && BytesBM(r, f)
    ensures ReadsBM(r, f)
  {
    ConfigBM(f);
    Int16RoundTrip(r, 0x0C, f.usbVersion);
  }

  lemma DecodesBM(r: seq<byte>, f: Fields, t: Fields)
    requires |r| == MAX_SIZE && ConfigFrom(r, t) && ReadsBM(r, f)
    ensures SameSpecific(f, DecodeSpecific(r, t, BM), BM) <==> EncodableSpecific(f, BM)
  {
  }

  lemma RestoresBM(r: seq<byte>, v: seq<byte>, f: Fields, t: Fields)
    requires |r| == |v| == MAX_SIZE && ConfigFrom(r, t) && Started(v, f) && Holds(r, StoresBM(v, f))
    ensures SameSpecific(f, DecodeSpecific(r, t, BM), BM) <==> EncodableSpecific(f, BM)
  {
    StoredBM(r, v, f);
    MeansBM(r, f);
    DecodesBM(r, f, t);
  }

  /** The bytes of an image of the FT2232C that hold these fields. */
  predicate Bytes2232C(r: seq<byte>, f: Fields)
    requires |r| == MAX_SIZE
  {
    && r[0x00] == Type2Bit(f.channelAType, C2232) | Flag(8, f.channelADriver) | Flag(0x10, f.highCurrentA)
    && r[0x01] == Type2Bit(f.channelBType, C2232) | Flag(8, f.channelBDriver) | Flag(0x10, f.highCurrentB)
    && r[0x0A] == With(With(With(With(Config(f), 1, f.inIsochronous), 2, f.outIsochronous), 4, f.suspendPullDowns),
                       0x10, f.useUsbVersion)
    && r[0x0C] == Byte(f.usbVersion)
    && r[0x0D] == Byte(f.usbVersion / 256)
    && r[0x14] == Byte(f.chip)
  }

  lemma Stored2232C(r: seq<byte>, v: seq<byte>, f: Fields)
    requires |r| == |v| == MAX_SIZE && Started(v, f) && Holds(r, Stores2232C(v, f))
    ensures Bytes2232C(r, f)
  {
    var ws := Stores2232C(v, f);
    assert r[ws[0].0] == ws[0].1;
    assert r[ws[1].0] == ws[1].1;
    assert r[ws[2].0] == ws[2].1;
    assert r[ws[3].0] == ws[3].1;
    assert r[ws[4].0] == ws[4].1;
    assert r[ws[5].0] == ws[5].1;
  }

  /** What such bytes say about the fields. */
  predicate Reads2232C(r: seq<byte>, f: Fields)
    requires |r| == MAX_SIZE
  {
    && ReadsConfig(r, f)
    && Has(r[0x0A], 4) == f.suspendPullDowns
    && Has(r[0x0A], 0x10) == f.useUsbVersion
    && (Bit2Type(r[0x00] & 7) == f.channelAType <==> ChannelType(f.channelAType))
    && Has(r[0x00], 8) == f.channelADriver && Has(r[0x00], 0x10) == f.highCurrentA
    && ((r[0x01] & 7) as int == f.channelBType <==> ChannelType(f.channelBType))
    && Has(r[0x01], 8) == f.channelBDriver && Has(r[0x01], 0x10) == f.highCurrentB
    && (Int16(r, 0x0C) == f.usbVersion <==> Word16(f.usbVersion))
    && (r[0x14] as int == f.chip <==> Byte8(f.chip))
  }

  lemma Means2232C(r: seq<byte>, f: Fields)
    requires |r| == MAX_SIZE && Bytes2232C(r, f)
    ensures Reads2232C(r, f)
  {
    Config2232C(f);
    Channel2232(r[0x00], f.channelAType, C2232, f.channelADriver, 0x10, f.highCurrentA);
    Channel2232(r[0x01], f.channelBType, C2232, f.channelBDriver, 0x10, f.highCurrentB);
    Int16RoundTrip(r, 0x0C, f.usbVersion);
    ByteRoundTrip(r[0x14], f.chip);
  }

  lemma Decodes2232C(r: seq<byte>, f: Fields, t: Fields)
    requires |r| == MAX_SIZE && ConfigFrom(r, t) && Reads2232C(r, f)
    ensures SameSpecific(f, DecodeSpecific(r, t, C2232), C2232) <==> EncodableSpecific(f, C2232)
  {
    var h := DecodeSpecific(r, t, C2232);
    assert SameConfig(f, h);
    assert h.suspendPullDowns == f.suspendPullDowns && h.useUsbVersion == f.useUsbVersion;
    assert h.channelAType == Bit2Type(r[0x00] & 7) && h.channelBType == (r[0x01] & 7) as int;
    assert h.channelADriver == f.channelADriver && h.highCurrentA == f.highCurrentA;
    assert h.channelBDriver == f.channelBDriver && h.highCurrentB == f.highCurrentB;
    assert h.usbVersion == Int16(r, 0x0C) && h.chip == r[0x14] as int;
  }

  lemma Restores2232C(r: seq<byte>, v: seq<byte>, f: Fields, t: Fields)
    requires |r| == |v| == MAX_SIZE && ConfigFrom(r, t) && Started(v, f) && Holds(r, Stores2232C(v, f))
    ensures SameSpecific(f, DecodeSpecific(r, t, C2232), C2232) <==> EncodableSpecific(f, C2232)
  {
    Stored2232C(r, v, f);
    Means2232C(r, f);
    Decodes2232C(r, f, t);
  }

  /** The bytes of an image of the FT232R that hold these fields. */
  predicate BytesR(r: seq<byte>, f: Fields)
    requires |r| == MAX_SIZE
  {
    && r[0x00] == (With(Type2Bit(f.channelAType, R) | Flag(4, f.highCurrent), 8, !f.channelADriver)
                   | Flag(2, f.externalOscillator))
    && r[0x0A] == With(Config(f), 4, f.suspendPullDowns)
    && r[0x0B] == Byte(f.invert)
    && r[0x0C] == Byte(f.usbVersion)
    && r[0x0D] == Byte(f.usbVersion / 256)
    && r[0x14] == PinPair(Pin(f, 0, 12, 3), Pin(f, 1, 12, 2))
    && r[0x15] == PinPair(Pin(f, 2, 12, 0), Pin(f, 3, 12, 1))
    && r[0x16] == Byte(Pin(f, 4, 9, 5))
  }

  lemma StoredR(r: seq<byte>, v: seq<byte>, f: Fields)
    requires |r| == |v| == MAX_SIZE && v[0x0A] == Config(f) && Holds(r, StoresR(v, f))
    ensures BytesR(r, f)
  {
    var ws := StoresR(v, f);
    assert r[ws[0].0] == ws[0].1;
    assert r[ws[2].0] == ws[2].1;
    assert r[ws[3].0] == ws[3].1;
    assert r[ws[4].0] == ws[4].1;
    assert r[ws[5].0] == ws[5].1;
    assert r[ws[6].0] == ws[6].1;
    assert r[ws[7].0] == ws[7].1;
    assert r[ws[8].0] == ws[8].1;
  }

  /** What such bytes say about the fields. */
  predicate ReadsR(r: seq<byte>, f: Fields)
    requires |r| == MAX_SIZE
  {
    && ReadsConfig(r, f)
    && Has(r[0x0A], 4) == f.suspendPullDowns
    && !Has(r[0x00], 8) == f.channelADriver && Has(r[0x00], 4) == f.highCurrent
    && Has(r[0x00], 2) == f.externalOscillator
    && (r[0x0B] as int == f.invert <==> Byte8(f.invert))
    && (Int16(r, 0x0C) == f.usbVersion <==> Word16(f.usbVersion))
    && (LowNibble(r[0x14]) == f.cbusFunction[0] && HighNibble(r[0x14]) == f.cbusFunction[1]
        <==> PinFits(f.cbusFunction[0], 12) && PinFits(f.cbusFunction[1], 12))
    && (LowNibble(r[0x15]) == f.cbusFunction[2] && HighNibble(r[0x15]) == f.cbusFunction[3]
        <==> PinFits(f.cbusFunction[2], 12) && PinFits(f.cbusFunction[3], 12))
    && (LowNibble(r[0x16]) == f.cbusFunction[4] <==> PinFits(f.cbusFunction[4], 9))
  }

  lemma MeansR(r: seq<byte>, f: Fields)
    requires |r| == MAX_SIZE && BytesR(r, f)
    ensures ReadsR(r, f)
  {
    ConfigPullDowns(f);
    ChannelR(r[0x00], f.channelAType, f.channelADriver, f.highCurrent, f.externalOscillator);
    ByteRoundTrip(r[0x0B], f.invert);
    Int16RoundTrip(r, 0x0C, f.usbVersion);
    TwoPins(r[0x14], f, 0, 1, 3, 2);
    TwoPins(r[0x15], f, 2, 3, 0, 1);
    OnePin(r[0x16], f);
  }

  lemma DecodesR(r: seq<byte>, f: Fields, t: Fields)
    requires |r| == MAX_SIZE && ConfigFrom(r, t) && ReadsR(r, f)
    ensures SameSpecific(f, DecodeSpecific(r, t, R), R) <==> EncodableSpecific(f, R)
  {
    var h := DecodeSpecific(r, t, R);
    assert SameConfig(f, h);
    assert h.suspendPullDowns == f.suspendPullDowns;
    assert h.channelADriver == f.channelADriver && h.highCurrent == f.highCurrent;
    assert h.externalOscillator == f.externalOscillator;
    assert h.usbVersion == Int16(r, 0x0C) && h.invert == r[0x0B] as int;
    FivePins(h.cbusFunction, f.cbusFunction);
  }

  lemma RestoresR(r: seq<byte>, v: seq<byte>, f: Fields, t: Fields)
    requires |r| == |v| == MAX_SIZE && ConfigFrom(r, t) && v[0x0A] == Config(f) && Holds(r, StoresR(v, f))
    ensures SameSpecific(f, DecodeSpecific(r, t, R), R) <==> EncodableSpecific(f, R)
  {
    StoredR(r, v, f);
    MeansR(r, f);
    DecodesR(r, f, t);
  }

  /** The bytes of an image of the FT2232H that hold these fields. */
  predicate Bytes2232H(r: seq<byte>, f: Fields)
    requires |r| == MAX_SIZE
  {
    && r[0x00] == Type2Bit(f.channelAType, H2232) | Flag(8, f.channelADriver)
    && r[0x01] == Type2Bit(f.channelBType, H2232) | Flag(8, f.channelBDriver) | Flag(0x80, f.suspendDbus7)
    && r[0x0A] == With(Config(f), 4, f.suspendPullDowns)
    && BytesOfGroups(r, f)
    && r[0x18] == Byte(f.chip)
  }

  lemma Stored2232H(r: seq<byte>, v: seq<byte>, f: Fields)
    requires |r| == |v| == MAX_SIZE && Started(v, f) && Holds(r, Stores2232H(v, f))
    ensures Bytes2232H(r, f)
  {
    var ws := Stores2232H(v, f);
    assert r[ws[0].0] == ws[0].1;
    assert r[ws[1].0] == ws[1].1;
    assert r[ws[2].0] == ws[2].1;
    assert BytesOfGroups(r, f) by {
      assert r[ws[3].0] == ws[3].1;
      assert r[ws[4].0] == ws[4].1;
      StoredGroups(r, v, f);
    }
    assert r[ws[5].0] == ws[5].1;
  }

  /** What such bytes say about the fields. */
  predicate Reads2232H(r: seq<byte>, f: Fields)
    requires |r| == MAX_SIZE
  {
    && ReadsConfig(r, f)
    && Has(r[0x0A], 4) == f.suspendPullDowns
    && (Bit2Type(r[0x00] & 7) == f.channelAType <==> ChannelType(f.channelAType))
    && Has(r[0x00], 8) == f.channelADriver
    && (Bit2Type(r[0x01] & 7) == f.channelBType <==> ChannelType(f.channelBType))
    && Has(r[0x01], 8) == f.channelBDriver && Has(r[0x01], 0x80) == f.suspendDbus7
    && ReadsGroups(r, f)
    && (r[0x18] as int == f.chip <==> Byte8(f.chip))
  }

  lemma Means2232H(r: seq<byte>, f: Fields)
    requires |r| == MAX_SIZE && Bytes2232H(r, f)
    ensures Reads2232H(r, f)
  {
    ConfigPullDowns(f);
    Channel2232(r[0x00], f.channelAType, H2232, f.channelADriver, 0x10, false);
    Channel2232(r[0x01], f.channelBType, H2232, f.channelBDriver, 0x80, f.suspendDbus7);
    GroupsMean(r, f);
    ByteRoundTrip(r[0x18], f.chip);
  }

  lemma Decodes2232H(r: seq<byte>, f: Fields, t: Fields)
    requires |r| == MAX_SIZE && ConfigFrom(r, t) && Reads2232H(r, f)
    ensures SameSpecific(f, DecodeSpecific(r, t, H2232), H2232) <==> EncodableSpecific(f, H2232)
  {
    var h := DecodeSpecific(r, t, H2232);
    assert SameConfig(f, h);
    assert h.suspendPullDowns == f.suspendPullDowns;
    assert h.channelAType == Bit2Type(r[0x00] & 7) && h.channelBType == Bit2Type(r[0x01] & 7);
    assert h.channelADriver == f.channelADriver && h.channelBDriver == f.channelBDriver;
    assert h.suspendDbus7 == f.suspendDbus7 && h.chip == r[0x18] as int;
    assert h.group0 == DecodeGroup(r[0x0C]) && h.group1 == DecodeGroup(r[0x0C] >> 4);
    assert h.group2 == DecodeGroup(r[0x0D]) && h.group3 == DecodeGroup(r[0x0D] >> 4);
  }

  lemma Restores2232H(r: seq<byte>, v: seq<byte>, f: Fields, t: Fields)
    requires |r| == |v| == MAX_SIZE && ConfigFrom(r, t) && Started(v, f) && Holds(r, Stores2232H(v, f))
    ensures SameSpecific(f, DecodeSpecific(r, t, H2232), H2232) <==> EncodableSpecific(f, H2232)
  {
    Stored2232H(r, v, f);
    Means2232H(r, f);
    Decodes2232H(r, f, t);
  }

  /** The bytes of an image of the FT4232H that hold these fields. */
  predicate Bytes4232H(r: seq<byte>, f: Fields)
    requires |r| == MAX_SIZE
  {
    && r[0x00] == With(With(0, 8, f.channelADriver), 0x80, f.channelCDriver)
    && r[0x01] == With(With(0, 8, f.channelBDriver), 0x80, f.channelDDriver)
    && r[0x0A] == With(Config(f), 4, f.suspendPullDowns)
    && r[0x0B] == With(With(With(With(0, 0x10, f.channelARs485), 0x20, f.channelBRs485), 0x40, f.channelCRs485),
                       0x80, f.channelDRs485)
    && BytesOfGroups(r, f)
    && r[0x18] == Byte(f.chip)
  }

  lemma Stored4232H(r: seq<byte>, v: seq<byte>, f: Fields)
    requires |r| == |v| == MAX_SIZE && Started(v, f) && Holds(r, Stores4232H(v, f))
    ensures Bytes4232H(r, f)
  {
    var ws := Stores4232H(v, f);
    assert r[ws[0].0] == ws[0].1;
    assert r[ws[1].0] == ws[1].1;
    assert r[ws[2].0] == ws[2].1;
    assert r[ws[3].0] == ws[3].1;
    assert BytesOfGroups(r, f) by {
      assert r[ws[4].0] == ws[4].1;
      assert r[ws[5].0] == ws[5].1;
      StoredGroups(r, v, f);
    }
    assert r[ws[6].0] == ws[6].1;
  }

  /** What such bytes say about the fields. */
  predicate Reads4232H(r: seq<byte>, f: Fields)
    requires |r| == MAX_SIZE
  {
    && ReadsConfig(r, f)
    && Has(r[0x0A], 4) == f.suspendPullDowns
    && Has(r[0x00], 8) == f.channelADriver && Has(r[0x00] >> 4, 8) == f.channelCDriver
    && Has(r[0x01], 8) == f.channelBDriver && Has(r[0x01] >> 4, 8) == f.channelDDriver
    && Has(r[0x0B], 0x10) == f.channelARs485 && Has(r[0x0B], 0x20) == f.channelBRs485
    && Has(r[0x0B], 0x40) == f.channelCRs485 && Has(r[0x0B], 0x80) == f.channelDRs485
    && ReadsGroups(r, f)
    && (r[0x18] as int == f.chip <==> Byte8(f.chip))
  }

  lemma Means4232H(r: seq<byte>, f: Fields)
    requires |r| == MAX_SIZE && Bytes4232H(r, f)
    ensures Reads4232H(r, f)
  {
    ConfigPullDowns(f);
    Drivers4232H(f.channelADriver, f.channelCDriver);
    Drivers4232H(f.channelBDriver, f.channelDDriver);
    Rs485(f.channelARs485, f.channelBRs485, f.channelCRs485, f.channelDRs485);
    GroupsMean(r, f);
    ByteRoundTrip(r[0x18], f.chip);
  }

  lemma Decodes4232H(r: seq<byte>, f: Fields, t: Fields)
    requires |r| == MAX_SIZE && ConfigFrom(r, t) && Reads4232H(r, f)
    ensures SameSpecific(f, DecodeSpecific(r, t, H4232), H4232) <==> EncodableSpecific(f, H4232)
  {
    var h := DecodeSpecific(r, t, H4232);
    assert SameConfig(f, h);
    assert h.suspendPullDowns == f.suspendPullDowns;
    assert h.channelADriver == f.channelADriver && h.channelBDriver == f.channelBDriver;
    assert h.channelCDriver == f.channelCDriver && h.channelDDriver == f.channelDDriver;
    assert h.group0 == DecodeGroup(r[0x0C]) && h.group1 == DecodeGroup(r[0x0C] >> 4);
    assert h.group2 == DecodeGroup(r[0x0D]) && h.group3 == DecodeGroup(r[0x0D] >> 4);
    assert h.chip == r[0x18] as int;
  }

  lemma Restores4232H(r: seq<byte>, v: seq<byte>, f: Fields, t: Fields)
    requires |r| == |v| == MAX_SIZE && ConfigFrom(r, t) && Started(v, f) && Holds(r, Stores4232H(v, f))
    ensures SameSpecific(f, DecodeSpecific(r, t, H4232), H4232) <==> EncodableSpecific(f, H4232)
  {
    Stored4232H(r, v, f);
    Means4232H(r, f);
    Decodes4232H(r, f, t);
  }

  /** The bytes of an image of the FT232H that hold these fields. */
  predicate Bytes232H(r: seq<byte>, f: Fields)
    requires |r| == MAX_SIZE
  {
    && r[0x00] == Type2Bit(f.channelAType, H232) | Flag(0x10, f.channelADriver)
    && r[0x01] == With(With(With(With(0, 0x80, f.powersave), 1, f.clockPolarity), 2, f.dataOrder), 4, f.flowControl)
    && r[0x0A] == With(Config(f), 4, f.suspendPullDowns)
    && r[0x0C] == 0 | GroupBits(f.group0)
    && r[0x0D] == 0 | GroupBits(f.group1)
    && r[0x18] == PinPair(Pin(f, 0, 12, 0), Pin(f, 1, 12, 0))
    && r[0x19] == PinPair(Pin(f, 2, 12, 0), Pin(f, 3, 12, 0))
    && r[0x1A] == PinPair(Pin(f, 4, 12, 0), Pin(f, 5, 12, 0))
    && r[0x1B] == PinPair(Pin(f, 6, 12, 0), Pin(f, 7, 12, 0))
    && r[0x1C] == PinPair(Pin(f, 8, 12, 0), Pin(f, 9, 12, 0))
    && r[0x1E] == Byte(f.chip)
  }

  lemma Stored232H(r: seq<byte>, v: seq<byte>, f: Fields)
    requires |r| == |v| == MAX_SIZE && Started(v, f) && Holds(r, Stores232H(v, f))
    ensures Bytes232H(r, f)
  {
    var ws := Stores232H(v, f);
    assert r[ws[0].0] == ws[0].1;
    assert r[ws[1].0] == ws[1].1;
    assert r[ws[2].0] == ws[2].1;
    assert r[ws[3].0] == ws[3].1;
    assert r[ws[4].0] == ws[4].1;
    assert r[ws[5].0] == ws[5].1;
    assert r[ws[6].0] == ws[6].1;
    assert r[ws[7].0] == ws[7].1;
    assert r[ws[8].0] == ws[8].1;
    assert r[ws[9].0] == ws[9].1;
    assert r[ws[10].0] == ws[10].1;
  }

  predicate ReadsPins(r: seq<byte>, f: Fields)
    requires |r| == MAX_SIZE
  {
    && (LowNibble(r[0x18]) == f.cbusFunction[0] && HighNibble(r[0x18]) == f.cbusFunction[1]
        <==> PinFits(f.cbusFunction[0], 12) && PinFits(f.cbusFunction[1], 12))
    && (LowNibble(r[0x19]) == f.cbusFunction[2] && HighNibble(r[0x19]) == f.cbusFunction[3]
        <==> PinFits(f.cbusFunction[2], 12) && PinFits(f.cbusFunction[3], 12))
    && (LowNibble(r[0x1A]) == f.cbusFunction[4] && HighNibble(r[0x1A]) == f.cbusFunction[5]
        <==> PinFits(f.cbusFunction[4], 12) && PinFits(f.cbusFunction[5], 12))
    && (LowNibble(r[0x1B]) == f.cbusFunction[6] && HighNibble(r[0x1B]) == f.cbusFunction[7]
        <==> PinFits(f.cbusFunction[6], 12) && PinFits(f.cbusFunction[7], 12))
    && (LowNibble(r[0x1C]) == f.cbusFunction[8] && HighNibble(r[0x1C]) == f.cbusFunction[9]
        <==> PinFits(f.cbusFunction[8], 12) && PinFits(f.cbusFunction[9], 12))
  }

  lemma TenPins(r: seq<byte>, f: Fields, p: Pins)
    requires |r| == MAX_SIZE && ReadsPins(r, f)
    requires p == [LowNibble(r[0x18]), HighNibble(r[0x18]), LowNibble(r[0x19]), HighNibble(r[0x19]),
                   LowNibble(r[0x1A]), HighNibble(r[0x1A]), LowNibble(r[0x1B]), HighNibble(r[0x1B]),
                   LowNibble(r[0x1C]), HighNibble(r[0x1C])]
    ensures p == f.cbusFunction <==> forall i :: 0 <= i < 10 ==> PinFits(f.cbusFunction[i], 12)
  {
  }

  /** What such bytes say about the fields. */
  predicate Reads232H(r: seq<byte>, f: Fields)
    requires |r| == MAX_SIZE
  {
    && ReadsConfig(r, f)
    && Has(r[0x0A], 4) == f.suspendPullDowns
    && (LowNibble(r[0x00]) == f.channelAType <==> ChannelType(f.channelAType) || f.channelAType == CHANNEL_IS_FT1284)
    && Has(r[0x00], 0x10) == f.channelADriver
    && Has(r[0x01], 1) == f.clockPolarity && Has(r[0x01], 2) == f.dataOrder
    && Has(r[0x01], 4) == f.flowControl && Has(r[0x01], 0x80) == f.powersave
    && (DecodeGroup(r[0x0C]) == f.group0 <==> DriveFits(f.group0))
    && (DecodeGroup(r[0x0D]) == f.group1 <==> DriveFits(f.group1))
    && ReadsPins(r, f)
    && (r[0x1E] as int == f.chip <==> Byte8(f.chip))
  }

  lemma Means232H(r: seq<byte>, f: Fields)
    requires |r| == MAX_SIZE && Bytes232H(r, f)
    ensures Reads232H(r, f)
  {
    ConfigPullDowns(f);
    Channel232H(r[0x00], f.channelAType, f.channelADriver);
    Control232H(f.powersave, f.clockPolarity, f.dataOrder, f.flowControl);
    LowGroup(r[0x0C], f.group0);
    LowGroup(r[0x0D], f.group1);
    ByteRoundTrip(r[0x1E], f.chip);
    TwoPins(r[0x18], f, 0, 1, 0, 0);
    TwoPins(r[0x19], f, 2, 3, 0, 0);
    TwoPins(r[0x1A], f, 4, 5, 0, 0);
    TwoPins(r[0x1B], f, 6, 7, 0, 0);
    TwoPins(r[0x1C], f, 8, 9, 0, 0);
  }

  lemma Decodes232H(r: seq<byte>, f: Fields, t: Fields)
    requires |r| == MAX_SIZE && ConfigFrom(r, t) && Reads232H(r, f)
    ensures SameSpecific(f, DecodeSpecific(r, t, H232), H232) <==> EncodableSpecific(f, H232)
  {
    var h := DecodeSpecific(r, t, H232);
    assert SameConfig(f, h);
    assert h.suspendPullDowns == f.suspendPullDowns;
    assert h.channelAType == LowNibble(r[0x00]) && h.channelADriver == f.channelADriver;
    assert h.clockPolarity == f.clockPolarity && h.dataOrder == f.dataOrder && h.flowControl == f.flowControl;
    assert h.powersave == f.powersave && h.chip == r[0x1E] as int;
    assert h.group0 == DecodeGroup(r[0x0C]) && h.group1 == DecodeGroup(r[0x0D]);
    TenPins(r, f, h.cbusFunction);
  }

  lemma Restores232H(r: seq<byte>, v: seq<byte>, f: Fields, t: Fields)
    requires |r| == |v| == MAX_SIZE && ConfigFrom(r, t) && Started(v, f) && Holds(r, Stores232H(v, f))
    ensures SameSpecific(f, DecodeSpecific(r, t, H232), H232) <==> EncodableSpecific(f, H232)
  {
    Stored232H(r, v, f);
    Means232H(r, f);
    Decodes232H(r, f, t);
  }

  /** `v` has the fixed part before the stores that depend on the chip, and `r` has what they store. */
  predicate Restorable(r: seq<byte>, v: seq<byte>, f: Fields, chip: ChipType)
    requires |r| == |v| == MAX_SIZE
  {
    v[0x0A] == Config(f) && (chip != R ==> Started(v, f)) && Holds(r, SpecificStores(v, f, chip))
  }

  lemma Placed(img: seq<byte>, f: Fields, chip: ChipType, size: nat) returns (v: seq<byte>)
    requires |img| == MAX_SIZE && SizeFor(chip, size) && UserAreaLeft(f, chip) >= 0 && chip != AM && chip != X230
    ensures |v| == MAX_SIZE && Restorable(Image(img, f, chip, size), v, f, chip)
  {
    v := WithStrings(img, f, chip, size);
    StartBytes(img, f, chip, size);
    StoresReach(img, f, chip, size, SpecificStores(v, f, chip));
  }

  /** The fields that depend on the chip come back exactly if their values fit. */
  lemma Restores(r: seq<byte>, v: seq<byte>, f: Fields, t: Fields, chip: ChipType)
    requires |r| == |v| == MAX_SIZE && ConfigFrom(r, t) && chip != AM && chip != X230
    requires Restorable(r, v, f, chip)
    ensures SameSpecific(f, DecodeSpecific(r, t, chip), chip) <==> EncodableSpecific(f, chip)
  {
    match chip
    case BM => RestoresBM(r, v, f, t);
    case C2232 => Restores2232C(r, v, f, t);
    case R => RestoresR(r, v, f, t);
    case H2232 => Restores2232H(r, v, f, t);
    case H4232 => Restores4232H(r, v, f, t);
    case H232 => Restores232H(r, v, f, t);
  }
}
