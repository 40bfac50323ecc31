/** Decoding what was built: which fields come back, and for which values. */
module EepromRoundTrip {
  import opened Memory
  import opened Baud
  import opened Checksum
  import opened Eeprom
  import opened EepromLayout
  import opened EepromDecode
  import opened EepromReadBack
  import opened EepromFields
  import opened EepromSpecific

  // ----- the part that all chips have -----

  /** The length of a string has one byte. */
  predicate ShortText(s: Option<seq<byte>>) {
    s.Some? ==> |s.value| < 256
  }

  /** The values that fit. */
  predicate EncodableHeader(f: Fields) {
    && Word16(f.vendorId) && Word16(f.productId) && Word16(f.releaseNumber)
    && 0 <= f.maxPower <= 510 && f.maxPower % 2 == 0
    && ShortText(f.manufacturer) && ShortText(f.product) && ShortText(f.serial)
  }

  /** A missing string comes back as the empty one. */
  predicate SameText(s: Option<seq<byte>>, t: Option<seq<byte>>) {
    t == if s.None? then Some([]) else s
  }

  predicate SameTexts(f: Fields, g: Fields) {
    SameText(f.manufacturer, g.manufacturer) && SameText(f.product, g.product) && SameText(f.serial, g.serial)
  }

  predicate SameIds(f: Fields, g: Fields) {
    && g.vendorId == f.vendorId && g.productId == f.productId && g.releaseNumber == f.releaseNumber
    && g.selfPowered == f.selfPowered && g.remoteWakeup == f.remoteWakeup && g.maxPower == f.maxPower
  }

  predicate SameHeader(f: Fields, g: Fields) {
    SameIds(f, g) && SameTexts(f, g)
  }

  lemma TextRoundTrip(s: Option<seq<byte>>)
    ensures SameText(s, Some(Text(s))) <==> ShortText(s)
  {
    if s.Some? {
      if |s.value| < 256 {
        assert s.value[..|s.value|] == s.value;
      } else {
        assert |Text(s)| < |s.value|;
      }
    }
  }

  predicate HeaderBytes(r: seq<byte>, f: Fields)
    requires |r| == MAX_SIZE
  {
    && r[2] == Byte(f.vendorId) && r[3] == Byte(f.vendorId / 256)
    && r[4] == Byte(f.productId) && r[5] == Byte(f.productId / 256)
    && r[6] == Byte(f.releaseNumber) && r[7] == Byte(f.releaseNumber / 256)
    && r[8] == 0x80 | Flag(0x40, f.selfPowered) | Flag(0x20, f.remoteWakeup)
    && r[9] == Byte(Half(f.maxPower))
  }

  lemma HeaderAt(r: seq<byte>, ws: Stores, f: Fields)
    requires |r| == MAX_SIZE && (exists chip :: ws == HeaderStores(f, chip)[..8])
    requires forall i: nat {:trigger ws[i]} :: i < 8 ==> r[i + 2] == ws[i].1
    ensures HeaderBytes(r, f)
  {
    assert ws[0].1 == Byte(f.vendorId) && ws[1].1 == Byte(f.vendorId / 256);
    assert ws[2].1 == Byte(f.productId) && ws[3].1 == Byte(f.productId / 256);
    assert ws[4].1 == Byte(f.releaseNumber) && ws[5].1 == Byte(f.releaseNumber / 256);
    assert ws[6].1 == 0x80 | Flag(0x40, f.selfPowered) | Flag(0x20, f.remoteWakeup);
    assert ws[7].1 == Byte(Half(f.maxPower));
  }

  lemma HeaderPlaced(img: seq<byte>, f: Fields, chip: ChipType, size: nat)
    requires |img| == MAX_SIZE && SizeFor(chip, size) && UserAreaLeft(f, chip) >= 0
    ensures HeaderBytes(Image(img, f, chip, size), f)
  {
    var r := Image(img, f, chip, size);
    forall i: nat | i < 8
      ensures r[i + 2] == HeaderStores(f, chip)[i].1
    {
      HeaderReaches(img, f, chip, size, i);
    }
    HeaderAt(r, HeaderStores(f, chip)[..8], f);
  }

  lemma HeaderDecodes(r: seq<byte>, f: Fields, g: Fields)
    requires |r| == MAX_SIZE && HeaderBytes(r, f)
    ensures SameIds(f, DecodeHeader(r, g)) <==>
      && Word16(f.vendorId) && Word16(f.productId) && Word16(f.releaseNumber)
      && 0 <= f.maxPower <= 510 && f.maxPower % 2 == 0
  {
    Int16RoundTrip(r, 2, f.vendorId);
    Int16RoundTrip(r, 4, f.productId);
    Int16RoundTrip(r, 6, f.releaseNumber);
    PowerFlags(f.selfPowered, f.remoteWakeup);
    MaxPowerRoundTrip(r[9], f.maxPower);
    var h := DecodeHeader(r, g);
    assert h.vendorId == Int16(r, 2) && h.productId == Int16(r, 4) && h.releaseNumber == Int16(r, 6);
    assert h.selfPowered == f.selfPowered && h.remoteWakeup == f.remoteWakeup;
    assert h.maxPower == MAX_POWER_UNIT * (r[9] as int);
  }

  lemma TextsRoundTrip(f: Fields, g: Fields)
    requires g.manufacturer == Some(Text(f.manufacturer)) && g.product == Some(Text(f.product))
    requires g.serial == Some(Text(f.serial))
    ensures SameTexts(f, g) <==> ShortText(f.manufacturer) && ShortText(f.product) && ShortText(f.serial)
  {
    TextRoundTrip(f.manufacturer);
    TextRoundTrip(f.product);
    TextRoundTrip(f.serial);
  }

  // ----- the round trip -----

  /** The fixed part before the stores that depend on the chip. */
  lemma FixedPartStarted(img: seq<byte>, f: Fields, chip: ChipType, size: nat) returns (v: seq<byte>)
    requires |img| == MAX_SIZE && SizeFor(chip, size) && UserAreaLeft(f, chip) >= 0 && chip != X230
    ensures |v| == MAX_SIZE && (chip != AM ==> Restorable(Image(img, f, chip, size), v, f, chip))
  {
    v := img;
    if chip != AM {
      v := Placed(img, f, chip, size);
    }
  }

  lemma TextsKeepIds(f: Fields, h: Fields)
    ensures SameIds(f, WithTexts(h, f)) <==> SameIds(f, h)
  {
  }

  lemma HeaderRoundTrip(r: seq<byte>, f: Fields, g: Fields)
    requires |r| == MAX_SIZE && HeaderBytes(r, f)
    ensures SameHeader(f, WithTexts(DecodeHeader(r, g), f)) <==> EncodableHeader(f)
  {
    var h := DecodeHeader(r, g);
    HeaderDecodes(r, f, g);
    TextsRoundTrip(f, WithTexts(h, f));
    TextsKeepIds(f, h);
  }

  lemma ConfigIsRead(r: seq<byte>, f: Fields, g: Fields)
    requires |r| == MAX_SIZE
    ensures ConfigFrom(r, WithTexts(DecodeHeader(r, g), f))
  {
  }

  lemma SpecificRoundTrip(r: seq<byte>, v: seq<byte>, f: Fields, g: Fields, chip: ChipType)
    requires |r| == |v| == MAX_SIZE && chip != X230 && (chip != AM ==> Restorable(r, v, f, chip))
    ensures SameSpecific(f, DecodeSpecific(r, WithTexts(DecodeHeader(r, g), f), chip), chip)
       <==> EncodableSpecific(f, chip)
  {
    if chip != AM {
      ConfigIsRead(r, f, g);
      Restores(r, v, f, WithTexts(DecodeHeader(r, g), f), chip);
    }
  }

  lemma SpecificKeepsHeader(r: seq<byte>, f: Fields, t: Fields, chip: ChipType)
    requires |r| == MAX_SIZE
    ensures SameHeader(f, DecodeSpecific(r, t, chip)) <==> SameHeader(f, t)
  {
  }

  /** A verified image with these bytes and strings decodes to the fields. */
  lemma DecodesTo(r: seq<byte>, v: seq<byte>, f: Fields, g: Fields, chip: ChipType, size: nat)
    requires |r| == |v| == MAX_SIZE && SizeFor(chip, size) && UserAreaLeft(f, chip) >= 0 && chip != X230
    requires Verifies(r, size) && HeaderBytes(r, f) && HasStrings(r, f, chip, size)
    requires chip != AM ==> Restorable(r, v, f, chip)
    ensures TextsInBuffer(r, size)
    ensures var d := Decode(r, g, chip, size);
      && d.0 == 0
      && (SameHeader(f, d.1) && SameSpecific(f, d.1, chip) <==> EncodableHeader(f) && EncodableSpecific(f, chip))
  {
    var t := WithTexts(DecodeHeader(r, g), f);
    TextsDecode(r, f, DecodeHeader(r, g), chip, size);
    HeaderRoundTrip(r, f, g);
    SpecificRoundTrip(r, v, f, g, chip);
    SpecificKeepsHeader(r, f, t, chip);
  }

  /** Decoding the image of any fields whose strings fit succeeds, whatever the buffer and the fields were
      before; what comes back are the fields that were built exactly if their values fit. */
  lemma RoundTrip(img: seq<byte>, f: Fields, g: Fields, chip: ChipType, size: nat)
    requires |img| == MAX_SIZE && SizeFor(chip, size) && UserAreaLeft(f, chip) >= 0 && chip != X230
    ensures var r := Image(img, f, chip, size);
      && TextsInBuffer(r, size)
      && var d := Decode(r, g, chip, size);
         && d.0 == 0
         && (SameHeader(f, d.1) && SameSpecific(f, d.1, chip) <==> EncodableHeader(f) && EncodableSpecific(f, chip))
  {
    var v := FixedPartStarted(img, f, chip, size);
    SealedVerifies(Unsealed(img, f, chip, size), size);
    HeaderPlaced(img, f, chip, size);
    ImageHasStrings(img, f, chip, size);
    DecodesTo(Image(img, f, chip, size), v, f, g, chip, size);
  }
}
