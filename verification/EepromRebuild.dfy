/** Building what was decoded from a built image: when the image is the same again. */
module EepromRebuild {
  import opened Memory
  import opened Baud
  import opened Eeprom
  import opened EepromLayout
  import opened EepromDecode
  import opened EepromReadBack
  import opened EepromFields
  import opened EepromSpecific
  import opened EepromRoundTrip
  import opened EepromAgain

  // ----- the image -----

  /** The header and the strings are the same for both. */
  ghost predicate LikeHeader(f: Fields, h: Fields, chip: ChipType) {
    && HeaderStores(h, chip) == HeaderStores(f, chip) && (chip != AM ==> h.useSerial == f.useSerial)
    && Text(h.manufacturer) == Text(f.manufacturer) && Text(h.product) == Text(f.product)
    && Text(h.serial) == Text(f.serial)
  }

  lemma SameBase(img: seq<byte>, img': seq<byte>, f: Fields, h: Fields, chip: ChipType)
    requires |img| == |img'| == MAX_SIZE && LikeHeader(f, h, chip) && chip != X230
    ensures EepromReadBack.Base(img', h, chip) == EepromReadBack.Base(img, f, chip)
  {
    assert Cleared(img', chip) == Cleared(img, chip);
  }

  lemma SamePlaces(f: Fields, h: Fields, chip: ChipType)
    requires LikeHeader(f, h, chip)
    ensures UserAreaLeft(h, chip) == UserAreaLeft(f, chip) && PnpStart(h, chip) == PnpStart(f, chip)
    ensures Overruns(h, chip) == Overruns(f, chip)
  {
    assert Size(h.manufacturer) == |Text(h.manufacturer)| && Size(f.manufacturer) == |Text(f.manufacturer)|;
    assert Size(h.product) == |Text(h.product)| && Size(f.product) == |Text(f.product)|;
    assert Size(h.serial) == |Text(h.serial)| && Size(f.serial) == |Text(f.serial)|;
  }

  lemma SameStringsOnly(b: seq<byte>, f: Fields, h: Fields, chip: ChipType, size: nat)
    requires |b| == MAX_SIZE && SizeFor(chip, size) && LikeHeader(f, h, chip)
    ensures StringsOnly(b, h, chip, size) == StringsOnly(b, f, chip, size)
  {
    SamePlaces(f, h, chip);
    assert Size(h.manufacturer) == |Text(h.manufacturer)| && Size(f.manufacturer) == |Text(f.manufacturer)|;
    assert Size(h.product) == |Text(h.product)| && Size(f.product) == |Text(f.product)|;
  }

  /** The plug-and-play flag of the fields decides over an image only if it is not overwritten. */
  predicate FlagMatters(f: Fields, chip: ChipType) {
    HasPnp(chip) && !Overruns(f, chip)
  }

  lemma FlagOnTop(s: seq<byte>, f: Fields, h: Fields, chip: ChipType, size: nat, q: nat)
    requires |s| == MAX_SIZE && (size == 0x80 || size == 0x100) && PnpStart(h, chip) == PnpStart(f, chip)
    requires q < MAX_SIZE && (HasPnp(chip) && q == PnpPlace(f, chip, size, 2) ==> Byte(h.isNotPnp) == Byte(f.isNotPnp))
    ensures WithPnp(s, h, chip, size)[q] == WithPnp(s, f, chip, size)[q]
  {
  }

  lemma SerialFlagAgain(a: seq<byte>, b: seq<byte>, f: Fields, h: Fields, chip: ChipType, q: nat)
    requires |a| == |b| == MAX_SIZE && q < MAX_SIZE && a[q] == b[q] && a[0x0A] == b[0x0A]
    requires chip != AM ==> h.useSerial == f.useSerial
    ensures SerialFlag(a, h, chip)[q] == SerialFlag(b, f, chip)[q]
  {
  }

  /** Before the stores that depend on the chip the images differ in the plug-and-play flag at most. */
  lemma SameButFlag(img: seq<byte>, img': seq<byte>, f: Fields, h: Fields, chip: ChipType, size: nat, q: nat)
    requires |img| == |img'| == MAX_SIZE && SizeFor(chip, size) && UserAreaLeft(f, chip) >= 0 && chip != X230
    requires LikeHeader(f, h, chip) && q < MAX_SIZE
    requires FlagMatters(f, chip) ==> Byte(h.isNotPnp) == Byte(f.isNotPnp)
    requires q != size - 2 && (chip == R ==> q != 0)
    ensures WithStrings(img', h, chip, size)[q] == WithStrings(img, f, chip, size)[q]
  {
    var b := EepromReadBack.Base(img, f, chip);
    SameBase(img, img', f, h, chip);
    SamePlaces(f, h, chip);
    SameStringsOnly(b, f, h, chip, size);
    StringsThenPnp(b, f, chip, size);
    StringsThenPnp(b, h, chip, size);
    if Overruns(f, chip) {
      OverrunPlaces(f, chip, size);
    }
    FlagOnTop(StringsOnly(b, f, chip, size), f, h, chip, size, q);
    NonOverlap(b, f, chip, size, 0x0A);
    NonOverlap(b, h, chip, size, 0x0A);
    SerialFlagAgain(Strings(b, h, chip, size), Strings(b, f, chip, size), f, h, chip, q);
  }

  /** The stores of both fields are the same, exactly as the values allow. */
  lemma AgainSpecific(r: seq<byte>, v: seq<byte>, f: Fields, t: Fields, chip: ChipType)
    requires |r| == |v| == MAX_SIZE && ConfigFrom(r, t) && chip != X230
    requires chip != AM ==> Restorable(r, v, f, chip)
    ensures SpecificStores(v, DecodeSpecific(r, t, chip), chip) == SpecificStores(v, f, chip)
       <==> StoresRebuild(f, chip)
  {
    match chip
    case AM =>
    case BM =>
      StoredBM(r, v, f);
      AgainBM(r, v, f, t);
    case C2232 =>
      Stored2232C(r, v, f);
      Again2232C(r, v, f, t);
    case R =>
      StoredR(r, v, f);
      AgainR(r, v, f, t);
    case H2232 =>
      Stored2232H(r, v, f);
      Again2232H(r, v, f, t);
    case H4232 =>
      Stored4232H(r, v, f);
      Again4232H(r, v, f, t);
    case H232 =>
      Stored232H(r, v, f);
      Again232H(r, v, f, t);
  }

  lemma ConfigIsKept(r: seq<byte>, v: seq<byte>, f: Fields, chip: ChipType)
    requires |r| == |v| == MAX_SIZE && chip != AM && chip != X230 && Restorable(r, v, f, chip)
    ensures ReadsConfig(r, f)
  {
    match chip
    case BM =>
      StoredBM(r, v, f);
      ConfigBM(f);
    case C2232 =>
      Stored2232C(r, v, f);
      Config2232C(f);
    case R =>
      StoredR(r, v, f);
      ConfigPullDowns(f);
    case H2232 =>
      Stored2232H(r, v, f);
      ConfigPullDowns(f);
    case H4232 =>
      Stored4232H(r, v, f);
      ConfigPullDowns(f);
    case H232 =>
      Stored232H(r, v, f);
      ConfigPullDowns(f);
  }

  /** The stores depend on what is below them only in a few bytes of the fixed part. */
  lemma StoresOf(v: seq<byte>, w: seq<byte>, h: Fields, chip: ChipType)
    requires |v| == |w| == MAX_SIZE && chip != X230 && v[0x0A] == w[0x0A]
    requires chip != R ==> v[0] == w[0] && v[1] == w[1] && v[0x0B] == w[0x0B]
    requires chip != R ==> v[0x0C] == w[0x0C] && v[0x0D] == w[0x0D]
    ensures SpecificStores(v, h, chip) == SpecificStores(w, h, chip)
  {
  }

  /** The addresses of the stores of a chip. */
  function Addresses(chip: ChipType): seq<nat>
    requires chip != X230
  {
    match chip
    case AM => []
    case BM => [0x0C, 0x0D, 0x0A]
    case C2232 => [0x00, 0x01, 0x0A, 0x0C, 0x0D, 0x14]
    case R => [0x00, 0x01, 0x0A, 0x0B, 0x0C, 0x0D, 0x14, 0x15, 0x16]
    case H2232 => [0x00, 0x01, 0x0A, 0x0C, 0x0D, 0x18]
    case H4232 => [0x00, 0x01, 0x0A, 0x0B, 0x0C, 0x0D, 0x18]
    case H232 => [0x00, 0x01, 0x0A, 0x0C, 0x0D, 0x18, 0x19, 0x1A, 0x1B, 0x1C, 0x1E]
  }

  ghost predicate At(ws: Stores, chip: ChipType)
    requires chip != X230
  {
    |ws| == |Addresses(chip)| && forall i :: 0 <= i < |ws| ==> ws[i].0 == Addresses(chip)[i]
  }

  lemma StoresAt232H(v: seq<byte>, f: Fields)
    requires |v| == MAX_SIZE
    ensures At(Stores232H(v, f), H232)
  {
  }

  lemma StoresAtR(v: seq<byte>, f: Fields)
    requires |v| == MAX_SIZE
    ensures At(StoresR(v, f), R)
  {
  }

  lemma StoresAt(v: seq<byte>, f: Fields, chip: ChipType)
    requires |v| == MAX_SIZE && chip != X230
    ensures At(SpecificStores(v, f, chip), chip)
  {
    match chip
    case AM =>
    case BM =>
    case C2232 =>
    case R =>
      StoresAtR(v, f);
    case H2232 =>
    case H4232 =>
    case H232 =>
      StoresAt232H(v, f);
  }

  lemma SameValues(a: Stores, b: Stores, r: seq<byte>, chip: ChipType)
    requires chip != X230 && |r| == MAX_SIZE && InImage(a) && InImage(b)
    requires Holds(r, a) && Holds(r, b) && At(a, chip) && At(b, chip)
    ensures a == b
  {
    forall i | 0 <= i < |a|
      ensures a[i] == b[i]
    {
      assert a[i].1 == r[a[i].0] == r[b[i].0] == b[i].1;
    }
  }

  /** The stores that are in an image. */
  lemma Reached(img: seq<byte>, f: Fields, chip: ChipType, size: nat, r: seq<byte>) returns (ws: Stores)
    requires |img| == MAX_SIZE && SizeFor(chip, size) && chip != X230 && r == Image(img, f, chip, size)
    ensures ws == SpecificStores(WithStrings(img, f, chip, size), f, chip)
    ensures InImage(ws) && Holds(r, ws) && At(ws, chip)
  {
    ws := SpecificStores(WithStrings(img, f, chip, size), f, chip);
    StoresReach(img, f, chip, size, ws);
    StoresAt(WithStrings(img, f, chip, size), f, chip);
  }

  lemma PlaceOfFlag(f: Fields, chip: ChipType, size: nat)
    requires SizeFor(chip, size) && UserAreaLeft(f, chip) >= 0 && FlagMatters(f, chip)
    ensures FreeStart(chip) <= PnpPlace(f, chip, size, 2) < size - 2
  {
    PnpBehindStrings(f, chip, size, 2);
    StartOfStrings(chip, size);
    EndOfStrings(f, chip);
  }

  lemma FlagLast(s: seq<byte>, f: Fields, chip: ChipType, size: nat)
    requires |s| == MAX_SIZE && (size == 0x80 || size == 0x100) && HasPnp(chip)
    ensures WithPnp(s, f, chip, size)[PnpPlace(f, chip, size, 2)] == Byte(f.isNotPnp)
  {
  }

  /** Where it matters, the plug-and-play flag is in the image. */
  lemma FlagIsFinal(img: seq<byte>, f: Fields, chip: ChipType, size: nat)
    requires |img| == MAX_SIZE && SizeFor(chip, size) && UserAreaLeft(f, chip) >= 0 && FlagMatters(f, chip)
    ensures Image(img, f, chip, size)[PnpPlace(f, chip, size, 2)] == Byte(f.isNotPnp)
  {
    var q, b := PnpPlace(f, chip, size, 2), EepromReadBack.Base(img, f, chip);
    PlaceOfFlag(f, chip, size);
    StringsThenPnp(b, f, chip, size);
    FlagLast(StringsOnly(b, f, chip, size), f, chip, size);
    FixedPartOnly(Strings(b, f, chip, size), f, chip, q);
    SealedByte(Unsealed(img, f, chip, size), size, q);
  }

  /** Equal stores lead to equal images. */
  lemma SameImage(img: seq<byte>, img': seq<byte>, f: Fields, h: Fields, chip: ChipType, size: nat, ws: Stores)
    requires |img| == |img'| == MAX_SIZE && SizeFor(chip, size) && UserAreaLeft(f, chip) >= 0 && chip != X230
    requires LikeHeader(f, h, chip) && (FlagMatters(f, chip) ==> Byte(h.isNotPnp) == Byte(f.isNotPnp))
    requires ws == SpecificStores(WithStrings(img, f, chip, size), f, chip)
    requires ws == SpecificStores(WithStrings(img', h, chip, size), h, chip)
    ensures Image(img', h, chip, size) == Image(img, f, chip, size)
  {
    var v, w := WithStrings(img, f, chip, size), WithStrings(img', h, chip, size);
    forall q | 0 <= q < MAX_SIZE && q != size - 2 && q != size - 1
      ensures Patch(w, ws)[q] == Patch(v, ws)[q]
    {
      if chip == R && q == 0 {
        assert ws[0].0 == 0;
      } else {
        SameButFlag(img, img', f, h, chip, size, q);
      }
      PatchAgrees(v, w, ws, q);
    }
    SealedAgree(Patch(v, ws), Patch(w, ws), size);
  }

  // ----- what is decoded -----

  lemma TextAgain(s: Option<seq<byte>>)
    ensures Text(Some(Text(s))) == Text(s)
  {
    assert Text(s)[..|Text(s)|] == Text(s);
  }

  lemma PowerAgain(n: int, b: byte)
    requires n == MAX_POWER_UNIT * (b as int)
    ensures Byte(Half(n)) == b
  {
    assert Half(n) == b as int;
    ByteBack(b);
  }

  /** The fields that are decoded from the header of an image have its bytes. */
  lemma HeaderAgain(r: seq<byte>, f: Fields, h: Fields)
    requires |r| == MAX_SIZE && HeaderBytes(r, f)
    requires h.vendorId == Int16(r, 2) && h.productId == Int16(r, 4) && h.releaseNumber == Int16(r, 6)
    requires h.maxPower == MAX_POWER_UNIT * (r[9] as int)
    ensures Byte(h.vendorId) == Byte(f.vendorId) && Byte(h.vendorId / 256) == Byte(f.vendorId / 256)
    ensures Byte(h.productId) == Byte(f.productId) && Byte(h.productId / 256) == Byte(f.productId / 256)
    ensures Byte(h.releaseNumber) == Byte(f.releaseNumber)
    ensures Byte(h.releaseNumber / 256) == Byte(f.releaseNumber / 256)
    ensures Byte(Half(h.maxPower)) == Byte(Half(f.maxPower))
  {
    TwoBytesBack(r, 2);
    TwoBytesBack(r, 4);
    TwoBytesBack(r, 6);
    PowerAgain(h.maxPower, r[9]);
  }

  lemma PowerFlagsAgain(r: seq<byte>, f: Fields, h: Fields)
    requires |r| == MAX_SIZE && r[8] == 0x80 | Flag(0x40, f.selfPowered) | Flag(0x20, f.remoteWakeup)
    requires h.selfPowered == Has(r[8], 0x40) && h.remoteWakeup == Has(r[8], 0x20)
    ensures h.selfPowered == f.selfPowered && h.remoteWakeup == f.remoteWakeup
  {
    PowerFlags(f.selfPowered, f.remoteWakeup);
  }

  lemma SameHeaderStores(f: Fields, h: Fields, chip: ChipType)
    requires Byte(h.vendorId) == Byte(f.vendorId) && Byte(h.vendorId / 256) == Byte(f.vendorId / 256)
    requires Byte(h.productId) == Byte(f.productId) && Byte(h.productId / 256) == Byte(f.productId / 256)
    requires Byte(h.releaseNumber) == Byte(f.releaseNumber)
    requires Byte(h.releaseNumber / 256) == Byte(f.releaseNumber / 256)
    requires Byte(Half(h.maxPower)) == Byte(Half(f.maxPower))
    requires h.selfPowered == f.selfPowered && h.remoteWakeup == f.remoteWakeup
    requires chip != AM && chip != X230 ==> h.inIsochronous == f.inIsochronous && h.outIsochronous == f.outIsochronous
    ensures HeaderStores(h, chip) == HeaderStores(f, chip)
  {
  }

  /** The fields that decoding leaves, for a chip with fields `g` before. */
  function Decoded(r: seq<byte>, f: Fields, g: Fields, chip: ChipType): Fields
    requires |r| == MAX_SIZE
  {
    DecodeSpecific(r, WithTexts(DecodeHeader(r, g), f), chip)
  }

  lemma DecodedIs(img: seq<byte>, f: Fields, g: Fields, chip: ChipType, size: nat)
    requires |img| == MAX_SIZE && SizeFor(chip, size) && UserAreaLeft(f, chip) >= 0 && chip != X230
    ensures var r := Image(img, f, chip, size);
      TextsInBuffer(r, size) && Decode(r, g, chip, size) == (0, Decoded(r, f, g, chip))
  {
    var r := Image(img, f, chip, size);
    SealedVerifies(Unsealed(img, f, chip, size), size);
    ImageHasStrings(img, f, chip, size);
    TextsDecode(r, f, DecodeHeader(r, g), chip, size);
  }

  /** What decoding the fields that depend on the chip leaves alone. */
  ghost predicate Kept(h: Fields, t: Fields) {
    && h.vendorId == t.vendorId && h.productId == t.productId && h.releaseNumber == t.releaseNumber
    && h.selfPowered == t.selfPowered && h.remoteWakeup == t.remoteWakeup && h.maxPower == t.maxPower
    && h.inIsochronous == t.inIsochronous && h.outIsochronous == t.outIsochronous && h.useSerial == t.useSerial
    && h.manufacturer == t.manufacturer && h.product == t.product && h.serial == t.serial
    && h.isNotPnp == t.isNotPnp
  }

  lemma SpecificKeeps(r: seq<byte>, t: Fields, chip: ChipType)
    requires |r| == MAX_SIZE && chip != X230
    ensures Kept(DecodeSpecific(r, t, chip), t)
  {
    match chip
    case AM =>
    case BM =>
    case C2232 =>
    case R =>
    case H2232 =>
    case H4232 =>
    case H232 =>
  }

  lemma DecodedLikeHeader(img: seq<byte>, f: Fields, g: Fields, chip: ChipType, size: nat, r: seq<byte>)
    requires |img| == MAX_SIZE && SizeFor(chip, size) && UserAreaLeft(f, chip) >= 0 && chip != X230
    requires r == Image(img, f, chip, size)
    ensures LikeHeader(f, Decoded(r, f, g, chip), chip)
  {
    var h := Decoded(r, f, g, chip);
    HeaderPlaced(img, f, chip, size);
    SpecificKeeps(r, WithTexts(DecodeHeader(r, g), f), chip);
    HeaderAgain(r, f, h);
    PowerFlagsAgain(r, f, h);
    if chip != AM {
      var v := Placed(img, f, chip, size);
      ConfigIsKept(r, v, f, chip);
    }
    SameHeaderStores(f, h, chip);
    TextAgain(f.manufacturer);
    TextAgain(f.product);
    TextAgain(f.serial);
  }

  // ----- the theorem -----

  /** When building what was decoded gives the image again: the values allow it, and the plug-and-play flag,
      which is never decoded, is still the same where it matters. */
  predicate Rebuilds(f: Fields, g: Fields, chip: ChipType) {
    StoresRebuild(f, chip) && (FlagMatters(f, chip) ==> Byte(g.isNotPnp) == Byte(f.isNotPnp))
  }

  lemma StoresAgain(img: seq<byte>, img': seq<byte>, f: Fields, h: Fields, chip: ChipType, size: nat)
    requires |img| == |img'| == MAX_SIZE && SizeFor(chip, size) && chip != X230
    requires UserAreaLeft(f, chip) >= 0 && UserAreaLeft(h, chip) >= 0 && (chip != AM ==> Config(h) == Config(f))
    ensures SpecificStores(WithStrings(img', h, chip, size), h, chip)
         == SpecificStores(WithStrings(img, f, chip, size), h, chip)
  {
    if chip != AM {
      StartBytes(img, f, chip, size);
      StartBytes(img', h, chip, size);
      StoresOf(WithStrings(img', h, chip, size), WithStrings(img, f, chip, size), h, chip);
    }
  }

  /** Equal images have equal stores. */
  lemma StoresFromImage(img: seq<byte>, img': seq<byte>, f: Fields, h: Fields, chip: ChipType, size: nat, r: seq<byte>)
    requires |img| == |img'| == MAX_SIZE && SizeFor(chip, size) && chip != X230
    requires r == Image(img, f, chip, size) == Image(img', h, chip, size)
    ensures SpecificStores(WithStrings(img', h, chip, size), h, chip)
         == SpecificStores(WithStrings(img, f, chip, size), f, chip)
  {
    var ws := Reached(img, f, chip, size, r);
    var us := Reached(img', h, chip, size, r);
    SameValues(ws, us, r, chip);
  }

  /** ... and the same flag where it matters. */
  lemma FlagFromImage(img: seq<byte>, img': seq<byte>, f: Fields, h: Fields, chip: ChipType, size: nat)
    requires |img| == |img'| == MAX_SIZE && SizeFor(chip, size)
    requires UserAreaLeft(f, chip) >= 0 && UserAreaLeft(h, chip) >= 0 && FlagMatters(f, chip) && FlagMatters(h, chip)
    requires PnpPlace(h, chip, size, 2) == PnpPlace(f, chip, size, 2)
    requires Image(img, f, chip, size) == Image(img', h, chip, size)
    ensures Byte(h.isNotPnp) == Byte(f.isNotPnp)
  {
    FlagIsFinal(img, f, chip, size);
    FlagIsFinal(img', h, chip, size);
  }

  lemma SameFlagPlace(f: Fields, h: Fields, chip: ChipType, size: nat)
    requires size == 0x80 || size == 0x100
    requires PnpStart(h, chip) == PnpStart(f, chip) && Overruns(h, chip) == Overruns(f, chip)
    ensures PnpPlace(h, chip, size, 2) == PnpPlace(f, chip, size, 2) && FlagMatters(h, chip) == FlagMatters(f, chip)
  {
  }

  lemma FlagDecides(img: seq<byte>, img': seq<byte>, f: Fields, h: Fields, chip: ChipType, size: nat)
    requires |img| == |img'| == MAX_SIZE && SizeFor(chip, size)
    requires UserAreaLeft(f, chip) >= 0 && UserAreaLeft(h, chip) >= 0 && LikeHeader(f, h, chip)
    requires Image(img, f, chip, size) == Image(img', h, chip, size)
    ensures FlagMatters(f, chip) ==> Byte(h.isNotPnp) == Byte(f.isNotPnp)
  {
    if FlagMatters(f, chip) {
      SamePlaces(f, h, chip);
      SameFlagPlace(f, h, chip, size);
      FlagFromImage(img, img', f, h, chip, size);
    }
  }

  lemma ImageIsRestorable(img: seq<byte>, f: Fields, chip: ChipType, size: nat, r: seq<byte>)
    requires |img| == MAX_SIZE && SizeFor(chip, size) && UserAreaLeft(f, chip) >= 0 && chip != AM && chip != X230
    requires r == Image(img, f, chip, size)
    ensures Restorable(r, WithStrings(img, f, chip, size), f, chip)
  {
    StartBytes(img, f, chip, size);
    StoresReach(img, f, chip, size, SpecificStores(WithStrings(img, f, chip, size), f, chip));
  }

  lemma SpecificCompared(img: seq<byte>, f: Fields, g: Fields, chip: ChipType, size: nat, r: seq<byte>, v: seq<byte>)
    requires |img| == MAX_SIZE && SizeFor(chip, size) && UserAreaLeft(f, chip) >= 0 && chip != X230
    requires r == Image(img, f, chip, size) && v == WithStrings(img, f, chip, size)
    ensures (SpecificStores(v, Decoded(r, f, g, chip), chip) == SpecificStores(v, f, chip)) <==> StoresRebuild(f, chip)
  {
    if chip != AM {
      ImageIsRestorable(img, f, chip, size, r);
    }
    AgainSpecific(r, v, f, WithTexts(DecodeHeader(r, g), f), chip);
  }

  lemma SameConfig(r: seq<byte>, v: seq<byte>, f: Fields, g: Fields, h: Fields, chip: ChipType)
    requires |r| == |v| == MAX_SIZE && chip != AM && chip != X230 && Restorable(r, v, f, chip)
    requires h == Decoded(r, f, g, chip)
    ensures Config(h) == Config(f)
  {
    var t := WithTexts(DecodeHeader(r, g), f);
    ConfigIsKept(r, v, f, chip);
    SameConfigByte(r, f, t);
    SpecificKeeps(r, t, chip);
  }

  lemma ConfigCompared(img: seq<byte>, f: Fields, g: Fields, chip: ChipType, size: nat, r: seq<byte>)
    requires |img| == MAX_SIZE && SizeFor(chip, size) && UserAreaLeft(f, chip) >= 0 && chip != X230
    requires r == Image(img, f, chip, size)
    ensures chip != AM ==> Config(Decoded(r, f, g, chip)) == Config(f)
  {
    if chip != AM {
      ImageIsRestorable(img, f, chip, size, r);
      SameConfig(r, WithStrings(img, f, chip, size), f, g, Decoded(r, f, g, chip), chip);
    }
  }

  lemma StoresCompared(img: seq<byte>, img': seq<byte>, f: Fields, g: Fields, h: Fields, chip: ChipType, size: nat,
                       r: seq<byte>)
    requires |img| == |img'| == MAX_SIZE && SizeFor(chip, size) && chip != X230
    requires UserAreaLeft(f, chip) >= 0 && UserAreaLeft(h, chip) >= 0
    requires r == Image(img, f, chip, size) && h == Decoded(r, f, g, chip)
    ensures (SpecificStores(WithStrings(img', h, chip, size), h, chip)
             == SpecificStores(WithStrings(img, f, chip, size), f, chip)) <==> StoresRebuild(f, chip)
  {
    ConfigCompared(img, f, g, chip, size, r);
    StoresAgain(img, img', f, h, chip, size);
    SpecificCompared(img, f, g, chip, size, r, WithStrings(img, f, chip, size));
  }

  lemma RebuildByStores(img: seq<byte>, img': seq<byte>, f: Fields, g: Fields, h: Fields, chip: ChipType, size: nat,
                        r: seq<byte>)
    requires |img| == |img'| == MAX_SIZE && SizeFor(chip, size) && UserAreaLeft(f, chip) >= 0 && chip != X230
    requires r == Image(img, f, chip, size) && h == Decoded(r, f, g, chip) && LikeHeader(f, h, chip)
    requires UserAreaLeft(h, chip) >= 0 && h.isNotPnp == g.isNotPnp
    ensures Image(img', h, chip, size) == r <==> Rebuilds(f, g, chip)
  {
    StoresCompared(img, img', f, g, h, chip, size, r);
    if Image(img', h, chip, size) == r {
      StoresFromImage(img, img', f, h, chip, size, r);
      FlagDecides(img, img', f, h, chip, size);
    }
    if Rebuilds(f, g, chip) {
      SameImage(img, img', f, h, chip, size, SpecificStores(WithStrings(img, f, chip, size), f, chip));
    }
  }

  /** For every image and all fields: the image is built again from what was decoded from it, whatever is in the
      buffer, exactly under that condition. */
  lemma RebuildIff(img: seq<byte>, img': seq<byte>, f: Fields, g: Fields, chip: ChipType, size: nat)
    requires |img| == |img'| == MAX_SIZE && SizeFor(chip, size) && UserAreaLeft(f, chip) >= 0 && chip != X230
    ensures var r := Image(img, f, chip, size);
      && TextsInBuffer(r, size)
      && var h := Decode(r, g, chip, size).1;
         && UserAreaLeft(h, chip) == UserAreaLeft(f, chip)
         && (Image(img', h, chip, size) == r <==> Rebuilds(f, g, chip))
  {
    var r := Image(img, f, chip, size);
    var h := Decoded(r, f, g, chip);
    DecodedIs(img, f, g, chip, size);
    DecodedLikeHeader(img, f, g, chip, size, r);
    SpecificKeeps(r, WithTexts(DecodeHeader(r, g), f), chip);
    SamePlaces(f, h, chip);
    RebuildByStores(img, img', f, g, h, chip, size, r);
  }

  /** After decoding, the AM and the BM have no kind of memory chip, so the next `ftdi_eeprom_build` returns -6;
      all other chips have one. */
  lemma NoChipIff(img: seq<byte>, f: Fields, g: Fields, chip: ChipType, size: nat)
    requires |img| == MAX_SIZE && SizeFor(chip, size) && UserAreaLeft(f, chip) >= 0 && chip != X230
    ensures var r := Image(img, f, chip, size);
      TextsInBuffer(r, size) && (Decode(r, g, chip, size).1.chip == -1 <==> chip == AM || chip == BM)
  {
    DecodedIs(img, f, g, chip, size);
  }

  lemma FifoBit(t: int)
    requires t == CHANNEL_IS_FIFO
    ensures Type2Bit(t, R) != 0
  {
    ByteBack(1);
  }

  /** An FT232R in FIFO mode: the channel type is not decoded, and is missing from the next image. */
  lemma ForgetsFifo(img: seq<byte>, img': seq<byte>, f: Fields, g: Fields, size: nat)
    requires |img| == |img'| == MAX_SIZE && SizeFor(R, size) && UserAreaLeft(f, R) >= 0
    requires f.channelAType == CHANNEL_IS_FIFO
    ensures var r := Image(img, f, R, size);
      TextsInBuffer(r, size) && Image(img', Decode(r, g, R, size).1, R, size) != r
  {
    FifoBit(f.channelAType);
    RebuildIff(img, img', f, g, R, size);
  }
}
