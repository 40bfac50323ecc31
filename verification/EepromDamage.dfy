/** Damaged images: decoding reports every change within one word, in the buffer and in the memory chip. */
module EepromDamage {
  import opened Memory
  import opened Baud
  import opened Checksum
  import opened Eeprom
  import opened EepromLayout
  import opened EepromDecode
  import opened EepromReadBack
  import opened EepromDevice

  /** Of the fields, only those that all chips have, and the strings, may differ. */
  ghost predicate SpecificKept(f: Fields, g: Fields) {
    g == f.(vendorId := g.vendorId, productId := g.productId, releaseNumber := g.releaseNumber,
            selfPowered := g.selfPowered, remoteWakeup := g.remoteWakeup, maxPower := g.maxPower,
            inIsochronous := g.inIsochronous, outIsochronous := g.outIsochronous,
            suspendPullDowns := g.suspendPullDowns, useSerial := g.useSerial, useUsbVersion := g.useUsbVersion,
            usbVersion := g.usbVersion, manufacturer := g.manufacturer, product := g.product, serial := g.serial)
  }

  /** Decoding returns 0 exactly if the checksum is right, and -1 otherwise; then the fields that only some chips
      have are as they were. */
  lemma DecodeReports(img: seq<byte>, f: Fields, chip: ChipType, size: nat)
    requires |img| == MAX_SIZE && (size == 0x80 || size == 0x100) && TextsInBuffer(img, size) && chip != X230
    ensures var r := Decode(img, f, chip, size);
      && r.0 == (if Verifies(img, size) then 0 else -1)
      && (r.0 == -1 ==> SpecificKept(f, r.1))
  {
  }

  /** The identifiers and strings of two sets of fields are the same. */
  predicate SameTexts(f: Fields, g: Fields) {
    && g.vendorId == f.vendorId && g.productId == f.productId && g.releaseNumber == f.releaseNumber
    && g.manufacturer == f.manufacturer && g.product == f.product && g.serial == f.serial
  }

  lemma FullSpeedKeeps(f: Fields, a: byte, b: byte, c: byte, d: byte, e: byte)
    ensures SameTexts(f, Decode2232C(f, a, b, c)) && SameTexts(f, DecodeR(f, a, b, c, d, e))
  {
  }

  lemma HighSpeedKeeps(f: Fields, a: byte, b: byte, c: byte, d: byte, e: byte, g: byte)
    ensures SameTexts(f, Decode2232H(f, a, b, c, d, e)) && SameTexts(f, Decode4232H(f, a, b, c, d, e, g))
    ensures SameTexts(f, Decode230X(f, a, b, c, d, e, g))
  {
  }

  lemma OnePortKeeps(f: Fields, a: byte, b: byte, c: byte, d: byte, e: byte,
                     g: byte, h: byte, i: byte, j: byte, k: byte)
    ensures SameTexts(f, Decode232H(f, a, b, c, d, e, g, h, i, j, k))
  {
  }

  lemma SpecificKeepsTexts(img: seq<byte>, f0: Fields, chip: ChipType)
    requires |img| == MAX_SIZE
    ensures SameTexts(f0, DecodeSpecific(img, f0, chip))
  {
    var f := f0.(channelAType := 0);
    match chip
    case AM =>
    case BM =>
    case C2232 => FullSpeedKeeps(f, img[0x00], img[0x01], img[0x14], 0, 0);
    case R => FullSpeedKeeps(f, img[0x00], img[0x0B], img[0x14], img[0x15], img[0x16]);
    case H2232 => HighSpeedKeeps(f, img[0x00], img[0x01], img[0x0C], img[0x0D], img[0x18], 0);
    case H4232 => HighSpeedKeeps(f, img[0x00], img[0x01], img[0x0B], img[0x0C], img[0x0D], img[0x18]);
    case H232 =>
      OnePortKeeps(f, img[0x00], img[0x01], img[0x0C], img[0x0D],
                   img[0x18], img[0x19], img[0x1A], img[0x1B], img[0x1C], img[0x1E]);
    case X230 => HighSpeedKeeps(f, img[0x0B], img[0x0C], img[0x1A], img[0x1B], img[0x1C], img[0x1D]);
  }

  /** Identifiers and strings are taken from the image, whether or not the checksum is right. */
  lemma TextsAreDecoded(img: seq<byte>, f: Fields, chip: ChipType, size: nat)
    requires |img| == MAX_SIZE && (size == 0x80 || size == 0x100) && TextsInBuffer(img, size) && chip != X230
    ensures var g := Decode(img, f, chip, size).1;
      && g.vendorId == (img[0x02] as int) + 256 * (img[0x03] as int)
      && g.productId == (img[0x04] as int) + 256 * (img[0x05] as int)
      && g.releaseNumber == (img[0x06] as int) + 256 * (img[0x07] as int)
      && g.manufacturer == DecodeText(img, 0x0E, size)
      && g.product == DecodeText(img, 0x10, size) && g.serial == DecodeText(img, 0x12, size)
  {
    SpecificKeepsTexts(img, DecodeTexts(img, DecodeHeader(img, f), size), chip);
  }

  /** A built image with exactly one word changed, the checksum word or any other, decodes to -1. */
  lemma DamagedImage(img: seq<byte>, b: seq<byte>, f: Fields, g: Fields, chip: ChipType, size: nat, k: nat)
    requires |img| == |b| == MAX_SIZE && (size == 0x80 || size == 0x100) && chip != X230
    requires DifferInWord(Image(img, f, chip, size), b, size, k) && TextsInBuffer(b, size)
    ensures Decode(b, g, chip, size).0 == -1 && SpecificKept(g, Decode(b, g, chip, size).1)
  {
    SealedVerifies(Unsealed(img, f, chip, size), size);
    DetectsOneWord(Image(img, f, chip, size), b, size, k);
    DecodeReports(b, g, chip, size);
  }

  lemma WordOfContents(c: Cells, i: nat)
    requires i < |c| && i < MAX_SIZE / 2
    ensures Word(Contents(c), i) == c[i]
  {
    NoWrap(i, |c|);
    assert (2 * i) / 2 == i && (2 * i + 1) / 2 == i;
    WordRoundTrip(Contents(c), i, c[i]);
  }

  lemma ChangedCell(cells: Cells, a: seq<byte>, n: nat, chip: ChipType, k: nat, w: word, i: nat)
    requires |a| == MAX_SIZE && chip != X230 && k < n <= |cells| && n <= MAX_SIZE / 2 && w != Word(a, k) && i < n
    ensures Word(a, i) != Word(Contents(Written(cells, a, n, chip)[k := w]), i) <==> i == k
  {
    WrittenAt(cells, a, n, chip, i);
    WordOfContents(Written(cells, a, n, chip)[k := w], i);
  }

  lemma ChangedContents(cells: Cells, a: seq<byte>, size: nat, chip: ChipType, k: nat, w: word)
    requires |a| == MAX_SIZE && (size == 0x80 || size == 0x100) && chip != X230
    requires k < size / 2 <= |cells| && w != Word(a, k)
    ensures DifferInWord(a, Contents(Written(cells, a, size / 2, chip)[k := w]), size, k)
  {
    forall i: nat | i < size / 2
      ensures Word(a, i) != Word(Contents(Written(cells, a, size / 2, chip)[k := w]), i) <==> i == k
    {
      ChangedCell(cells, a, size / 2, chip, k, w, i);
    }
  }

  /** Image `a` is built and written, and then one word of the memory chip changes: reading that back, as `r`, and
      decoding it reports an error, if the strings are still inside the buffer. */
  lemma DamagedCell(cells: Cells, img: seq<byte>, a: seq<byte>, r: seq<byte>, f: Fields, g: Fields, chip: ChipType,
                    size: nat, k: nat, w: word)
    requires |img| == |a| == |r| == MAX_SIZE && (size == 0x80 || size == 0x100) && chip != X230
    requires k < size / 2 <= |cells| && w != Word(a, k) && a == Image(img, f, chip, size)
    requires r == Contents(Written(cells, a, size / 2, chip)[k := w]) && TextsInBuffer(r, size)
    ensures Decode(r, g, chip, size).0 == -1 && SpecificKept(g, Decode(r, g, chip, size).1)
  {
    ChangedContents(cells, a, size, chip, k, w);
    DamagedImage(img, r, f, g, chip, size, k);
  }
}
