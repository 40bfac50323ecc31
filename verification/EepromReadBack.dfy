/** What reaches the final image: the checksum verifies, and the header and the strings are in it. */
module EepromReadBack {
  import opened Memory
  import opened Baud
  import opened Checksum
  import opened Eeprom
  import opened EepromLayout
  import opened EepromDecode
  import opened EepromFields

  // ----- the checksum -----

  /** Sealing changes the last word only. */
  lemma SealedByte(img: seq<byte>, size: nat, q: nat)
    requires |img| == MAX_SIZE && (size == 0x80 || size == 0x100) && q < MAX_SIZE && q != size - 2 && q != size - 1
    ensures Sealed(img, size)[q] == img[q]
  {
    var ws := ChecksumStores(Fold(SEED, Words(img, size / 2 - 1)), size);
    assert !Stored(ws, q);
    PatchFrame(img, ws, q);
  }

  lemma TwoStores(img: seq<byte>, i: nat, j: nat, x: byte, y: byte)
    requires |img| == MAX_SIZE && i < MAX_SIZE && j < MAX_SIZE && i != j
    ensures var r := Patch(img, [(i, x), (j, y)]); r[i] == x && r[j] == y
  {
    PatchStores(img, [(i, x), (j, y)], 0);
    PatchStores(img, [(i, x), (j, y)], 1);
  }

  lemma LastWord(img: seq<byte>, size: nat, n: nat, c: word)
    requires |img| == MAX_SIZE && (size == 0x80 || size == 0x100) && 2 * n + 2 == size
    ensures Word(Patch(img, ChecksumStores(c, size)), n) == c
  {
    TwoStores(img, 2 * n, 2 * n + 1, LowByte(c), HighByte(c));
    assert ChecksumStores(c, size) == [(2 * n, LowByte(c)), (2 * n + 1, HighByte(c))];
    WordRoundTrip(Patch(img, ChecksumStores(c, size)), n, c);
  }

  /** A sealed image verifies, whatever is in it. */
  lemma SealedVerifies(img: seq<byte>, size: nat)
    requires |img| == MAX_SIZE && (size == 0x80 || size == 0x100)
    ensures Verifies(Sealed(img, size), size)
  {
    var n := size / 2 - 1;
    forall q | 0 <= q < 2 * n
      ensures Sealed(img, size)[q] == img[q]
    {
      SealedByte(img, size, q);
    }
    WordsAgree(Sealed(img, size), img, n);
    LastWord(img, size, n, Fold(SEED, Words(img, n)));
  }

  // ----- the layers of an image -----

  /** The image without its strings and the layers above them. */
  function Base(img: seq<byte>, f: Fields, chip: ChipType): (r: seq<byte>)
    requires |img| == MAX_SIZE
    ensures |r| == MAX_SIZE
  {
    Patch(Cleared(img, chip), HeaderStores(f, chip))
  }

  function WithStrings(img: seq<byte>, f: Fields, chip: ChipType, size: nat): (r: seq<byte>)
    requires |img| == MAX_SIZE && (size == 0x80 || size == 0x100)
    ensures |r| == MAX_SIZE
  {
    SerialFlag(Strings(Base(img, f, chip), f, chip, size), f, chip)
  }

  lemma SerialFlagAgrees(a: seq<byte>, b: seq<byte>, f: Fields, chip: ChipType, q: nat)
    requires |a| == |b| == MAX_SIZE && q < MAX_SIZE && a[q] == b[q] && a[0x0A] == b[0x0A]
    ensures SerialFlag(a, f, chip)[q] == SerialFlag(b, f, chip)[q]
  {
  }

  /** The fixed part of the image is as if there were no strings. */
  lemma FixedPart(img: seq<byte>, f: Fields, chip: ChipType, size: nat, q: nat)
    requires |img| == MAX_SIZE && SizeFor(chip, size) && UserAreaLeft(f, chip) >= 0
    requires q < FreeStart(chip) && !IsPointer(q) && (Overruns(f, chip) ==> q != 0)
    ensures WithStrings(img, f, chip, size)[q] == SerialFlag(Base(img, f, chip), f, chip)[q]
  {
    var a, b := Strings(Base(img, f, chip), f, chip, size), Base(img, f, chip);
    NonOverlap(b, f, chip, size, q);
    NonOverlap(b, f, chip, size, 0x0A);
    SerialFlagAgrees(a, b, f, chip, q);
  }

  /** ... and sealing does not touch it. */
  lemma FixedPartSealed(img: seq<byte>, f: Fields, chip: ChipType, size: nat, q: nat)
    requires |img| == MAX_SIZE && (size == 0x80 || size == 0x100) && q < 0x7e
    ensures Image(img, f, chip, size)[q] == Unsealed(img, f, chip, size)[q]
  {
    SealedByte(Unsealed(img, f, chip, size), size, q);
  }

  /** Bytes of the base that the header does not store are zero. */
  lemma BaseIsZero(img: seq<byte>, f: Fields, chip: ChipType, q: nat)
    requires |img| == MAX_SIZE && q < MAX_SIZE
    requires q < 2 || 0x0B <= q < 0x80 || (q >= 0x80 && chip != X230) || (q == 0x0A && (chip == AM || chip == X230))
    ensures Base(img, f, chip)[q] == 0
  {
    assert !Stored(HeaderStores(f, chip), q);
    PatchFrame(Cleared(img, chip), HeaderStores(f, chip), q);
  }

  lemma HeaderByte(img: seq<byte>, f: Fields, chip: ChipType, i: nat)
    requires |img| == MAX_SIZE && i < |HeaderStores(f, chip)|
    ensures Base(img, f, chip)[HeaderStores(f, chip)[i].0] == HeaderStores(f, chip)[i].1
  {
    PatchStores(Cleared(img, chip), HeaderStores(f, chip), i);
  }

  lemma HeaderAddress(f: Fields, chip: ChipType, i: nat)
    requires i < 8
    ensures HeaderStores(f, chip)[i].0 == i + 2
  {
  }

  /** The fields that only some chips have are not among them. */
  lemma NotStored(v: seq<byte>, f: Fields, chip: ChipType, q: nat)
    requires |v| == MAX_SIZE && 2 <= q <= 9
    ensures Specific(v, f, chip)[q] == v[q]
  {
    assert !Stored(SpecificStores(v, f, chip), q);
    PatchFrame(v, SpecificStores(v, f, chip), q);
  }

  /** Header bytes 2 to 9 reach the final image. */
  lemma HeaderReaches(img: seq<byte>, f: Fields, chip: ChipType, size: nat, i: nat)
    requires |img| == MAX_SIZE && SizeFor(chip, size) && UserAreaLeft(f, chip) >= 0 && i < 8
    ensures Image(img, f, chip, size)[i + 2] == HeaderStores(f, chip)[i].1
  {
    HeaderAddress(f, chip, i);
    HeaderByte(img, f, chip, i);
    FixedPart(img, f, chip, size, i + 2);
    FixedPartSealed(img, f, chip, size, i + 2);
    NotStored(WithStrings(img, f, chip, size), f, chip, i + 2);
  }

  // ----- the strings -----

  /** The plug-and-play bytes are not in the strings or at their pointers. */
  lemma PnpOutside(f: Fields, chip: ChipType, size: nat, q: nat, t: nat)
    requires SizeFor(chip, size) && UserAreaLeft(f, chip) >= 0 && t < 3
    requires IsPointer(q) || InStrings(q, f, chip, size)
    ensures q != PnpPlace(f, chip, size, t)
  {
    EndOfStrings(f, chip);
    StartOfStrings(chip, size);
    PnpBehindStrings(f, chip, size, t);
  }

  lemma StringsBelow(f: Fields, chip: ChipType, size: nat, q: nat)
    requires SizeFor(chip, size) && UserAreaLeft(f, chip) >= 0
    requires IsPointer(q) || InStrings(q, f, chip, size)
    ensures q < size - 2 && (q >= FreeStart(chip) || IsPointer(q))
  {
    EndOfStrings(f, chip);
    StartOfStrings(chip, size);
  }

  lemma PnpKeepsStrings(img: seq<byte>, f: Fields, chip: ChipType, size: nat, q: nat)
    requires |img| == MAX_SIZE && SizeFor(chip, size) && UserAreaLeft(f, chip) >= 0 && q < MAX_SIZE
    requires IsPointer(q) || InStrings(q, f, chip, size)
    ensures Strings(img, f, chip, size)[q] == StringsOnly(img, f, chip, size)[q]
  {
    StringsThenPnp(img, f, chip, size);
    PnpOutside(f, chip, size, q, 0);
    PnpOutside(f, chip, size, q, 1);
    PnpOutside(f, chip, size, q, 2);
  }

  /** What the string layer leaves at the pointers and in the block of the strings is final. */
  lemma StringsAreFinal(img: seq<byte>, f: Fields, chip: ChipType, size: nat, q: nat)
    requires |img| == MAX_SIZE && SizeFor(chip, size) && UserAreaLeft(f, chip) >= 0
    requires IsPointer(q) || InStrings(q, f, chip, size)
    ensures q < size - 2
    ensures Image(img, f, chip, size)[q] == StringsOnly(Base(img, f, chip), f, chip, size)[q]
  {
    StringsBelow(f, chip, size, q);
    SealedByte(Unsealed(img, f, chip, size), size, q);
    FixedPartOnly(Strings(Base(img, f, chip), f, chip, size), f, chip, q);
    PnpKeepsStrings(Base(img, f, chip), f, chip, size, q);
  }

  /** A string stays in place if its bytes do. */
  lemma KeepsString(a: seq<byte>, b: seq<byte>, pointer: nat, i: nat, text: seq<byte>, size: nat)
    requires |a| == |b| == MAX_SIZE && (size == 0x80 || size == 0x100) && 0x0E <= pointer < 0x13
    requires 0x94 <= i && i + 2 * |text| + 2 <= 0x100
    requires HasString(a, pointer, i, text, size)
    requires a[pointer] == b[pointer] && a[pointer + 1] == b[pointer + 1]
    requires forall q :: Place(i, size) <= q < Place(i, size) + 2 * |text| + 2 ==> a[q] == b[q]
    ensures HasString(b, pointer, i, text, size)
  {
    var k := Place(i, size);
    assert a[k..k + 2 * |text| + 2] == b[k..k + 2 * |text| + 2];
  }

  /** Writing a string keeps another one that is not at the same place. */
  lemma WriteStringKeeps(img: seq<byte>, p: nat, i: nat, s: seq<byte>, pointer: nat, j: nat, text: seq<byte>, size: nat)
    requires |img| == MAX_SIZE && (size == 0x80 || size == 0x100)
    requires 0x0E <= p < 0x13 && 0x0E <= pointer < 0x13 && (p + 1 < pointer || pointer + 1 < p)
    requires 0x94 <= i && i + 2 * |s| + 2 <= j && j + 2 * |text| + 2 <= 0x100
    requires HasString(img, p, i, s, size)
    ensures HasString(WriteString(img, pointer, j, text, [], size), p, i, s, size)
  {
    var r := WriteString(img, pointer, j, text, [], size);
    WriteStringFrame(img, pointer, j, text, size, p);
    WriteStringFrame(img, pointer, j, text, size, p + 1);
    forall q | Place(i, size) <= q < Place(i, size) + 2 * |s| + 2
      ensures img[q] == r[q]
    {
      WriteStringFrame(img, pointer, j, text, size, q);
    }
    KeepsString(img, r, p, i, s, size);
  }

  predicate HasStrings(r: seq<byte>, f: Fields, chip: ChipType, size: nat)
    requires |r| == MAX_SIZE && SizeFor(chip, size) && UserAreaLeft(f, chip) >= 0
  {
    EndOfStrings(f, chip);
    && HasString(r, 0x0E, StringsStart(chip), Text(f.manufacturer), size)
    && HasString(r, 0x10, ProductStart(f, chip), Text(f.product), size)
    && HasString(r, 0x12, SerialStart(f, chip), Text(f.serial), size)
  }

  lemma StringsOnlyWrites(img: seq<byte>, f: Fields, chip: ChipType, size: nat)
    requires |img| == MAX_SIZE && SizeFor(chip, size) && UserAreaLeft(f, chip) >= 0
    ensures HasStrings(StringsOnly(img, f, chip, size), f, chip, size)
  {
    EndOfStrings(f, chip);
    var i, j, k := StringsStart(chip), ProductStart(f, chip), SerialStart(f, chip);
    var s, t, u := Text(f.manufacturer), Text(f.product), Text(f.serial);
    var m := WriteString(img, 0x0E, i, s, [], size);
    var p := WriteString(m, 0x10, j, t, [], size);
    WriteStringWrites(img, 0x0E, i, s, size);
    WriteStringWrites(m, 0x10, j, t, size);
    WriteStringKeeps(m, 0x0E, i, s, 0x10, j, t, size);
    WriteStringWrites(p, 0x12, k, u, size);
    WriteStringKeeps(p, 0x0E, i, s, 0x12, k, u, size);
    WriteStringKeeps(p, 0x10, j, t, 0x12, k, u, size);
  }

  /** The two images have the same strings. */
  ghost predicate SameStrings(a: seq<byte>, b: seq<byte>, f: Fields, chip: ChipType, size: nat)
    requires |a| == |b| == MAX_SIZE && SizeFor(chip, size) && UserAreaLeft(f, chip) >= 0
  {
    forall q: nat :: q < MAX_SIZE && (IsPointer(q) || InStrings(q, f, chip, size)) ==> a[q] == b[q]
  }

  lemma ImageKeepsStrings(img: seq<byte>, f: Fields, chip: ChipType, size: nat)
    requires |img| == MAX_SIZE && SizeFor(chip, size) && UserAreaLeft(f, chip) >= 0
    ensures SameStrings(StringsOnly(Base(img, f, chip), f, chip, size), Image(img, f, chip, size), f, chip, size)
  {
    forall q: nat | q < MAX_SIZE && (IsPointer(q) || InStrings(q, f, chip, size))
      ensures StringsOnly(Base(img, f, chip), f, chip, size)[q] == Image(img, f, chip, size)[q]
    {
      StringsAreFinal(img, f, chip, size, q);
    }
  }

  lemma KeepsOneString(a: seq<byte>, b: seq<byte>, f: Fields, chip: ChipType, size: nat,
                       pointer: nat, i: nat, text: seq<byte>)
    requires |a| == |b| == MAX_SIZE && SizeFor(chip, size) && UserAreaLeft(f, chip) >= 0
    requires 0x0E <= pointer < 0x13 && StringsStart(chip) <= i && i + 2 * |text| + 2 <= PnpStart(f, chip) <= 0xfe
    requires HasString(a, pointer, i, text, size) && SameStrings(a, b, f, chip, size)
    ensures HasString(b, pointer, i, text, size)
  {
    KeepsString(a, b, pointer, i, text, size);
  }

  lemma KeepsStrings(a: seq<byte>, b: seq<byte>, f: Fields, chip: ChipType, size: nat)
    requires |a| == |b| == MAX_SIZE && SizeFor(chip, size) && UserAreaLeft(f, chip) >= 0
    requires HasStrings(a, f, chip, size) && SameStrings(a, b, f, chip, size)
    ensures HasStrings(b, f, chip, size)
  {
    EndOfStrings(f, chip);
    KeepsOneString(a, b, f, chip, size, 0x0E, StringsStart(chip), Text(f.manufacturer));
    KeepsOneString(a, b, f, chip, size, 0x10, ProductStart(f, chip), Text(f.product));
    KeepsOneString(a, b, f, chip, size, 0x12, SerialStart(f, chip), Text(f.serial));
  }

  /** All three strings are in the final image. */
  lemma ImageHasStrings(img: seq<byte>, f: Fields, chip: ChipType, size: nat)
    requires |img| == MAX_SIZE && SizeFor(chip, size) && UserAreaLeft(f, chip) >= 0
    ensures HasStrings(Image(img, f, chip, size), f, chip, size)
  {
    StringsOnlyWrites(Base(img, f, chip), f, chip, size);
    ImageKeepsStrings(img, f, chip, size);
    KeepsStrings(StringsOnly(Base(img, f, chip), f, chip, size), Image(img, f, chip, size), f, chip, size);
  }

  lemma {:induction false} WideAt(text: seq<byte>, j: nat)
    requires j < |text|
    ensures Wide(text)[2 * j] == text[j]
    decreases |text|
  {
    if j > 0 {
      WideAt(text[1..], j - 1);
      assert Wide(text)[2 * j] == Wide(text[1..])[2 * (j - 1)];
    }
  }

  lemma TopBit(b: byte)
    requires b as int >= 0x80
    ensures b | 0x80 == b
  {
  }

  lemma WrapAround(i: nat, size: nat)
    requires (size == 0x80 || size == 0x100) && 0x80 <= i < 0x100
    ensures i % size == Place(i, size)
  {
  }

  lemma AddressOfString(b: byte, i: nat, size: nat)
    requires (size == 0x80 || size == 0x100) && 0x80 <= i < 0x100 && b == Byte(i) | 0x80
    ensures (b as int) % size == Place(i, size)
  {
    ByteValue(i);
    TopBit(Byte(i));
    WrapAround(i, size);
  }

  lemma LengthOfString(b: byte, n: nat)
    requires 2 * n + 2 < 256 && b == Byte(2 * n + 2)
    ensures (b as int) / 2 == n + 1
  {
    ByteValue(2 * n + 2);
    assert b as int == 2 * n + 2;
  }

  /** The header says where a string is, and how long. */
  lemma TextHeader(r: seq<byte>, pointer: nat, i: nat, text: seq<byte>, size: nat)
    requires |r| == MAX_SIZE && (size == 0x80 || size == 0x100) && 0x0E <= pointer < 0x13
    requires 0x94 <= i && i + 2 * |text| + 2 <= 0x100 && HasString(r, pointer, i, text, size)
    ensures TextOffset(r, pointer, size) == Place(i, size) && TextLength(r, pointer) == |text| + 1
  {
    AddressOfString(r[pointer], i, size);
    LengthOfString(r[pointer + 1], |text|);
  }

  lemma NarrowIsText(r: seq<byte>, k: nat, text: seq<byte>)
    requires k + 2 * |text| + 2 <= |r| && r[k..k + 2 * |text| + 2] == Descriptor(text)
    ensures Narrow(r, k, |text|) == text
  {
    forall j | 0 <= j < |text|
      ensures r[2 * j + k + 2] == text[j]
    {
      WideAt(text, j);
      assert Descriptor(text)[2 * j + 2] == Wide(text)[2 * j];
      assert r[k..k + 2 * |text| + 2][2 * j + 2] == r[2 * j + k + 2];
    }
  }

  /** A string that is in place is decoded. */
  lemma TextDecodes(r: seq<byte>, pointer: nat, i: nat, text: seq<byte>, size: nat)
    requires |r| == MAX_SIZE && (size == 0x80 || size == 0x100) && 0x0E <= pointer < 0x13
    requires 0x94 <= i && i + 2 * |text| + 2 <= 0x100 && HasString(r, pointer, i, text, size)
    ensures TextInBuffer(r, pointer, size) && DecodeText(r, pointer, size) == Some(text)
  {
    TextHeader(r, pointer, i, text, size);
    NarrowIsText(r, Place(i, size), text);
  }

  function WithTexts(g: Fields, f: Fields): Fields {
    g.(manufacturer := Some(Text(f.manufacturer)), product := Some(Text(f.product)), serial := Some(Text(f.serial)))
  }

  lemma TextsDecode(r: seq<byte>, f: Fields, g: Fields, chip: ChipType, size: nat)
    requires |r| == MAX_SIZE && SizeFor(chip, size) && UserAreaLeft(f, chip) >= 0 && HasStrings(r, f, chip, size)
    ensures TextsInBuffer(r, size) && DecodeTexts(r, g, size) == WithTexts(g, f)
  {
    EndOfStrings(f, chip);
    TextDecodes(r, 0x0E, StringsStart(chip), Text(f.manufacturer), size);
    TextDecodes(r, 0x10, ProductStart(f, chip), Text(f.product), size);
    TextDecodes(r, 0x12, SerialStart(f, chip), Text(f.serial), size);
  }

  /** The strings come back. */
  lemma TextsComeBack(img: seq<byte>, f: Fields, g: Fields, chip: ChipType, size: nat)
    requires |img| == MAX_SIZE && SizeFor(chip, size) && UserAreaLeft(f, chip) >= 0
    ensures var r := Image(img, f, chip, size);
      TextsInBuffer(r, size) && DecodeTexts(r, g, size) == WithTexts(g, f)
  {
    ImageHasStrings(img, f, chip, size);
    TextsDecode(Image(img, f, chip, size), f, g, chip, size);
  }
}
