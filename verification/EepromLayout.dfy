/** Where the parts of an EEPROM image are, and that they do not overlap. */
module EepromLayout {
  import opened Memory
  import opened Baud
  import opened Checksum
  import opened Eeprom

  /** A size the code supports: the FT230X always has 256 bytes. */
  predicate SizeFor(chip: ChipType, size: nat) {
    size == 0x100 || (size == 0x80 && chip != X230)
  }

  /** The offset of address `i`, which has its top bit set, in an image of the given size. */
  function Place(i: nat, size: nat): (k: nat)
    requires (size == 0x80 || size == 0x100) && 0x80 <= i <= 0x100
  {
    if size == 0x80 then i - 0x80 else i
  }

  lemma MaskedAddress(i: nat, size: nat)
    requires (size == 0x80 || size == 0x100) && 0x80 <= i < 0x100
    ensures i % 256 % size == Place(i, size)
  {
  }

  lemma BlockStep(img: seq<byte>, k: nat, data: seq<byte>)
    requires data != [] && k + |data| <= |img|
    ensures var v := img[k := data[0]];
      v[..k + 1] + data[1..] + v[k + |data|..] == img[..k] + data + img[k + |data|..]
  {
  }

  /** Writing that does not reach the end of the address range replaces one block. */
  lemma {:induction false} WriteAtIsBlock(img: seq<byte>, i: nat, data: seq<byte>, size: nat)
    requires |img| == MAX_SIZE && (size == 0x80 || size == 0x100)
    requires 0x80 <= i && i + |data| <= 0x100
    ensures var k := Place(i, size);
      && k + |data| <= size
      && WriteAt(img, i, data, size) == img[..k] + data + img[k + |data|..]
    decreases |data|
  {
    var k := Place(i, size);
    if data == [] {
      assert img[..k] + data + img[k..] == img;
    } else {
      MaskedAddress(i, size);
      WriteAtIsBlock(img[k := data[0]], i + 1, data[1..], size);
      BlockStep(img, k, data);
    }
  }

  /** Writing in two parts. */
  lemma {:induction false} WriteAtSplits(img: seq<byte>, i: nat, a: seq<byte>, b: seq<byte>, size: nat)
    requires |img| == MAX_SIZE && (size == 0x80 || size == 0x100)
    ensures WriteAt(img, i, a + b, size) == WriteAt(WriteAt(img, i, a, size), i + |a|, b, size)
    decreases |a|
  {
    if a == [] {
      assert a + b == b;
    } else {
      assert (a + b)[1..] == a[1..] + b;
      WriteAtSplits(img[i % 256 % size := a[0]], i + 1, a[1..], b, size);
    }
  }

  /** The address behind the strings. */
  function PnpStart(f: Fields, chip: ChipType): nat {
    SerialStart(f, chip) + 2 * Size(f.serial) + 2
  }

  /** An FT232R or FT230X whose strings use all the room, or all but one character of it. */
  predicate Overruns(f: Fields, chip: ChipType) {
    (chip == R || chip == X230) && UserAreaLeft(f, chip) < 4
  }

  /** Strings that pass the size check never reach the last two bytes; the bytes behind them do so exactly
      in the two cases above. */
  lemma EndOfStrings(f: Fields, chip: ChipType)
    requires UserAreaLeft(f, chip) >= 0
    ensures PnpStart(f, chip) <= 0xfe
    ensures Overruns(f, chip) <==> PnpStart(f, chip) + |Pnp(f, chip)| > 0xfe
  {
  }

  /** Non-overlap with the fixed part: the strings start at or after the first address that it does not
      use. */
  lemma StartOfStrings(chip: ChipType, size: nat)
    requires SizeFor(chip, size)
    ensures FreeStart(chip) <= Place(StringsStart(chip), size)
  {
  }

  /** Where byte `t` of the plug-and-play bytes goes. */
  function PnpPlace(f: Fields, chip: ChipType, size: nat, t: nat): (k: nat)
    requires size == 0x80 || size == 0x100
    ensures k < size
  {
    (PnpStart(f, chip) + t) % 256 % size
  }

  lemma WriteThree(img: seq<byte>, i: nat, a: byte, b: byte, c: byte, size: nat)
    requires |img| == MAX_SIZE && (size == 0x80 || size == 0x100)
    ensures WriteAt(img, i, [a, b, c], size)
         == img[i % 256 % size := a][(i + 1) % 256 % size := b][(i + 2) % 256 % size := c]
  {
    assert [a, b, c][1..] == [b, c] && [b, c][1..] == [c] && [c][1..] == [];
    var v := img[i % 256 % size := a];
    assert WriteAt(img, i, [a, b, c], size) == WriteAt(v, i + 1, [b, c], size);
    var w := v[(i + 1) % 256 % size := b];
    assert WriteAt(v, i + 1, [b, c], size) == WriteAt(w, i + 2, [c], size);
    assert WriteAt(w, i + 2, [c], size) == WriteAt(w[(i + 2) % 256 % size := c], i + 3, [], size);
  }

  /** One string as a block. */
  lemma WriteStringIsBlock(img: seq<byte>, pointer: nat, i: nat, text: seq<byte>, size: nat)
    requires |img| == MAX_SIZE && (size == 0x80 || size == 0x100) && 0x0E <= pointer < 0x13
    requires 0x94 <= i && i + 2 * |text| + 2 <= 0x100
    ensures var k, d := Place(i, size), Descriptor(text);
      var v := img[pointer := Byte(i) | 0x80];
      && k + |d| <= size
      && WriteString(img, pointer, i, text, [], size)
         == (v[..k] + d + v[k + |d|..])[pointer + 1 := Byte(2 * |text| + 2)]
  {
    assert Descriptor(text) + [] == Descriptor(text);
    WriteAtIsBlock(img[pointer := Byte(i) | 0x80], i, Descriptor(text), size);
  }

  /** The string is in place: its pointer, its length and its descriptor. */
  predicate HasString(r: seq<byte>, pointer: nat, i: nat, text: seq<byte>, size: nat)
    requires |r| == MAX_SIZE && (size == 0x80 || size == 0x100) && 0x0E <= pointer < 0x13
    requires 0x94 <= i && i + 2 * |text| + 2 <= 0x100
  {
    && r[pointer] == Byte(i) | 0x80 && r[pointer + 1] == Byte(2 * |text| + 2)
    && r[Place(i, size)..Place(i, size) + 2 * |text| + 2] == Descriptor(text)
  }

  lemma BlockFrame(v: seq<byte>, k: nat, d: seq<byte>)
    requires k + |d| <= |v|
    ensures var w := v[..k] + d + v[k + |d|..];
      && |w| == |v| && w[k..k + |d|] == d
      && forall q :: 0 <= q < |v| && !(k <= q < k + |d|) ==> w[q] == v[q]
  {
  }

  lemma WriteStringWrites(img: seq<byte>, pointer: nat, i: nat, text: seq<byte>, size: nat)
    requires |img| == MAX_SIZE && (size == 0x80 || size == 0x100) && 0x0E <= pointer < 0x13
    requires 0x94 <= i && i + 2 * |text| + 2 <= 0x100
    ensures HasString(WriteString(img, pointer, i, text, [], size), pointer, i, text, size)
  {
    WriteStringIsBlock(img, pointer, i, text, size);
    var v, k, d := img[pointer := Byte(i) | 0x80], Place(i, size), Descriptor(text);
    BlockFrame(v, k, d);
    var w := v[..k] + d + v[k + |d|..];
    assert w[pointer + 1 := Byte(2 * |text| + 2)][k..k + |d|] == w[k..k + |d|];
  }

  /** ... and nothing else changed. */
  lemma WriteStringFrame(img: seq<byte>, pointer: nat, i: nat, text: seq<byte>, size: nat, q: nat)
    requires |img| == MAX_SIZE && (size == 0x80 || size == 0x100) && 0x0E <= pointer < 0x13
    requires 0x94 <= i && i + 2 * |text| + 2 <= 0x100
    requires q < MAX_SIZE && q != pointer && q != pointer + 1
    requires !(Place(i, size) <= q < Place(i, size) + 2 * |text| + 2)
    ensures WriteString(img, pointer, i, text, [], size)[q] == img[q]
  {
    WriteStringIsBlock(img, pointer, i, text, size);
    BlockFrame(img[pointer := Byte(i) | 0x80], Place(i, size), Descriptor(text));
  }

  /** The image with the three strings, but without the plug-and-play bytes. */
  function StringsOnly(img: seq<byte>, f: Fields, chip: ChipType, size: nat): (r: seq<byte>)
    requires |img| == MAX_SIZE && (size == 0x80 || size == 0x100)
    ensures |r| == |img|
  {
    WriteString(TwoStrings(img, f, chip, size), 0x12, SerialStart(f, chip), Text(f.serial), [], size)
  }

  /** ... and with them. */
  function WithPnp(r: seq<byte>, f: Fields, chip: ChipType, size: nat): (t: seq<byte>)
    requires |r| == MAX_SIZE && (size == 0x80 || size == 0x100)
    ensures |t| == |r|
  {
    if !HasPnp(chip) then r
    else r[PnpPlace(f, chip, size, 0) := 2][PnpPlace(f, chip, size, 1) := 3]
          [PnpPlace(f, chip, size, 2) := Byte(f.isNotPnp)]
  }

  /** The plug-and-play bytes are behind the strings, or at address 0. */
  lemma PnpBehindStrings(f: Fields, chip: ChipType, size: nat, t: nat)
    requires UserAreaLeft(f, chip) >= 0 && SizeFor(chip, size) && t < 3
    ensures PnpPlace(f, chip, size, t) >= Place(PnpStart(f, chip), size)
         || (PnpPlace(f, chip, size, t) == 0 && Overruns(f, chip))
    ensures !Overruns(f, chip) && HasPnp(chip) ==> PnpPlace(f, chip, size, t) < size - 2
  {
    EndOfStrings(f, chip);
    var a := PnpStart(f, chip) + t;
    if a < 0x100 {
      MaskedAddress(a, size);
    } else {
      assert a == 0x100 && a % 256 % size == 0;
    }
  }

  lemma TailWritten(v: seq<byte>, k: nat, d: seq<byte>, f: Fields, chip: ChipType, size: nat)
    requires |v| == MAX_SIZE && (size == 0x80 || size == 0x100) && HasPnp(chip) && k + |d| == PnpStart(f, chip)
    ensures WriteAt(v, k, d + Pnp(f, chip), size) == WithPnp(WriteAt(v, k, d, size), f, chip, size)
  {
    WriteAtSplits(v, k, d, Pnp(f, chip), size);
    WriteThree(WriteAt(v, k, d, size), k + |d|, 2, 3, Byte(f.isNotPnp), size);
  }

  /** The length byte is written after the plug-and-play bytes; the order does not matter. */
  lemma LengthLast(w: seq<byte>, i: nat, j: nat, k: nat, a: byte, b: byte, c: byte, p: nat, x: byte)
    requires i < |w| && j < |w| && k < |w| && p < |w| && p != i && p != j && p != k
    ensures w[i := a][j := b][k := c][p := x] == w[p := x][i := a][j := b][k := c]
  {
  }

  lemma NotThePointer(f: Fields, chip: ChipType, size: nat)
    requires SizeFor(chip, size) && UserAreaLeft(f, chip) >= 0 && HasPnp(chip)
    ensures forall t :: 0 <= t < 3 ==> PnpPlace(f, chip, size, t) != 0x13
  {
    forall t: nat | t < 3
      ensures PnpPlace(f, chip, size, t) != 0x13
    {
      PnpBehindStrings(f, chip, size, t);
    }
  }

  lemma PnpAndLength(w: seq<byte>, f: Fields, chip: ChipType, size: nat, x: byte)
    requires |w| == MAX_SIZE && SizeFor(chip, size) && UserAreaLeft(f, chip) >= 0 && HasPnp(chip)
    ensures WithPnp(w, f, chip, size)[0x13 := x] == WithPnp(w[0x13 := x], f, chip, size)
  {
    NotThePointer(f, chip, size);
    LengthLast(w, PnpPlace(f, chip, size, 0), PnpPlace(f, chip, size, 1), PnpPlace(f, chip, size, 2),
               2, 3, Byte(f.isNotPnp), 0x13, x);
  }

  lemma TailBehindString(p: seq<byte>, k: nat, text: seq<byte>, f: Fields, chip: ChipType, size: nat)
    requires |p| == MAX_SIZE && SizeFor(chip, size) && UserAreaLeft(f, chip) >= 0 && HasPnp(chip)
    requires k == SerialStart(f, chip) && text == Text(f.serial)
    ensures WriteString(p, 0x12, k, text, Pnp(f, chip), size)
         == WithPnp(WriteString(p, 0x12, k, text, [], size), f, chip, size)
  {
    var v, d := p[0x12 := Byte(k) | 0x80], Descriptor(text);
    assert d + [] == d;
    TailWritten(v, k, d, f, chip, size);
    PnpAndLength(WriteAt(v, k, d, size), f, chip, size, Byte(2 * |text| + 2));
  }

  /** The plug-and-play bytes come on top. */
  lemma StringsThenPnp(img: seq<byte>, f: Fields, chip: ChipType, size: nat)
    requires |img| == MAX_SIZE && SizeFor(chip, size) && UserAreaLeft(f, chip) >= 0
    ensures Strings(img, f, chip, size) == WithPnp(StringsOnly(img, f, chip, size), f, chip, size)
  {
    if HasPnp(chip) {
      TailBehindString(TwoStrings(img, f, chip, size), SerialStart(f, chip), Text(f.serial), f, chip, size);
    }
  }

  predicate InStrings(q: nat, f: Fields, chip: ChipType, size: nat)
    requires SizeFor(chip, size) && UserAreaLeft(f, chip) >= 0
  {
    EndOfStrings(f, chip);
    Place(StringsStart(chip), size) <= q < Place(PnpStart(f, chip), size)
  }

  /** What the three strings change: the pointers, and one block. */
  lemma StringsOnlyFrame(img: seq<byte>, f: Fields, chip: ChipType, size: nat, q: nat)
    requires |img| == MAX_SIZE && SizeFor(chip, size) && UserAreaLeft(f, chip) >= 0 && q < MAX_SIZE
    requires !IsPointer(q) && !InStrings(q, f, chip, size)
    ensures StringsOnly(img, f, chip, size)[q] == img[q]
  {
    EndOfStrings(f, chip);
    var m := WriteString(img, 0x0E, StringsStart(chip), Text(f.manufacturer), [], size);
    var p := WriteString(m, 0x10, ProductStart(f, chip), Text(f.product), [], size);
    WriteStringFrame(img, 0x0E, StringsStart(chip), Text(f.manufacturer), size, q);
    WriteStringFrame(m, 0x10, ProductStart(f, chip), Text(f.product), size, q);
    WriteStringFrame(p, 0x12, SerialStart(f, chip), Text(f.serial), size, q);
  }

  /** What the strings and the bytes behind them change. */
  lemma StringsFrame(img: seq<byte>, f: Fields, chip: ChipType, size: nat, q: nat)
    requires |img| == MAX_SIZE && SizeFor(chip, size) && UserAreaLeft(f, chip) >= 0 && q < MAX_SIZE
    requires !IsPointer(q) && !InStrings(q, f, chip, size)
    requires HasPnp(chip) ==> forall t :: 0 <= t < 3 ==> q != PnpPlace(f, chip, size, t)
    ensures Strings(img, f, chip, size)[q] == img[q]
  {
    StringsThenPnp(img, f, chip, size);
    StringsOnlyFrame(img, f, chip, size, q);
  }

  /** Non-overlap: the strings and the bytes behind them change nothing of the fixed part but their
      pointers, and not the checksum; in the two cases of overrun they change the checksum bytes and
      possibly byte 0. */
  lemma NonOverlap(img: seq<byte>, f: Fields, chip: ChipType, size: nat, q: nat)
    requires |img| == MAX_SIZE && SizeFor(chip, size) && UserAreaLeft(f, chip) >= 0 && q < MAX_SIZE
    requires (q < FreeStart(chip) && !IsPointer(q)) || q >= size - 2
    requires Overruns(f, chip) ==> q != 0 && q != size - 2 && q != size - 1
    ensures Strings(img, f, chip, size)[q] == img[q]
  {
    StartOfStrings(chip, size);
    EndOfStrings(f, chip);
    forall t: nat | t < 3 && HasPnp(chip)
      ensures q != PnpPlace(f, chip, size, t)
    {
      PnpBehindStrings(f, chip, size, t);
    }
    StringsFrame(img, f, chip, size, q);
  }

  /** The fixed part stays below the first free address, and away from the pointers. */
  lemma FixedPartOnly(img: seq<byte>, f: Fields, chip: ChipType, q: nat)
    requires |img| == MAX_SIZE && q < MAX_SIZE && (q >= FreeStart(chip) || IsPointer(q))
    ensures Specific(SerialFlag(img, f, chip), f, chip)[q] == img[q]
  {
    var v := SerialFlag(img, f, chip);
    assert !Stored(SpecificStores(v, f, chip), q);
    PatchFrame(v, SpecificStores(v, f, chip), q);
  }

  /** The overrun is harmless: all it can hit is written again afterwards, whatever it was. */
  lemma OverrunIsRewritten(v: seq<byte>, w: seq<byte>, f: Fields, chip: ChipType, q: nat)
    requires |v| == |w| == MAX_SIZE && (chip == R || chip == X230) && q < MAX_SIZE
    requires v[0x0A] == w[0x0A] && (q != 0 ==> v[q] == w[q])
    ensures Specific(SerialFlag(v, f, chip), f, chip)[q] == Specific(SerialFlag(w, f, chip), f, chip)[q]
  {
    var a, b := SerialFlag(v, f, chip), SerialFlag(w, f, chip);
    var ws := SpecificStores(a, f, chip);
    assert ws == SpecificStores(b, f, chip) && ws[0].0 == 0;
    PatchAgrees(a, b, ws, q);
  }

  lemma WordsAgree(a: seq<byte>, b: seq<byte>, n: nat)
    requires 2 * n <= |a| && 2 * n <= |b| && forall q :: 0 <= q < 2 * n ==> a[q] == b[q]
    ensures Words(a, n) == Words(b, n)
  {
  }

  lemma SealedAgree(a: seq<byte>, b: seq<byte>, size: nat)
    requires |a| == |b| == MAX_SIZE && (size == 0x80 || size == 0x100)
    requires forall q :: 0 <= q < MAX_SIZE && q != size - 2 && q != size - 1 ==> a[q] == b[q]
    ensures Sealed(a, size) == Sealed(b, size)
  {
    WordsAgree(a, b, size / 2 - 1);
    var ws := ChecksumStores(Fold(SEED, Words(a, size / 2 - 1)), size);
    forall q | 0 <= q < MAX_SIZE
      ensures Patch(a, ws)[q] == Patch(b, ws)[q]
    {
      assert ws[0].0 == size - 2 && ws[1].0 == size - 1;
      PatchAgrees(a, b, ws, q);
    }
  }

  /** ... so the image of an FT232R does not depend on it. */
  lemma OverrunIsHarmless(v: seq<byte>, w: seq<byte>, f: Fields, size: nat)
    requires |v| == |w| == MAX_SIZE && SizeFor(R, size)
    requires forall q :: 0 < q < MAX_SIZE && q != size - 2 && q != size - 1 ==> v[q] == w[q]
    ensures Sealed(Specific(SerialFlag(v, f, R), f, R), size) == Sealed(Specific(SerialFlag(w, f, R), f, R), size)
  {
    var a, b := Specific(SerialFlag(v, f, R), f, R), Specific(SerialFlag(w, f, R), f, R);
    forall q | 0 <= q < MAX_SIZE && q != size - 2 && q != size - 1
      ensures a[q] == b[q]
    {
      OverrunIsRewritten(v, w, f, R, q);
    }
    SealedAgree(a, b, size);
  }

  // ----- the overrun -----

  lemma OverrunStart(f: Fields, chip: ChipType)
    requires UserAreaLeft(f, chip) >= 0 && Overruns(f, chip)
    ensures UserAreaLeft(f, chip) == 0 || UserAreaLeft(f, chip) == 2
    ensures PnpStart(f, chip) == 0xfe - UserAreaLeft(f, chip)
  {
    assert UserAreaLeft(f, chip) % 2 == 0;
  }

  lemma Wrapped(a: nat, size: nat)
    requires (a == 0xfe || a == 0xfc) && (size == 0x80 || size == 0x100)
    ensures a == 0xfe ==>
      (a + 0) % 256 % size == size - 2 && (a + 1) % 256 % size == size - 1 && (a + 2) % 256 % size == 0
    ensures a == 0xfc ==>
      (a + 0) % 256 % size == size - 4 && (a + 1) % 256 % size == size - 3 && (a + 2) % 256 % size == size - 2
  {
  }

  /** Which bytes the three bytes behind the strings hit in the two cases: with no room left both checksum
      bytes and byte 0, with room for one character the first checksum byte. */
  lemma OverrunPlaces(f: Fields, chip: ChipType, size: nat)
    requires SizeFor(chip, size) && UserAreaLeft(f, chip) >= 0 && Overruns(f, chip)
    ensures UserAreaLeft(f, chip) == 0 || UserAreaLeft(f, chip) == 2
    ensures var i, j, k := PnpPlace(f, chip, size, 0), PnpPlace(f, chip, size, 1), PnpPlace(f, chip, size, 2);
      && (UserAreaLeft(f, chip) == 0 ==> i == size - 2 && j == size - 1 && k == 0)
      && (UserAreaLeft(f, chip) == 2 ==> i == size - 4 && j == size - 3 && k == size - 2)
  {
    OverrunStart(f, chip);
    if UserAreaLeft(f, chip) == 0 {
      Wrapped(0xfe, size);
    } else {
      Wrapped(0xfc, size);
    }
  }

  /** The string phase of an FT232R whose strings leave no room writes to the checksum and to byte 0. */
  lemma FullLengthOverruns(img: seq<byte>, f: Fields, size: nat)
    requires |img| == MAX_SIZE && SizeFor(R, size) && UserAreaLeft(f, R) == 0
    ensures var r := Strings(img, f, R, size);
      r[size - 2] == 2 && r[size - 1] == 3 && r[0] == Byte(f.isNotPnp)
  {
    StringsThenPnp(img, f, R, size);
    OverrunPlaces(f, R, size);
  }

  /** Such strings exist: a manufacturer of 48 characters, and no other string. */
  lemma FullLengthExists(f: Fields)
    ensures UserAreaLeft(f.(manufacturer := Some(seq(48, _ => 65)), product := None, serial := None), R) == 0
  {
  }
}
