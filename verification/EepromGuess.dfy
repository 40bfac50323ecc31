/** The size that `ftdi_read_eeprom` guesses, and what it means for reading back what was built. */
module EepromGuess {
  import opened Memory
  import opened Baud
  import opened Checksum
  import opened Eeprom
  import opened EepromLayout
  import opened EepromDecode
  import opened EepromReadBack
  import opened EepromSpecific
  import opened EepromRoundTrip
  import opened EepromDevice

  // ----- blank and small chips -----

  lemma HighOfErased(w: word)
    ensures HighByte(w) == 0xff <==> w >= 0xff00
  {
  }

  lemma {:induction false} CLengthBehind(a: seq<byte>, b: seq<byte>)
    requires forall k :: 0 <= k < |a| ==> a[k] != 0
    ensures CLength(a + b) == |a| + CLength(b)
    decreases |a|
  {
    if a == [] {
      assert a + b == b;
    } else {
      assert (a + b)[1..] == a[1..] + b;
      CLengthBehind(a[1..], b);
    }
  }

  lemma BlankByte(n: nat, k: nat)
    requires (n == 64 || n == 128 || n == 256) && k < MAX_SIZE
    ensures Contents(Blank(n))[k] == 0xff
  {
    assert Contents(Blank(n))[k] == CellByte(Blank(n), k);
    HighOfErased(ERASED);
  }

  lemma LastErasedBehind(img: seq<byte>, behind: seq<byte>)
    requires |img| == MAX_SIZE && forall k :: 0 <= k < MAX_SIZE ==> img[k] == 0xff
    ensures LastErased(img + behind, MAX_SIZE - 1) <==> 0xff !in behind[..CLength(behind)]
  {
    var s, n := img + behind, CLength(behind);
    CLengthBehind(img, behind);
    assert s[MAX_SIZE - 1] == img[MAX_SIZE - 1];
    forall j | 0 <= j < n
      ensures s[MAX_SIZE + j] == behind[..n][j]
    {
    }
    if 0xff in behind[..n] {
      var j :| 0 <= j < n && behind[..n][j] == 0xff;
      assert s[MAX_SIZE + j] == 0xff;
    } else {
      forall j | MAX_SIZE - 1 < j < CLength(s)
        ensures s[j] != 0xff
      {
        assert s[MAX_SIZE + (j - MAX_SIZE)] == behind[..n][j - MAX_SIZE];
      }
    }
  }

  /** The size that is guessed for a blank chip: none, unless the FT232R says it anyway, or the search finds a
      0xff behind the buffer. */
  lemma SizeOfBlank(n: nat, behind: seq<byte>, chip: ChipType)
    requires n == 64 || n == 128 || n == 256
    ensures GuessedSize(Contents(Blank(n)), behind, chip)
         == if chip == R || 0xff in behind[..CLength(behind)] then 0x80 else -1
  {
    var img := Contents(Blank(n));
    forall k | 0 <= k < MAX_SIZE
      ensures img[k] == 0xff
    {
      BlankByte(n, k);
    }
    LastErasedBehind(img, behind);
    assert img[..0x80] == img[0x80..];
  }

  lemma SameCell(cells: Cells, k: nat)
    requires |cells| == 64 && k < 0x80
    ensures CellByte(cells, k) == CellByte(cells, 0x80 + k)
  {
    assert (0x80 + k) / 2 == 64 + k / 2;
  }

  /** A 93x46 is never taken for a larger chip: its contents repeat. */
  lemma SizeOfSmallChip(cells: Cells, behind: seq<byte>, chip: ChipType)
    requires |cells| == 64
    ensures var size := GuessedSize(Contents(cells), behind, chip);
      size == 0x80 || (size == -1 && chip != R && cells[63] >= 0xff00)
  {
    var img := Contents(cells);
    forall k | 0 <= k < 0x80
      ensures img[k] == img[0x80 + k]
    {
      SameCell(cells, k);
    }
    assert img[..0x80] == img[0x80..];
    assert img[0xff] == CellByte(cells, 0xff);
    HighOfErased(cells[63]);
    assert (img + behind)[0xff] == img[0xff];
  }

  /** A blank chip, such as an erased one, is not an image that can be decoded: its header says that the
      strings are 127 characters long, and they are not in the buffer.  `size` is what reading it left, if that
      was not -1, or was set before the contents were copied into the buffer; with a size of -1 decoding looks
      for the checksum in front of the buffer. */
  lemma BlankIsNotDecodable(n: nat, size: nat)
    requires (n == 64 || n == 128 || n == 256) && (size == 0x80 || size == 0x100)
    ensures !TextInBuffer(Contents(Blank(n)), 0x0E, size) && !TextsInBuffer(Contents(Blank(n)), size)
  {
    var r := Contents(Blank(n));
    assert r[0x0E] == CellByte(Blank(n), 0x0E) && r[0x0F] == CellByte(Blank(n), 0x0F);
    assert LowByte(ERASED) == 255 && HighByte(ERASED) == 255;
    assert TextLength(r, 0x0E) == 127;
  }

  // ----- built images -----

  /** Bytes that no part of the image uses are zero. */
  lemma UnusedIsZero(img: seq<byte>, f: Fields, chip: ChipType, size: nat, q: nat)
    requires |img| == MAX_SIZE && SizeFor(chip, size) && UserAreaLeft(f, chip) >= 0 && chip != X230
    requires 0x0B <= q < size - 2 && !IsPointer(q) && !InStrings(q, f, chip, size)
    requires HasPnp(chip) ==> q < Place(StringsStart(chip), size)
    requires !Stored(SpecificStores(WithStrings(img, f, chip, size), f, chip), q)
    ensures Image(img, f, chip, size)[q] == 0
  {
    var v, base := WithStrings(img, f, chip, size), EepromReadBack.Base(img, f, chip);
    SealedByte(Unsealed(img, f, chip, size), size, q);
    PatchFrame(v, SpecificStores(v, f, chip), q);
    EndOfStrings(f, chip);
    forall t: nat | t < 3 && HasPnp(chip)
      ensures q != PnpPlace(f, chip, size, t)
    {
      PnpBehindStrings(f, chip, size, t);
    }
    StringsFrame(base, f, chip, size, q);
    BaseIsZero(img, f, chip, q);
  }

  /** A byte of the fixed part that the chip does not use. */
  function ZeroAt(chip: ChipType): (q: nat)
    ensures 0x0B <= q <= 0x17
  {
    if chip == R then 0x17 else if chip == H4232 then 0x14 else 0x0B
  }

  /** What a chip does not store. */
  lemma NotStoredAt(v: seq<byte>, f: Fields, chip: ChipType, q: nat)
    requires |v| == MAX_SIZE && chip != X230 && (q == ZeroAt(chip) || q >= FreeStart(chip))
    ensures !Stored(SpecificStores(v, f, chip), q)
  {
  }

  lemma HasZero(img: seq<byte>, f: Fields, chip: ChipType, size: nat)
    requires |img| == MAX_SIZE && SizeFor(chip, size) && UserAreaLeft(f, chip) >= 0 && chip != X230
    ensures Image(img, f, chip, size)[ZeroAt(chip)] == 0
  {
    StartOfStrings(chip, size);
    NotStoredAt(WithStrings(img, f, chip, size), f, chip, ZeroAt(chip));
    UnusedIsZero(img, f, chip, size, ZeroAt(chip));
  }

  lemma EightBits(a: bool, b: bool)
    ensures 0x80 | Flag(0x40, a) | Flag(0x20, b) != 0
  {
  }

  /** Byte 8 of an image is not zero. */
  lemma TopBitOfEight(img: seq<byte>, f: Fields, chip: ChipType, size: nat)
    requires |img| == MAX_SIZE && SizeFor(chip, size) && UserAreaLeft(f, chip) >= 0
    ensures Image(img, f, chip, size)[8] != 0
  {
    HeaderPlaced(img, f, chip, size);
    EightBits(f.selfPowered, f.remoteWakeup);
  }

  lemma {:induction false} CLengthAtZero(s: seq<byte>, q: nat)
    requires q < |s| && s[q] == 0
    ensures CLength(s) <= q
    decreases |s|
  {
    if q > 0 && s[0] != 0 {
      CLengthAtZero(s[1..], q - 1);
    }
  }

  lemma NotErased(r: seq<byte>, behind: seq<byte>, q: nat)
    requires |r| == MAX_SIZE && q < MAX_SIZE - 1 && r[q] == 0
    ensures !LastErased(r + behind, MAX_SIZE - 1)
  {
    assert (r + behind)[q] == 0;
    CLengthAtZero(r + behind, q);
  }

  /** Bytes that tell the parts of an image of 256 bytes apart. */
  lemma LargeBytes(img: seq<byte>, f: Fields, chip: ChipType, size: nat)
    requires |img| == MAX_SIZE && UserAreaLeft(f, chip) >= 0 && chip != X230 && size == 0x100
    ensures var r := Image(img, f, chip, size); r[8] != 0 && r[0x48] == 0 && r[0x88] == 0
  {
    TopBitOfEight(img, f, chip, size);
    NotStoredAt(WithStrings(img, f, chip, size), f, chip, 0x48);
    NotStoredAt(WithStrings(img, f, chip, size), f, chip, 0x88);
    UnusedIsZero(img, f, chip, size, 0x48);
    UnusedIsZero(img, f, chip, size, 0x88);
  }

  lemma GuessByBytes(r: seq<byte>, behind: seq<byte>, chip: ChipType, q: nat)
    requires |r| == MAX_SIZE && q < MAX_SIZE - 1 && r[q] == 0
    requires r[8] != 0 && r[0x48] == 0 && r[0x88] == 0
    ensures GuessedSize(r, behind, chip) == if chip == R then 0x80 else 0x100
  {
    NotErased(r, behind, q);
    assert r[..0x80][8] != r[0x80..][8] && r[..0x40][8] != r[0x40..0x80][8];
  }

  /** A chip that is read after an image of 256 bytes was written to it. */
  lemma LargeGuess(r: seq<byte>, img: seq<byte>, behind: seq<byte>, f: Fields, chip: ChipType, size: nat)
    requires |img| == MAX_SIZE && UserAreaLeft(f, chip) >= 0 && chip != X230
    requires size == 0x100 && r == Image(img, f, chip, size)
    ensures GuessedSize(r, behind, chip) == if chip == R then 0x80 else 0x100
  {
    HasZero(img, f, chip, size);
    LargeBytes(img, f, chip, size);
    GuessByBytes(r, behind, chip, ZeroAt(chip));
  }

  /** A chip that is read after an image of 128 bytes was written to it. */
  lemma SmallGuess(r: seq<byte>, img: seq<byte>, behind: seq<byte>, f: Fields, chip: ChipType, size: nat)
    requires |r| == |img| == MAX_SIZE && UserAreaLeft(f, chip) >= 0 && chip != X230
    requires size == 0x80 && forall k :: 0 <= k < size ==> r[k] == Image(img, f, chip, size)[k]
    ensures GuessedSize(r, behind, chip) == 0x80 <==> chip == R || r[..0x80] == r[0x80..]
  {
    HasZero(img, f, chip, size);
    NotErased(r, behind, ZeroAt(chip));
  }

  /** The bytes below the size of an image that was written and read back. */
  lemma ReadsBack(cells: Cells, a: seq<byte>, chip: ChipType, size: nat)
    requires |a| == MAX_SIZE && (size == 0x80 || size == 0x100) && size / 2 <= |cells| && chip != X230
    ensures forall k :: 0 <= k < size ==> Contents(Written(cells, a, size / 2, chip))[k] == a[k]
  {
    forall k | 0 <= k < size
      ensures Contents(Written(cells, a, size / 2, chip))[k] == a[k]
    {
      ReadBack(cells, a, size, chip, k);
    }
  }

  lemma TwoBytes(c: Cells, i: nat)
    requires i < |c| && 2 * i + 1 < MAX_SIZE
    ensures Contents(c)[2 * i] == LowByte(c[i]) && Contents(c)[2 * i + 1] == HighByte(c[i])
  {
    NoWrap(i, |c|);
    assert (2 * i) / 2 == i && (2 * i + 1) / 2 == i;
    assert Contents(c)[2 * i] == CellByte(c, 2 * i) && Contents(c)[2 * i + 1] == CellByte(c, 2 * i + 1);
  }

  /** Word `i` of the upper half is that of the lower half. */
  predicate SameWord(r: seq<byte>, i: nat)
    requires |r| == MAX_SIZE && i < 64
  {
    r[0x80 + 2 * i] == r[2 * i] && r[0x80 + 2 * i + 1] == r[2 * i + 1]
  }

  lemma HalvesByWords(r: seq<byte>)
    requires |r| == MAX_SIZE
    ensures r[..0x80] == r[0x80..] <==> forall i :: 0 <= i < 64 ==> SameWord(r, i)
  {
    if r[..0x80] == r[0x80..] {
      forall i | 0 <= i < 64
        ensures SameWord(r, i)
      {
        assert r[..0x80][2 * i] == r[0x80..][2 * i] && r[..0x80][2 * i + 1] == r[0x80..][2 * i + 1];
      }
    }
    if forall i :: 0 <= i < 64 ==> SameWord(r, i) {
      forall k | 0 <= k < 0x80
        ensures r[k] == r[0x80 + k]
      {
        assert SameWord(r, k / 2);
      }
    }
  }

  lemma WordIsBytes(x: word, y: word)
    ensures x == y <==> LowByte(x) == LowByte(y) && HighByte(x) == HighByte(y)
  {
  }

  /** What is behind an image of 128 bytes in the chip repeats it; in a 93x46 it is the image itself. */
  predicate UpperRepeats(cells: Cells, a: seq<byte>)
    requires |a| == MAX_SIZE
  {
    |cells| == 64 || forall i :: 0 <= i < 64 ==> cells[64 + i] == Word(a, i)
  }

  lemma UpperBytes(cells: Cells, a: seq<byte>, chip: ChipType, n: nat, i: nat)
    requires |a| == MAX_SIZE && |cells| > n == 64 && i < 64
    ensures var r := Contents(Written(cells, a, n, chip));
      r[0x80 + 2 * i] == LowByte(cells[64 + i]) && r[0x80 + 2 * i + 1] == HighByte(cells[64 + i])
  {
    WrittenAbove(cells, a, n, chip, 64 + i);
    TwoBytes(Written(cells, a, n, chip), 64 + i);
  }

  lemma UpperWord(cells: Cells, a: seq<byte>, chip: ChipType, n: nat, i: nat)
    requires |a| == MAX_SIZE && |cells| > n == 64 && i < 64
    requires forall k :: 0 <= k < 0x80 ==> Contents(Written(cells, a, n, chip))[k] == a[k]
    ensures SameWord(Contents(Written(cells, a, n, chip)), i) <==> cells[64 + i] == Word(a, i)
  {
    UpperBytes(cells, a, chip, n, i);
    BytesOfTheWord(a, i);
    WordIsBytes(cells[64 + i], Word(a, i));
  }

  lemma SmallChipRepeats(c: Cells)
    requires |c| == 64
    ensures Contents(c)[..0x80] == Contents(c)[0x80..]
  {
    forall k: nat | k < 0x80
      ensures Contents(c)[0x80 + k] == Contents(c)[k]
    {
      SameCell(c, k);
    }
  }

  lemma UpperHalf(cells: Cells, a: seq<byte>, chip: ChipType, n: nat)
    requires |a| == MAX_SIZE && chip != X230 && n == 64
    requires forall k :: 0 <= k < 0x80 ==> Contents(Written(cells, a, n, chip))[k] == a[k]
    ensures var r := Contents(Written(cells, a, n, chip));
      r[..0x80] == r[0x80..] <==> UpperRepeats(cells, a)
  {
    var r := Contents(Written(cells, a, n, chip));
    if |cells| == 64 {
      SmallChipRepeats(Written(cells, a, n, chip));
    } else {
      forall i: nat | i < 64
        ensures SameWord(r, i) <==> cells[64 + i] == Word(a, i)
      {
        UpperWord(cells, a, chip, n, i);
      }
      HalvesByWords(r);
    }
  }

  // ----- build, write, read, decode -----

  /** When reading back an image leaves the size that it was built with: 256 bytes for all chips but the
      FT232R, and 128 bytes for the FT232R, or if the rest of the memory chip repeats them. */
  predicate GuessIsRight(cells: Cells, a: seq<byte>, chip: ChipType, size: nat)
    requires |a| == MAX_SIZE
  {
    if size == 0x100 then chip != R else chip == R || UpperRepeats(cells, a)
  }

  lemma SameContents(r: seq<byte>, a: seq<byte>)
    requires |r| == |a| == MAX_SIZE && forall k :: 0 <= k < MAX_SIZE ==> r[k] == a[k]
    ensures r == a
  {
  }

  lemma GuessIff(cells: Cells, img: seq<byte>, f: Fields, chip: ChipType, size: nat, a: seq<byte>, behind: seq<byte>)
    requires |img| == |a| == MAX_SIZE && SizeFor(chip, size) && UserAreaLeft(f, chip) >= 0 && chip != X230
    requires size / 2 <= |cells| && a == Image(img, f, chip, size)
    ensures GuessedSize(Contents(Written(cells, a, size / 2, chip)), behind, chip) == size
       <==> GuessIsRight(cells, a, chip, size)
  {
    var r := Contents(Written(cells, a, size / 2, chip));
    ReadsBack(cells, a, chip, size);
    if size == 0x100 {
      SameContents(r, a);
      LargeGuess(r, img, behind, f, chip, size);
    } else {
      SmallGuess(r, img, behind, f, chip, size);
      UpperHalf(cells, a, chip, size / 2);
    }
  }

  /** A built image is written to a chip with room for it, read back, and decoded with the size that reading
      leaves.  That is the size it was built with exactly under the condition above; and then the fields that
      were built come back, exactly if their values fit. */
  lemma DeviceRoundTrip(cells: Cells, img: seq<byte>, f: Fields, g: Fields, chip: ChipType, size: nat,
                        behind: seq<byte>)
    requires |img| == MAX_SIZE && SizeFor(chip, size) && UserAreaLeft(f, chip) >= 0 && chip != X230
    requires size / 2 <= |cells|
    ensures var a := Image(img, f, chip, size);
      var r := Contents(Written(cells, a, size / 2, chip));
      var n := GuessedSize(r, behind, chip);
      && (n == size <==> GuessIsRight(cells, a, chip, size))
      && (n == size ==>
            && TextsInBuffer(r, n)
            && var d := Decode(r, g, chip, n);
               && d.0 == 0
               && (SameHeader(f, d.1) && SameSpecific(f, d.1, chip)
                   <==> EncodableHeader(f) && EncodableSpecific(f, chip)))
  {
    GuessIff(cells, img, f, chip, size, Image(img, f, chip, size), behind);
    TextsStayBelow(img, f, chip, size);
    ReadBackDecodes(cells, Image(img, f, chip, size), g, chip, size);
    RoundTrip(img, f, g, chip, size);
  }

  /** The contents are blank behind the first 128 bytes. */
  ghost predicate BlankAbove(r: seq<byte>)
    requires |r| == MAX_SIZE
  {
    forall q :: 0x80 <= q < MAX_SIZE ==> r[q] == 0xff
  }

  lemma StaysBlank(a: seq<byte>, size: nat, n: nat)
    requires |a| == MAX_SIZE && size == 0x80 && (n == 128 || n == 256)
    ensures BlankAbove(Contents(Written(Blank(n), a, size / 2, BM)))
  {
    var c := Written(Blank(n), a, size / 2, BM);
    forall q | 0x80 <= q < MAX_SIZE
      ensures Contents(c)[q] == 0xff
    {
      WrittenAbove(Blank(n), a, size / 2, BM, q / 2);
      NoWrap(q / 2, n);
      HighOfErased(ERASED);
      assert Contents(c)[q] == CellByte(c, q);
    }
  }

  lemma WrongSize(img: seq<byte>, f: Fields, size: nat, r: seq<byte>, behind: seq<byte>)
    requires |r| == |img| == MAX_SIZE && UserAreaLeft(f, BM) >= 0 && PnpStart(f, BM) <= 0xc0 && size == 0x80
    requires var a := Image(img, f, BM, size); r[8] == a[8] && r[0x0B] == a[0x0B] && r[0x48] == a[0x48]
    requires BlankAbove(r)
    ensures GuessedSize(r, behind, BM) == 0x100
  {
    HasZero(img, f, BM, size);
    NotErased(r, behind, 0x0B);
    TopBitOfEight(img, f, BM, size);
    NotStoredAt(WithStrings(img, f, BM, size), f, BM, 0x48);
    UnusedIsZero(img, f, BM, size, 0x48);
    assert r[..0x80][0x48] != r[0x80..][0x48] && r[..0x40][8] != r[0x40..0x80][8];
  }

  lemma WrongText(a: seq<byte>, r: seq<byte>, x: byte)
    requires |a| == |r| == MAX_SIZE && HasString(a, 0x0E, 0x94, [x], 0x80)
    requires r[0x0E] == a[0x0E] && r[0x0F] == a[0x0F] && BlankAbove(r)
    ensures TextInBuffer(r, 0x0E, 0x100) && DecodeText(r, 0x0E, 0x100) == Some([0xff])
  {
    AddressOfString(r[0x0E], 0x94, 0x100);
    LengthOfString(r[0x0F], 1);
    assert Narrow(r, 0x94, 1) == [0xff];
  }

  lemma OneCharacter(img: seq<byte>, f: Fields, x: byte, size: nat)
    requires |img| == MAX_SIZE && size == 0x80
    requires f.manufacturer == Some([x]) && f.product == None && f.serial == None
    ensures UserAreaLeft(f, BM) >= 0 && PnpStart(f, BM) <= 0xc0
    ensures HasString(Image(img, f, BM, size), 0x0E, 0x94, [x], size)
  {
    ImageHasStrings(img, f, BM, size);
    assert Text(f.manufacturer) == [x];
  }

  /** The wrong guess: an image of 128 bytes for a BM, with one character as the manufacturer, in a blank 93x56
      or 93x66.  It is read back as one of 256 bytes, and another character comes back. */
  lemma WrongGuess(img: seq<byte>, f: Fields, x: byte, behind: seq<byte>, size: nat, n: nat)
    requires |img| == MAX_SIZE && size == 0x80 && (n == 128 || n == 256)
    requires f.manufacturer == Some([x]) && f.product == None && f.serial == None
    ensures UserAreaLeft(f, BM) >= 0
    ensures var r := Contents(Written(Blank(n), Image(img, f, BM, size), size / 2, BM));
      && GuessedSize(r, behind, BM) == 0x100
      && TextInBuffer(r, 0x0E, 0x100) && DecodeText(r, 0x0E, 0x100) == Some([0xff])
  {
    var a := Image(img, f, BM, size);
    var r := Contents(Written(Blank(n), a, size / 2, BM));
    ReadsBack(Blank(n), a, BM, size);
    StaysBlank(a, size, n);
    OneCharacter(img, f, x, size);
    WrongSize(img, f, size, r, behind);
    WrongText(a, r, x);
  }
}
