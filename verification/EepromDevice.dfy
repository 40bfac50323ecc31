/** The EEPROM chip behind the device: `ftdi_write_eeprom`, the reading loop of `ftdi_read_eeprom`, and
    `ftdi_erase_eeprom`. */
module EepromDevice {
  import opened Memory
  import opened Baud
  import opened Checksum
  import opened Eeprom
  import opened EepromLayout
  import opened EepromDecode
  import opened EepromReadBack

  const MAGIC: word := 0x55aa
  const ERASED: word := 0xffff

  /** The words of a 93x46, 93x56 or 93x66; addresses wrap around at the end. */
  type Cells = c: seq<word> | |c| == 64 || |c| == 128 || |c| == 256 witness seq(64, _ => ERASED)

  /** The number the library has for such a chip. */
  function ChipOf(cells: Cells): int {
    if |cells| == 64 then 0x46 else if |cells| == 128 then 0x56 else 0x66
  }

  /** The number of reads until the magic word is found. */
  function Probes(chip: int): nat {
    if chip == 0x46 then 1 else if chip == 0x56 then 2 else 3
  }

  /** The result of erasing if only `alive` transfers succeed: one erases, one writes the magic word, some
      read it back, and one erases again. */
  function EraseCode(alive: nat, chip: int): int {
    if alive == 0 then -1
    else if alive == 1 then -3
    else if alive < 2 + Probes(chip) then -4
    else if alive == 2 + Probes(chip) then -1
    else 0
  }

  /** In numbers: a 93x46 takes four transfers, a 93x56 five and a 93x66 six.  If one fails, the first and the last,
      which erase, give -1, the second, which writes, -3, and the others, which read, -4. */
  lemma EraseNumbers(alive: nat, cells: Cells)
    ensures var n := if |cells| == 64 then 4 else if |cells| == 128 then 5 else 6;
      EraseCode(alive, ChipOf(cells)) ==
        if alive >= n then 0 else if alive == 0 || alive == n - 1 then -1 else if alive == 1 then -3 else -4
  {
  }

  /** The sizes that reading leaves; -1 is an unknown one. */
  predicate IsSize(size: int) {
    size == -1 || size == 0x40 || size == 0x80 || size == 0x100
  }

  /** `size / 2`, as C rounds it. */
  function WordCount(size: int): (n: nat)
    requires IsSize(size)
    ensures n <= MAX_SIZE / 2
  {
    if size < 0 then 0 else size / 2
  }

  /** The length of the C string at the start of `s`. */
  function CLength(s: seq<byte>): (n: nat)
    ensures n <= |s|
    decreases |s|
  {
    if s == [] || s[0] == 0 then 0 else 1 + CLength(s[1..])
  }

  /** The last 0xff of that string is at `k`. */
  predicate LastErased(s: seq<byte>, k: nat) {
    k < CLength(s) && s[k] == 0xff && forall j :: k < j < CLength(s) ==> s[j] != 0xff
  }

  /** The guess of the size; `behind` is what follows the buffer in memory, which the search for the last 0xff
      goes on to if there is no zero byte in the buffer. */
  function GuessedSize(img: seq<byte>, behind: seq<byte>, chip: ChipType): (size: int)
    requires |img| == MAX_SIZE
    ensures IsSize(size)
  {
    if chip == R then 0x80
    else if LastErased(img + behind, MAX_SIZE - 1) then -1
    else if img[..0x80] == img[0x80..] then 0x80
    else if img[..0x40] == img[0x40..0x80] then 0x40
    else 0x100
  }

  /** In terms of the bytes, for all chips but the FT232R and contents that do not end in 0xff: 0x80 if both halves
      are equal, 0x40 if they are not but the quarters of the first half are, and 0x100 if these differ as well. */
  lemma GuessByHalves(img: seq<byte>, behind: seq<byte>, chip: ChipType)
    requires |img| == MAX_SIZE && chip != R && img[MAX_SIZE - 1] != 0xff
    ensures var halves := forall k :: 0 <= k < 0x80 ==> img[k] == img[k + 0x80];
      var quarters := forall k :: 0 <= k < 0x40 ==> img[k] == img[k + 0x40];
      GuessedSize(img, behind, chip) == if halves then 0x80 else if quarters then 0x40 else 0x100
  {
    assert forall k :: 0 <= k < 0x80 ==> img[0x80..][k] == img[k + 0x80] && img[..0x80][k] == img[k];
    assert forall k :: 0 <= k < 0x40 ==> img[0x40..0x80][k] == img[k + 0x40] && img[..0x40][k] == img[k];
    if forall k :: 0 <= k < 0x80 ==> img[k] == img[k + 0x80] {
      assert img[..0x80] == img[0x80..];
    }
    if forall k :: 0 <= k < 0x40 ==> img[k] == img[k + 0x40] {
      assert img[..0x40] == img[0x40..0x80];
    }
  }

  function Blank(n: nat): (c: seq<word>)
    ensures |c| == n
  {
    seq(n, _ => ERASED)
  }

  /** The FT230X has words in the middle that are not written. */
  predicate Reserved(chip: ChipType, i: nat) {
    chip == X230 && 0x40 <= i < 0x50
  }

  /** The words of an image below `n`, written one after the other from address 0 on. */
  function Written(cells: Cells, img: seq<byte>, n: nat, chip: ChipType): (r: Cells)
    requires 2 * n <= |img|
    ensures |r| == |cells|
  {
    if n == 0 then cells
    else if Reserved(chip, n - 1) then Written(cells, img, n - 1, chip)
    else Written(cells, img, n - 1, chip)[(n - 1) % |cells| := Word(img, n - 1)]
  }

  /** The number of words below `n` that are written, and the word that the next transfer writes. */
  function Transfers(n: nat, chip: ChipType): nat {
    if chip == X230 && n > 0x40 then (if n < 0x50 then 0x40 else n - 0x10) else n
  }

  function Reached(transfers: nat, chip: ChipType): nat {
    if chip == X230 && transfers >= 0x40 then transfers + 0x10 else transfers
  }

  /** A transfer that fails at word `i` is the one after those for the words below. */
  lemma FailsAt(i: nat, n: nat, chip: ChipType)
    requires !Reserved(chip, i) && i < n
    ensures Min(Reached(Transfers(i, chip), chip), n) == i
    ensures Transfers(n, chip) > Transfers(i, chip)
  {
  }

  lemma ReachesAll(n: nat, transfers: nat, chip: ChipType)
    requires transfers >= Transfers(n, chip) && !(chip == X230 && 0x40 < n < 0x50)
    ensures Min(Reached(transfers, chip), n) == n
  {
  }

  /** Byte `k` of the address space. */
  function CellByte(cells: Cells, k: nat): byte {
    var w := cells[k / 2 % |cells|];
    if k % 2 == 0 then LowByte(w) else HighByte(w)
  }

  /** The buffer after reading. */
  function Contents(cells: Cells): (img: seq<byte>)
    ensures |img| == MAX_SIZE
  {
    seq(MAX_SIZE, k requires 0 <= k < MAX_SIZE => CellByte(cells, k))
  }

  lemma WrittenSnoc(cells: Cells, img: seq<byte>, i: nat, chip: ChipType)
    requires 2 * i + 1 < |img| && !Reserved(chip, i)
    ensures Written(cells, img, i + 1, chip) == Written(cells, img, i, chip)[i % |cells| := Word(img, i)]
  {
  }

  lemma {:induction false} SkipReserved(cells: Cells, img: seq<byte>, n: nat)
    requires 0x40 <= n <= 0x50 && 2 * n <= |img|
    ensures Written(cells, img, n, X230) == Written(cells, img, 0x40, X230)
  {
    if n > 0x40 {
      SkipReserved(cells, img, n - 1);
    }
  }

  lemma TwoMore(cells: Cells, i: nat, img: seq<byte>)
    requires |img| == MAX_SIZE && i < MAX_SIZE / 2 && img[..2 * i] == Contents(cells)[..2 * i]
    requires img[2 * i] == LowByte(cells[i % |cells|]) && img[2 * i + 1] == HighByte(cells[i % |cells|])
    ensures img[..2 * (i + 1)] == Contents(cells)[..2 * (i + 1)]
  {
    assert (2 * i) / 2 == i && (2 * i + 1) / 2 == i;
  }

  class Device {
    var cells: Cells
    /** The number of control transfers that succeed before the device is gone. */
    var alive: nat

    constructor (cells: Cells, alive: nat)
      ensures this.cells == cells && this.alive == alive
    {
      this.cells, this.alive := cells, alive;
    }

    method WriteWord(address: nat, value: word) returns (ok: bool)
      modifies this
      ensures ok == (old(alive) > 0) && alive == (if ok then old(alive) - 1 else 0)
      ensures cells == if ok then old(cells)[address % |old(cells)| := value] else old(cells)
    {
      ok := alive > 0;
      if ok {
        alive := alive - 1;
        cells := cells[address % |cells| := value];
      }
    }

    method ReadWord(address: nat) returns (ok: bool, value: word)
      modifies this`alive
      ensures ok == (old(alive) > 0) && alive == (if ok then old(alive) - 1 else 0)
      ensures ok ==> value == cells[address % |cells|]
    {
      ok, value := alive > 0, 0;
      if ok {
        alive := alive - 1;
        value := cells[address % |cells|];
      }
    }

    method EraseAll() returns (ok: bool)
      modifies this
      ensures ok == (old(alive) > 0) && alive == (if ok then old(alive) - 1 else 0)
      ensures cells == if ok then Blank(|old(cells)|) else old(cells)
    {
      ok := alive > 0;
      if ok {
        alive := alive - 1;
        cells := Blank(|cells|);
      }
    }

    /** A control transfer that leaves the memory alone. */
    method Request() returns (ok: bool)
      modifies this`alive
      ensures ok == (old(alive) > 0) && alive == (if ok then old(alive) - 1 else 0)
    {
      ok := alive > 0;
      if ok {
        alive := alive - 1;
      }
    }

    /** `ftdi_write_eeprom`: nothing is written without an image for this device; then come a reset, a poll of
        the modem status and the latency timer, each with its own error, and then the words. */
    method Write(buf: array<byte>, size: int, chip: ChipType, initialized: bool) returns (code: int)
      requires buf.Length == MAX_SIZE && IsSize(size)
      modifies this
      ensures code ==
        if !initialized then -3
        else if old(alive) < 2 then -1
        else if old(alive) == 2 then -2
        else if old(alive) - 3 < Transfers(WordCount(size), chip) then -1
        else 0
      ensures cells ==
        if !initialized || old(alive) < 3 then old(cells)
        else Written(old(cells), buf[..], Min(Reached(old(alive) - 3, chip), WordCount(size)), chip)
    {
      if !initialized {
        return -3;
      }
      var ok := Request();
      if !ok {
        return -1;
      }
      ok := Request();
      if !ok {
        return -1;
      }
      ok := Request();
      if !ok {
        return -2;
      }
      code := WriteWords(buf, size, chip);
    }

    method WriteOne(buf: array<byte>, i: nat, chip: ChipType, ghost was: Cells) returns (ok: bool)
      requires buf.Length == MAX_SIZE && i < MAX_SIZE / 2 && !Reserved(chip, i)
      requires cells == Written(was, buf[..], i, chip)
      modifies this
      ensures ok == (old(alive) > 0) && alive == (if ok then old(alive) - 1 else 0)
      ensures cells == Written(was, buf[..], if ok then i + 1 else i, chip)
    {
      WrittenSnoc(was, buf[..], i, chip);
      var value := Checksum.LoadWord(buf, i);
      ok := WriteWord(i, value);
    }

    /** The next word, behind the reserved ones if it is one of these. */
    method WriteNext(buf: array<byte>, i: nat, size: int, chip: ChipType, ghost was: Cells, ghost transfers: nat)
        returns (ok: bool, next: nat)
      requires buf.Length == MAX_SIZE && IsSize(size) && i < WordCount(size) && !(chip == X230 && 0x40 < i < 0x50)
      requires alive == transfers - Transfers(i, chip) && cells == Written(was, buf[..], i, chip)
      modifies this
      ensures ok ==> i < next <= WordCount(size) && !(chip == X230 && 0x40 < next < 0x50)
      ensures ok ==> alive == transfers - Transfers(next, chip) && cells == Written(was, buf[..], next, chip)
      ensures !ok ==> transfers < Transfers(WordCount(size), chip)
      ensures !ok ==> cells == Written(was, buf[..], Min(Reached(transfers, chip), WordCount(size)), chip)
    {
      next := i;
      if chip == X230 && i == 0x40 {
        SkipReserved(was, buf[..], 0x50);
        next := 0x50;
      }
      ok := WriteOne(buf, next, chip, was);
      if !ok {
        FailsAt(next, WordCount(size), chip);
        return;
      }
      next := next + 1;
    }

    /** The loop.  If the device goes away, the words before are written. */
    method WriteWords(buf: array<byte>, size: int, chip: ChipType) returns (code: int)
      requires buf.Length == MAX_SIZE && IsSize(size)
      modifies this
      ensures code == if old(alive) >= Transfers(WordCount(size), chip) then 0 else -1
      ensures cells == Written(old(cells), buf[..], Min(Reached(old(alive), chip), WordCount(size)), chip)
    {
      ghost var was, transfers := cells, alive;
      var i := 0;
      while i < WordCount(size)
        invariant 0 <= i <= WordCount(size) && !(chip == X230 && 0x40 < i < 0x50)
        invariant alive == transfers - Transfers(i, chip)
        invariant cells == Written(was, buf[..], i, chip)
      {
        var ok;
        ok, i := WriteNext(buf, i, size, chip, was, transfers);
        if !ok {
          return -1;
        }
      }
      ReachesAll(WordCount(size), transfers, chip);
      code := 0;
    }

    /** `ftdi_read_eeprom`. */
    method ReadEeprom(buf: array<byte>, behind: seq<byte>, chip: ChipType, known: int)
      returns (code: int, size: int)
      requires buf.Length == MAX_SIZE
      modifies this`alive, buf
      ensures code == if old(alive) >= MAX_SIZE / 2 then 0 else -1
      ensures code == 0 ==> buf[..] == Contents(cells) && size == GuessedSize(Contents(cells), behind, chip)
      ensures code != 0 ==> size == known
    {
      size := known;
      code := Read(buf);
      if code == 0 {
        size := GuessedSize(buf[..], behind, chip);
      }
    }

    /** The reading loop. */
    method Read(buf: array<byte>) returns (code: int)
      requires buf.Length == MAX_SIZE
      modifies this`alive, buf
      ensures code == if old(alive) >= MAX_SIZE / 2 then 0 else -1
      ensures code == 0 ==> buf[..] == Contents(cells)
    {
      var i := 0;
      while i < MAX_SIZE / 2
        invariant 0 <= i <= MAX_SIZE / 2 && alive == old(alive) - i
        invariant buf[..2 * i] == Contents(cells)[..2 * i]
      {
        var ok, value := ReadWord(i);
        if !ok {
          return -1;
        }
        buf[i * 2] := LowByte(value);
        buf[i * 2 + 1] := HighByte(value);
        TwoMore(cells, i, buf[..]);
        i := i + 1;
      }
      code := 0;
    }

    /** `ftdi_erase_eeprom`: finds the size of the chip with a magic word, and leaves it blank. */
    method Erase(chip: ChipType, known: int) returns (code: int, found: int)
      modifies this
      ensures chip == R || chip == X230 ==> code == 0 && found == 0 && cells == old(cells)
      ensures chip != R && chip != X230 ==>
        && code == EraseCode(old(alive), ChipOf(old(cells)))
        && found == (if old(alive) < 2 + Probes(ChipOf(old(cells))) then known else ChipOf(old(cells)))
        && cells == (
             var blank := Blank(|old(cells)|);
             if old(alive) == 0 then old(cells)
             else if code == 0 || old(alive) == 1 then blank
             else blank[0xc0 % |blank| := MAGIC])
      ensures chip != R && chip != X230 && code == 0 ==>
        found == if |old(cells)| == 64 then 0x46 else if |old(cells)| == 128 then 0x56 else 0x66
    {
      found := known;
      if chip == R || chip == X230 {
        return 0, 0;
      }
      var ok := EraseAll();
      if !ok {
        return -1, found;
      }
      ok := WriteWord(0xc0, MAGIC);
      if !ok {
        return -3, found;
      }
      var value;
      ok, value := ReadWord(0x00);
      if !ok {
        return -4, found;
      }
      if value == MAGIC {
        found := 0x46;
      } else {
        ok, value := ReadWord(0x40);
        if !ok {
          return -4, found;
        }
        if value == MAGIC {
          found := 0x56;
        } else {
          ok, value := ReadWord(0xc0);
          if !ok {
            return -4, found;
          }
          found := if value == MAGIC then 0x66 else -1;
        }
      }
      ok := EraseAll();
      if !ok {
        return -1, found;
      }
      code := 0;
    }
  }

  // ----- what is read back -----

  lemma NoWrap(a: nat, m: nat)
    requires a < m
    ensures a % m == a
  {
  }

  /** What is not reached is kept. */
  lemma {:induction false} WrittenAbove(cells: Cells, img: seq<byte>, n: nat, chip: ChipType, i: nat)
    requires 2 * n <= |img| && n <= i < |cells|
    ensures Written(cells, img, n, chip)[i] == cells[i]
  {
    if n > 0 {
      NoWrap(n - 1, |cells|);
      WrittenAbove(cells, img, n - 1, chip, i);
    }
  }

  /** If the chip has room for all words, each is where it was written, and the reserved ones are kept. */
  lemma {:induction false} WrittenAt(cells: Cells, img: seq<byte>, n: nat, chip: ChipType, i: nat)
    requires 2 * n <= |img| && i < n <= |cells|
    ensures Written(cells, img, n, chip)[i] == if chip == X230 && 0x40 <= i < 0x50 then cells[i] else Word(img, i)
  {
    NoWrap(n - 1, |cells|);
    if i < n - 1 {
      WrittenAt(cells, img, n - 1, chip, i);
    } else {
      WrittenAbove(cells, img, n - 1, chip, i);
    }
  }

  lemma OneByte(c: Cells, img: seq<byte>, i: nat, k: nat)
    requires i == k / 2 < |c| && k < |img| == MAX_SIZE && c[i] == Word(img, i)
    requires LowByte(Word(img, i)) == img[2 * i] && HighByte(Word(img, i)) == img[2 * i + 1]
    ensures Contents(c)[k] == img[k]
  {
    NoWrap(i, |c|);
    assert Contents(c)[k] == CellByte(c, k);
  }

  lemma WordOfBytes(lo: byte, hi: byte)
    ensures LowByte((lo as bv16) + ((hi as bv16) << 8)) == lo
    ensures HighByte((lo as bv16) + ((hi as bv16) << 8)) == hi
  {
  }

  lemma BytesOfTheWord(img: seq<byte>, i: nat)
    requires 2 * i + 1 < |img|
    ensures LowByte(Word(img, i)) == img[2 * i] && HighByte(Word(img, i)) == img[2 * i + 1]
  {
    WordOfBytes(img[2 * i], img[2 * i + 1]);
  }

  /** Reading back a written image gives its bytes, up to its size. */
  lemma ReadBack(cells: Cells, img: seq<byte>, size: nat, chip: ChipType, k: nat)
    requires |img| == MAX_SIZE && (size == 0x80 || size == 0x100) && size / 2 <= |cells| && k < size
    requires chip != X230
    ensures Contents(Written(cells, img, size / 2, chip))[k] == img[k]
  {
    var c := Written(cells, img, size / 2, chip);
    WrittenAt(cells, img, size / 2, chip, k / 2);
    BytesOfTheWord(img, k / 2);
    OneByte(c, img, k / 2, k);
  }

  // ----- build, write, read, decode -----

  predicate TextBelow(a: seq<byte>, pointer: nat, size: nat)
    requires |a| == MAX_SIZE && pointer < 0x13 && (size == 0x80 || size == 0x100)
  {
    TextOffset(a, pointer, size) + 2 * TextLength(a, pointer) <= size
  }

  predicate TextsBelow(a: seq<byte>, size: nat)
    requires |a| == MAX_SIZE && (size == 0x80 || size == 0x100)
  {
    TextBelow(a, 0x0E, size) && TextBelow(a, 0x10, size) && TextBelow(a, 0x12, size)
  }

  lemma TextAgrees(a: seq<byte>, b: seq<byte>, pointer: nat, size: nat)
    requires |a| == |b| == MAX_SIZE && pointer < 0x13 && (size == 0x80 || size == 0x100)
    requires forall k :: 0 <= k < size ==> a[k] == b[k]
    requires TextBelow(a, pointer, size)
    ensures TextInBuffer(a, pointer, size) && TextInBuffer(b, pointer, size)
    ensures DecodeText(a, pointer, size) == DecodeText(b, pointer, size)
  {
    var i, n := TextOffset(a, pointer, size), TextLength(a, pointer);
    assert i == TextOffset(b, pointer, size) && n == TextLength(b, pointer);
    if n > 0 {
      assert Narrow(a, i, n - 1) == Narrow(b, i, n - 1);
    }
  }

  lemma ChecksumAgrees(a: seq<byte>, b: seq<byte>, size: nat)
    requires |a| == |b| == MAX_SIZE && (size == 0x80 || size == 0x100)
    requires forall k :: 0 <= k < size ==> a[k] == b[k]
    ensures Verifies(a, size) == Verifies(b, size)
  {
    WordsAgree(a, b, size / 2 - 1);
  }

  lemma SpecificAgrees(a: seq<byte>, b: seq<byte>, g: Fields, chip: ChipType)
    requires |a| == |b| == MAX_SIZE && forall k :: 0 <= k < 0x80 ==> a[k] == b[k]
    ensures DecodeSpecific(a, g, chip) == DecodeSpecific(b, g, chip)
  {
  }

  /** Decoding only looks at the bytes below the size, for a built image. */
  lemma DecodeAgrees(a: seq<byte>, b: seq<byte>, g: Fields, chip: ChipType, size: nat)
    requires |a| == |b| == MAX_SIZE && (size == 0x80 || size == 0x100) && chip != X230
    requires forall k :: 0 <= k < size ==> a[k] == b[k]
    requires TextsBelow(a, size)
    ensures TextsInBuffer(a, size) && TextsInBuffer(b, size)
    ensures Decode(b, g, chip, size) == Decode(a, g, chip, size)
  {
    TextAgrees(a, b, 0x0E, size);
    TextAgrees(a, b, 0x10, size);
    TextAgrees(a, b, 0x12, size);
    assert DecodeTexts(b, DecodeHeader(b, g), size) == DecodeTexts(a, DecodeHeader(a, g), size);
    ChecksumAgrees(a, b, size);
    SpecificAgrees(a, b, DecodeTexts(a, DecodeHeader(a, g), size), chip);
  }

  lemma ReadBackDecodes(cells: Cells, a: seq<byte>, g: Fields, chip: ChipType, size: nat)
    requires |a| == MAX_SIZE && (size == 0x80 || size == 0x100) && chip != X230
    requires size / 2 <= |cells| && TextsBelow(a, size)
    ensures var r := Contents(Written(cells, a, size / 2, chip));
      && TextsInBuffer(a, size) && TextsInBuffer(r, size)
      && Decode(r, g, chip, size) == Decode(a, g, chip, size)
  {
    var r := Contents(Written(cells, a, size / 2, chip));
    forall k | 0 <= k < size
      ensures a[k] == r[k]
    {
      ReadBack(cells, a, size, chip, k);
    }
    DecodeAgrees(a, r, g, chip, size);
  }

  lemma StringBelow(r: seq<byte>, pointer: nat, i: nat, text: seq<byte>, size: nat)
    requires |r| == MAX_SIZE && (size == 0x80 || size == 0x100) && 0x0E <= pointer < 0x13
    requires 0x94 <= i && i + 2 * |text| + 2 <= 0x100 && HasString(r, pointer, i, text, size)
    ensures TextBelow(r, pointer, size)
  {
    TextHeader(r, pointer, i, text, size);
  }

  lemma TextsStayBelow(img: seq<byte>, f: Fields, chip: ChipType, size: nat)
    requires |img| == MAX_SIZE && SizeFor(chip, size) && UserAreaLeft(f, chip) >= 0
    ensures TextsBelow(Image(img, f, chip, size), size)
  {
    ImageHasStrings(img, f, chip, size);
    EndOfStrings(f, chip);
    var r := Image(img, f, chip, size);
    StringBelow(r, 0x0E, StringsStart(chip), Text(f.manufacturer), size);
    StringBelow(r, 0x10, ProductStart(f, chip), Text(f.product), size);
    StringBelow(r, 0x12, SerialStart(f, chip), Text(f.serial), size);
  }
}
