/** `ftdi_eeprom_build` and `ftdi_eeprom_decode` on the buffer of the context. */
module EepromBuffer {
  import opened Memory
  import opened Baud
  import Checksum
  import opened Eeprom
  import opened EepromLayout
  import opened EepromDecode
  import EepromDevice

  lemma {:induction false} WriteAtSnoc(img: seq<byte>, i: nat, data: seq<byte>, b: byte, size: nat)
    requires |img| == MAX_SIZE && (size == 0x80 || size == 0x100)
    ensures WriteAt(img, i, data + [b], size) == WriteAt(img, i, data, size)[(i + |data|) % 256 % size := b]
  {
    WriteAtSplits(img, i, data, [b], size);
    var v := WriteAt(img, i, data, size);
    assert [b][1..] == [];
    assert WriteAt(v, i + |data|, [b], size) == WriteAt(v[(i + |data|) % 256 % size := b], i + |data| + 1, [], size);
  }

  lemma {:induction false} WideSnoc(text: seq<byte>, c: byte)
    ensures Wide(text + [c]) == Wide(text) + [c] + [0]
  {
    if text == [] {
      assert text + [c] == [c] && [c][1..] == [];
    } else {
      assert (text + [c])[1..] == text[1..] + [c];
      WideSnoc(text[1..], c);
    }
  }

  lemma PatchSnoc(img: seq<byte>, ws: Stores, k: nat)
    requires |img| == MAX_SIZE && InImage(ws) && k < |ws|
    ensures Patch(img, ws[..k + 1]) == Patch(img, ws[..k])[ws[k].0 := ws[k].1]
  {
    assert ws[..k + 1][..k] == ws[..k];
  }

  /** The addresses of the strings do not wrap around. */
  lemma Addresses(f: Fields, chip: ChipType)
    requires UserAreaLeft(f, chip) >= 0
    ensures (StringsStart(chip) + 2 * Size(f.manufacturer) + 2) % 256 == ProductStart(f, chip)
    ensures (ProductStart(f, chip) + 2 * Size(f.product) + 2) % 256 == SerialStart(f, chip)
  {
    EndOfStrings(f, chip);
  }

  lemma LengthCompletes(img: seq<byte>, pointer: nat, i: nat, s: Option<seq<byte>>, size: nat)
    requires |img| == MAX_SIZE && (size == 0x80 || size == 0x100) && pointer < 0x13
    ensures WriteAt(img[pointer := Byte(i) | 0x80], i, Descriptor(Text(s)), size)[pointer + 1 := Byte(Size(s) * 2 + 2)]
         == WriteString(img, pointer, i, Text(s), [], size)
  {
    assert Descriptor(Text(s)) + [] == Descriptor(Text(s));
  }

  lemma ThreeStrings(img: seq<byte>, m: seq<byte>, p: seq<byte>, r: seq<byte>, f: Fields, chip: ChipType, size: nat)
    requires |img| == |m| == |p| == MAX_SIZE && (size == 0x80 || size == 0x100)
    requires m == WriteString(img, 0x0E, StringsStart(chip), Text(f.manufacturer), [], size)
    requires p == WriteString(m, 0x10, ProductStart(f, chip), Text(f.product), [], size)
    requires r == WriteString(p, 0x12, SerialStart(f, chip), Text(f.serial), Pnp(f, chip), size)
    ensures r == Strings(img, f, chip, size)
  {
    assert p == TwoStrings(img, f, chip, size);
  }

  lemma Layers(img: seq<byte>, base: seq<byte>, strings: seq<byte>, v: seq<byte>, u: seq<byte>, r: seq<byte>,
               f: Fields, chip: ChipType, size: nat)
    requires |img| == |base| == |strings| == |v| == |u| == MAX_SIZE && (size == 0x80 || size == 0x100)
    requires base == Patch(Cleared(img, chip), HeaderStores(f, chip)) && strings == Strings(base, f, chip, size)
    requires v == SerialFlag(strings, f, chip) && u == Patch(v, SpecificStores(v, f, chip)) && r == Sealed(u, size)
    ensures r == Image(img, f, chip, size)
  {
    assert u == Specific(v, f, chip);
    assert u == Unsealed(img, f, chip, size);
  }

  lemma NextAddress(a: nat)
    ensures (a % 256 + 1) % 256 == (a + 1) % 256
  {
  }

  /** The first `k` characters of a descriptor. */
  ghost function Head(text: seq<byte>, k: nat): (d: seq<byte>)
    requires k <= |text| && |text| < 256
    ensures |d| == 2 * k + 2
  {
    [Byte(2 * |text| + 2), 3] + Wide(text[..k])
  }

  lemma HeadStarts(text: seq<byte>)
    requires |text| < 256
    ensures Head(text, 0) == [Byte(2 * |text| + 2), 3]
  {
  }

  lemma HeadEnds(text: seq<byte>)
    requires |text| < 256
    ensures Head(text, |text|) == Descriptor(text)
  {
    assert text[..|text|] == text;
  }

  lemma NextCharacter(text: seq<byte>, k: nat)
    requires k < |text| < 256
    ensures Head(text, k) + [text[k]] + [0] == Head(text, k + 1)
  {
    assert text[..k + 1] == text[..k] + [text[k]];
    WideSnoc(text[..k], text[k]);
  }

  /** `struct ftdi_eeprom` with its buffer, and the type of the connected chip. */
  class FtdiEeprom {
    var fields: Fields
    var size: int
    var initialized: bool
    const buf: array<byte>
    const chip: ChipType

    constructor (chip: ChipType, fields: Fields)
      ensures this.chip == chip && this.fields == fields && size == -1 && !initialized
      ensures fresh(buf) && buf.Length == MAX_SIZE
    {
      this.chip, this.fields, size, initialized := chip, fields, -1, false;
      buf := new byte[MAX_SIZE](_ => 0);
    }

    predicate HasSize() reads this {
      size == 0x80 || size == 0x100
    }

    /** The `memset`s. */
    method Clear()
      requires buf.Length == MAX_SIZE
      modifies buf
      ensures buf[..] == Cleared(old(buf[..]), chip)
    {
      forall k | 0 <= k < MAX_SIZE && !(chip == X230 && 0x80 <= k < 0xa0) {
        buf[k] := 0;
      }
    }

    /** Straight-line stores. */
    method Store(ws: Stores)
      requires buf.Length == MAX_SIZE && InImage(ws)
      modifies buf
      ensures buf[..] == Patch(old(buf[..]), ws)
    {
      var k := 0;
      while k < |ws|
        invariant 0 <= k <= |ws|
        invariant buf[..] == Patch(old(buf[..]), ws[..k])
      {
        PatchSnoc(old(buf[..]), ws, k);
        Poke(ws[k].0, ws[k].1);
        k := k + 1;
      }
      assert ws[..k] == ws;
    }

    method Poke(q: nat, b: byte)
      requires buf.Length == MAX_SIZE && q < MAX_SIZE
      modifies buf
      ensures buf[..] == old(buf[..])[q := b]
    {
      buf[q] := b;
    }

    /** `output[i & mask] = b, i++` with an `unsigned char`.  The ghost arguments are the image before the
        current string, the address of the string, and what was written of it. */
    method Put(i: nat, b: byte, ghost img: seq<byte>, ghost start: nat, ghost data: seq<byte>) returns (j: nat)
      requires buf.Length == MAX_SIZE && HasSize() && |img| == MAX_SIZE
      requires i == (start + |data|) % 256 && buf[..] == WriteAt(img, start, data, size)
      modifies buf
      ensures j == (start + |data| + 1) % 256 && buf[..] == WriteAt(img, start, data + [b], size)
    {
      WriteAtSnoc(img, start, data, b, size);
      NextAddress(start + |data|);
      Poke(i % size, b);
      j := (i + 1) % 256;
    }

    /** The pointer and the descriptor of a string. */
    method PutText(pointer: nat, i: nat, s: Option<seq<byte>>) returns (j: nat)
      requires buf.Length == MAX_SIZE && HasSize() && pointer < 0x13 && i < 256
      modifies buf
      ensures buf[..] == WriteAt(old(buf[..])[pointer := Byte(i) | 0x80], i, Descriptor(Text(s)), size)
      ensures j == (i + 2 * Size(s) + 2) % 256
    {
      Poke(pointer, Byte(i) | 0x80);
      ghost var img := buf[..];
      j := PutHead(i, Size(s), img);
      HeadStarts(Text(s));
      j := PutCharacters(j, s, Size(s), img, i);
    }

    /** Length and type. */
    method PutHead(i: nat, n: nat, ghost img: seq<byte>) returns (j: nat)
      requires buf.Length == MAX_SIZE && HasSize() && i < 256 && img == buf[..]
      modifies buf
      ensures buf[..] == WriteAt(img, i, [Byte(2 * n + 2), 3], size) && j == (i + 2) % 256
    {
      j := Put(i, Byte(n * 2 + 2), img, i, []);
      j := Put(j, 3, img, i, [] + [Byte(n * 2 + 2)]);
      assert [] + [Byte(n * 2 + 2)] + [3] == [Byte(2 * n + 2), 3];
    }

    method PutCharacter(i: nat, c: byte, ghost img: seq<byte>, ghost start: nat, ghost data: seq<byte>)
        returns (j: nat)
      requires buf.Length == MAX_SIZE && HasSize() && |img| == MAX_SIZE
      requires i == (start + |data|) % 256 && buf[..] == WriteAt(img, start, data, size)
      modifies buf
      ensures buf[..] == WriteAt(img, start, data + [c] + [0], size) && j == (start + |data| + 2) % 256
    {
      j := Put(i, c, img, start, data);
      j := Put(j, 0, img, start, data + [c]);
    }

    /** The characters, with a zero byte after each. */
    method PutCharacters(i: nat, s: Option<seq<byte>>, n: nat, ghost img: seq<byte>, ghost start: nat) returns (j: nat)
      requires buf.Length == MAX_SIZE && HasSize() && |img| == MAX_SIZE && n == Size(s)
      requires i == (start + 2) % 256 && buf[..] == WriteAt(img, start, Head(Text(s), 0), size)
      modifies buf
      ensures buf[..] == WriteAt(img, start, Descriptor(Text(s)), size)
      ensures j == (start + 2 * n + 2) % 256
    {
      ghost var text := Text(s);
      ghost var data := Head(text, 0);
      j := i;
      var k := 0;
      while k < n
        invariant 0 <= k <= n && data == Head(text, k)
        invariant j == (start + |data|) % 256 && buf[..] == WriteAt(img, start, data, size)
      {
        NextCharacter(text, k);
        j := PutCharacter(j, s.value[k], img, start, data);
        data := data + [s.value[k]] + [0];
        k := k + 1;
      }
      HeadEnds(text);
    }

    method PutString(pointer: nat, i: nat, s: Option<seq<byte>>) returns (j: nat)
      requires buf.Length == MAX_SIZE && HasSize() && pointer < 0x13 && i < 256
      modifies buf
      ensures buf[..] == WriteString(old(buf[..]), pointer, i, Text(s), [], size)
      ensures j == (i + 2 * Size(s) + 2) % 256
    {
      ghost var img := buf[..];
      j := PutText(pointer, i, s);
      LengthCompletes(img, pointer, i, s, size);
      Poke(pointer + 1, Byte(Size(s) * 2 + 2));
    }

    /** The plug-and-play bytes behind what was written of a string. */
    method PutPnp(i: nat, ghost img: seq<byte>, ghost start: nat, ghost data: seq<byte>)
      requires buf.Length == MAX_SIZE && HasSize() && |img| == MAX_SIZE
      requires i == (start + |data|) % 256 && buf[..] == WriteAt(img, start, data, size)
      modifies buf
      ensures buf[..] == WriteAt(img, start, data + Pnp(fields, chip), size)
    {
      if HasPnp(chip) {
        var j := Put(i, 2, img, start, data);
        j := Put(j, 3, img, start, data + [2]);
        j := Put(j, Byte(fields.isNotPnp), img, start, data + [2] + [3]);
        assert data + [2] + [3] + [Byte(fields.isNotPnp)] == data + Pnp(fields, chip);
      } else {
        assert data + [] == data;
      }
    }

    method PutSerial(i: nat)
      requires buf.Length == MAX_SIZE && HasSize() && i < 256
      modifies buf
      ensures buf[..] == WriteString(old(buf[..]), 0x12, i, Text(fields.serial), Pnp(fields, chip), size)
    {
      ghost var img := buf[..][0x12 := Byte(i) | 0x80];
      var j := PutText(0x12, i, fields.serial);
      PutPnp(j, img, i, Descriptor(Text(fields.serial)));
      Poke(0x13, Byte(Size(fields.serial) * 2 + 2));
    }

    /** The three strings, and the bytes behind them. */
    method PutStrings()
      requires buf.Length == MAX_SIZE && HasSize() && SizeFor(chip, size) && UserAreaLeft(fields, chip) >= 0
      modifies buf
      ensures buf[..] == Strings(old(buf[..]), fields, chip, size)
    {
      ghost var img := buf[..];
      var i := StringsStart(chip);
      Addresses(fields, chip);
      i := PutString(0x0E, i, fields.manufacturer);
      ghost var m := buf[..];
      assert i == ProductStart(fields, chip);
      i := PutString(0x10, i, fields.product);
      ghost var p := buf[..];
      assert i == SerialStart(fields, chip);
      PutSerial(i);
      ThreeStrings(img, m, p, buf[..], fields, chip, size);
    }

    method PutSerialFlag()
      requires buf.Length == MAX_SIZE
      modifies buf
      ensures buf[..] == SerialFlag(old(buf[..]), fields, chip)
    {
      if chip != AM {
        Poke(0x0A, With(buf[0x0A], 0x08, fields.useSerial));
      }
    }

    /** The checksum goes into the last word. */
    method Seal()
      requires buf.Length == MAX_SIZE && HasSize()
      modifies buf
      ensures buf[..] == Sealed(old(buf[..]), size)
    {
      var checksum := Checksum.Compute(buf, size);
      Store(ChecksumStores(checksum, size));
    }

    /** A size that is not known is set by the kind of the memory chip. */
    method ChooseSize()
      modifies this`size
      ensures size ==
        if old(size) != -1 then old(size) else if fields.chip == 0x56 || fields.chip == 0x66 then 0x100 else 0x80
    {
      if size == -1 {
        if fields.chip == 0x56 || fields.chip == 0x66 {
          size := 0x100;
        } else {
          size := 0x80;
        }
      }
    }

    /** `ftdi_eeprom_build`, for the chips other than the FT230X and without user data. */
    method Build() returns (code: int)
      requires buf.Length == MAX_SIZE && chip != X230 && (size == -1 || HasSize())
      modifies this, buf
      ensures fields == old(fields)
      ensures fields.chip == -1 ==> code == -6 && size == old(size)
      ensures fields.chip != -1 && old(size) == -1 ==>
        size == if fields.chip == 0x56 || fields.chip == 0x66 then 0x100 else 0x80
      ensures fields.chip != -1 && old(size) == -1 ==>
        forall cells: EepromDevice.Cells :: EepromDevice.ChipOf(cells) == fields.chip ==> size / 2 <= |cells|
      ensures fields.chip != -1 && old(size) != -1 ==> size == old(size)
      ensures fields.chip != -1 && UserAreaLeft(fields, chip) < 0 ==> code == -1
      ensures code < 0 ==> buf[..] == old(buf[..]) && initialized == old(initialized)
      ensures fields.chip != -1 && UserAreaLeft(fields, chip) >= 0 ==>
                code == UserAreaLeft(fields, chip) && initialized && HasSize()
                && buf[..] == Image(old(buf[..]), fields, chip, size)
    {
      if fields.chip == -1 {
        return -6;
      }
      ChooseSize();
      code := UserAreaLeft(fields, chip);
      if code < 0 {
        return -1;
      }
      Fill();
      initialized := true;
    }

    /** Everything after the size check. */
    method Fill()
      requires buf.Length == MAX_SIZE && HasSize() && SizeFor(chip, size) && UserAreaLeft(fields, chip) >= 0
      modifies buf
      ensures buf[..] == Image(old(buf[..]), fields, chip, size)
    {
      ghost var img := buf[..];
      Clear();
      Store(HeaderStores(fields, chip));
      ghost var base := buf[..];
      PutStrings();
      ghost var strings := buf[..];
      PutSerialFlag();
      ghost var v := buf[..];
      Store(SpecificStores(buf[..], fields, chip));
      ghost var u := buf[..];
      Seal();
      Layers(img, base, strings, v, u, buf[..], fields, chip, size);
    }

    /** The characters of a string, one by one. */
    method GetText(pointer: nat) returns (t: Option<seq<byte>>)
      requires buf.Length == MAX_SIZE && HasSize() && pointer < 0x13 && TextInBuffer(buf[..], pointer, size)
      ensures t == DecodeText(buf[..], pointer, size)
    {
      var n := buf[pointer + 1] as int / 2;
      if n == 0 {
        return None;
      }
      var i := buf[pointer] as int % size;
      var s: seq<byte> := [];
      var j := 0;
      while j < n - 1
        invariant 0 <= j <= n - 1 && s == Narrow(buf[..], i, j)
      {
        s := s + [buf[2 * j + i + 2]];
        j := j + 1;
      }
      t := Some(s);
    }

    /** `ftdi_eeprom_decode`. */
    method DecodeImage() returns (code: int)
      requires buf.Length == MAX_SIZE && chip != X230 && HasSize() && TextsInBuffer(buf[..], size)
      modifies this`fields
      ensures (code, fields) == Decode(buf[..], old(fields), chip, size)
      ensures code == if Checksum.Verifies(buf[..], size) then 0 else -1
    {
      var f := DecodeHeader(buf[..], fields);
      var m := GetText(0x0E);
      var p := GetText(0x10);
      var s := GetText(0x12);
      fields := f.(manufacturer := m, product := p, serial := s);
      var checksum := Checksum.Compute(buf, size);
      var stored := Checksum.LoadWord(buf, size / 2 - 1);
      if stored != checksum {
        return -1;
      }
      fields := DecodeSpecific(buf[..], fields, chip);
      code := 0;
    }
  }
}
