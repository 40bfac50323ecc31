/** Reading an EEPROM image back: `ftdi_eeprom_decode`. */
module EepromDecode {
  import opened Memory
  import opened Baud
  import opened Checksum
  import opened Eeprom

  /** The number of characters, with the terminating zero, that the header gives for a string. */
  function TextLength(img: seq<byte>, pointer: nat): nat
    requires |img| == MAX_SIZE && pointer < 0x13
  {
    (img[pointer + 1] as int) / 2
  }

  function TextOffset(img: seq<byte>, pointer: nat, size: nat): (i: nat)
    requires |img| == MAX_SIZE && pointer < 0x13 && (size == 0x80 || size == 0x100)
    ensures i < size
  {
    (img[pointer] as int) % size
  }

  /** The string is inside the buffer; the code does not check that. */
  predicate TextInBuffer(img: seq<byte>, pointer: nat, size: nat)
    requires |img| == MAX_SIZE && pointer < 0x13 && (size == 0x80 || size == 0x100)
  {
    TextOffset(img, pointer, size) + 2 * TextLength(img, pointer) <= MAX_SIZE + 1
  }

  /** Exactly then the loop that copies the characters stays in the buffer. */
  lemma LoopStaysInBuffer(img: seq<byte>, pointer: nat, size: nat)
    requires |img| == MAX_SIZE && pointer < 0x13 && (size == 0x80 || size == 0x100)
    ensures TextInBuffer(img, pointer, size) <==>
      forall j: nat :: j < TextLength(img, pointer) - 1 ==> 2 * j + TextOffset(img, pointer, size) + 2 < MAX_SIZE
  {
    var n := TextLength(img, pointer);
    if n > 1 && !TextInBuffer(img, pointer, size) {
      var last: nat := n - 2;
      assert last < n - 1 && 2 * last + TextOffset(img, pointer, size) + 2 >= MAX_SIZE;
    }
  }

  predicate TextsInBuffer(img: seq<byte>, size: nat)
    requires |img| == MAX_SIZE && (size == 0x80 || size == 0x100)
  {
    TextInBuffer(img, 0x0E, size) && TextInBuffer(img, 0x10, size) && TextInBuffer(img, 0x12, size)
  }

  /** Every second byte behind the two bytes of the descriptor header. */
  function Narrow(img: seq<byte>, i: nat, n: nat): (t: seq<byte>)
    requires i + 2 * n + 1 <= |img|
    ensures |t| == n
  {
    seq(n, j requires 0 <= j < n => img[2 * j + i + 2])
  }

  function DecodeText(img: seq<byte>, pointer: nat, size: nat): Option<seq<byte>>
    requires |img| == MAX_SIZE && pointer < 0x13 && (size == 0x80 || size == 0x100)
    requires TextInBuffer(img, pointer, size)
  {
    var n := TextLength(img, pointer);
    if n == 0 then None else Some(Narrow(img, TextOffset(img, pointer, size), n - 1))
  }

  /** Two bytes, low byte first. */
  function Int16(img: seq<byte>, k: nat): int
    requires k + 1 < |img|
  {
    (img[k] as int) + (img[k + 1] as int) * 256
  }

  predicate Has(b: byte, mask: byte) {
    b & mask != 0
  }

  /** The fields that all chips have. */
  function DecodeHeader(img: seq<byte>, f: Fields): Fields
    requires |img| == MAX_SIZE
  {
    f.(vendorId := Int16(img, 0x02), productId := Int16(img, 0x04), releaseNumber := Int16(img, 0x06),
       selfPowered := Has(img[0x08], 0x40), remoteWakeup := Has(img[0x08], 0x20),
       maxPower := MAX_POWER_UNIT * (img[0x09] as int),
       inIsochronous := Has(img[0x0A], 1), outIsochronous := Has(img[0x0A], 2),
       suspendPullDowns := Has(img[0x0A], 4), useSerial := Has(img[0x0A], 8), useUsbVersion := Has(img[0x0A], 0x10),
       usbVersion := Int16(img, 0x0C))
  }

  function DecodeTexts(img: seq<byte>, f: Fields, size: nat): Fields
    requires |img| == MAX_SIZE && (size == 0x80 || size == 0x100) && TextsInBuffer(img, size)
  {
    f.(manufacturer := DecodeText(img, 0x0E, size), product := DecodeText(img, 0x10, size),
       serial := DecodeText(img, 0x12, size))
  }

  function DecodeGroup(b: byte): Group {
    Group((b & 3) as int, Has(b, 8), Has(b, 4))
  }

  function LowNibble(b: byte): int {
    (b & 0x0f) as int
  }

  function HighNibble(b: byte): int {
    (b >> 4) as int
  }

  function Decode2232C(f: Fields, b00: byte, b01: byte, b14: byte): Fields {
    f.(channelAType := Bit2Type(b00 & 7), channelADriver := Has(b00, 8), highCurrentA := Has(b00, 0x10),
       channelBType := (b01 & 7) as int, channelBDriver := Has(b01, 8), highCurrentB := Has(b01, 0x10),
       chip := b14 as int)
  }

  function DecodeR(f: Fields, b00: byte, b0B: byte, b14: byte, b15: byte, b16: byte): Fields {
    f.(channelADriver := !Has(b00, 8), highCurrent := Has(b00, 4), externalOscillator := Has(b00, 2),
       chip := b16 as int, invert := b0B as int,
       cbusFunction := [LowNibble(b14), HighNibble(b14), LowNibble(b15), HighNibble(b15), LowNibble(b16)]
                       + f.cbusFunction[5..])
  }

  function Decode2232H(f: Fields, b00: byte, b01: byte, b0C: byte, b0D: byte, b18: byte): Fields {
    f.(channelADriver := Has(b00, 8), channelBDriver := Has(b01, 8),
       channelAType := Bit2Type(b00 & 7), channelBType := Bit2Type(b01 & 7),
       suspendDbus7 := Has(b01, 0x80), chip := b18 as int,
       group0 := DecodeGroup(b0C), group1 := DecodeGroup(b0C >> 4),
       group2 := DecodeGroup(b0D), group3 := DecodeGroup(b0D >> 4))
  }

  function Decode4232H(f: Fields, b00: byte, b01: byte, b0B: byte, b0C: byte, b0D: byte, b18: byte): Fields {
    f.(channelADriver := Has(b00, 8), channelBDriver := Has(b01, 8),
       channelCDriver := Has(b00 >> 4, 8), channelDDriver := Has(b01 >> 4, 8),
       channelARs485 := Has(b0B, 0x10), channelBRs485 := Has(b0B, 0x20),
       channelCRs485 := Has(b0B, 0x40), channelDRs485 := Has(b0B, 0x80), chip := b18 as int,
       group0 := DecodeGroup(b0C), group1 := DecodeGroup(b0C >> 4),
       group2 := DecodeGroup(b0D), group3 := DecodeGroup(b0D >> 4))
  }

  function Decode232H(f: Fields, b00: byte, b01: byte, b0C: byte, b0D: byte,
                      b18: byte, b19: byte, b1A: byte, b1B: byte, b1C: byte, b1E: byte): Fields {
    f.(channelAType := LowNibble(b00), channelADriver := Has(b00, 0x10),
       clockPolarity := Has(b01, 1), dataOrder := Has(b01, 2), flowControl := Has(b01, 4), powersave := Has(b01, 0x80),
       group0 := DecodeGroup(b0C), group1 := DecodeGroup(b0D),
       cbusFunction := [LowNibble(b18), HighNibble(b18), LowNibble(b19), HighNibble(b19),
                        LowNibble(b1A), HighNibble(b1A), LowNibble(b1B), HighNibble(b1B),
                        LowNibble(b1C), HighNibble(b1C)],
       chip := b1E as int)
  }

  function Decode230X(f: Fields, b0B: byte, b0C: byte, b1A: byte, b1B: byte, b1C: byte, b1D: byte): Fields {
    f.(cbusFunction := [b1A as int, b1B as int, b1C as int, b1D as int] + f.cbusFunction[4..],
       group0 := DecodeGroup(b0C), group1 := DecodeGroup(b0C >> 4), invert := b0B as int)
  }

  /** The fields that only some chips have. */
  function DecodeSpecific(img: seq<byte>, f0: Fields, chip: ChipType): Fields
    requires |img| == MAX_SIZE
  {
    var f := f0.(channelAType := 0);
    match chip
    case AM => f.(chip := -1)
    case BM => f.(chip := -1)
    case C2232 => Decode2232C(f, img[0x00], img[0x01], img[0x14])
    case R => DecodeR(f, img[0x00], img[0x0B], img[0x14], img[0x15], img[0x16])
    case H2232 => Decode2232H(f, img[0x00], img[0x01], img[0x0C], img[0x0D], img[0x18])
    case H4232 => Decode4232H(f, img[0x00], img[0x01], img[0x0B], img[0x0C], img[0x0D], img[0x18])
    case H232 =>
      Decode232H(f, img[0x00], img[0x01], img[0x0C], img[0x0D],
                 img[0x18], img[0x19], img[0x1A], img[0x1B], img[0x1C], img[0x1E])
    case X230 => Decode230X(f, img[0x0B], img[0x0C], img[0x1A], img[0x1B], img[0x1C], img[0x1D])
  }

  /** What `ftdi_eeprom_decode` returns, and the fields it leaves: if the checksum is wrong, the fields that
      all chips have and the strings are changed already.  The FT230X has another checksum. */
  function Decode(img: seq<byte>, f: Fields, chip: ChipType, size: nat): (int, Fields)
    requires |img| == MAX_SIZE && (size == 0x80 || size == 0x100) && TextsInBuffer(img, size) && chip != X230
  {
    var g := DecodeTexts(img, DecodeHeader(img, f), size);
    if Verifies(img, size) then (0, DecodeSpecific(img, g, chip)) else (-1, g)
  }
}
