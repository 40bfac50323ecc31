/** The EEPROM image of a chip: where `ftdi_eeprom_build` puts what. */
module Eeprom {
  import opened Memory
  import opened Baud
  import opened Checksum

  const MAX_SIZE := 256
  const MAX_POWER_UNIT := 2

  const CHANNEL_IS_UART := 0
  const CHANNEL_IS_FIFO := 1
  const CHANNEL_IS_OPTO := 2
  const CHANNEL_IS_CPU := 4
  const CHANNEL_IS_FT1284 := 8

  /** The ten pins of `cbus_function`. */
  type Pins = p: seq<int> | |p| == 10 witness [0, 0, 0, 0, 0, 0, 0, 0, 0, 0]

  /** Drive strength and signal shape of a group of pins. */
  datatype Group = Group(drive: int, schmitt: bool, slew: bool)

  /** `struct ftdi_eeprom`, without the buffer and the user data; what C tests for truth is a bool. */
  datatype Fields = Fields(
    vendorId: int, productId: int, releaseNumber: int,
    selfPowered: bool, remoteWakeup: bool, isNotPnp: int, maxPower: int,
    inIsochronous: bool, outIsochronous: bool, suspendPullDowns: bool, useSerial: bool,
    usbVersion: int, useUsbVersion: bool,
    manufacturer: Option<seq<byte>>, product: Option<seq<byte>>, serial: Option<seq<byte>>,
    channelAType: int, channelBType: int,
    channelADriver: bool, channelBDriver: bool, channelCDriver: bool, channelDDriver: bool,
    channelARs485: bool, channelBRs485: bool, channelCRs485: bool, channelDRs485: bool,
    suspendDbus7: bool, highCurrent: bool, highCurrentA: bool, highCurrentB: bool,
    invert: int, externalOscillator: bool, cbusFunction: Pins,
    group0: Group, group1: Group, group2: Group, group3: Group,
    powersave: bool, clockPolarity: bool, dataOrder: bool, flowControl: bool,
    chip: int)

  // ----- bytes -----

  /** Conversion to `unsigned char`. */
  function Byte(n: int): byte {
    (n % 256) as bv8
  }

  /** Division of C: towards zero. */
  function Half(n: int): int {
    if n >= 0 then n / 2 else -((-n) / 2)
  }

  /** `b |= mask` or `b &= ~mask`. */
  function With(b: byte, mask: byte, on: bool): byte {
    if on then b | mask else b & !mask
  }

  function Flag(mask: byte, on: bool): byte {
    if on then mask else 0
  }

  /** `type2bit`. */
  function Type2Bit(channelType: int, chip: ChipType): byte {
    var t := Byte(channelType);
    match chip
    case H2232 => if t == 1 || t == 2 || t == 4 then t else 0
    case C2232 => if t == 1 || t == 2 || t == 4 then t else 0
    case H232 => if t == 1 || t == 2 || t == 4 || t == 8 then t else 0
    case R => if t == 1 then t else 0
    case _ => 0
  }

  /** `bit2type`; what no chip writes becomes 0. */
  function Bit2Type(bits: byte): int {
    if bits == 1 || bits == 2 || bits == 4 || bits == 8 then bits as int else 0
  }

  /** A nibble of pin properties. */
  function GroupBits(g: Group): byte {
    (if g.drive > 3 then 3 else Byte(g.drive)) | Flag(8, g.schmitt) | Flag(4, g.slew)
  }

  // ----- sizes and places -----

  /** `strlen`, in an `unsigned char`. */
  function Size(s: Option<seq<byte>>): (n: nat)
    ensures n < 256
  {
    if s.None? then 0 else |s.value| % 256
  }

  /** The part of a string that the size counts. */
  function Text(s: Option<seq<byte>>): (t: seq<byte>)
    ensures |t| == Size(s)
  {
    if s.None? then [] else s.value[..Size(s)]
  }

  /** The room for strings. */
  function UserAreaSize(chip: ChipType): nat {
    match chip
    case AM => 96
    case BM => 96
    case R => 96
    case C2232 => 90
    case X230 => 88
    case H2232 => 86
    case H4232 => 86
    case H232 => 80
  }

  /** What is left of it; negative if the strings do not fit. */
  function UserAreaLeft(f: Fields, chip: ChipType): int {
    UserAreaSize(chip) - (Size(f.manufacturer) + Size(f.product) + Size(f.serial)) * 2
  }

  /** Where the strings start, as an address with the top bit set. */
  function StringsStart(chip: ChipType): (i: nat)
    ensures 0x94 <= i <= 0xa0
  {
    match chip
    case AM => 0x94
    case BM => 0x94
    case C2232 => 0x96
    case R => 0x98
    case H2232 => 0x9a
    case H4232 => 0x9a
    case H232 => 0xa0
    case X230 => 0xa0
  }

  /** The first address that the fixed part does not use. */
  function FreeStart(chip: ChipType): nat {
    match chip
    case AM => 0x14
    case BM => 0x14
    case C2232 => 0x15
    case R => 0x17
    case H2232 => 0x19
    case H4232 => 0x19
    case H232 => 0x1f
    case X230 => 0x21
  }

  /** Chips after the BM have a port name and plug-and-play bytes behind the strings. */
  predicate HasPnp(chip: ChipType) {
    chip != AM && chip != BM
  }

  // ----- the image, layer by layer -----

  function Wide(text: seq<byte>): (w: seq<byte>)
    ensures |w| == 2 * |text|
  {
    if text == [] then [] else [text[0], 0] + Wide(text[1..])
  }

  /** A string descriptor: its length, its type, and the characters with a zero byte after each. */
  function Descriptor(text: seq<byte>): (d: seq<byte>)
    ensures |d| == 2 * |text| + 2
  {
    [Byte(2 * |text| + 2), 3] + Wide(text)
  }

  /** Writing bytes from address `i` on; addresses are bytes, and wrap around in the image. */
  function WriteAt(img: seq<byte>, i: nat, data: seq<byte>, size: nat): (r: seq<byte>)
    requires |img| == MAX_SIZE && (size == 0x80 || size == 0x100)
    ensures |r| == |img|
    decreases |data|
  {
    if data == [] then img else WriteAt(img[i % 256 % size := data[0]], i + 1, data[1..], size)
  }

  /** The empty image; the FT230X keeps a section in the middle. */
  function Cleared(img: seq<byte>, chip: ChipType): (r: seq<byte>)
    requires |img| == MAX_SIZE
    ensures |r| == |img|
  {
    seq(MAX_SIZE, k requires 0 <= k < MAX_SIZE => if chip == X230 && 0x80 <= k < 0xa0 then img[k] else 0)
  }

  /** Bytes to store, with their addresses, in the order in which the code stores them. */
  type Stores = seq<(nat, byte)>

  predicate InImage(ws: Stores) {
    forall i :: 0 <= i < |ws| ==> ws[i].0 < MAX_SIZE
  }

  function Patch(img: seq<byte>, ws: Stores): (r: seq<byte>)
    requires |img| == MAX_SIZE && InImage(ws)
    ensures |r| == |img|
    decreases |ws|
  {
    if ws == [] then img
    else
      var n := |ws| - 1;
      Patch(img, ws[..n])[ws[n].0 := ws[n].1]
  }

  /** The fields that all chips have. */
  function HeaderStores(f: Fields, chip: ChipType): (ws: Stores)
    ensures InImage(ws)
  {
    [(0x02, Byte(f.vendorId)), (0x03, Byte(f.vendorId / 256)),
     (0x04, Byte(f.productId)), (0x05, Byte(f.productId / 256)),
     (0x06, Byte(f.releaseNumber)), (0x07, Byte(f.releaseNumber / 256)),
     (0x08, 0x80 | Flag(0x40, f.selfPowered) | Flag(0x20, f.remoteWakeup)),
     (0x09, Byte(Half(f.maxPower)))]
    + if chip != AM && chip != X230 then [(0x0A, Flag(1, f.inIsochronous) | Flag(2, f.outIsochronous))] else []
  }

  /** The plug-and-play bytes behind the strings. */
  function Pnp(f: Fields, chip: ChipType): seq<byte> {
    if HasPnp(chip) then [2, 3, Byte(f.isNotPnp)] else []
  }

  /** One string: its address in the header, the descriptor and what follows it, and its length. */
  function WriteString(img: seq<byte>, pointer: nat, i: nat, text: seq<byte>, tail: seq<byte>, size: nat)
    : (r: seq<byte>)
    requires |img| == MAX_SIZE && (size == 0x80 || size == 0x100) && pointer < 0x13
    ensures |r| == |img|
  {
    WriteAt(img[pointer := Byte(i) | 0x80], i, Descriptor(text) + tail, size)[pointer + 1 := Byte(2 * |text| + 2)]
  }

  /** The addresses of the second and of the third string. */
  function ProductStart(f: Fields, chip: ChipType): nat {
    StringsStart(chip) + 2 * Size(f.manufacturer) + 2
  }

  function SerialStart(f: Fields, chip: ChipType): nat {
    ProductStart(f, chip) + 2 * Size(f.product) + 2
  }

  function TwoStrings(img: seq<byte>, f: Fields, chip: ChipType, size: nat): (r: seq<byte>)
    requires |img| == MAX_SIZE && (size == 0x80 || size == 0x100)
    ensures |r| == |img|
  {
    var m := WriteString(img, 0x0E, StringsStart(chip), Text(f.manufacturer), [], size);
    WriteString(m, 0x10, ProductStart(f, chip), Text(f.product), [], size)
  }

  /** The three strings, one behind the other, and the bytes behind them. */
  function Strings(img: seq<byte>, f: Fields, chip: ChipType, size: nat): (r: seq<byte>)
    requires |img| == MAX_SIZE && (size == 0x80 || size == 0x100)
    ensures |r| == |img|
  {
    WriteString(TwoStrings(img, f, chip, size), 0x12, SerialStart(f, chip), Text(f.serial), Pnp(f, chip), size)
  }

  /** The flag for the serial number, which the AM does not have. */
  function SerialFlag(img: seq<byte>, f: Fields, chip: ChipType): (r: seq<byte>)
    requires |img| == MAX_SIZE
    ensures |r| == |img|
  {
    if chip == AM then img else img[0x0A := With(img[0x0A], 0x08, f.useSerial)]
  }

  /** A pin function that the chip has, or the default. */
  function Pin(f: Fields, i: nat, limit: int, default: int): int
    requires i < 10
  {
    if f.cbusFunction[i] > limit then default else f.cbusFunction[i]
  }

  function PinPair(low: int, high: int): byte {
    (Byte(high) << 4) | Byte(low)
  }

  /** The bytes of the header that say where the strings are. */
  predicate IsPointer(k: nat) {
    0x0E <= k <= 0x13
  }

  /** All stores are to the fixed part of the chip, and none to the bytes that all chips share and to the
      pointers of the strings. */
  predicate InFixedPart(ws: Stores, chip: ChipType) {
    forall i :: 0 <= i < |ws| ==> ws[i].0 < FreeStart(chip) && !IsPointer(ws[i].0) && !(2 <= ws[i].0 <= 9)
  }

  /** No address twice. */
  predicate Distinct(ws: Stores) {
    forall i, j :: 0 <= i < j < |ws| ==> ws[i].0 != ws[j].0
  }

  /** The stores of one chip stay in its fixed part, each at its own address. */
  predicate WellPlaced(ws: Stores, chip: ChipType) {
    InImage(ws) && InFixedPart(ws, chip) && Distinct(ws)
  }

  function StoresBM(img: seq<byte>, f: Fields): (ws: Stores)
    requires |img| == MAX_SIZE
    ensures WellPlaced(ws, BM)
  {
    [(0x0C, Byte(f.usbVersion)), (0x0D, Byte(f.usbVersion / 256)), (0x0A, With(img[0x0A], 0x10, f.useUsbVersion))]
  }

  function Stores2232C(img: seq<byte>, f: Fields): (ws: Stores)
    requires |img| == MAX_SIZE
    ensures WellPlaced(ws, C2232)
  {
    [(0x00, Type2Bit(f.channelAType, C2232) | Flag(0x08, f.channelADriver) | Flag(0x10, f.highCurrentA)),
     (0x01, Type2Bit(f.channelBType, C2232) | Flag(0x08, f.channelBDriver) | Flag(0x10, f.highCurrentB)),
     (0x0A, With(With(With(With(img[0x0A], 1, f.inIsochronous), 2, f.outIsochronous),
                      4, f.suspendPullDowns), 0x10, f.useUsbVersion)),
     (0x0C, Byte(f.usbVersion)), (0x0D, Byte(f.usbVersion / 256)), (0x14, Byte(f.chip))]
  }

  function StoresR(img: seq<byte>, f: Fields): (ws: Stores)
    requires |img| == MAX_SIZE
    ensures WellPlaced(ws, R)
  {
    [(0x00, With(Type2Bit(f.channelAType, R) | Flag(4, f.highCurrent), 8, !f.channelADriver)
            | Flag(2, f.externalOscillator)),
     (0x01, 0x40),
     (0x0A, With(img[0x0A], 4, f.suspendPullDowns)),
     (0x0B, Byte(f.invert)), (0x0C, Byte(f.usbVersion)), (0x0D, Byte(f.usbVersion / 256)),
     (0x14, PinPair(Pin(f, 0, 12, 3), Pin(f, 1, 12, 2))),
     (0x15, PinPair(Pin(f, 2, 12, 0), Pin(f, 3, 12, 1))),
     (0x16, Byte(Pin(f, 4, 9, 5)))]
  }

  function Stores2232H(img: seq<byte>, f: Fields): (ws: Stores)
    requires |img| == MAX_SIZE
    ensures WellPlaced(ws, H2232)
  {
    [(0x00, Type2Bit(f.channelAType, H2232) | Flag(8, f.channelADriver)),
     (0x01, Type2Bit(f.channelBType, H2232) | Flag(8, f.channelBDriver) | Flag(0x80, f.suspendDbus7)),
     (0x0A, With(img[0x0A], 4, f.suspendPullDowns)),
     (0x0C, img[0x0C] | GroupBits(f.group0) | (GroupBits(f.group1) << 4)),
     (0x0D, img[0x0D] | GroupBits(f.group2) | (GroupBits(f.group3) << 4)),
     (0x18, Byte(f.chip))]
  }

  function Stores4232H(img: seq<byte>, f: Fields): (ws: Stores)
    requires |img| == MAX_SIZE
    ensures WellPlaced(ws, H4232)
  {
    [(0x00, With(With(img[0x00], 8, f.channelADriver), 0x80, f.channelCDriver)),
     (0x01, With(With(img[0x01], 8, f.channelBDriver), 0x80, f.channelDDriver)),
     (0x0A, With(img[0x0A], 4, f.suspendPullDowns)),
     (0x0B, With(With(With(With(img[0x0B], 0x10, f.channelARs485), 0x20, f.channelBRs485),
                      0x40, f.channelCRs485), 0x80, f.channelDRs485)),
     (0x0C, img[0x0C] | GroupBits(f.group0) | (GroupBits(f.group1) << 4)),
     (0x0D, img[0x0D] | GroupBits(f.group2) | (GroupBits(f.group3) << 4)),
     (0x18, Byte(f.chip))]
  }

  /** Pins `k` and `k + 1` of an FT232H. */
  function PinByte232H(f: Fields, k: nat): byte
    requires k < 9
  {
    PinPair(Pin(f, k, 12, 0), Pin(f, k + 1, 12, 0))
  }

  function Stores232H(img: seq<byte>, f: Fields): (ws: Stores)
    requires |img| == MAX_SIZE
    ensures WellPlaced(ws, H232)
  {
    [(0x00, Type2Bit(f.channelAType, H232) | Flag(0x10, f.channelADriver)),
     (0x01, With(With(With(With(img[0x01], 0x80, f.powersave), 1, f.clockPolarity), 2, f.dataOrder),
                 4, f.flowControl)),
     (0x0A, With(img[0x0A], 4, f.suspendPullDowns)),
     (0x0C, img[0x0C] | GroupBits(f.group0)), (0x0D, img[0x0D] | GroupBits(f.group1)),
     (0x18, PinByte232H(f, 0)), (0x19, PinByte232H(f, 2)), (0x1A, PinByte232H(f, 4)), (0x1B, PinByte232H(f, 6)),
     (0x1C, PinByte232H(f, 8)), (0x1E, Byte(f.chip))]
  }

  function Stores230X(img: seq<byte>, f: Fields): (ws: Stores)
    requires |img| == MAX_SIZE
    ensures WellPlaced(ws, X230)
  {
    [(0x00, 0x80), (0x0C, 0),
     (0x1A, Byte(f.cbusFunction[0])), (0x1B, Byte(f.cbusFunction[1])), (0x1C, Byte(f.cbusFunction[2])),
     (0x1D, Byte(f.cbusFunction[3])), (0x1E, Byte(f.cbusFunction[4])), (0x1F, Byte(f.cbusFunction[5])),
     (0x20, Byte(f.cbusFunction[6])), (0x0B, Byte(f.invert))]
  }

  /** The fields that only some chips have. */
  function SpecificStores(img: seq<byte>, f: Fields, chip: ChipType): (ws: Stores)
    requires |img| == MAX_SIZE
    ensures WellPlaced(ws, chip)
  {
    match chip
    case AM => []
    case BM => StoresBM(img, f)
    case C2232 => Stores2232C(img, f)
    case R => StoresR(img, f)
    case H2232 => Stores2232H(img, f)
    case H4232 => Stores4232H(img, f)
    case H232 => Stores232H(img, f)
    case X230 => Stores230X(img, f)
  }

  function Specific(img: seq<byte>, f: Fields, chip: ChipType): (r: seq<byte>)
    requires |img| == MAX_SIZE
    ensures |r| == |img|
  {
    Patch(img, SpecificStores(img, f, chip))
  }

  function ChecksumStores(c: word, size: nat): (ws: Stores)
    requires size == 0x80 || size == 0x100
    ensures InImage(ws)
  {
    [(size - 2, LowByte(c)), (size - 1, HighByte(c))]
  }

  /** The checksum goes into the last word. */
  function Sealed(img: seq<byte>, size: nat): (r: seq<byte>)
    requires |img| == MAX_SIZE && (size == 0x80 || size == 0x100)
    ensures |r| == |img|
  {
    Patch(img, ChecksumStores(Fold(SEED, Words(img, size / 2 - 1)), size))
  }

  /** Everything but the checksum. */
  function Unsealed(img: seq<byte>, f: Fields, chip: ChipType, size: nat): (r: seq<byte>)
    requires |img| == MAX_SIZE && (size == 0x80 || size == 0x100)
    ensures |r| == |img|
  {
    Specific(SerialFlag(Strings(Patch(Cleared(img, chip), HeaderStores(f, chip)), f, chip, size), f, chip), f, chip)
  }

  /** The image that `ftdi_eeprom_build` leaves, whatever was in the buffer. */
  function Image(img: seq<byte>, f: Fields, chip: ChipType, size: nat): (r: seq<byte>)
    requires |img| == MAX_SIZE && (size == 0x80 || size == 0x100)
    ensures |r| == |img|
  {
    Sealed(Unsealed(img, f, chip, size), size)
  }

  // ----- storing bytes -----

  predicate Stored(ws: Stores, q: nat) {
    exists i :: 0 <= i < |ws| && ws[i].0 == q
  }

  /** Bytes that are not stored keep their value. */
  lemma {:induction false} PatchFrame(img: seq<byte>, ws: Stores, q: nat)
    requires |img| == MAX_SIZE && InImage(ws) && q < MAX_SIZE && !Stored(ws, q)
    ensures Patch(img, ws)[q] == img[q]
    decreases |ws|
  {
    if ws != [] {
      var n := |ws| - 1;
      assert ws[n].0 != q;
      forall i | 0 <= i < n
        ensures ws[..n][i].0 != q
      {
        assert ws[i].0 != q;
      }
      PatchFrame(img, ws[..n], q);
    }
  }

  /** Store number `i` is the last one to its address. */
  lemma {:induction false} PatchStores(img: seq<byte>, ws: Stores, i: nat)
    requires |img| == MAX_SIZE && InImage(ws) && i < |ws|
    requires forall j :: i < j < |ws| ==> ws[j].0 != ws[i].0
    ensures Patch(img, ws)[ws[i].0] == ws[i].1
    decreases |ws|
  {
    var n := |ws| - 1;
    if i < n {
      PatchStores(img, ws[..n], i);
    }
  }

  /** Bytes that are stored, or were equal before, are equal. */
  lemma {:induction false} PatchAgrees(a: seq<byte>, b: seq<byte>, ws: Stores, q: nat)
    requires |a| == |b| == MAX_SIZE && InImage(ws) && q < MAX_SIZE && (Stored(ws, q) || a[q] == b[q])
    ensures Patch(a, ws)[q] == Patch(b, ws)[q]
    decreases |ws|
  {
    if ws != [] {
      var n := |ws| - 1;
      if ws[n].0 != q {
        if Stored(ws, q) {
          var i :| 0 <= i < |ws| && ws[i].0 == q;
          assert ws[..n][i].0 == q;
        }
        PatchAgrees(a, b, ws[..n], q);
      }
    }
  }
}
