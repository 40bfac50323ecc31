/** The USB side as the library sees it, and the library's per-device state. */
module Context {
  import opened Memory

  const LIBUSB_ERROR_TIMEOUT: int := -7
  const LIBUSB_ERROR_OVERFLOW: int := -8

  /** Error codes of libusb: LIBUSB_ERROR_OTHER (-99) to LIBUSB_ERROR_IO (-1). */
  type ErrorCode = c: int | -99 <= c < 0 witness -1

  /** What becomes of one bulk read: the `bytes` that the device sent, and whether libusb reports an error
      after them, as it does for a transfer that times out half-way. */
  datatype BulkResult = Data(bytes: seq<byte>) | Failed(code: ErrorCode, bytes: seq<byte>)

  /** The result of the next bulk read into a buffer of `chunk` bytes.  A device that has nothing more
      to say runs into the time-out; a transfer that does not fit is an overflow error. */
  function Next(incoming: seq<BulkResult>, chunk: nat): (r: BulkResult)
    ensures r.Data? ==> |r.bytes| <= chunk && incoming != []
    ensures r.bytes == if incoming == [] then [] else incoming[0].bytes
  {
    if incoming == [] then Failed(LIBUSB_ERROR_TIMEOUT, [])
    else if incoming[0].Data? && |incoming[0].bytes| > chunk then Failed(LIBUSB_ERROR_OVERFLOW, incoming[0].bytes)
    else incoming[0]
  }

  function After(incoming: seq<BulkResult>): (r: seq<BulkResult>) {
    if incoming == [] then [] else incoming[1..]
  }

  /** The USB device: `incoming` scripts the bulk reads to come, whatever they are. */
  class UsbDevice {
    var incoming: seq<BulkResult>

    constructor (script: seq<BulkResult>)
      ensures incoming == script
    {
      incoming := script;
    }

    /** A failing read leaves in the buffer what fits of it, too. */
    method BulkRead(a: array<byte>) returns (ret: int, actual: nat)
      modifies this, a
      ensures incoming == After(old(incoming))
      ensures var r := Next(old(incoming), a.Length);
        && ret == (if r.Failed? then r.code else 0)
        && actual == Min(|r.bytes|, a.Length) && a[..][..actual] == r.bytes[..actual]
        && (r.Data? ==> a[..][..actual] == r.bytes)
    {
      var r := Next(incoming, a.Length);
      incoming := After(incoming);
      ret := if r.Failed? then r.code else 0;
      actual := Min(|r.bytes|, a.Length);
      forall k | 0 <= k < actual {
        a[k] := r.bytes[k];
      }
    }
  }

  /** `struct ftdi_context`, as far as reading needs it.  The chunk size is the buffer's length. */
  class FtdiContext {
    const usb: UsbDevice
    var usbOpen: bool
    var maxPacketSize: nat
    const readbuffer: array<byte>
    var readbufferOffset: nat
    var readbufferRemaining: nat

    ghost predicate Valid()
      reads this
    {
      readbufferOffset + readbufferRemaining <= readbuffer.Length
    }

    /** The bytes received from the device but not yet handed to the caller. */
    ghost function Leftover(): (left: seq<byte>)
      requires Valid()
      reads this, readbuffer
      ensures |left| == readbufferRemaining
    {
      readbuffer[..][readbufferOffset..readbufferOffset + readbufferRemaining]
    }

    constructor (usb: UsbDevice, maxPacketSize: nat, chunk: nat)
      ensures Valid() && Leftover() == [] && fresh(readbuffer)
      ensures this.usb == usb && usbOpen && this.maxPacketSize == maxPacketSize && readbuffer.Length == chunk
    {
      this.usb, this.usbOpen, this.maxPacketSize := usb, true, maxPacketSize;
      this.readbuffer := new byte[chunk](_ => 0);
      this.readbufferOffset, this.readbufferRemaining := 0, 0;
    }

    method DropWindow()
      modifies this`readbufferOffset, this`readbufferRemaining
      ensures Valid() && Leftover() == [] && readbufferOffset == 0
    {
      readbufferRemaining := 0;
      readbufferOffset := 0;
    }
  }
}
