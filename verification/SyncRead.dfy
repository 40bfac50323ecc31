/** `ftdi_read_data`: buffered reads that serve any request size from transfers of any size. */
module SyncRead {
  import opened Memory
  import opened Packets
  import opened Context

  const NEVER_REACHED: int := -127

  /** What one read call does: `Got` is a successful return of `bytes`; `Lost` is an error return, of which
      the caller gets the code only: `bytes` had been gathered for it already, and `dropped` is the payload
      of the failing transfer.  `rest` is the leftover window and `incoming` what the device still has
      to say. */
  datatype ReadResult =
    | Got(bytes: seq<byte>, rest: seq<byte>, incoming: seq<BulkResult>)
    | Lost(bytes: seq<byte>, dropped: seq<byte>, code: int, incoming: seq<BulkResult>)
  {
    function Return(): int {
      if Got? then |bytes| else code
    }

    /** What the caller can use. */
    function Returned(): seq<byte> {
      if Got? then bytes else []
    }

    /** What nobody will ever get. */
    function Gone(): seq<byte> {
      if Got? then [] else bytes + dropped
    }

    function Left(): seq<byte> {
      if Got? then rest else []
    }
  }

  /** The reference: keep reading transfers until the request is met, a transfer carries nothing but
      status, or the device fails. */
  function Gather(incoming: seq<BulkResult>, chunk: nat, ps: nat, size: nat, got: seq<byte>): (r: ReadResult)
    requires ps >= 2 && |got| < size
    ensures |r.bytes| <= size
    decreases |incoming|
  {
    match Next(incoming, chunk)
    case Failed(code, b) => Lost(got, Strip(b, ps), code, After(incoming))
    case Data(b) =>
      if |b| <= 2 then Got(got, [], After(incoming))
      else
        var all := got + Strip(b, ps);
        if all == got then Lost(got, [], NEVER_REACHED, After(incoming))
        else if |all| < size then Gather(After(incoming), chunk, ps, size, all)
        else Got(all[..size], all[size..], After(incoming))
  }

  /** One call of `ftdi_read_data` on leftover window `left`. */
  function Read(left: seq<byte>, incoming: seq<BulkResult>, chunk: nat, ps: nat, size: nat): (r: ReadResult)
    requires ps >= 2
    ensures |r.bytes| <= size
  {
    if size <= |left| then Got(left[..size], left[size..], incoming)
    else Gather(incoming, chunk, ps, size, left)
  }

  /** Everything asked for is in the leftover window. */
  method ServeFromWindow(ctx: FtdiContext, buf: array<byte>, size: nat)
    requires ctx.Valid() && size <= buf.Length && buf != ctx.readbuffer && size <= ctx.readbufferRemaining
    modifies ctx`readbufferOffset, ctx`readbufferRemaining, buf
    ensures ctx.Valid()
    ensures buf[..] == old(ctx.Leftover())[..size] + old(buf[..])[size..]
    ensures ctx.Leftover() == old(ctx.Leftover())[size..]
  {
    ghost var left := ctx.Leftover();
    assert left[..size] == ctx.readbuffer[..][ctx.readbufferOffset..ctx.readbufferOffset + size];
    MemCpy(buf, 0, ctx.readbuffer, ctx.readbufferOffset, size);
    ctx.readbufferRemaining := ctx.readbufferRemaining - size;
    ctx.readbufferOffset := ctx.readbufferOffset + size;
    assert ctx.Leftover() == left[size..];
  }

  /** One bulk read into the internal buffer, with the status bytes squeezed out of it. */
  method Receive(ctx: FtdiContext, packetSize: nat)
      returns (ret: int, received: nat, actualLength: nat, ghost payload: seq<byte>)
    requires packetSize >= 2
    modifies ctx`readbufferOffset, ctx`readbufferRemaining, ctx.usb, ctx.readbuffer
    ensures ctx.readbufferRemaining == 0 && ctx.usb.incoming == After(old(ctx.usb.incoming))
    ensures ctx.Valid()
    ensures match Next(old(ctx.usb.incoming), ctx.readbuffer.Length)
      case Failed(code, _) => ret == code
      case Data(b) =>
        && ret == 0 && received == |b|
        && payload == Strip(b, packetSize)
        && (received > 2 ==>
              && actualLength == |payload|
              && ctx.readbufferOffset == 2 && 2 + actualLength <= ctx.readbuffer.Length
              && ctx.readbuffer[..][2..2 + actualLength] == payload)
  {
    ctx.readbufferRemaining := 0;
    ctx.readbufferOffset := 0;
    ret, received := ctx.usb.BulkRead(ctx.readbuffer);
    actualLength, payload := received, [];
    if ret >= 0 && received > 2 {
      payload := Strip(ctx.readbuffer[..][..received], packetSize);
      ctx.readbufferOffset := ctx.readbufferOffset + 2;
      actualLength := Compact(ctx.readbuffer, packetSize, received);
    }
  }

  method CopyOut(ctx: FtdiContext, buf: array<byte>, ghost got: seq<byte>, ghost payload: seq<byte>,
                 ghost was: seq<byte>, offset: nat, n: nat)
    requires buf != ctx.readbuffer && |was| == buf.Length && |got| == offset
    requires offset + n <= buf.Length && n <= |payload| && buf[..] == got + was[offset..]
    requires ctx.readbufferOffset + |payload| <= ctx.readbuffer.Length
    requires ctx.readbuffer[..][ctx.readbufferOffset..ctx.readbufferOffset + |payload|] == payload
    modifies buf
    ensures buf[..] == (got + payload)[..offset + n] + was[offset + n..]
    ensures ctx.readbuffer[..][ctx.readbufferOffset + n..ctx.readbufferOffset + |payload|]
         == (got + payload)[offset + n..]
  {
    ghost var o := ctx.readbufferOffset;
    assert ctx.readbuffer[..][o + n..o + |payload|] == ctx.readbuffer[..][o..o + |payload|][n..];
    assert ctx.readbuffer[..][o..o + n] == ctx.readbuffer[..][o..o + |payload|][..n];
    MemCpy(buf, offset, ctx.readbuffer, ctx.readbufferOffset, n);
    assert (got + was[offset..])[..offset] + payload[..n] == (got + payload)[..offset + n];
    assert (got + was[offset..])[offset + n..] == was[offset + n..];
  }

  /** Hands a fresh payload to the caller, behind the `offset` bytes it has already; what the caller
      did not ask for stays in the leftover window. */
  method Deliver(ctx: FtdiContext, buf: array<byte>, ghost got: seq<byte>, ghost payload: seq<byte>,
                 ghost was: seq<byte>, offset: nat, size: nat, actualLength: nat) returns (offset': nat)
    requires buf != ctx.readbuffer && |was| == buf.Length && |got| == offset < size <= buf.Length
    requires actualLength == |payload| && buf[..] == got + was[offset..] && ctx.readbufferRemaining == 0
    requires ctx.readbufferOffset + actualLength <= ctx.readbuffer.Length
    requires ctx.readbuffer[..][ctx.readbufferOffset..ctx.readbufferOffset + actualLength] == payload
    modifies buf, ctx`readbufferOffset, ctx`readbufferRemaining
    ensures ctx.Valid() && offset' == Min(size, offset + actualLength)
    ensures buf[..] == (got + payload)[..offset'] + was[offset'..]
    ensures ctx.Leftover() == (got + payload)[offset'..]
    ensures offset' == |got + payload| ==> (got + payload)[..offset'] == got + payload
  {
    if offset + actualLength <= size {
      CopyOut(ctx, buf, got, payload, was, offset, actualLength);
      offset' := offset + actualLength;
    } else {
      var partSize := size - offset;
      CopyOut(ctx, buf, got, payload, was, offset, partSize);
      ctx.readbufferOffset := ctx.readbufferOffset + partSize;
      ctx.readbufferRemaining := actualLength - partSize;
      offset' := offset + partSize;
    }
  }

  /** The loop over transfers: `offset` bytes are in the caller's buffer already. */
  method ReadLoop(ctx: FtdiContext, buf: array<byte>, size: nat, packetSize: nat, start: nat) returns (ret: int)
    requires ctx.Valid() && start < size <= buf.Length && buf != ctx.readbuffer && packetSize >= 2
    modifies ctx`readbufferOffset, ctx`readbufferRemaining, ctx.usb, ctx.readbuffer, buf
    ensures ctx.Valid()
    ensures var r := Gather(old(ctx.usb.incoming), ctx.readbuffer.Length, packetSize, size, old(buf[..])[..start]);
      && |r.bytes| >= start
      && ret == r.Return()
      && buf[..] == r.bytes + old(buf[..])[|r.bytes|..]
      && ctx.Leftover() == r.Left()
      && ctx.usb.incoming == r.incoming
  {
    var offset, actualLength: nat := start, 1;
    ghost var was := buf[..];
    ghost var r := Gather(ctx.usb.incoming, ctx.readbuffer.Length, packetSize, size, was[..start]);
    ghost var got := was[..start];
    while offset < size && actualLength > 0
      invariant ctx.Valid() && start <= offset == |got| < size
      invariant buf[..] == got + was[offset..]
      invariant r == if actualLength > 0
        then Gather(ctx.usb.incoming, ctx.readbuffer.Length, packetSize, size, got)
        else Lost(got, [], NEVER_REACHED, ctx.usb.incoming)
      invariant actualLength == 0 ==> ctx.readbufferRemaining == 0
      decreases size - offset, actualLength
    {
      var received;
      ghost var payload;
      ret, received, actualLength, payload := Receive(ctx, packetSize);
      if ret < 0 {
        return;
      }
      if received <= 2 {
        return offset;
      }
      if actualLength > 0 {
        ghost var all := got + payload;
        assert r == if |all| < size
          then Gather(ctx.usb.incoming, ctx.readbuffer.Length, packetSize, size, all)
          else Got(all[..size], all[size..], ctx.usb.incoming);
        offset := Deliver(ctx, buf, got, payload, was, offset, size, actualLength);
        if offset == size {
          return offset;
        }
        got := all;
      }
    }
    return NEVER_REACHED;
  }

  method ReadData(ctx: FtdiContext, buf: array<byte>, size: nat) returns (ret: int)
    requires ctx.Valid() && size <= buf.Length && buf != ctx.readbuffer
    requires ctx.maxPacketSize != 1
    modifies ctx`readbufferOffset, ctx`readbufferRemaining, ctx.usb, ctx.readbuffer, buf
    ensures ctx.Valid()
    ensures !ctx.usbOpen || ctx.maxPacketSize == 0 ==>
      && ret == (if !ctx.usbOpen then -666 else -1)
      && buf[..] == old(buf[..]) && ctx.Leftover() == old(ctx.Leftover())
      && ctx.usb.incoming == old(ctx.usb.incoming)
    ensures ctx.usbOpen && ctx.maxPacketSize != 0 ==>
      var r := Read(old(ctx.Leftover()), old(ctx.usb.incoming), ctx.readbuffer.Length, ctx.maxPacketSize, size);
      && ret == r.Return()
      && buf[..] == r.bytes + old(buf[..])[|r.bytes|..]
      && ctx.Leftover() == r.Left()
      && ctx.usb.incoming == r.incoming
  {
    if !ctx.usbOpen {
      return -666;
    }
    var packetSize := ctx.maxPacketSize;
    if packetSize == 0 {
      return -1;
    }
    ghost var left := ctx.Leftover();
    if size <= ctx.readbufferRemaining {
      ServeFromWindow(ctx, buf, size);
      return size;
    }
    var offset := 0;
    ghost var was := buf[..];
    if ctx.readbufferRemaining != 0 {
      MemCpy(buf, 0, ctx.readbuffer, ctx.readbufferOffset, ctx.readbufferRemaining);
      offset := offset + ctx.readbufferRemaining;
    }
    assert buf[..] == left + was[|left|..];
    ret := ReadLoop(ctx, buf, size, packetSize, offset);
    assert forall n :: |left| <= n <= |was| ==> (left + was[|left|..])[n..] == was[n..];
  }
}
