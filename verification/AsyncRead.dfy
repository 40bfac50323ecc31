/** `ftdi_read_data_submit` and its completion callback: the same reads, driven by libusb. */
module AsyncRead {
  import opened Memory
  import opened Packets
  import opened Context
  import opened SyncRead

  datatype Status = Completed | Error | TimedOut | Cancelled | Stall | NoDevice | Overflow

  const LIBUSB_TRANSFER_CANCELLED := 3

  /** One completion as libusb reports it: the status, the bytes that arrived, and whether the transfer
      can be submitted again. */
  datatype Completion = Completion(status: Status, bytes: seq<byte>, resubmits: bool)

  /** A request in progress: what the caller's buffer holds, the leftover window, the `completed`
      field, whether libusb owns the transfer, and with which status it came back last, if it did. */
  datatype Request = Request(got: seq<byte>, rest: seq<byte>, completed: int, inFlight: bool, last: Option<Status>)
  {
    /** Waiting for libusb: the window is empty and there is room in the caller's buffer. */
    predicate Waiting(size: nat) {
      inFlight && completed == 0 && rest == [] && |got| < size
    }

    /** Over, one way or the other; libusb does not have the transfer any more. */
    predicate Finished(size: nat) {
      !inFlight && completed != 0 && |got| <= size
    }

    /** What the caller is told of a finished request. */
    function Return(): int {
      if last == None || last == Some(Completed) then |got| else -1
    }
  }

  function Submit(left: seq<byte>, size: nat): Request {
    if size <= |left| then Request(left[..size], left[size..], 1, false, None)
    else Request(left, [], 0, true, None)
  }

  /** The reference for one completion. */
  function OnCompletion(q: Request, c: Completion, ps: nat, size: nat): (q': Request)
    requires ps >= 2 && q.Waiting(size)
  {
    var all := q.got + (if |c.bytes| > 2 then Strip(c.bytes, ps) else []);
    if |all| >= size then Request(all[..size], all[size..], 1, false, Some(c.status))
    else if c.status == Cancelled then Request(all, [], LIBUSB_TRANSFER_CANCELLED, false, Some(c.status))
    else Request(all, [], if c.resubmits then 0 else 1, c.resubmits, Some(c.status))
  }

  /** Each callback leaves the request either finished or waiting again, never both or neither. */
  lemma CallbackOutcome(q: Request, c: Completion, ps: nat, size: nat)
    requires ps >= 2 && q.Waiting(size)
    ensures var q' := OnCompletion(q, c, ps, size);
      && q'.Waiting(size) == !q'.Finished(size)
      && q.got <= q'.got && |q'.got| <= size
      && (q'.rest != [] ==> |q'.got| == size)
  {
  }

  /** `struct ftdi_transfer_control`. */
  class TransferControl {
    const ctx: FtdiContext
    const buf: array<byte>
    const size: nat
    var offset: nat
    var completed: int
    var inFlight: bool
    var last: Option<Status>
    /** Whether libusb was asked to cancel the transfer. */
    var cancelRequested: bool

    constructor (ctx: FtdiContext, buf: array<byte>, size: nat)
      ensures this.ctx == ctx && this.buf == buf && this.size == size
      ensures offset == 0 && completed == 0 && !inFlight && last == None && !cancelRequested
    {
      this.ctx, this.buf, this.size := ctx, buf, size;
      this.offset, this.completed, this.inFlight, this.last, this.cancelRequested := 0, 0, false, None, false;
    }

    ghost predicate Valid()
      reads this, ctx
    {
      ctx.Valid() && size <= buf.Length && offset <= size && buf != ctx.readbuffer
    }

    ghost function State(): (q: Request)
      requires Valid()
      reads this, ctx, ctx.readbuffer, buf
    {
      Request(buf[..][..offset], ctx.Leftover(), completed, inFlight, last)
    }
  }

  /** What is left over from earlier reads goes to the caller first. */
  method CopyWindow(ctx: FtdiContext, buf: array<byte>)
    requires ctx.Valid() && ctx.readbufferRemaining <= buf.Length && buf != ctx.readbuffer
    modifies buf
    ensures buf[..] == ctx.Leftover() + old(buf[..])[ctx.readbufferRemaining..]
    ensures buf[..][..ctx.readbufferRemaining] == ctx.Leftover() == old(ctx.Leftover())
  {
    ghost var left := ctx.Leftover();
    if ctx.readbufferRemaining != 0 {
      MemCpy(buf, 0, ctx.readbuffer, ctx.readbufferOffset, ctx.readbufferRemaining);
    }
    assert ctx.Leftover() == left;
  }

  /** `allocates` and `submits` say whether libusb can allocate and take the transfer. */
  method ReadDataSubmit(ctx: FtdiContext, buf: array<byte>, size: nat, allocates: bool, submits: bool)
      returns (tc: TransferControl?)
    requires ctx.Valid() && size <= buf.Length && buf != ctx.readbuffer
    modifies ctx`readbufferOffset, ctx`readbufferRemaining, buf
    ensures ctx.Valid()
    ensures tc != null <==> ctx.usbOpen && (size <= old(ctx.readbufferRemaining) || (allocates && submits))
    ensures tc != null ==>
      && fresh(tc) && tc.ctx == ctx && tc.buf == buf && tc.size == size && tc.Valid()
      && tc.State() == Submit(old(ctx.Leftover()), size)
    ensures tc == null ==> ctx.Leftover() == if ctx.usbOpen && allocates then [] else old(ctx.Leftover())
    ensures tc == null && ctx.Leftover() != old(ctx.Leftover()) <==>
      ctx.usbOpen && 0 < old(ctx.readbufferRemaining) < size && allocates && !submits
  {
    if !ctx.usbOpen {
      return null;
    }
    tc := new TransferControl(ctx, buf, size);
    if size <= ctx.readbufferRemaining {
      ServeFromWindow(ctx, buf, size);
      tc.completed := 1;
      tc.offset := size;
      return;
    }
    CopyWindow(ctx, buf);
    tc.offset := ctx.readbufferRemaining;
    if !allocates {
      return null;
    }
    ctx.DropWindow();
    if !submits {
      return null;
    }
    tc.inFlight := true;
  }

  method DeliverToRequest(tc: TransferControl, ghost got: seq<byte>, ghost payload: seq<byte>,
                          ghost was: seq<byte>, length: nat)
    requires tc.Valid() && |was| == tc.buf.Length && |got| == tc.offset < tc.size && tc.completed == 0
    requires length == |payload| > 0 && tc.buf[..] == got + was[tc.offset..]
    requires tc.ctx.readbufferOffset == 2 && tc.ctx.readbufferRemaining == 0
    requires 2 + length <= tc.ctx.readbuffer.Length
    requires tc.ctx.readbuffer[..][2..2 + length] == payload
    modifies tc`offset, tc`completed, tc.ctx`readbufferOffset, tc.ctx`readbufferRemaining, tc.buf
    ensures tc.Valid() && tc.inFlight == old(tc.inFlight)
    ensures tc.State() == (
      var all := got + payload;
      if |all| >= tc.size then Request(all[..tc.size], all[tc.size..], 1, tc.inFlight, old(tc.last))
      else Request(all, [], 0, tc.inFlight, old(tc.last)))
    ensures tc.completed == 0 ==> tc.ctx.readbufferOffset == 0
    ensures tc.buf[..][tc.offset..] == was[tc.offset..]
  {
    var ctx := tc.ctx;
    if tc.offset + length <= tc.size {
      CopyOut(ctx, tc.buf, got, payload, was, tc.offset, length);
      tc.offset := tc.offset + length;
      ctx.readbufferOffset := 0;
      ctx.readbufferRemaining := 0;
      assert (got + payload)[..tc.offset] == got + payload;
      if tc.offset == tc.size {
        tc.completed := 1;
      }
    } else {
      var partSize := tc.size - tc.offset;
      CopyOut(ctx, tc.buf, got, payload, was, tc.offset, partSize);
      tc.offset := tc.offset + partSize;
      ctx.readbufferOffset := ctx.readbufferOffset + partSize;
      ctx.readbufferRemaining := length - partSize;
      tc.completed := 1;
    }
  }

  /** Where the empty window is while libusb has the transfer: at the start, unless packets have no payload. Then
      no callback puts it back, and it must stay inside the buffer. */
  ghost predicate WindowAtStart(ctx: FtdiContext)
    reads ctx
  {
    if ctx.maxPacketSize == 2 then ctx.readbufferOffset + 2 <= ctx.readbuffer.Length else ctx.readbufferOffset == 0
  }

  /** The callback; libusb has put the `actualLength` bytes of `c` into the internal buffer.  With packets of two
      bytes all moves are of no bytes, so that it does not matter where the window is. */
  method ReadDataCb(tc: TransferControl, c: Completion, actualLength: nat)
    requires tc.Valid() && tc.State().Waiting(tc.size)
    requires tc.ctx.maxPacketSize >= 2 && WindowAtStart(tc.ctx)
    requires actualLength == |c.bytes| <= tc.ctx.readbuffer.Length
    requires tc.ctx.readbuffer[..][..actualLength] == c.bytes
    modifies tc`offset, tc`completed, tc`inFlight, tc`last
    modifies tc.ctx`readbufferOffset, tc.ctx`readbufferRemaining, tc.ctx.readbuffer, tc.buf
    ensures tc.Valid()
    ensures tc.State() == OnCompletion(old(tc.State()), c, tc.ctx.maxPacketSize, tc.size)
    ensures tc.State().inFlight ==>
      tc.ctx.readbufferOffset
      == old(tc.ctx.readbufferOffset) + (if tc.ctx.maxPacketSize == 2 && actualLength > 2 then 2 else 0)
    ensures tc.buf[..][tc.offset..] == old(tc.buf[..])[tc.offset..]
  {
    var ctx := tc.ctx;
    var packetSize := ctx.maxPacketSize;
    ghost var got, was, ps := tc.State().got, tc.buf[..], packetSize;
    tc.inFlight, tc.last := false, Some(c.status);
    ghost var all := got + Strip(c.bytes, ps);
    if actualLength > 2 {
      PayloadNonEmpty(c.bytes, ps);
      ctx.readbufferOffset := ctx.readbufferOffset + 2;
      var length := Compact(ctx.readbuffer, packetSize, actualLength);
      if length > 0 {
        DeliverToRequest(tc, got, Strip(c.bytes, ps), was, length);
        if tc.completed != 0 {
          return;
        }
      }
    } else {
      assert all == got;
    }
    assert tc.State().got == all && tc.State().rest == [];
    if c.status == Cancelled {
      tc.completed := LIBUSB_TRANSFER_CANCELLED;
    } else {
      if c.resubmits {
        tc.inFlight := true;
      } else {
        tc.completed := 1;
      }
    }
  }

  /** Completions arrive until the request is finished. */
  function Run(q: Request, cs: seq<Completion>, ps: nat, size: nat): (q': Request)
    requires ps >= 2 && (q.Waiting(size) || q.Finished(size))
    ensures q'.Waiting(size) || q'.Finished(size)
    decreases |cs|
  {
    if q.Finished(size) || cs == [] then q
    else Run(OnCompletion(q, cs[0], ps, size), cs[1..], ps, size)
  }

  /** The number of completions that the request takes. */
  function Used(q: Request, cs: seq<Completion>, ps: nat, size: nat): (n: nat)
    requires ps >= 2 && (q.Waiting(size) || q.Finished(size))
    ensures n <= |cs|
    decreases |cs|
  {
    if q.Finished(size) || cs == [] then 0 else 1 + Used(OnCompletion(q, cs[0], ps, size), cs[1..], ps, size)
  }

  lemma {:induction false} LastStatus(q: Request, cs: seq<Completion>, ps: nat, size: nat)
    requires ps >= 2 && (q.Waiting(size) || q.Finished(size))
    ensures var n := Used(q, cs, ps, size);
      Run(q, cs, ps, size).last == if n == 0 then q.last else Some(cs[n - 1].status)
    decreases |cs|
  {
    if !q.Finished(size) && cs != [] {
      LastStatus(OnCompletion(q, cs[0], ps, size), cs[1..], ps, size);
    }
  }

  /** The payload of completions, whatever their status. */
  function PayloadOf(cs: seq<Completion>, ps: nat): seq<byte>
    requires ps >= 2
  {
    if cs == [] then [] else Strip(cs[0].bytes, ps) + PayloadOf(cs[1..], ps)
  }

  lemma StepKeepsAll(q: Request, c: Completion, ps: nat, size: nat)
    requires ps >= 2 && q.Waiting(size)
    ensures var q' := OnCompletion(q, c, ps, size); q'.got + q'.rest == q.got + q.rest + Strip(c.bytes, ps)
  {
    var all := q.got + Strip(c.bytes, ps);
    if |all| >= size {
      assert all[..size] + all[size..] == all;
    }
  }

  /** The callbacks put every byte that arrives into the request or the window, whatever the statuses of the
      transfers and whether they can be submitted again: what both have in the end is what they had before,
      and the payload of every completion, once and in order. */
  lemma {:induction false} RunKeepsAll(q: Request, cs: seq<Completion>, ps: nat, size: nat)
    requires ps >= 2 && (q.Waiting(size) || q.Finished(size))
    ensures var q' := Run(q, cs, ps, size);
      q'.got + q'.rest == q.got + q.rest + PayloadOf(cs[..Used(q, cs, ps, size)], ps)
    decreases |cs|
  {
    var n := Used(q, cs, ps, size);
    if n == 0 {
      assert q.got + q.rest + [] == q.got + q.rest;
    } else {
      var q1 := OnCompletion(q, cs[0], ps, size);
      StepKeepsAll(q, cs[0], ps, size);
      RunKeepsAll(q1, cs[1..], ps, size);
      assert cs[..n][1..] == cs[1..][..n - 1];
      ConcatAssoc(q.got + q.rest, Strip(cs[0].bytes, ps), PayloadOf(cs[1..][..n - 1], ps));
    }
  }

  /** A completion after which libusb takes the transfer again, if it has to. */
  predicate CanGoOn(c: Completion) {
    c.status != Cancelled && c.resubmits
  }

  /** When a request is not over yet, exactly: nothing was cancelled, every transfer could be submitted again, and
      what arrived is not enough.  A cancelled transfer ends it even if it could be submitted. */
  lemma {:induction false} WaitsIff(q: Request, cs: seq<Completion>, ps: nat, size: nat)
    requires ps >= 2 && q.Waiting(size)
    ensures Run(q, cs, ps, size).Waiting(size) <==>
      |q.got| + |PayloadOf(cs, ps)| < size && forall i :: 0 <= i < |cs| ==> CanGoOn(cs[i])
    decreases |cs|
  {
    if cs != [] {
      var q1 := OnCompletion(q, cs[0], ps, size);
      if q1.Waiting(size) {
        assert |q1.got| == |q.got| + |Strip(cs[0].bytes, ps)|;
        WaitsIff(q1, cs[1..], ps, size);
        assert forall i :: 0 < i < |cs| ==> cs[i] == cs[1..][i - 1];
      }
    }
  }

  /** How a request ends: with `LIBUSB_TRANSFER_CANCELLED` if its last transfer was cancelled before there was
      enough, and with 1 otherwise. */
  lemma {:induction false} EndsWith(q: Request, cs: seq<Completion>, ps: nat, size: nat)
    requires ps >= 2 && q.Waiting(size)
    ensures var end := Run(q, cs, ps, size);
      end.Finished(size) ==>
        end.completed == if |end.got| < size && end.last == Some(Cancelled) then LIBUSB_TRANSFER_CANCELLED else 1
    decreases |cs|
  {
    if cs != [] && OnCompletion(q, cs[0], ps, size).Waiting(size) {
      EndsWith(OnCompletion(q, cs[0], ps, size), cs[1..], ps, size);
    }
  }

  /** The same transfers as bulk reads; the ones without payload, which end a synchronous read early
      but not an asynchronous one, are left out. */
  function AsBulkReads(cs: seq<Completion>): (ts: seq<BulkResult>) {
    if cs == [] then []
    else (if |cs[0].bytes| > 2 then [Data(cs[0].bytes)] else []) + AsBulkReads(cs[1..])
  }

  /** Normal traffic: every transfer completes, fits the buffer and can be submitted again. */
  predicate Undisturbed(cs: seq<Completion>, chunk: nat) {
    forall i :: 0 <= i < |cs| ==> cs[i].status == Completed && cs[i].resubmits && |cs[i].bytes| <= chunk
  }

  lemma {:induction false} GatherEqualsRun(q0: Request, cs: seq<Completion>, chunk: nat, ps: nat, size: nat)
    requires ps >= 3 && Undisturbed(cs, chunk) && q0.Waiting(size)
    ensures var q := Run(q0, cs, ps, size);
      var r := Gather(AsBulkReads(cs), chunk, ps, size, q0.got);
      && (q.Finished(size) ==> r.Got? && q.got == r.bytes && q.rest == r.rest && |q.got| == size)
      && (q.Waiting(size) ==> r == Lost(q.got, [], LIBUSB_ERROR_TIMEOUT, []))
    decreases |cs|
  {
    if cs != [] {
      var b := cs[0].bytes;
      var q1 := OnCompletion(q0, cs[0], ps, size);
      var ts := AsBulkReads(cs[1..]);
      assert Undisturbed(cs[1..], chunk);
      if |b| > 2 {
        PayloadNonEmpty(b, ps);
        assert AsBulkReads(cs)[0] == Data(b) && AsBulkReads(cs)[1..] == ts;
      } else {
        assert q1.got == q0.got by { assert q0.got + [] == q0.got; }
        assert AsBulkReads(cs) == ts;
      }
      if q1.Waiting(size) {
        GatherEqualsRun(q1, cs[1..], chunk, ps, size);
      }
    }
  }

  /** Asynchronous reading is synchronous reading: on the same leftover and the same transfers the
      request finishes exactly when `ftdi_read_data` succeeds, with the same bytes, the same count and
      the same leftover; and while it waits, it holds exactly the bytes gathered so far. */
  lemma {:induction false} AsyncEqualsSync(left: seq<byte>, cs: seq<Completion>, chunk: nat, ps: nat, size: nat)
    requires ps >= 3 && Undisturbed(cs, chunk)
    ensures var q := Run(Submit(left, size), cs, ps, size);
      var r := Read(left, AsBulkReads(cs), chunk, ps, size);
      && (q.Finished(size) <==> r.Got?)
      && (q.Finished(size) ==> q.got == r.bytes && q.rest == r.rest && q.Return() == r.Return() == size)
      && (q.Waiting(size) ==> q.got == r.bytes && r == Lost(q.got, [], LIBUSB_ERROR_TIMEOUT, []))
  {
    LastStatus(Submit(left, size), cs, ps, size);
    if size > |left| {
      GatherEqualsRun(Request(left, [], 0, true, None), cs, chunk, ps, size);
    }
  }
}
