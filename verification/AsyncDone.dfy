/** `ftdi_transfer_data_done`: waiting for an asynchronous read, and what its caller is told. */
module AsyncDone {
  import opened Memory
  import opened Packets
  import opened Context
  import opened AsyncRead

  const LIBUSB_ERROR_INTERRUPTED: int := -10

  /** What one call of libusb's event handling does: some transfers come back, or it fails. */
  datatype Handling = Handles(completions: seq<Completion>) | HandlingFails(code: ErrorCode)

  /** The wait goes on after all that is known of the event handling, or the function returns and frees the
      request. */
  datatype Awaited = Pending(q: Request) | Returned(code: int, q: Request)
  {
    /** What the caller can use of its buffer. */
    function Bytes(): seq<byte> {
      if Returned? && code >= 0 then q.got else []
    }

    /** What arrived, and nobody is told of. */
    function Gone(): seq<byte> {
      if Returned? && code < 0 then q.got else []
    }
  }

  /** After an error of the event handling: the transfer is cancelled, and its end awaited, up to a second
      error. */
  function AwaitCancelled(q: Request, code: ErrorCode, hs: seq<Handling>, ps: nat, size: nat): Awaited
    requires ps >= 2 && (q.Waiting(size) || q.Finished(size))
    decreases |hs|
  {
    if q.Finished(size) then Returned(code, q)
    else if hs == [] then Pending(q)
    else
      match hs[0]
      case Handles(cs) => AwaitCancelled(Run(q, cs, ps, size), code, hs[1..], ps, size)
      case HandlingFails(_) => Returned(code, q)
  }

  /** The reference for the whole function. */
  function Await(q: Request, hs: seq<Handling>, ps: nat, size: nat): Awaited
    requires ps >= 2 && (q.Waiting(size) || q.Finished(size))
    decreases |hs|
  {
    if q.Finished(size) then Returned(q.Return(), q)
    else if hs == [] then Pending(q)
    else
      match hs[0]
      case Handles(cs) => Await(Run(q, cs, ps, size), hs[1..], ps, size)
      case HandlingFails(code) =>
        if code == LIBUSB_ERROR_INTERRUPTED then Await(q, hs[1..], ps, size)
        else AwaitCancelled(q, code, hs[1..], ps, size)
  }

  /** The completions of a run of event handling, up to the first failure that is not an interruption. */
  function Before(hs: seq<Handling>): seq<Completion> {
    if hs == [] then []
    else
      match hs[0]
      case Handles(cs) => cs + Before(hs[1..])
      case HandlingFails(code) => if code == LIBUSB_ERROR_INTERRUPTED then Before(hs[1..]) else []
  }

  /** That failure, if there is one. */
  function Failure(hs: seq<Handling>): Option<ErrorCode> {
    if hs == [] then None
    else if hs[0].HandlingFails? && hs[0].code != LIBUSB_ERROR_INTERRUPTED then Some(hs[0].code)
    else Failure(hs[1..])
  }

  lemma {:induction false} RunAppend(q: Request, a: seq<Completion>, b: seq<Completion>, ps: nat, size: nat)
    requires ps >= 2 && (q.Waiting(size) || q.Finished(size))
    ensures Run(q, a + b, ps, size) == Run(Run(q, a, ps, size), b, ps, size)
    decreases |a|
  {
    if a == [] {
      assert a + b == b;
    } else if !q.Finished(size) {
      assert (a + b)[1..] == a[1..] + b;
      RunAppend(OnCompletion(q, a[0], ps, size), a[1..], b, ps, size);
    }
  }

  /** The function asks libusb to cancel the transfer: the event handling fails before the request is finished. */
  predicate AsksToCancel(q: Request, hs: seq<Handling>, ps: nat, size: nat)
    requires ps >= 2 && (q.Waiting(size) || q.Finished(size))
  {
    Failure(hs).Some? && !Run(q, Before(hs), ps, size).Finished(size)
  }

  lemma AsksStep(q: Request, hs: seq<Handling>, ps: nat, size: nat)
    requires ps >= 2 && q.Waiting(size) && hs != []
    ensures AsksToCancel(q, hs, ps, size) ==
      if hs[0].Handles? then AsksToCancel(Run(q, hs[0].completions, ps, size), hs[1..], ps, size)
      else hs[0].code != LIBUSB_ERROR_INTERRUPTED || AsksToCancel(q, hs[1..], ps, size)
  {
    if hs[0].Handles? {
      RunAppend(q, hs[0].completions, Before(hs[1..]), ps, size);
    }
  }

  // ----- the loops -----

  /** All completions fit the internal buffer. */
  predicate Fit(cs: seq<Completion>, chunk: nat) {
    forall i :: 0 <= i < |cs| ==> |cs[i].bytes| <= chunk
  }

  predicate AllFit(hs: seq<Handling>, chunk: nat) {
    forall i :: 0 <= i < |hs| && hs[i].Handles? ==> Fit(hs[i].completions, chunk)
  }

  /** The request can get callbacks, or needs no more. */
  ghost predicate Ready(tc: TransferControl)
    reads tc, tc.ctx, tc.ctx.readbuffer, tc.buf
  {
    && tc.Valid() && tc.ctx.maxPacketSize >= 3
    && (tc.State().Waiting(tc.size) || tc.State().Finished(tc.size))
    && (tc.inFlight ==> tc.ctx.readbufferOffset == 0)
  }

  /** The bytes of a transfer are in the internal buffer when its callback is called. */
  method Complete(tc: TransferControl, c: Completion)
    requires Ready(tc) && tc.State().Waiting(tc.size) && |c.bytes| <= tc.ctx.readbuffer.Length
    modifies tc`offset, tc`completed, tc`inFlight, tc`last
    modifies tc.ctx`readbufferOffset, tc.ctx`readbufferRemaining, tc.ctx.readbuffer, tc.buf
    ensures Ready(tc)
    ensures tc.State() == OnCompletion(old(tc.State()), c, tc.ctx.maxPacketSize, tc.size)
  {
    var a := tc.ctx.readbuffer;
    forall k | 0 <= k < |c.bytes| {
      a[k] := c.bytes[k];
    }
    assert a[..][..|c.bytes|] == c.bytes;
    ReadDataCb(tc, c, |c.bytes|);
  }

  /** One call of the event handling, as far as this request goes. */
  method HandleEvents(tc: TransferControl, cs: seq<Completion>)
    requires Ready(tc) && Fit(cs, tc.ctx.readbuffer.Length)
    modifies tc`offset, tc`completed, tc`inFlight, tc`last
    modifies tc.ctx`readbufferOffset, tc.ctx`readbufferRemaining, tc.ctx.readbuffer, tc.buf
    ensures Ready(tc)
    ensures tc.State() == Run(old(tc.State()), cs, tc.ctx.maxPacketSize, tc.size)
  {
    var k := 0;
    assert cs[0..] == cs;
    while k < |cs| && tc.completed == 0
      invariant 0 <= k <= |cs| && Ready(tc)
      invariant Run(tc.State(), cs[k..], tc.ctx.maxPacketSize, tc.size)
             == Run(old(tc.State()), cs, tc.ctx.maxPacketSize, tc.size)
    {
      assert cs[k..][1..] == cs[k + 1..];
      Complete(tc, cs[k]);
      k := k + 1;
    }
  }

  /** The inner loop. */
  method WaitCancelled(tc: TransferControl, hs: seq<Handling>, code: ErrorCode) returns (pending: bool)
    requires Ready(tc) && AllFit(hs, tc.ctx.readbuffer.Length)
    modifies tc`offset, tc`completed, tc`inFlight, tc`last
    modifies tc.ctx`readbufferOffset, tc.ctx`readbufferRemaining, tc.ctx.readbuffer, tc.buf
    ensures Ready(tc)
    ensures (if pending then Pending(tc.State()) else Returned(code, tc.State()))
         == AwaitCancelled(old(tc.State()), code, hs, tc.ctx.maxPacketSize, tc.size)
  {
    var k := 0;
    assert hs[0..] == hs;
    while tc.completed == 0 && k < |hs|
      invariant 0 <= k <= |hs| && Ready(tc)
      invariant AwaitCancelled(tc.State(), code, hs[k..], tc.ctx.maxPacketSize, tc.size)
             == AwaitCancelled(old(tc.State()), code, hs, tc.ctx.maxPacketSize, tc.size)
    {
      assert hs[k..][1..] == hs[k + 1..];
      if hs[k].HandlingFails? {
        return false;
      }
      HandleEvents(tc, hs[k].completions);
      k := k + 1;
    }
    pending := tc.completed == 0;
  }

  /** `ftdi_transfer_data_done`; `hs` is what the event handling does from now on. */
  method TransferDataDone(tc: TransferControl, hs: seq<Handling>) returns (ret: int, pending: bool)
    requires Ready(tc) && AllFit(hs, tc.ctx.readbuffer.Length)
    modifies tc, tc.ctx`readbufferOffset, tc.ctx`readbufferRemaining, tc.ctx.readbuffer, tc.buf
    ensures Ready(tc)
    ensures (if pending then Pending(tc.State()) else Returned(ret, tc.State()))
         == Await(old(tc.State()), hs, tc.ctx.maxPacketSize, tc.size)
    ensures tc.cancelRequested ==
      (old(tc.cancelRequested) || AsksToCancel(old(tc.State()), hs, tc.ctx.maxPacketSize, tc.size))
  {
    var k := 0;
    assert hs[0..] == hs;
    while tc.completed == 0 && k < |hs|
      invariant 0 <= k <= |hs| && Ready(tc)
      invariant Await(tc.State(), hs[k..], tc.ctx.maxPacketSize, tc.size)
             == Await(old(tc.State()), hs, tc.ctx.maxPacketSize, tc.size)
      invariant tc.cancelRequested == old(tc.cancelRequested)
      invariant AsksToCancel(tc.State(), hs[k..], tc.ctx.maxPacketSize, tc.size)
             == AsksToCancel(old(tc.State()), hs, tc.ctx.maxPacketSize, tc.size)
    {
      assert hs[k..][1..] == hs[k + 1..];
      AsksStep(tc.State(), hs[k..], tc.ctx.maxPacketSize, tc.size);
      if hs[k].Handles? {
        HandleEvents(tc, hs[k].completions);
      } else if hs[k].code != LIBUSB_ERROR_INTERRUPTED {
        ret := hs[k].code;
        tc.cancelRequested := true;
        pending := WaitCancelled(tc, hs[k + 1..], hs[k].code);
        return;
      }
      k := k + 1;
    }
    pending := tc.completed == 0;
    ret := tc.offset;
    if tc.last != None && tc.last != Some(Completed) {
      ret := -1;
    }
  }

  // ----- what the caller is told -----

  /** What the event handling brings up to its next failure, which an interruption is as well. */
  function UntilFailure(hs: seq<Handling>): seq<Completion> {
    if hs == [] || hs[0].HandlingFails? then [] else hs[0].completions + UntilFailure(hs[1..])
  }

  predicate FailsAgain(hs: seq<Handling>) {
    exists i :: 0 <= i < |hs| && hs[i].HandlingFails?
  }

  /** The wait for a cancelled transfer: the code that is returned is that of the first failure, and the function
      returns exactly if the callbacks before the next failure finish the request, or there is a next failure.
      Either way the request is as those callbacks leave it. */
  lemma {:induction false} CancelledWait(q: Request, code: ErrorCode, hs: seq<Handling>, ps: nat, size: nat)
    requires ps >= 2 && (q.Waiting(size) || q.Finished(size))
    ensures var r, end := AwaitCancelled(q, code, hs, ps, size), Run(q, UntilFailure(hs), ps, size);
      r == if end.Finished(size) || FailsAgain(hs) then Returned(code, end) else Pending(end)
    decreases |hs|
  {
    if !q.Finished(size) && hs != [] {
      match hs[0]
      case Handles(cs) =>
        var q' := Run(q, cs, ps, size);
        CancelledWait(q', code, hs[1..], ps, size);
        RunAppend(q, cs, UntilFailure(hs[1..]), ps, size);
        if FailsAgain(hs) {
          var i :| 0 <= i < |hs| && hs[i].HandlingFails?;
          assert hs[1..][i - 1].HandlingFails?;
        }
      case HandlingFails(_) =>
    }
  }

  /** What comes after the first failure that is not an interruption. */
  function AfterFailure(hs: seq<Handling>): seq<Handling>
    decreases |hs|
  {
    if hs == [] then []
    else if hs[0].HandlingFails? && hs[0].code != LIBUSB_ERROR_INTERRUPTED then hs[1..]
    else AfterFailure(hs[1..])
  }

  /** The whole wait, exactly.  It returns with the request if the callbacks before the first failure finish it.
      After a failure it goes on for the cancelled transfer, until the callbacks finish that or there is a second
      failure, and returns the code of the first one. */
  lemma {:induction false} AwaitIsRun(q: Request, hs: seq<Handling>, ps: nat, size: nat)
    requires ps >= 2 && (q.Waiting(size) || q.Finished(size))
    ensures var end := Run(q, Before(hs), ps, size);
      var cancelled := Run(end, UntilFailure(AfterFailure(hs)), ps, size);
      Await(q, hs, ps, size) ==
        if end.Finished(size) then Returned(end.Return(), end)
        else if Failure(hs) == None then Pending(end)
        else if cancelled.Finished(size) || FailsAgain(AfterFailure(hs)) then Returned(Failure(hs).value, cancelled)
        else Pending(cancelled)
    decreases |hs|
  {
    if !q.Finished(size) && hs != [] {
      match hs[0]
      case Handles(cs) =>
        RunAppend(q, cs, Before(hs[1..]), ps, size);
        AwaitIsRun(Run(q, cs, ps, size), hs[1..], ps, size);
      case HandlingFails(code) =>
        if code == LIBUSB_ERROR_INTERRUPTED {
          AwaitIsRun(q, hs[1..], ps, size);
        } else {
          CancelledWait(q, code, hs[1..], ps, size);
        }
    }
  }

  /** A request is freed while libusb still owns its transfer only if the event handling failed twice. */
  lemma FreedInFlight(q: Request, hs: seq<Handling>, ps: nat, size: nat)
    requires ps >= 2 && (q.Waiting(size) || q.Finished(size))
    ensures var r := Await(q, hs, ps, size);
      r.Returned? && r.q.inFlight ==> r.code < 0 && Failure(hs) == Some(r.code) && FailsAgain(AfterFailure(hs))
  {
    AwaitIsRun(q, hs, ps, size);
  }

  /** The caller of an asynchronous read is told the number of its bytes exactly if the request was finished
      before the event handling failed, and no transfer was needed or the last one used has completed.
      Otherwise, if the function returns, it returns an error, and nobody is told of the bytes. */
  lemma CountIff(left: seq<byte>, hs: seq<Handling>, ps: nat, size: nat)
    requires ps >= 2
    ensures var q, cs := Submit(left, size), Before(hs);
      var r, end, n := Await(q, hs, ps, size), Run(q, cs, ps, size), Used(q, cs, ps, size);
      && (r.Returned? && r.code >= 0 <==> end.Finished(size) && (n == 0 || cs[n - 1].status == Completed))
      && (r.Returned? && r.code >= 0 ==> r.code == |r.q.got| && r.q == end && r.Bytes() == end.got)
      && (r.Gone() != [] <==> r.Returned? && r.q.got != []
                              && !(end.Finished(size) && (n == 0 || cs[n - 1].status == Completed)))
  {
    var q := Submit(left, size);
    AwaitIsRun(q, hs, ps, size);
    LastStatus(q, Before(hs), ps, size);
  }

  // ----- inputs -----

  /** A byte of the window is in the caller's buffer when the transfer is cancelled: the caller gets -1. */
  lemma CancelledLoses(x: byte)
    ensures var r := Await(Submit([x], 2), [Handles([Completion(Cancelled, [], false)])], 64, 2);
      r == Returned(-1, Request([x], [], LIBUSB_TRANSFER_CANCELLED, false, Some(Cancelled))) && r.Gone() == [x]
  {
    var q, c := Submit([x], 2), Completion(Cancelled, [], false);
    assert [x] + [] == [x];
    assert Run(q, [c], 64, 2) == OnCompletion(q, c, 64, 2);
  }

  /** A transfer brings all that was asked for before it times out: the caller gets -1 as well. */
  lemma FullButTimedOut(x: byte)
    ensures var r := Await(Submit([], 1), [Handles([Completion(TimedOut, [1, 96, x], true)])], 64, 1);
      r == Returned(-1, Request([x], [], 1, false, Some(TimedOut))) && r.Gone() == [x]
  {
    var q, c := Submit([], 1), Completion(TimedOut, [1, 96, x], true);
    assert [] + Strip([1, 96, x], 64) == [x];
    assert Run(q, [c], 64, 1) == OnCompletion(q, c, 64, 1);
  }

  /** The event handling fails once: the function waits for the transfer it has cancelled. */
  lemma WaitsForCancelled(code: ErrorCode)
    requires code != LIBUSB_ERROR_INTERRUPTED
    ensures var q, fails, ends := Submit([], 1), HandlingFails(code), Handles([Completion(Cancelled, [], false)]);
      && Await(q, [fails], 64, 1) == Pending(q)
      && Await(q, [fails, fails], 64, 1) == Returned(code, q) && q.inFlight
      && Await(q, [fails, ends], 64, 1)
         == Returned(code, Request([], [], LIBUSB_TRANSFER_CANCELLED, false, Some(Cancelled)))
  {
    var q, fails, c := Submit([], 1), HandlingFails(code), Completion(Cancelled, [], false);
    var ends := Handles([c]);
    var none: seq<byte> := [];
    assert none + [] == none;
    assert Run(q, [c], 64, 1) == OnCompletion(q, c, 64, 1);
    assert [fails, fails][1..] == [fails] && [fails, ends][1..] == [ends];
    assert AwaitCancelled(q, code, [ends], 64, 1) == AwaitCancelled(Run(q, [c], 64, 1), code, [], 64, 1);
    assert Await(q, [fails, ends], 64, 1) == AwaitCancelled(q, code, [ends], 64, 1);
    assert Await(q, [fails, fails], 64, 1) == AwaitCancelled(q, code, [fails], 64, 1);
  }
}
