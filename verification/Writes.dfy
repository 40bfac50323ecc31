/** `ftdi_write_data` and `ftdi_write_data_submit`: a buffer goes out in chunks, and every transfer may
    be accepted in part only. */
module Writes {
  import opened Memory
  import opened AsyncRead

  /** One bulk write: the device takes up to `n` bytes of it, and libusb reports success or failure. */
  datatype WriteResult = Accepts(n: nat) | Fails(n: nat)

  /** A device that does not answer any more takes nothing and runs into the time-out. */
  function NextWrite(script: seq<WriteResult>): (r: WriteResult)
    ensures r.Accepts? ==> script != []
  {
    if script == [] then Fails(0) else script[0]
  }

  /** Where a write stands: `offset` bytes were reported as accepted, `taken` are in the device. */
  datatype Progress = Progress(offset: nat, taken: nat, ok: bool)

  /** The next transfer is the next chunk, or what is left. */
  function WindowSize(chunk: nat, size: nat, offset: nat): (n: nat)
    requires offset <= size
    ensures offset + n <= size
  {
    Min(chunk, size - offset)
  }

  /** The reference for a synchronous write. */
  function Write(script: seq<WriteResult>, chunk: nat, size: nat, offset: nat): (p: Progress)
    requires offset <= size
    ensures offset <= p.offset <= p.taken <= size
    ensures p.ok ==> p.offset == p.taken == size
    decreases |script|
  {
    if offset == size then Progress(offset, offset, true)
    else
      var taken := offset + Min(NextWrite(script).n, WindowSize(chunk, size, offset));
      if NextWrite(script).Fails? then Progress(offset, taken, false)
      else Write(script[1..], chunk, size, taken)
  }

  /** The byte ranges of the buffer that are submitted, as start and length. */
  function Windows(script: seq<WriteResult>, chunk: nat, size: nat, offset: nat): (ws: seq<(nat, nat)>)
    requires offset <= size
    decreases |script|
  {
    if offset == size then []
    else
      var n := WindowSize(chunk, size, offset);
      [(offset, n)]
      + (if NextWrite(script).Fails? then []
         else Windows(script[1..], chunk, size, offset + Min(NextWrite(script).n, n)))
  }

  /** The write endpoint of a device: `device` is everything it has accepted, `windows` every range of
      the caller's buffer that was submitted to it. */
  datatype Endpoint = Endpoint(script: seq<WriteResult>, device: seq<byte>, windows: seq<(nat, nat)>)

  /** One bulk write of `len` bytes at `at`. */
  function Transferred(p: Endpoint, data: seq<byte>, at: nat, len: nat): Endpoint
    requires at + len <= |data|
  {
    Endpoint(if p.script == [] then [] else p.script[1..],
             p.device + data[at..at + Min(NextWrite(p.script).n, len)],
             p.windows + [(at, len)])
  }

  /** The loop of `ftdi_write_data` from `offset` on, and whether it got to the end. */
  function WriteRun(p: Endpoint, data: seq<byte>, chunk: nat, offset: nat): (r: (Endpoint, bool))
    requires offset <= |data|
    decreases |p.script|, |data| - offset
  {
    if offset == |data| then (p, true)
    else
      var n := WindowSize(chunk, |data|, offset);
      var q := Transferred(p, data, offset, n);
      if NextWrite(p.script).Fails? then (q, false)
      else WriteRun(q, data, chunk, offset + Min(NextWrite(p.script).n, n))
  }

  /** The outcome of a whole call from there. */
  function Outcome(p: Endpoint, data: seq<byte>, chunk: nat, offset: nat): (Endpoint, bool)
    requires offset <= |data|
  {
    WriteRun(p, data, chunk, offset)
  }

  lemma SliceNext(before: seq<byte>, s: seq<byte>, i: nat, j: nat, k: nat)
    requires i <= j <= k <= |s|
    ensures (before + s[i..j]) + s[j..k] == before + s[i..k]
  {
  }

  lemma Shift(before: seq<(nat, nat)>, w: (nat, nat), after: seq<(nat, nat)>)
    ensures (before + [w]) + after == before + ([w] + after)
  {
  }

  lemma {:induction false} WriteRunDevice(p: Endpoint, data: seq<byte>, chunk: nat, offset: nat)
    requires offset <= |data|
    ensures var r, w := WriteRun(p, data, chunk, offset), Write(p.script, chunk, |data|, offset);
      r.1 == w.ok && r.0.device == p.device + data[offset..w.taken]
    decreases |p.script|
  {
    if offset < |data| {
      var n := WindowSize(chunk, |data|, offset);
      var next := offset + Min(NextWrite(p.script).n, n);
      var q := Transferred(p, data, offset, n);
      if NextWrite(p.script).Accepts? {
        WriteRunDevice(q, data, chunk, next);
        var w := Write(q.script, chunk, |data|, next);
        assert Write(p.script, chunk, |data|, offset) == w;
        SliceNext(p.device, data, offset, next, w.taken);
      } else {
        assert WriteRun(p, data, chunk, offset) == (q, false);
      }
    }
  }

  lemma {:induction false} WriteRunWindows(p: Endpoint, data: seq<byte>, chunk: nat, offset: nat)
    requires offset <= |data|
    ensures WriteRun(p, data, chunk, offset).0.windows == p.windows + Windows(p.script, chunk, |data|, offset)
    decreases |p.script|
  {
    if offset < |data| {
      var n := WindowSize(chunk, |data|, offset);
      var k := Min(NextWrite(p.script).n, n);
      if NextWrite(p.script).Accepts? {
        var q := Transferred(p, data, offset, n);
        WriteRunWindows(q, data, chunk, offset + k);
        Shift(p.windows, (offset, n), Windows(q.script, chunk, |data|, offset + k));
      }
    }
  }

  /** The device gets the bytes up to the final offset, through the windows. */
  lemma WriteRunDelivers(p: Endpoint, data: seq<byte>, chunk: nat, offset: nat)
    requires offset <= |data|
    ensures var r, w := WriteRun(p, data, chunk, offset), Write(p.script, chunk, |data|, offset);
      && r.1 == w.ok
      && r.0.device == p.device + data[offset..w.taken]
      && r.0.windows == p.windows + Windows(p.script, chunk, |data|, offset)
  {
    WriteRunDevice(p, data, chunk, offset);
    WriteRunWindows(p, data, chunk, offset);
  }

  class WritePort {
    var script: seq<WriteResult>
    var device: seq<byte>
    var windows: seq<(nat, nat)>

    constructor (script: seq<WriteResult>)
      ensures State() == Endpoint(script, [], [])
    {
      this.script, this.device, this.windows := script, [], [];
    }

    ghost function State(): Endpoint
      reads this
    {
      Endpoint(script, device, windows)
    }

    method BulkWrite(buf: array<byte>, at: nat, len: nat) returns (ok: bool, actual: nat)
      requires at + len <= buf.Length
      modifies this
      ensures State() == Transferred(old(State()), buf[..], at, len)
      ensures ok == NextWrite(old(script)).Accepts?
      ensures actual == Min(NextWrite(old(script)).n, len)
    {
      windows := windows + [(at, len)];
      ok := NextWrite(script).Accepts?;
      actual := Min(NextWrite(script).n, len);
      device := device + buf[..][at..at + actual];
      script := if script == [] then [] else script[1..];
    }
  }

  /** One transfer of the loop. */
  lemma WriteRunStep(p: Endpoint, q: Endpoint, data: seq<byte>, chunk: nat, offset: nat, n: nat, actual: nat)
    requires offset < |data| && n == WindowSize(chunk, |data|, offset)
    requires q == Transferred(p, data, offset, n) && actual == Min(NextWrite(p.script).n, n)
    ensures NextWrite(p.script).Fails? ==> WriteRun(p, data, chunk, offset) == (q, false)
    ensures NextWrite(p.script).Accepts? ==>
      WriteRun(p, data, chunk, offset) == WriteRun(q, data, chunk, offset + actual)
  {
  }

  method WriteChunk(port: WritePort, writebufferChunksize: nat, buf: array<byte>, offset: nat)
    returns (ok: bool, actualLength: nat)
    requires offset < buf.Length
    modifies port
    ensures offset + actualLength <= buf.Length
    ensures ok ==>
      (Outcome(old(port.State()), buf[..], writebufferChunksize, offset)
       == Outcome(port.State(), buf[..], writebufferChunksize, offset + actualLength))
    ensures ok ==> |port.script| < |old(port.script)| || (port.script == [] && actualLength > 0)
    ensures !ok ==> Outcome(old(port.State()), buf[..], writebufferChunksize, offset) == (port.State(), false)
  {
    var writeSize := writebufferChunksize;
    if offset + writeSize > buf.Length {
      writeSize := buf.Length - offset;
    }
    ghost var p := port.State();
    ok, actualLength := port.BulkWrite(buf, offset, writeSize);
    WriteRunStep(p, port.State(), buf[..], writebufferChunksize, offset, writeSize, actualLength);
  }

  method WriteLoop(port: WritePort, writebufferChunksize: nat, buf: array<byte>, size: nat) returns (ret: int)
    requires size == buf.Length
    modifies port
    ensures (port.State(), ret != -1) == Outcome(old(port.State()), buf[..], writebufferChunksize, 0)
    ensures ret == -1 || ret == size
  {
    var offset: nat := 0;
    ghost var data, state := buf[..], port.State();
    ghost var target := Outcome(state, data, writebufferChunksize, 0);
    while offset < size
      invariant offset <= size && buf[..] == data && port.State() == state
      invariant Outcome(state, data, writebufferChunksize, offset) == target
      decreases |port.script|, size - offset
    {
      var ok, actualLength := WriteChunk(port, writebufferChunksize, buf, offset);
      state := port.State();
      if !ok {
        return -1;
      }
      offset := offset + actualLength;
    }
    return offset;
  }

  /** Whatever the device does, it ends up with a prefix of the buffer: all of it if the call succeeds,
      and after a failure the accepted chunks and what the failing transfer got out. */
  method WriteData(port: WritePort, usbOpen: bool, writebufferChunksize: nat, buf: array<byte>, size: nat)
      returns (ret: int)
    requires size == buf.Length
    modifies port
    ensures !usbOpen ==> ret == -666 && port.State() == old(port.State())
    ensures usbOpen ==>
      var p := Write(old(port.script), writebufferChunksize, size, 0);
      && ret == (if p.ok then size else -1)
      && port.device == old(port.device) + buf[..][..p.taken]
      && port.windows == old(port.windows) + Windows(old(port.script), writebufferChunksize, size, 0)
  {
    if !usbOpen {
      return -666;
    }
    WriteRunDelivers(port.State(), buf[..], writebufferChunksize, 0);
    ret := WriteLoop(port, writebufferChunksize, buf, size);
  }

  /** With progress in every transfer the whole buffer gets out, in at most one transfer a byte. */
  lemma {:induction false} ProgressDelivers(script: seq<WriteResult>, chunk: nat, size: nat, offset: nat)
    requires offset <= size && chunk > 0
    requires |script| >= size - offset
    requires forall i :: 0 <= i < |script| ==> script[i].Accepts? && script[i].n > 0
    ensures Write(script, chunk, size, offset).ok
    ensures |Windows(script, chunk, size, offset)| <= size - offset
    decreases |script|
  {
    if offset < size {
      ProgressDelivers(script[1..], chunk, size, offset + Min(script[0].n, WindowSize(chunk, size, offset)));
    }
  }

  /** The ranges go from `offset` to `end`: each is the next chunk, full unless the buffer ends, and the
      next one starts where the bytes accepted so far end, so no byte is skipped. */
  ghost predicate Consecutive(ws: seq<(nat, nat)>, offset: nat, end: nat, chunk: nat, size: nat)
    decreases |ws|
  {
    if ws == [] then offset == end
    else
      var next := if |ws| > 1 then ws[1].0 else end;
      && ws[0].0 == offset < size
      && ws[0].1 == Min(chunk, size - offset)
      && offset <= next <= offset + ws[0].1
      && (|ws| > 1 ==> Consecutive(ws[1..], next, end, chunk, size))
  }

  lemma {:induction false} WindowsAreConsecutive(script: seq<WriteResult>, chunk: nat, size: nat, offset: nat)
    requires offset <= size
    ensures Consecutive(Windows(script, chunk, size, offset), offset, Write(script, chunk, size, offset).offset,
                        chunk, size)
    decreases |script|
  {
    if offset < size && NextWrite(script).Accepts? {
      var next := offset + Min(script[0].n, WindowSize(chunk, size, offset));
      WindowsAreConsecutive(script[1..], chunk, size, next);
      assert Windows(script, chunk, size, offset)[1..] == Windows(script[1..], chunk, size, next);
    }
  }

  /** A write request of the asynchronous API: its offset, its `completed` field, the window libusb owns
      while it is in flight, and the status with which the transfer came back last. */
  datatype WriteRequest = WriteRequest(offset: nat, completed: int, inFlight: bool, at: nat, len: nat,
                                       last: Option<Status>)
  {
    predicate Waiting(size: nat) {
      inFlight && completed == 0 && at == offset && offset + len <= size
    }

    predicate Finished(size: nat) {
      !inFlight && completed != 0 && offset <= size
    }

    /** What `ftdi_transfer_data_done` tells the caller of a finished request. */
    function Return(): int {
      if last == None || last == Some(Completed) then offset else -1
    }
  }

  datatype WriteCompletion = WriteCompletion(status: Status, accepted: nat, resubmits: bool)

  function SubmitWrite(chunk: nat, size: nat): WriteRequest {
    WriteRequest(0, 0, true, 0, WindowSize(chunk, size, 0), None)
  }

  /** The reference for one write completion. */
  function OnWritten(q: WriteRequest, c: WriteCompletion, chunk: nat, size: nat): (q': WriteRequest)
    requires q.Waiting(size)
    ensures q'.Waiting(size) == !q'.Finished(size)
    ensures q.offset <= q'.offset <= size
  {
    var offset := q.offset + Min(c.accepted, q.len);
    if offset == size then q.(offset := offset, completed := 1, inFlight := false, last := Some(c.status))
    else
      var next := WriteRequest(offset, 0, false, offset, WindowSize(chunk, size, offset), Some(c.status));
      if c.status == Cancelled then next.(completed := LIBUSB_TRANSFER_CANCELLED)
      else if c.resubmits then next.(inFlight := true)
      else next.(completed := 1)
  }

  class WriteControl {
    const buf: array<byte>
    const size: nat
    const port: WritePort
    const writebufferChunksize: nat
    var offset: nat
    var completed: int
    var inFlight: bool
    var transferBuffer: nat
    var transferLength: nat
    var last: Option<Status>

    ghost predicate Valid()
      reads this
    {
      offset <= size <= buf.Length
    }

    ghost function State(): WriteRequest
      reads this
    {
      WriteRequest(offset, completed, inFlight, transferBuffer, transferLength, last)
    }

    /** The control block with its first window, before the submit. */
    constructor (port: WritePort, writebufferChunksize: nat, buf: array<byte>, size: nat)
      requires size <= buf.Length
      ensures this.port == port && this.buf == buf && this.size == size
      ensures this.writebufferChunksize == writebufferChunksize
      ensures Valid() && State() == SubmitWrite(writebufferChunksize, size).(inFlight := false)
    {
      this.port, this.writebufferChunksize, this.buf, this.size := port, writebufferChunksize, buf, size;
      this.completed, this.offset, this.inFlight, this.transferBuffer, this.last := 0, 0, false, 0, None;
      if size < writebufferChunksize {
        this.transferLength := size;
      } else {
        this.transferLength := writebufferChunksize;
      }
    }

    /** `ftdi_write_data_cb`.  The device has just accepted part of the window. */
    method WriteDataCb(c: WriteCompletion)
      requires Valid() && State().Waiting(size)
      modifies this, port
      ensures Valid()
      ensures State() == OnWritten(old(State()), c, writebufferChunksize, size)
      ensures port.device == old(port.device) + buf[..][old(offset)..offset]
    {
      var actualLength := Min(c.accepted, transferLength);
      port.device := port.device + buf[..][transferBuffer..transferBuffer + actualLength];
      inFlight, last := false, Some(c.status);
      offset := offset + actualLength;
      if offset == size {
        completed := 1;
      } else {
        var writeSize := writebufferChunksize;
        if offset + writeSize > size {
          writeSize := size - offset;
        }
        transferLength := writeSize;
        transferBuffer := offset;
        if c.status == Cancelled {
          completed := LIBUSB_TRANSFER_CANCELLED;
        } else {
          if c.resubmits {
            inFlight := true;
          } else {
            completed := 1;
          }
        }
      }
    }
  }

  /** `ftdi_write_data_submit`; `allocates` and `submits` say whether libusb can allocate and take the
      transfer. */
  method WriteDataSubmit(port: WritePort, usbOpen: bool, writebufferChunksize: nat, buf: array<byte>, size: nat,
                         allocates: bool, submits: bool)
      returns (tc: WriteControl?)
    requires size <= buf.Length
    ensures tc != null <==> usbOpen && allocates && submits
    ensures tc != null ==>
      && fresh(tc) && tc.port == port && tc.buf == buf && tc.size == size
      && tc.writebufferChunksize == writebufferChunksize && tc.Valid()
      && tc.State() == SubmitWrite(writebufferChunksize, size) && tc.State().Waiting(size)
  {
    if !usbOpen || !allocates {
      return null;
    }
    tc := new WriteControl(port, writebufferChunksize, buf, size);
    if !submits {
      return null;
    }
    tc.inFlight := true;
  }

  /** The run of a request, and the bytes its device ends up with. */
  function RunWrite(q: WriteRequest, cs: seq<WriteCompletion>, chunk: nat, size: nat): (q': WriteRequest)
    requires q.Waiting(size) || q.Finished(size)
    ensures q'.Waiting(size) || q'.Finished(size)
    decreases |cs|
  {
    if q.Finished(size) || cs == [] then q
    else RunWrite(OnWritten(q, cs[0], chunk, size), cs[1..], chunk, size)
  }

  /** What the device accepts during the run, completion by completion. */
  function Sent(q: WriteRequest, cs: seq<WriteCompletion>, chunk: nat, data: seq<byte>): seq<byte>
    requires q.Waiting(|data|) || q.Finished(|data|)
    decreases |cs|
  {
    if q.Finished(|data|) || cs == [] then []
    else
      var q' := OnWritten(q, cs[0], chunk, |data|);
      data[q.offset..q'.offset] + Sent(q', cs[1..], chunk, data)
  }

  /** In every run, whatever the statuses, the device has exactly the bytes up to `offset`. */
  lemma {:induction false} SentIsPrefix(q: WriteRequest, cs: seq<WriteCompletion>, chunk: nat, data: seq<byte>)
    requires q.Waiting(|data|) || q.Finished(|data|)
    ensures q.offset <= RunWrite(q, cs, chunk, |data|).offset
    ensures Sent(q, cs, chunk, data) == data[q.offset..RunWrite(q, cs, chunk, |data|).offset]
    decreases |cs|
  {
    if !q.Finished(|data|) && cs != [] {
      SentIsPrefix(OnWritten(q, cs[0], chunk, |data|), cs[1..], chunk, data);
    }
  }

  /** The number of completions that the request takes. */
  function UsedWrite(q: WriteRequest, cs: seq<WriteCompletion>, chunk: nat, size: nat): (n: nat)
    requires q.Waiting(size) || q.Finished(size)
    ensures n <= |cs|
    decreases |cs|
  {
    if q.Finished(size) || cs == [] then 0 else 1 + UsedWrite(OnWritten(q, cs[0], chunk, size), cs[1..], chunk, size)
  }

  lemma {:induction false} LastWriteStatus(q: WriteRequest, cs: seq<WriteCompletion>, chunk: nat, size: nat)
    requires q.Waiting(size) || q.Finished(size)
    ensures var n := UsedWrite(q, cs, chunk, size);
      && RunWrite(q, cs, chunk, size).last == (if n == 0 then q.last else Some(cs[n - 1].status))
      && (q.Waiting(size) && RunWrite(q, cs, chunk, size).Finished(size) ==> n > 0)
    decreases |cs|
  {
    if !q.Finished(size) && cs != [] {
      LastWriteStatus(OnWritten(q, cs[0], chunk, size), cs[1..], chunk, size);
    }
  }

  /** The caller of an asynchronous write is told how many bytes the device has got exactly if the last
      transfer used has completed; otherwise the device has them, and the caller gets -1. */
  lemma WriteCountIff(cs: seq<WriteCompletion>, chunk: nat, data: seq<byte>)
    ensures SubmitWrite(chunk, |data|).Waiting(|data|)
    ensures var q := SubmitWrite(chunk, |data|);
      var end, n := RunWrite(q, cs, chunk, |data|), UsedWrite(q, cs, chunk, |data|);
      && Sent(q, cs, chunk, data) == data[..end.offset]
      && (end.Finished(|data|) ==>
            && n > 0 && (end.Return() >= 0 <==> cs[n - 1].status == Completed)
            && end.Return() == if cs[n - 1].status == Completed then |Sent(q, cs, chunk, data)| else -1)
  {
    var q := SubmitWrite(chunk, |data|);
    SentIsPrefix(q, cs, chunk, data);
    LastWriteStatus(q, cs, chunk, |data|);
  }

  /** All bytes go out before the transfer times out: the device has them, and the caller gets -1. */
  lemma SentButTimedOut(x: byte)
    ensures var q, cs := SubmitWrite(64, 1), [WriteCompletion(TimedOut, 1, true)];
      q.Waiting(1) && Sent(q, cs, 64, [x]) == [x] && RunWrite(q, cs, 64, 1).Finished(1)
      && RunWrite(q, cs, 64, 1).Return() == -1
  {
    var q, c := SubmitWrite(64, 1), WriteCompletion(TimedOut, 1, true);
    WriteCountIff([c], 64, [x]);
    assert RunWrite(q, [c], 64, 1) == OnWritten(q, c, 64, 1);
    assert UsedWrite(q, [c], 64, 1) == 1;
  }

  function AsWriteResults(cs: seq<WriteCompletion>): seq<WriteResult> {
    seq(|cs|, i requires 0 <= i < |cs| => Accepts(cs[i].accepted))
  }

  /** Without cancellation or failed submits the chain of callbacks is the synchronous loop: at every moment
      it has got equally far, and it finishes exactly when the loop does.  Only an empty request, which is
      submitted as an empty transfer, waits for a completion that the loop does without. */
  lemma {:induction false} AsyncWriteEqualsSync(q: WriteRequest, cs: seq<WriteCompletion>, chunk: nat, size: nat)
    requires q.Waiting(size) && q.len == WindowSize(chunk, size, q.offset)
    requires forall i :: 0 <= i < |cs| ==> cs[i].status != Cancelled && cs[i].resubmits
    ensures var q' := RunWrite(q, cs, chunk, size);
      var p := Write(AsWriteResults(cs), chunk, size, q.offset);
      && q'.offset == p.offset
      && (q'.Finished(size) <==> p.ok && (q.offset < size || cs != []))
    decreases |cs|
  {
    if cs != [] {
      var q1 := OnWritten(q, cs[0], chunk, size);
      assert AsWriteResults(cs)[1..] == AsWriteResults(cs[1..]);
      if q1.Waiting(size) {
        AsyncWriteEqualsSync(q1, cs[1..], chunk, size);
      }
    }
  }

  predicate CanGoOnWriting(c: WriteCompletion) {
    c.status != Cancelled && c.resubmits
  }

  /** A transfer that is cancelled or cannot be submitted again ends the request, whatever comes after it. */
  lemma {:induction false} DisturbedEnds(q: WriteRequest, cs: seq<WriteCompletion>, chunk: nat, size: nat, i: nat)
    requires q.Waiting(size) && i < |cs| && !CanGoOnWriting(cs[i])
    ensures RunWrite(q, cs, chunk, size).Finished(size)
    decreases |cs|
  {
    var q1 := OnWritten(q, cs[0], chunk, size);
    if q1.Waiting(size) {
      assert i > 0 && cs[1..][i - 1] == cs[i];
      DisturbedEnds(q1, cs[1..], chunk, size, i - 1);
    }
  }

  /** When a write request is not over yet, exactly: nothing was cancelled, every transfer could be submitted
      again, and the loop would not be through with the same transfers. */
  lemma WriteWaitsIff(q: WriteRequest, cs: seq<WriteCompletion>, chunk: nat, size: nat)
    requires q.Waiting(size) && q.len == WindowSize(chunk, size, q.offset)
    ensures RunWrite(q, cs, chunk, size).Waiting(size) <==>
      && (forall i :: 0 <= i < |cs| ==> CanGoOnWriting(cs[i]))
      && (cs == [] || !Write(AsWriteResults(cs), chunk, size, q.offset).ok)
  {
    if forall i :: 0 <= i < |cs| ==> CanGoOnWriting(cs[i]) {
      AsyncWriteEqualsSync(q, cs, chunk, size);
      if cs != [] && RunWrite(q, cs, chunk, size).Finished(size) {
        assert Write(AsWriteResults(cs), chunk, size, q.offset).ok;
      }
    } else {
      var i :| 0 <= i < |cs| && !CanGoOnWriting(cs[i]);
      DisturbedEnds(q, cs, chunk, size, i);
    }
  }

  /** How a write request ends. */
  lemma {:induction false} WriteEndsWith(q: WriteRequest, cs: seq<WriteCompletion>, chunk: nat, size: nat)
    requires q.Waiting(size)
    ensures var end := RunWrite(q, cs, chunk, size);
      end.Finished(size) ==>
        end.completed == if end.offset < size && end.last == Some(Cancelled) then LIBUSB_TRANSFER_CANCELLED else 1
    decreases |cs|
  {
    if cs != [] && OnWritten(q, cs[0], chunk, size).Waiting(size) {
      WriteEndsWith(OnWritten(q, cs[0], chunk, size), cs[1..], chunk, size);
    }
  }
}
