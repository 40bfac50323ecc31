/** The streaming layer as a transition system: what its callbacks and its event loop do to the state they
    share, for every behaviour of libusb, of the poller and of the user's callbacks. */
module StreamModel {
  import opened Memory
  import opened StreamRead
  import AsyncRead

  type Status = AsyncRead.Status

  /** One transfer (`FtdiStreamStaticState`).  `inFlight` says that libusb owns it, and for a write
      `buffer` is what it was last filled with. */
  datatype Entry = Entry(
    stream: nat, isReading: bool, fd: int, bufferSize: nat,
    enabled: bool, inFlight: bool, cancelRequested: bool, buffer: seq<byte>,
    callbacks: nat, bytes: nat)

  /** One stream, with both ends of it.  Writing: the user has `queue` to send, out of everything it ever
      `appended`; `confirmed` was confirmed to it, and `device` is what the device has accepted.
      Reading: `wire` is what arrived, one entry for each transfer that came back, whatever its status, and
      `received` the buffers handed to the user. */
  datatype Stream = Stream(
    modem: bool,
    queue: seq<byte>, appended: seq<byte>, confirmed: seq<byte>, device: seq<byte>,
    wire: seq<seq<byte>>, received: seq<seq<byte>>)

  /** `FtdiStreamState`.  `doubleSubmit` records that a transfer was submitted while in flight, and
      `strayCallback` that a callback found its transfer disabled. */
  datatype Loop = Loop(
    entries: seq<Entry>, streams: seq<Stream>, packetSize: nat,
    shouldRun: bool, shouldCancel: bool, cancelCounter: int,
    listEnable: set<int>, listDisable: set<int>, listReset: set<nat>,
    doubleSubmit: bool, strayCallback: bool)
  {
    predicate Has(i: nat) {
      i < |entries| && entries[i].stream < |streams|
    }

    predicate WellFormed() {
      packetSize >= 1 && forall i :: 0 <= i < |entries| ==> entries[i].stream < |streams|
    }
  }

  /** The state after some code ran, and whether it left with an exception. */
  datatype Step = Step(s: Loop, threw: bool)

  /** The user's WRITE_FILL_BUFFER callback: a prefix of the queue, at most as long as the buffer; a
      negative return value or an exception. */
  datatype FillAnswer = Fill(n: nat) | FillFails

  /** The user's WRITE_CONFIRM_TRANSFER callback: if it fails, the queue may have moved or not. */
  datatype ConfirmAnswer = Confirms | ConfirmFails(moved: bool)

  /** What a submit meets: the fill callback, for writes, and then libusb. */
  datatype SubmitAnswer = SubmitAnswer(fill: FillAnswer, accepted: bool)

  /** One completion: `data` arrived (reads) or `accepted` bytes went out (writes); the user's read
      callback throws in its call number `throwsAt`. */
  datatype Completion = Completion(
    entry: nat, status: Status, data: seq<byte>, accepted: nat,
    throwsAt: Option<nat>, confirm: ConfirmAnswer, next: SubmitAnswer)

  /** What no code between two ends of `process_step` does: start the loop again, withdraw a stop request,
      touch the cancel counter, or change the number of transfers and streams. */
  ghost predicate Later(s: Loop, t: Loop) {
    && (t.shouldRun ==> s.shouldRun) && (s.shouldCancel ==> t.shouldCancel) && t.cancelCounter == s.cancelCounter
    && |t.entries| == |s.entries| && |t.streams| == |s.streams| && t.packetSize == s.packetSize
  }

  function Put(s: Loop, i: nat, e: Entry, u: Stream): (t: Loop)
    requires s.Has(i) && e.stream == s.entries[i].stream
    ensures Later(s, t) && (s.WellFormed() ==> t.WellFormed())
  {
    s.(entries := s.entries[i := e], streams := s.streams[e.stream := u])
  }

  /** `FtdiStreamStatic::cancel`, which `error` calls as well. */
  function Stopped(s: Loop): Loop {
    s.(shouldRun := false, shouldCancel := true)
  }

  /** The way out of a callback that stops the loop. */
  function Halted(s: Loop, i: nat, e: Entry, u: Stream): (t: Loop)
    requires s.Has(i) && e.stream == s.entries[i].stream
    ensures Later(s, t) && (s.WellFormed() ==> t.WellFormed())
  {
    Put(Stopped(s), i, e.(enabled := false), u)
  }

  /** Changing an epoll set never throws; if it fails, the loop is told to stop. */
  function Joined(s: Loop, ok: bool): (t: Loop)
    ensures Later(s, t) && (s.WellFormed() ==> t.WellFormed())
  {
    if ok then s else Stopped(s)
  }

  /** How much the fill callback puts in the buffer. */
  function FillLength(n: nat, queue: seq<byte>, bufferSize: nat): (k: nat)
    ensures k <= |queue| && k <= bufferSize
  {
    Min(n, Min(|queue|, bufferSize))
  }

  function Filled(e: Entry, u: Stream, n: nat): Entry {
    e.(buffer := u.queue[..FillLength(n, u.queue, e.bufferSize)])
  }

  /** `libusb_submit_transfer`; libusb refuses a transfer that it owns already. */
  function Start(s: Loop, i: nat, e: Entry, accepted: bool): (r: Step)
    requires s.Has(i) && e.stream == s.entries[i].stream
    ensures Later(s, r.s) && (s.WellFormed() ==> r.s.WellFormed())
  {
    var u := s.streams[e.stream];
    if accepted && !e.inFlight then Step(Put(s, i, e.(inFlight := true, cancelRequested := false), u), false)
    else Step(Put(s.(doubleSubmit := s.doubleSubmit || e.inFlight), i, e, u), true)
  }

  /** `FtdiStreamStaticState::submit`. */
  function Submit(s: Loop, i: nat, a: SubmitAnswer): (r: Step)
    requires s.Has(i)
    ensures Later(s, r.s) && (s.WellFormed() ==> r.s.WellFormed())
  {
    var e := s.entries[i];
    var u := s.streams[e.stream];
    if !s.shouldRun || !e.enabled then Step(s, false)
    else if e.isReading then
      if e.bufferSize == 0 then Step(Put(s, i, e.(enabled := false), u), false)
      else Start(s, i, e, a.accepted)
    else
      match a.fill
      case FillFails => Step(s, true)
      case Fill(n) =>
        var filled := Filled(e, u, n);
        if filled.buffer == [] then Step(Put(s, i, filled.(enabled := false), u), false)
        else Start(s, i, filled, a.accepted)
  }

  /** The user's view of a confirmation of `n` bytes; it is not told of none. */
  function Confirm(u: Stream, n: nat): Stream {
    if n == 0 then u
    else
      var k := Min(n, |u.queue|);
      u.(confirmed := u.confirmed + u.queue[..k], queue := u.queue[k..])
  }

  /** The transfer and the stream when a callback starts: libusb has given the transfer back, and the
      device has accepted `n` bytes of its buffer. */
  function Returned(e: Entry): Entry {
    e.(inFlight := false, callbacks := e.callbacks + 1)
  }

  function Accepted(u: Stream, buffer: seq<byte>, n: nat): Stream
    requires n <= |buffer|
  {
    u.(device := u.device + buffer[..n])
  }

  /** The submit at the end of a callback. */
  function Resubmit(s: Loop, i: nat, e: Entry, u: Stream, accepted: bool): (t: Loop)
    requires s.Has(i) && e.stream == s.entries[i].stream
    ensures Later(s, t) && (s.WellFormed() ==> t.WellFormed())
  {
    if accepted then Put(s, i, e.(inFlight := true, cancelRequested := false), u) else Halted(s, i, e, u)
  }

  /** The second half of `write_callback`: fill the buffer again and submit it. */
  function Refill(s: Loop, i: nat, e: Entry, u: Stream, a: SubmitAnswer): (t: Loop)
    requires s.Has(i) && e.stream == s.entries[i].stream
    ensures Later(s, t) && (s.WellFormed() ==> t.WellFormed())
  {
    match a.fill
    case FillFails => Halted(s, i, e, u)
    case Fill(n) =>
      var filled := Filled(e, u, n);
      if filled.buffer == [] then Put(s, i, filled.(enabled := false), u)
      else Resubmit(s, i, filled, u, a.accepted)
  }

  function Settle(s: Loop, i: nat, e: Entry, u: Stream, n: nat, c: Completion): (t: Loop)
    requires s.Has(i) && e.stream == s.entries[i].stream
    ensures Later(s, t) && (s.WellFormed() ==> t.WellFormed())
  {
    if !e.enabled then Put(s.(strayCallback := true), i, e, u)
    else if c.status == AsyncRead.Cancelled || !s.shouldRun then
      Halted(s, i, e.(buffer := []), u)
    else if n > 0 && c.confirm.ConfirmFails? then
      Halted(s, i, e.(bytes := e.bytes + n), if c.confirm.moved then Confirm(u, n) else u)
    else Refill(s, i, e.(bytes := e.bytes + n), Confirm(u, n), c.next)
  }

  /** `write_callback`.  An exception inside it stops the loop and disables the transfer. */
  function WriteCallback(s: Loop, i: nat, c: Completion): (t: Loop)
    requires s.Has(i)
    ensures Later(s, t) && (s.WellFormed() ==> t.WellFormed())
  {
    var e := s.entries[i];
    var n := Min(c.accepted, |e.buffer|);
    Settle(s, i, Returned(e), Accepted(s.streams[e.stream], e.buffer, n), n, c)
  }

  function Fed(u: Stream, calls: seq<seq<byte>>): Stream {
    u.(received := u.received + calls)
  }

  function HandOver(s: Loop, i: nat, e: Entry, u: Stream, c: Completion): (t: Loop)
    requires s.Has(i) && s.packetSize >= 1 && e.stream == s.entries[i].stream
    ensures Later(s, t) && (s.WellFormed() ==> t.WellFormed())
  {
    if !e.enabled then Put(s.(strayCallback := true), i, e, u)
    else if c.status == AsyncRead.Cancelled || !s.shouldRun then Halted(s, i, e, u)
    else if c.status != AsyncRead.Completed then Halted(s, i, e, u)
    else
      var chunks := Chunks(c.data, s.packetSize, u.modem);
      var calls := Calls(chunks, c.throwsAt);
      Resubmit(s, i, e.(bytes := e.bytes + CountBytes(calls, u.modem)), Fed(u, calls),
               !Throws(chunks, c.throwsAt) && c.next.accepted)
  }

  /** The stream after a read transfer came back, and after the chunks of it, or some of them, were handed to
      the user. */
  function Arrived(u: Stream, data: seq<byte>): Stream {
    u.(wire := u.wire + [data])
  }

  /** `read_callback`. */
  function ReadCallback(s: Loop, i: nat, c: Completion): (t: Loop)
    requires s.Has(i) && s.packetSize >= 1
    ensures Later(s, t) && (s.WellFormed() ==> t.WellFormed())
  {
    HandOver(s, i, Returned(s.entries[i]), Arrived(s.streams[s.entries[i].stream], c.data), c)
  }

  /** libusb calls the callback of a transfer that it owns. */
  function Complete(s: Loop, c: Completion): (s': Loop)
    requires s.WellFormed()
    ensures Later(s, s') && s'.WellFormed()
  {
    if c.entry >= |s.entries| || !s.entries[c.entry].inFlight then s
    else if s.entries[c.entry].isReading then ReadCallback(s, c.entry, c)
    else WriteCallback(s, c.entry, c)
  }

  function CompleteAll(s: Loop, cs: seq<Completion>): (s': Loop)
    requires s.WellFormed()
    ensures Later(s, s') && s'.WellFormed()
    decreases |cs|
  {
    if cs == [] then s else CompleteAll(Complete(s, cs[0]), cs[1..])
  }

  /** The answers that the submits of an event meet, by transfer. */
  function AnswerTo(answers: seq<SubmitAnswer>, i: nat): SubmitAnswer {
    if i < |answers| then answers[i] else SubmitAnswer(Fill(0), true)
  }

  /** Enable transfer `i`; if it was disabled, submit it. */
  function EnableOne(s: Loop, i: nat, a: SubmitAnswer): (r: Step)
    requires s.WellFormed() && i < |s.entries|
    ensures Later(s, r.s) && r.s.WellFormed()
  {
    var e := s.entries[i];
    if e.enabled then Step(s, false)
    else Submit(Put(s, i, e.(enabled := true), s.streams[e.stream]), i, a)
  }

  /** The loop over the transfers with descriptor `fd`, from transfer `i` on; an exception ends it. */
  function EnableRange(s: Loop, fd: int, answers: seq<SubmitAnswer>, i: nat): (r: Step)
    requires s.WellFormed() && i <= |s.entries|
    ensures Later(s, r.s) && r.s.WellFormed()
    decreases |s.entries| - i
  {
    if i == |s.entries| then Step(s, false)
    else
      var r := if s.entries[i].fd == fd then EnableOne(s, i, AnswerTo(answers, i)) else Step(s, false);
      if r.threw then r else EnableRange(r.s, fd, answers, i + 1)
  }

  /** The loop over the requests in `list_enable`, in the order `fds` in which the hash set is walked. */
  function EnableAll(s: Loop, fds: seq<int>, requested: set<int>, answers: seq<SubmitAnswer>): (r: Step)
    requires s.WellFormed()
    ensures Later(s, r.s) && r.s.WellFormed()
    decreases |fds|
  {
    if fds == [] then Step(s, false)
    else
      var r := if fds[0] in requested then EnableRange(s, fds[0], answers, 0) else Step(s, false);
      if r.threw then r else EnableAll(r.s, fds[1..], requested, answers)
  }

  /** `FtdiStreamStaticState::cancel`: libusb takes the request only for a transfer that it owns. */
  function CancelOne(e: Entry): Entry {
    if e.enabled && e.inFlight then e.(cancelRequested := true) else e
  }

  /** Cancel the transfers whose descriptor is in `fds`. */
  function CancelWhere(s: Loop, fds: set<int>): (s': Loop)
    ensures Later(s, s') && (s.WellFormed() ==> s'.WellFormed())
  {
    s.(entries := seq(|s.entries|, i requires 0 <= i < |s.entries| =>
         if s.entries[i].fd in fds then CancelOne(s.entries[i]) else s.entries[i]))
  }

  function CancelAll(s: Loop): (s': Loop)
    ensures Later(s, s') && (s.WellFormed() ==> s'.WellFormed())
  {
    s.(entries := seq(|s.entries|, i requires 0 <= i < |s.entries| => CancelOne(s.entries[i])))
  }

  /** How reading an event descriptor ends. */
  datatype ReadResult = Readable | Again | Fails

  /** `PollFd` is libusb adding a descriptor to its epoll set or removing one, which it does while it handles
      events: `Usb` comes in two parts then, one before it and one after it. */
  datatype Event =
    | Usb(completions: seq<Completion>, ok: bool)
    | Notice(read: ReadResult, resetThrows: bool, order: seq<int>, answers: seq<SubmitAnswer>)
    | Timer(read: ReadResult, throwsAt: Option<nat>, expired: bool)
    | Ready(fd: int, answers: seq<SubmitAnswer>)
    | PollFd(ok: bool)

  /** `event_notice`. */
  function OnNotice(s: Loop, v: Event): (r: Step)
    requires s.WellFormed() && v.Notice?
    ensures Later(s, r.s) && r.s.WellFormed()
  {
    if v.read == Again then Step(s, false)
    else if v.read == Fails then Step(Stopped(s), false)
    else if !s.shouldRun then Step(s, false)
    else if s.shouldCancel then Step(s.(shouldRun := false), false)
    else if v.resetThrows && s.listReset != {} then Step(s, true)
    else
      var r := EnableAll(s.(listReset := {}), v.order, s.listEnable, v.answers);
      if r.threw then r
      else
        var t := r.s.(listEnable := {});
        Step(CancelWhere(t, t.listDisable).(listDisable := {}), false)
  }

  /** The first `k` counters are reported and cleared. */
  function ClearCounters(s: Loop, k: nat): (s': Loop)
    requires k <= |s.entries|
    ensures Later(s, s') && (s.WellFormed() ==> s'.WellFormed())
  {
    s.(entries := seq(|s.entries|, i requires 0 <= i < |s.entries| =>
         if i < k then s.entries[i].(callbacks := 0, bytes := 0) else s.entries[i]))
  }

  /** `event_timer`. */
  function OnTimer(s: Loop, v: Event): (r: Step)
    requires s.WellFormed() && v.Timer?
    ensures Later(s, r.s) && r.s.WellFormed()
  {
    if v.read == Again then Step(s, false)
    else if v.read == Fails then Step(Stopped(s), false)
    else if v.throwsAt.Some? && v.throwsAt.value < |s.entries| then
      Step(ClearCounters(s, v.throwsAt.value), true)
    else
      var t := ClearCounters(s, |s.entries|);
      Step(if v.expired then Stopped(t) else t, false)
  }

  function OnEvent(s: Loop, v: Event): (r: Step)
    requires s.WellFormed()
    ensures Later(s, r.s) && r.s.WellFormed()
  {
    match v
    case Usb(cs, ok) => Step(CompleteAll(s, cs), !ok)
    case Notice(_, _, _, _) => OnNotice(s, v)
    case Timer(_, _, _) => OnTimer(s, v)
    case Ready(fd, answers) => EnableRange(s, fd, answers, 0)
    case PollFd(ok) => Step(Joined(s, ok), false)
  }

  function OnEvents(s: Loop, vs: seq<Event>): (r: Step)
    requires s.WellFormed()
    ensures Later(s, r.s) && r.s.WellFormed()
    decreases |vs|
  {
    if vs == [] then Step(s, false)
    else
      var r := OnEvent(s, vs[0]);
      if r.threw then r else OnEvents(r.s, vs[1..])
  }

  /** What `process_step` does: returns true, returns false, or throws. */
  datatype Outcome = Continue | Finish | Exception

  datatype Polled = Polled(s: Loop, outcome: Outcome)

  /** What `epoll_wait` brings. */
  datatype Poll = PollFails | PollTimeout | Events(events: seq<Event>)

  predicate AllDisabled(s: Loop) {
    forall i :: 0 <= i < |s.entries| ==> !s.entries[i].enabled
  }

  /** The end of `process_step`, once the loop is to stop. */
  function ShutDown(s: Loop): (p: Polled)
    requires s.WellFormed()
    ensures p.s.WellFormed()
  {
    var t := CancelAll(s).(cancelCounter := s.cancelCounter - 1);
    Polled(t, if AllDisabled(s) || t.cancelCounter < 0 then Finish else Continue)
  }

  /** `process_step`. */
  function ProcessStep(s: Loop, poll: Poll): (p: Polled)
    requires s.WellFormed()
    ensures p.s.WellFormed()
  {
    match poll
    case PollFails => Polled(Stopped(s), Finish)
    case PollTimeout => Polled(s, Continue)
    case Events(vs) =>
      var r := OnEvents(s, vs);
      if r.threw then Polled(Stopped(r.s), Exception)
      else if !r.s.shouldRun then ShutDown(r.s)
      else Polled(r.s, Continue)
  }
}
