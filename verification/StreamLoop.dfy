/** The streaming layer as it is written: callbacks and an event loop that update shared fields.  Every
    method is proved against the transition system. */
module StreamLoop {
  import opened Memory
  import opened StreamRead
  import opened StreamInvariant
  import opened StreamModel
  import opened StreamRuns
  import AsyncRead

  /** `FtdiStreamState` with its transfers, and libusb's and the user's side of them. */
  class FtdiStreamState {
    var entries: seq<Entry>
    var streams: seq<Stream>
    const readPacketsize: nat
    var shouldRun: bool
    var shouldCancel: bool
    var cancelCounter: int
    var listEnable: set<int>
    var listDisable: set<int>
    var listReset: set<nat>
    var doubleSubmit: bool
    var strayCallback: bool

    ghost function State(): Loop
      reads this
    {
      Loop(entries, streams, readPacketsize, shouldRun, shouldCancel, cancelCounter,
           listEnable, listDisable, listReset, doubleSubmit, strayCallback)
    }

    /** What holds between two calls of `process_step`. */
    ghost predicate Valid()
      reads this
    {
      Inv(State()) && Boundary(State())
    }

    constructor (streams: seq<Stream>, readPacketsize: nat)
      ensures State() == Fresh(streams, readPacketsize)
      ensures readPacketsize >= 1 && Untouched(streams) ==> Valid()
    {
      this.entries, this.streams, this.readPacketsize := [], streams, readPacketsize;
      shouldRun, shouldCancel, cancelCounter := true, false, 3;
      listEnable, listDisable, listReset, doubleSubmit, strayCallback := {}, {}, {}, false, false;
      new;
      assert readPacketsize >= 1 && Untouched(streams) ==>
        forall k :: 0 <= k < |streams| ==> StreamOk(streams[k], readPacketsize, true);
    }

    /** `FtdiStreamStatic::cancel`. */
    method Cancel()
      modifies this`shouldRun, this`shouldCancel
      ensures State() == Stopped(old(State()))
    {
      shouldRun := false;
      shouldCancel := true;
    }

    /** Adding to an epoll set, or removing from it, does not throw but stops the loop if it fails. */
    method ChangePollSet(ok: bool)
      modifies this`shouldRun, this`shouldCancel
      ensures State() == Joined(old(State()), ok)
    {
      if !ok {
        Cancel();
      }
    }

    method SetEntry(i: nat, e: Entry)
      requires State().Has(i) && e.stream == entries[i].stream
      modifies this`entries
      ensures State() == Put(old(State()), i, e, old(streams)[e.stream])
    {
      entries := entries[i := e];
      assert streams[e.stream := streams[e.stream]] == streams;
    }

    /** `libusb_submit_transfer`. */
    method LibusbSubmit(i: nat, accepted: bool) returns (ok: bool)
      requires State().Has(i)
      modifies this`entries, this`doubleSubmit
      ensures Step(State(), !ok) == Start(old(State()), i, old(entries)[i], accepted)
    {
      var e := entries[i];
      ok := accepted && !e.inFlight;
      if ok {
        SetEntry(i, e.(inFlight := true, cancelRequested := false));
      } else {
        doubleSubmit := doubleSubmit || e.inFlight;
        assert entries[i := e] == entries && streams[e.stream := streams[e.stream]] == streams;
      }
    }

    /** `FtdiStreamStaticState::submit`. */
    method SubmitTransfer(i: nat, a: SubmitAnswer) returns (threw: bool)
      requires State().Has(i)
      modifies this`entries, this`doubleSubmit
      ensures Step(State(), threw) == Submit(old(State()), i, a)
    {
      var e := entries[i];
      threw := false;
      if !shouldRun {
        return;
      }
      if e.enabled {
        var length := e.bufferSize;
        if !e.isReading {
          if a.fill.FillFails? {
            return true;
          }
          length := FillLength(a.fill.n, streams[e.stream].queue, e.bufferSize);
          e := e.(buffer := streams[e.stream].queue[..length]);
          SetEntry(i, e);
        }
        if length == 0 {
          SetEntry(i, e.(enabled := false));
        } else {
          var ok := LibusbSubmit(i, a.accepted);
          threw := !ok;
        }
      }
    }

    /** The state is `s`, except for transfer `i` and its stream. */
    ghost predicate At(s: Loop, i: nat)
      reads this
    {
      && s.Has(i) && State().Has(i) && entries[i].stream == s.entries[i].stream
      && State() == Put(s, i, entries[i], streams[entries[i].stream])
    }

    method Set(i: nat, e: Entry, u: Stream, ghost s: Loop)
      requires At(s, i) && e.stream == entries[i].stream
      modifies this`entries, this`streams
      ensures At(s, i) && entries[i] == e && streams[e.stream] == u && State() == Put(s, i, e, u)
    {
      entries := entries[i := e];
      streams := streams[e.stream := u];
      assert entries == s.entries[i := e] && streams == s.streams[e.stream := u];
    }

    /** The catch blocks of the callbacks, and their way out when the loop is stopping. */
    method Fail(i: nat, ghost s: Loop)
      requires At(s, i)
      modifies this`entries, this`shouldRun, this`shouldCancel
      ensures State() == Put(Stopped(s), i, old(entries)[i].(enabled := false), old(streams)[old(entries)[i].stream])
    {
      Cancel();
      entries := entries[i := entries[i].(enabled := false)];
      assert entries == s.entries[i := entries[i]];
    }

    /** `libusb_submit_transfer` at the end of a callback. */
    method ResubmitTransfer(i: nat, accepted: bool, ghost s: Loop)
      requires At(s, i)
      modifies this
      ensures State() == Resubmit(s, i, old(entries)[i], old(streams)[old(entries)[i].stream], accepted)
    {
      if accepted {
        Set(i, entries[i].(inFlight := true, cancelRequested := false), streams[entries[i].stream], s);
      } else {
        Fail(i, s);
      }
    }

    method WriteCallback(i: nat, c: Completion)
      requires State().Has(i)
      modifies this
      ensures State() == StreamModel.WriteCallback(old(State()), i, c)
      ensures old(Valid() && entries[i].inFlight && !entries[i].isReading) ==> Valid()
    {
      ghost var s := State();
      if Valid() && entries[i].inFlight && !entries[i].isReading {
        WriteCallbackKeepsInv(s, i, c);
      }
      var e := entries[i];
      assert entries[i := e] == entries && streams[e.stream := streams[e.stream]] == streams;
      var actualLength := Min(c.accepted, |e.buffer|);
      Set(i, Returned(e), Accepted(streams[e.stream], e.buffer, actualLength), s);
      SettleTransfer(i, actualLength, c, s);
    }

    method SettleTransfer(i: nat, actualLength: nat, c: Completion, ghost s: Loop)
      requires At(s, i)
      modifies this
      ensures State() == Settle(s, i, old(entries)[i], old(streams)[old(entries)[i].stream], actualLength, c)
    {
      var e := entries[i];
      if !e.enabled {
        strayCallback := true;
        return;
      }
      if c.status == AsyncRead.Cancelled || !shouldRun {
        Set(i, e.(buffer := []), streams[e.stream], s);
        Fail(i, s);
        return;
      }
      var threw := ConfirmTransfer(i, actualLength, c, s);
      if threw {
        Fail(i, s);
      } else {
        RefillTransfer(i, c.next, s);
      }
    }

    /** The confirmation of what went out, if anything did. */
    method ConfirmTransfer(i: nat, actualLength: nat, c: Completion, ghost s: Loop) returns (threw: bool)
      requires At(s, i)
      modifies this`entries, this`streams
      ensures At(s, i) && threw == (actualLength > 0 && c.confirm.ConfirmFails?)
      ensures var e, u := old(entries)[i], old(streams)[old(entries)[i].stream];
        && entries[i] == e.(bytes := e.bytes + actualLength)
        && streams[e.stream] == if threw && !c.confirm.moved then u else Confirm(u, actualLength)
    {
      var e := entries[i];
      var u := streams[e.stream];
      threw := false;
      if actualLength > 0 {
        threw := c.confirm.ConfirmFails?;
        if !threw || c.confirm.moved {
          u := Confirm(u, actualLength);
        }
        Set(i, e.(bytes := e.bytes + actualLength), u, s);
      }
    }

    /** The fill and the submit of `write_callback`; an empty fill disables the transfer. */
    method RefillTransfer(i: nat, a: SubmitAnswer, ghost s: Loop)
      requires At(s, i)
      modifies this
      ensures State() == Refill(s, i, old(entries)[i], old(streams)[old(entries)[i].stream], a)
    {
      if a.fill.FillFails? {
        Fail(i, s);
        return;
      }
      var e := entries[i];
      var u := streams[e.stream];
      var length := FillLength(a.fill.n, u.queue, e.bufferSize);
      e := e.(buffer := u.queue[..length]);
      Set(i, e, u, s);
      if length == 0 {
        Set(i, e.(enabled := false), u, s);
      } else {
        ResubmitTransfer(i, a.accepted, s);
      }
    }

    method ReadCallback(i: nat, c: Completion)
      requires State().Has(i) && readPacketsize >= 1
      modifies this
      ensures State() == StreamModel.ReadCallback(old(State()), i, c)
      ensures old(Valid() && entries[i].inFlight && entries[i].isReading) ==> Valid()
    {
      ghost var s := State();
      if Valid() && entries[i].inFlight && entries[i].isReading {
        ReadCallbackKeepsInv(s, i, c);
      }
      var e := Returned(entries[i]);
      var u := streams[e.stream];
      assert entries[i := entries[i]] == entries && streams[e.stream := u] == streams;
      Set(i, e, Arrived(u, c.data), s);
      HandOverTransfer(i, c, s);
    }

    /** The packets of a completed transfer go to the user. */
    method ReadPackets(i: nat, c: Completion, ghost s: Loop) returns (threw: bool)
      requires At(s, i) && readPacketsize >= 1
      modifies this`entries, this`streams
      ensures At(s, i)
      ensures var e, u := old(entries)[i], old(streams)[old(entries)[i].stream];
        var calls := Calls(Chunks(c.data, readPacketsize, u.modem), c.throwsAt);
        && threw == Throws(Chunks(c.data, readPacketsize, u.modem), c.throwsAt)
        && entries[i] == e.(bytes := e.bytes + CountBytes(calls, u.modem))
        && streams[e.stream] == Fed(u, calls)
    {
      var e := entries[i];
      var u := streams[e.stream];
      var calls, counted;
      calls, counted, threw := WalkPackets(c.data, readPacketsize, u.modem, c.throwsAt);
      Set(i, e.(bytes := e.bytes + counted), Fed(u, calls), s);
    }

    method HandOverTransfer(i: nat, c: Completion, ghost s: Loop)
      requires At(s, i) && readPacketsize >= 1
      modifies this
      ensures State() == HandOver(s, i, old(entries)[i], old(streams)[old(entries)[i].stream], c)
    {
      var e := entries[i];
      if !e.enabled {
        strayCallback := true;
        return;
      }
      if c.status == AsyncRead.Cancelled || !shouldRun {
        Fail(i, s);
        return;
      }
      if c.status != AsyncRead.Completed {
        Fail(i, s);
        return;
      }
      var threw := ReadPackets(i, c, s);
      ResubmitTransfer(i, !threw && c.next.accepted, s);
    }

    /** `libusb_handle_events_timeout`: the callbacks of the transfers that are through. */
    method HandleEvents(cs: seq<Completion>)
      requires State().WellFormed()
      modifies this
      ensures State() == CompleteAll(old(State()), cs)
      ensures old(Valid()) ==> Valid()
    {
      ghost var s := State();
      var k := 0;
      while k < |cs|
        invariant 0 <= k <= |cs| && State().WellFormed()
        invariant CompleteAll(State(), cs[k..]) == CompleteAll(s, cs)
      {
        var c := cs[k];
        assert cs[k..][1..] == cs[k + 1..];
        if c.entry < |entries| && entries[c.entry].inFlight {
          if entries[c.entry].isReading {
            ReadCallback(c.entry, c);
          } else {
            WriteCallback(c.entry, c);
          }
        }
        k := k + 1;
      }
      if Inv(s) && Boundary(s) {
        CompleteAllKeepsInv(s, cs);
      }
    }

    /** The loop over the transfers with one descriptor; an exception ends it. */
    method EnableDescriptor(fd: int, answers: seq<SubmitAnswer>) returns (threw: bool)
      requires State().WellFormed()
      modifies this`entries, this`doubleSubmit
      ensures Step(State(), threw) == EnableRange(old(State()), fd, answers, 0)
      ensures old(Valid()) ==> Inv(State()) && (!threw ==> Valid())
    {
      if Valid() {
        EnableRangeKeepsInv(State(), fd, answers, 0);
      }
      var i := 0;
      threw := false;
      while i < |entries|
        invariant 0 <= i <= |entries| && State().WellFormed() && !threw
        invariant EnableRange(State(), fd, answers, i) == EnableRange(old(State()), fd, answers, 0)
      {
        if entries[i].fd == fd {
          threw := Enable(i, AnswerTo(answers, i));
          if threw {
            return;
          }
        }
        i := i + 1;
      }
    }

    method Enable(i: nat, a: SubmitAnswer) returns (threw: bool)
      requires State().WellFormed() && i < |entries|
      modifies this`entries, this`doubleSubmit
      ensures Step(State(), threw) == EnableOne(old(State()), i, a)
    {
      threw := false;
      var wasEnabled := entries[i].enabled;
      if !wasEnabled {
        SetEntry(i, entries[i].(enabled := true));
        threw := SubmitTransfer(i, a);
      }
    }

    /** `FtdiStreamStaticState::cancel` for the transfers whose descriptor is in `fds`. */
    method CancelTransfers(fds: set<int>)
      modifies this`entries
      ensures State() == CancelWhere(old(State()), fds)
    {
      var i := 0;
      while i < |entries|
        invariant 0 <= i <= |entries| == |old(entries)|
        invariant forall k :: 0 <= k < |entries| ==>
          entries[k] == if k < i && old(entries)[k].fd in fds then CancelOne(old(entries)[k]) else old(entries)[k]
      {
        if entries[i].fd in fds && entries[i].enabled {
          entries := entries[i := CancelOne(entries[i])];
        }
        i := i + 1;
      }
      assert entries == CancelWhere(old(State()), fds).entries;
    }

    method EventNotice(v: Event) returns (threw: bool)
      requires State().WellFormed() && v.Notice?
      modifies this
      ensures Step(State(), threw) == OnNotice(old(State()), v)
      ensures old(Valid()) ==> Inv(State()) && (!threw ==> Valid())
    {
      if Valid() {
        NoticeKeepsInv(State(), v);
      }
      threw := false;
      if v.read == Again {
        return;
      }
      if v.read == Fails {
        Cancel();
        return;
      }
      if !shouldRun {
        return;
      }
      if shouldCancel {
        shouldRun := false;
        return;
      }
      if v.resetThrows && listReset != {} {
        return true;
      }
      listReset := {};
      threw := EnableRequested(v.order, v.answers);
      if threw {
        return;
      }
      listEnable := {};
      CancelTransfers(listDisable);
      listDisable := {};
    }

    /** The loop over `list_enable`. */
    method EnableRequested(order: seq<int>, answers: seq<SubmitAnswer>) returns (threw: bool)
      requires State().WellFormed()
      modifies this`entries, this`doubleSubmit
      ensures Step(State(), threw) == EnableAll(old(State()), order, listEnable, answers)
    {
      var k := 0;
      threw := false;
      assert order[0..] == order;
      while k < |order|
        invariant 0 <= k <= |order| && State().WellFormed() && !threw
        invariant EnableAll(State(), order[k..], listEnable, answers)
               == EnableAll(old(State()), order, listEnable, answers)
      {
        assert order[k..][1..] == order[k + 1..];
        if order[k] in listEnable {
          threw := EnableDescriptor(order[k], answers);
          if threw {
            return;
          }
        }
        k := k + 1;
      }
    }

    method EventTimer(v: Event) returns (threw: bool)
      requires State().WellFormed() && v.Timer?
      modifies this
      ensures Step(State(), threw) == OnTimer(old(State()), v)
      ensures old(Valid()) ==> Inv(State()) && (!threw ==> Valid())
    {
      if Valid() {
        TimerKeepsInv(State(), v);
      }
      threw := false;
      if v.read == Again {
        return;
      }
      if v.read == Fails {
        Cancel();
        return;
      }
      threw := ReportCounters(v.throwsAt);
      if threw {
        return;
      }
      if v.expired {
        Cancel();
      }
    }

    /** The counters are reported and cleared, one transfer after the other; the callback may throw. */
    method ReportCounters(throwsAt: Option<nat>) returns (threw: bool)
      requires State().WellFormed()
      modifies this`entries
      ensures threw == (throwsAt.Some? && throwsAt.value < |old(entries)|)
      ensures State() == ClearCounters(old(State()), if threw then throwsAt.value else |old(entries)|)
    {
      var i := 0;
      threw := false;
      while i < |entries|
        invariant 0 <= i <= |entries| == |old(entries)|
        invariant forall k :: 0 <= k < |entries| ==>
          entries[k] == if k < i then old(entries)[k].(callbacks := 0, bytes := 0) else old(entries)[k]
        invariant throwsAt.Some? ==> throwsAt.value >= i
      {
        if throwsAt == Some(i) {
          assert entries == ClearCounters(old(State()), i).entries;
          return true;
        }
        entries := entries[i := entries[i].(callbacks := 0, bytes := 0)];
        i := i + 1;
      }
      assert entries == ClearCounters(old(State()), |entries|).entries;
    }

    method HandleEvent(v: Event) returns (threw: bool)
      requires State().WellFormed() && readPacketsize >= 1
      modifies this
      ensures Step(State(), threw) == OnEvent(old(State()), v)
      ensures old(Valid()) ==> Inv(State()) && (!threw ==> Valid())
    {
      if Valid() {
        EventKeepsInv(State(), v);
      }
      match v
      case Usb(cs, ok) =>
        HandleEvents(cs);
        threw := !ok;
      case Notice(_, _, _, _) =>
        threw := EventNotice(v);
      case Timer(_, _, _) =>
        threw := EventTimer(v);
      case Ready(fd, answers) =>
        threw := EnableDescriptor(fd, answers);
      case PollFd(ok) =>
        threw := false;
        ChangePollSet(ok);
    }

    method ProcessStep(poll: Poll) returns (outcome: Outcome)
      requires State().WellFormed()
      modifies this
      ensures Polled(State(), outcome) == StreamModel.ProcessStep(old(State()), poll)
      ensures old(Valid()) ==> Valid()
    {
      if Valid() {
        ProcessStepKeepsInv(State(), poll);
      }
      match poll
      case PollFails =>
        Cancel();
        outcome := Finish;
      case PollTimeout =>
        outcome := Continue;
      case Events(vs) =>
        var threw := HandleAll(vs);
        if threw {
          Cancel();
          return Exception;
        }
        outcome := Continue;
        if !shouldRun {
          outcome := ShutDownStep();
        }
    }

    method HandleAll(vs: seq<Event>) returns (threw: bool)
      requires State().WellFormed()
      modifies this
      ensures Step(State(), threw) == OnEvents(old(State()), vs)
      ensures old(Valid()) ==> Inv(State()) && (!threw ==> Valid())
    {
      if Valid() {
        EventsKeepInv(State(), vs);
      }
      var k := 0;
      threw := false;
      assert vs[0..] == vs;
      while k < |vs|
        invariant 0 <= k <= |vs| && State().WellFormed() && !threw
        invariant OnEvents(State(), vs[k..]) == OnEvents(old(State()), vs)
      {
        assert vs[k..][1..] == vs[k + 1..];
        threw := HandleEvent(vs[k]);
        if threw {
          return;
        }
        k := k + 1;
      }
    }

    method CancelAllTransfers() returns (areAllDisabled: bool)
      modifies this`entries
      ensures State() == CancelAll(old(State())) && areAllDisabled == AllDisabled(old(State()))
    {
      areAllDisabled := true;
      var i := 0;
      while i < |entries|
        invariant 0 <= i <= |entries| == |old(entries)|
        invariant forall k :: 0 <= k < |entries| ==>
          entries[k] == if k < i then CancelOne(old(entries)[k]) else old(entries)[k]
        invariant areAllDisabled == forall k :: 0 <= k < i ==> !old(entries)[k].enabled
      {
        if entries[i].enabled {
          entries := entries[i := CancelOne(entries[i])];
          areAllDisabled := false;
        }
        i := i + 1;
      }
      assert entries == CancelAll(old(State())).entries;
    }

    /** The end of `process_step` in a loop that is to stop. */
    method ShutDownStep() returns (outcome: Outcome)
      requires State().WellFormed()
      modifies this`entries, this`cancelCounter
      ensures Polled(State(), outcome) == ShutDown(old(State()))
    {
      var areAllDisabled := CancelAllTransfers();
      cancelCounter := cancelCounter - 1;
      if cancelCounter < 0 {
        areAllDisabled := true;
      }
      outcome := if areAllDisabled then Finish else Continue;
    }

    /** Calls of `process_step`, for the polls to come, until one does not return true. */
    method PollOn(polls: seq<Poll>) returns (done: bool)
      requires State().WellFormed()
      modifies this
      ensures (State(), done) == PollUntilDone(old(State()), polls)
      ensures old(Valid()) ==> Valid()
    {
      ghost var s := State();
      var k := 0;
      assert polls[0..] == polls;
      while k < |polls|
        invariant 0 <= k <= |polls| && State().WellFormed()
        invariant PollUntilDone(State(), polls[k..]) == PollUntilDone(s, polls)
        invariant old(Valid()) ==> Valid()
      {
        assert polls[k..][1..] == polls[k + 1..];
        var outcome := ProcessStep(polls[k]);
        if outcome != Continue {
          return true;
        }
        k := k + 1;
      }
      return false;
    }

    /** `stop_poll`: it comes to an end once the notice was seen. */
    method StopPoll(polls: seq<Poll>) returns (done: bool)
      requires State().WellFormed()
      modifies this
      ensures (State(), done) == PollUntilDone(Act(old(State()), RequestStop).s, polls)
      ensures old(Valid()) ==> Valid()
      ensures old(cancelCounter) <= 3 && NoticeSeen(polls) ==> done
    {
      if Valid() {
        ListsKeepInv(State(), Act(State(), RequestStop).s);
      }
      shouldCancel := true;
      if cancelCounter <= 3 && NoticeSeen(polls) {
        SeenNoticeEnds(State(), polls);
      }
      done := PollOn(polls);
    }

    /** What the constructor checks give `process_init`. */
    ghost predicate Startable(xs: seq<Transfer>)
      reads this
    {
      NothingAhead(streams) && OneWriteTransfer(xs) && forall x :: x in xs ==> NoWriterFor(entries, x)
    }

    method CreateTransfer(x: Transfer, a: SubmitAnswer, joins: seq<bool>) returns (threw: bool)
      requires State().WellFormed() && x.stream < |streams|
      modifies this`entries, this`doubleSubmit, this`shouldRun, this`shouldCancel
      ensures Step(State(), threw) == Submit(Created(old(State()), x, joins), |old(entries)|, a)
    {
      var n := |entries|;
      entries := entries + [NewEntry(x)];
      ChangePollSet(x.isReading || Joins(joins, n));
      threw := SubmitTransfer(n, a);
    }

    /** The transfers of `process_init`, created and submitted one after the other. */
    method CreateTransfers(xs: seq<Transfer>, answers: seq<SubmitAnswer>, joins: seq<bool>) returns (threw: bool)
      requires State().WellFormed() && forall x :: x in xs ==> x.stream < |streams|
      modifies this`entries, this`doubleSubmit, this`shouldRun, this`shouldCancel
      ensures Step(State(), threw) == InitFrom(old(State()), xs, answers, joins)
      ensures old(Valid() && Startable(xs)) ==> Inv(State()) && (!threw ==> Valid())
    {
      ghost var s := State();
      if Valid() && Startable(xs) {
        InitKeepsInv(s, xs, answers, joins);
      }
      var k := 0;
      threw := false;
      assert xs[0..] == xs;
      while k < |xs|
        invariant 0 <= k <= |xs| && State().WellFormed() && !threw && streams == s.streams
        invariant forall x :: x in xs[k..] ==> x.stream < |streams|
        invariant InitFrom(State(), xs[k..], answers, joins) == InitFrom(s, xs, answers, joins)
      {
        assert xs[k..][1..] == xs[k + 1..] && xs[k] in xs[k..];
        threw := CreateTransfer(xs[k], AnswerTo(answers, |entries|), joins);
        if threw {
          return;
        }
        k := k + 1;
      }
    }
  }
}
