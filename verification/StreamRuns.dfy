/** Whole runs of the streaming layer: from `process_init` on, through any sequence of calls of
    `process_step`, requests of other threads, and data appended by the user. */
module StreamRuns {
  import opened Memory
  import opened Packets
  import opened StreamRead
  import opened StreamModel
  import opened StreamInvariant

  /** A transfer as `process_init` creates it. */
  datatype Transfer = Transfer(stream: nat, isReading: bool, fd: int, bufferSize: nat, startEnabled: bool)

  function NewEntry(x: Transfer): Entry {
    Entry(x.stream, x.isReading, x.fd, x.bufferSize, !x.isReading || x.startEnabled, false, false, [], 0, 0)
  }

  function NewStream(modem: bool, queue: seq<byte>): Stream {
    Stream(modem, queue, queue, [], [], [], [])
  }

  /** The state resets of `process_init`. */
  function Fresh(streams: seq<Stream>, packetSize: nat): Loop {
    Loop([], streams, packetSize, true, false, 3, {}, {}, {}, false, false)
  }

  /** Whether the descriptor of write transfer `i` can be added. */
  predicate Joins(joins: seq<bool>, i: nat) {
    i < |joins| ==> joins[i]
  }

  /** A transfer is created; the descriptor of a write transfer is added to the epoll set. */
  function Created(s: Loop, x: Transfer, joins: seq<bool>): (t: Loop)
    requires s.WellFormed() && x.stream < |s.streams|
    ensures t.WellFormed() && |t.entries| == |s.entries| + 1 && |t.streams| == |s.streams|
    ensures t.packetSize == s.packetSize
  {
    Joined(s.(entries := s.entries + [NewEntry(x)]), x.isReading || Joins(joins, |s.entries|))
  }

  /** The transfers are created and submitted one after the other; an exception ends it. */
  function InitFrom(s: Loop, xs: seq<Transfer>, answers: seq<SubmitAnswer>, joins: seq<bool>): (r: Step)
    requires s.WellFormed() && forall x :: x in xs ==> x.stream < |s.streams|
    ensures r.s.WellFormed() && |r.s.streams| == |s.streams| && r.s.packetSize == s.packetSize
    decreases |xs|
  {
    if xs == [] then Step(s, false)
    else
      var r := Submit(Created(s, xs[0], joins), |s.entries|, AnswerTo(answers, |s.entries|));
      if r.threw then r else InitFrom(r.s, xs[1..], answers, joins)
  }

  predicate OneWriteTransfer(xs: seq<Transfer>) {
    forall i, j :: 0 <= i < j < |xs| && !xs[i].isReading && !xs[j].isReading ==> xs[i].stream != xs[j].stream
  }

  /** All that `process_init` is given, and how it meets libusb, the user and epoll: `ready` says whether the
      loop's own descriptors could be added. */
  datatype Setup = Setup(
    streams: seq<Stream>, packetSize: nat, transfers: seq<Transfer>,
    answers: seq<SubmitAnswer>, ready: bool, joins: seq<bool>)
  {
    /** One write transfer a stream, as the constructor checks; packets of some size; and streams that nothing
        was transferred on. */
    predicate Proper() {
      && packetSize >= 1 && Untouched(streams) && OneWriteTransfer(transfers)
      && forall x :: x in transfers ==> x.stream < |streams|
    }
  }

  function Init(b: Setup): (r: Step)
    requires b.Proper()
    ensures r.s.WellFormed() && |r.s.streams| == |b.streams| && r.s.packetSize == b.packetSize
  {
    InitFrom(Joined(Fresh(b.streams, b.packetSize), b.ready), b.transfers, b.answers, b.joins)
  }

  /** What can happen between the start and the end of a loop. */
  datatype Action =
    | TakeStep(poll: Poll)
    | Append(stream: nat, data: seq<byte>)
    | EnableReading(fd: int)
    | DisableReading(fd: int)
    | ResetStream(stream: nat)
    | RequestStop

  /** The request functions do nothing once the loop is being cancelled. */
  function Act(s: Loop, a: Action): (p: Polled)
    requires s.WellFormed()
    ensures p.s.WellFormed() && |p.s.entries| == |s.entries| && |p.s.streams| == |s.streams|
    ensures p.s.packetSize == s.packetSize && (p.s.shouldRun ==> s.shouldRun)
  {
    match a
    case TakeStep(poll) => ProcessStep(s, poll)
    case Append(k, data) =>
      Polled(if k < |s.streams| then
               var u := s.streams[k];
               s.(streams := s.streams[k := u.(queue := u.queue + data, appended := u.appended + data)])
             else s, Continue)
    case EnableReading(fd) =>
      Polled(if s.shouldCancel then s
             else s.(listDisable := s.listDisable - {fd}, listEnable := s.listEnable + {fd}), Continue)
    case DisableReading(fd) =>
      Polled(if s.shouldCancel then s
             else s.(listEnable := s.listEnable - {fd}, listDisable := s.listDisable + {fd}), Continue)
    case ResetStream(k) =>
      Polled(if s.shouldCancel || k >= |s.streams| then s else s.(listReset := s.listReset + {k}), Continue)
    case RequestStop => Polled(s.(shouldCancel := true), Continue)
  }

  /** A run; once the loop is told to stop, nothing in it starts the loop again. */
  function Run(s: Loop, actions: seq<Action>): (t: Loop)
    requires s.WellFormed()
    ensures t.WellFormed() && |t.entries| == |s.entries| && |t.streams| == |s.streams|
    ensures t.packetSize == s.packetSize && (t.shouldRun ==> s.shouldRun)
    decreases |actions|
  {
    if actions == [] then s else Run(Act(s, actions[0]).s, actions[1..])
  }

  // ----- the invariant holds in every run -----

  lemma AppendKeepsInv(s: Loop, k: nat, data: seq<byte>)
    requires Inv(s) && Boundary(s) && k < |s.streams|
    ensures var t := Act(s, Append(k, data)).s; Inv(t) && Boundary(t)
  {
    var t := Act(s, Append(k, data)).s;
    var u, v := s.streams[k], t.streams[k];
    assert StreamOk(u, s.packetSize, s.shouldRun);
    assert v.confirmed + v.queue == v.appended by { assert u.confirmed + (u.queue + data) == u.appended + data; }
    forall j | 0 <= j < |t.entries|
      ensures EntryOk(t.entries[j], t.streams[t.entries[j].stream])
    {
      assert EntryOk(s.entries[j], s.streams[s.entries[j].stream]);
    }
    forall m | 0 <= m < |t.streams|
      ensures StreamOk(t.streams[m], t.packetSize, t.shouldRun)
    {
      assert StreamOk(s.streams[m], s.packetSize, s.shouldRun);
    }
  }

  lemma ActKeepsInv(s: Loop, a: Action)
    requires Inv(s) && Boundary(s)
    ensures Inv(Act(s, a).s) && Boundary(Act(s, a).s)
  {
    match a
    case TakeStep(poll) => ProcessStepKeepsInv(s, poll);
    case Append(k, data) =>
      if k < |s.streams| {
        AppendKeepsInv(s, k, data);
      }
    case EnableReading(fd) => ListsKeepInv(s, Act(s, a).s);
    case DisableReading(fd) => ListsKeepInv(s, Act(s, a).s);
    case ResetStream(k) => ListsKeepInv(s, Act(s, a).s);
    case RequestStop => ListsKeepInv(s, Act(s, a).s);
  }

  lemma {:induction false} RunKeepsInv(s: Loop, actions: seq<Action>)
    requires Inv(s) && Boundary(s)
    ensures Inv(Run(s, actions)) && Boundary(Run(s, actions))
    decreases |actions|
  {
    if actions != [] {
      ActKeepsInv(s, actions[0]);
      RunKeepsInv(Act(s, actions[0]).s, actions[1..]);
    }
  }

  /** The streams before anything was transferred. */
  predicate Untouched(streams: seq<Stream>) {
    forall k :: 0 <= k < |streams| ==> streams[k] == NewStream(streams[k].modem, streams[k].queue)
  }

  ghost predicate NoWriterFor(entries: seq<Entry>, x: Transfer) {
    !x.isReading ==> forall i :: 0 <= i < |entries| && !entries[i].isReading ==> entries[i].stream != x.stream
  }

  /** The device has what was confirmed, and no more. */
  ghost predicate NothingAhead(streams: seq<Stream>) {
    forall k :: 0 <= k < |streams| ==> streams[k].device == streams[k].confirmed
  }

  lemma AddedKeepsInv(s: Loop, e: Entry)
    requires Inv(s) && Boundary(s) && NothingAhead(s.streams) && e.stream < |s.streams|
    requires !e.enabled && !e.inFlight && e.buffer == []
    requires !e.isReading ==>
      forall i :: 0 <= i < |s.entries| && !s.entries[i].isReading ==> s.entries[i].stream != e.stream
    ensures var t := s.(entries := s.entries + [e]); Inv(t) && Boundary(t)
  {
    var t := s.(entries := s.entries + [e]);
    forall j | 0 <= j < |t.entries|
      ensures EntryOk(t.entries[j], t.streams[t.entries[j].stream])
    {
      if j < |s.entries| {
        assert EntryOk(s.entries[j], s.streams[s.entries[j].stream]);
      }
    }
    assert forall k :: 0 <= k < |s.streams| ==> StreamOk(s.streams[k], s.packetSize, s.shouldRun);
    assert OneWriter(t.entries);
  }

  /** Creating a transfer is adding it disabled, and then enabling it. */
  lemma NewEntryKeepsInv(s: Loop, x: Transfer, a: SubmitAnswer)
    requires Inv(s) && Boundary(s) && NothingAhead(s.streams) && x.stream < |s.streams| && NoWriterFor(s.entries, x)
    ensures Good(Submit(s.(entries := s.entries + [NewEntry(x)]), |s.entries|, a))
  {
    var n, e := |s.entries|, NewEntry(x);
    var off := s.(entries := s.entries + [e.(enabled := false)]);
    AddedKeepsInv(s, e.(enabled := false));
    EnableOneKeepsInv(off, n, a);
    assert s.(entries := s.entries + [e]) ==
      if e.enabled then Put(off, n, off.entries[n].(enabled := true), off.streams[x.stream]) else off;
  }

  lemma CreatedKeepsInv(s: Loop, x: Transfer, joins: seq<bool>, a: SubmitAnswer)
    requires Inv(s) && Boundary(s) && NothingAhead(s.streams) && x.stream < |s.streams| && NoWriterFor(s.entries, x)
    ensures Good(Submit(Created(s, x, joins), |s.entries|, a))
  {
    StoppedKeepsInv(s);
    var t := if x.isReading || Joins(joins, |s.entries|) then s else Stopped(s);
    NewEntryKeepsInv(t, x, a);
    assert Created(s, x, joins) == t.(entries := t.entries + [NewEntry(x)]);
  }

  /** The same transfers, on the same streams, in a loop that runs or not as before. */
  ghost predicate SameKinds(s: Loop, t: Loop) {
    && |t.entries| == |s.entries| && t.shouldRun == s.shouldRun && t.streams == s.streams
    && forall j :: 0 <= j < |s.entries| ==>
         t.entries[j].stream == s.entries[j].stream && t.entries[j].isReading == s.entries[j].isReading
  }

  lemma PutKeepsKinds(s: Loop, i: nat, e: Entry)
    requires s.Has(i) && e.stream == s.entries[i].stream && e.isReading == s.entries[i].isReading
    ensures SameKinds(s, Put(s, i, e, s.streams[e.stream]))
  {
    assert s.streams[e.stream := s.streams[e.stream]] == s.streams;
  }

  lemma StartKeepsKinds(s: Loop, i: nat, e: Entry, accepted: bool)
    requires s.Has(i) && e.stream == s.entries[i].stream && e.isReading == s.entries[i].isReading
    ensures SameKinds(s, Start(s, i, e, accepted).s)
  {
    PutKeepsKinds(s, i, e.(inFlight := true, cancelRequested := false));
    PutKeepsKinds(s.(doubleSubmit := s.doubleSubmit || e.inFlight), i, e);
  }

  lemma SubmitKeepsKinds(s: Loop, i: nat, a: SubmitAnswer)
    requires s.Has(i)
    ensures SameKinds(s, Submit(s, i, a).s)
  {
    var e := s.entries[i];
    var f := if a.fill.Fill? then Filled(e, s.streams[e.stream], a.fill.n) else e;
    StartKeepsKinds(s, i, e, a.accepted);
    StartKeepsKinds(s, i, f, a.accepted);
    PutKeepsKinds(s, i, e.(enabled := false));
    PutKeepsKinds(s, i, f.(enabled := false));
  }

  /** The descriptors of all write transfers can be added, if the next transfer is number `n`. */
  predicate AllJoin(xs: seq<Transfer>, joins: seq<bool>, n: nat) {
    xs == [] || ((xs[0].isReading || Joins(joins, n)) && AllJoin(xs[1..], joins, n + 1))
  }

  lemma {:induction false} InitKeepsInv(s: Loop, xs: seq<Transfer>, answers: seq<SubmitAnswer>, joins: seq<bool>)
    requires Inv(s) && Boundary(s) && NothingAhead(s.streams) && OneWriteTransfer(xs)
    requires forall x :: x in xs ==> x.stream < |s.streams| && NoWriterFor(s.entries, x)
    ensures var r := InitFrom(s, xs, answers, joins);
      && Good(r)
      && (!r.threw ==> (r.s.shouldRun <==> s.shouldRun && AllJoin(xs, joins, |s.entries|)))
    decreases |xs|
  {
    if xs != [] {
      var n, x := |s.entries|, xs[0];
      var t := Created(s, x, joins);
      assert x in xs;
      CreatedKeepsInv(s, x, joins, AnswerTo(answers, n));
      SubmitKeepsKinds(t, n, AnswerTo(answers, n));
      var r := Submit(t, n, AnswerTo(answers, n));
      if !r.threw {
        forall y | y in xs[1..]
          ensures NoWriterFor(r.s.entries, y)
        {
          assert NoWriterFor(s.entries, y);
        }
        InitKeepsInv(r.s, xs[1..], answers, joins);
      }
    }
  }

  /** A start that does not throw establishes the invariant, and the loop runs exactly if all descriptors
      could be added. */
  lemma InitIsSafe(b: Setup)
    requires b.Proper()
    ensures Good(Init(b))
    ensures !Init(b).threw ==> (Init(b).s.shouldRun <==> b.ready && AllJoin(b.transfers, b.joins, 0))
    ensures Inv(Joined(Fresh(b.streams, b.packetSize), b.ready))
  {
    var s := Fresh(b.streams, b.packetSize);
    assert forall k :: 0 <= k < |b.streams| ==> StreamOk(b.streams[k], b.packetSize, true);
    assert Inv(s);
    StoppedKeepsInv(s);
    InitKeepsInv(Joined(s, b.ready), b.transfers, b.answers, b.joins);
  }

  // ----- the theorems about every run -----

  /** `t` is reached from a start that did not throw, by some actions. */
  ghost predicate Reached(t: Loop, b: Setup, actions: seq<Action>) {
    b.Proper() && !Init(b).threw && t == Run(Init(b).s, actions)
  }

  lemma ReachedIsSafe(t: Loop, b: Setup, actions: seq<Action>)
    requires Reached(t, b, actions)
    ensures Inv(t) && Boundary(t)
  {
    InitIsSafe(b);
    RunKeepsInv(Init(b).s, actions);
  }

  /** Transfer ownership, in every reachable state: a transfer in flight is enabled; no callback ever took the
      branch for a disabled one, and no transfer was ever submitted while in flight; and while the loop runs,
      the enabled transfers are exactly the ones in flight. */
  lemma Ownership(t: Loop, b: Setup, actions: seq<Action>)
    requires Reached(t, b, actions)
    ensures !t.doubleSubmit && !t.strayCallback
    ensures forall i :: 0 <= i < |t.entries| ==>
      && (t.entries[i].inFlight ==> t.entries[i].enabled)
      && (t.shouldRun ==> t.entries[i].enabled == t.entries[i].inFlight)
  {
    ReachedIsSafe(t, b, actions);
    assert forall i :: 0 <= i < |t.entries| ==> EntryOk(t.entries[i], t.streams[t.entries[i].stream]);
  }

  /** Write-stream exactness, in every reachable state and for any partial completions and failures: what
      the device has accepted is the beginning of what the user appended; while the loop runs it is exactly
      what was confirmed, and what was not confirmed is still queued, in order.  Once the loop is stopping
      the device may be ahead of the confirmations, by a prefix of the queue of at most one buffer. */
  lemma WriteExactness(t: Loop, b: Setup, actions: seq<Action>)
    requires Reached(t, b, actions)
    ensures forall k :: 0 <= k < |t.streams| ==>
      var u := t.streams[k];
      && u.appended == u.confirmed + u.queue
      && u.confirmed <= u.device <= u.appended
      && (t.shouldRun ==> u.device == u.confirmed)
    ensures forall i :: 0 <= i < |t.entries| && !t.entries[i].isReading ==>
      var u := t.streams[t.entries[i].stream];
      |u.device| <= |u.confirmed| + t.entries[i].bufferSize
  {
    ReachedIsSafe(t, b, actions);
    assert forall k :: 0 <= k < |t.streams| ==> StreamOk(t.streams[k], t.packetSize, t.shouldRun);
    assert forall i :: 0 <= i < |t.entries| ==> EntryOk(t.entries[i], t.streams[t.entries[i].stream]);
  }

  /** The payload of a run of transfers. */
  function PayloadOf(wire: seq<seq<byte>>, packetSize: nat): seq<byte>
    requires packetSize >= 2
  {
    if wire == [] then [] else Strip(wire[0], packetSize) + PayloadOf(wire[1..], packetSize)
  }

  lemma {:induction false} ExpectedIsPayload(wire: seq<seq<byte>>, packetSize: nat)
    requires packetSize >= 2
    ensures Join(ExpectedOf(wire, false, packetSize)) == PayloadOf(wire, packetSize)
  {
    if wire != [] {
      ExpectedIsPayload(wire[1..], packetSize);
      WalkFindsPayload(wire[0], packetSize);
      JoinAppend(Chunks(wire[0], packetSize, false), ExpectedOf(wire[1..], false, packetSize));
    }
  }

  lemma {:induction false} JoinOfPrefix(a: seq<seq<byte>>, b: seq<seq<byte>>)
    requires a <= b
    ensures Join(a) <= Join(b)
  {
    JoinAppend(a, b[|a|..]);
    assert a + b[|a|..] == b;
  }

  /** The transfers themselves, without a last packet that is too short for its status. */
  function WholeOf(wire: seq<seq<byte>>, packetSize: nat): seq<byte>
    requires packetSize >= 2
  {
    if wire == [] then []
    else wire[0][..|wire[0]| - (if |wire[0]| % packetSize == 1 then 1 else 0)] + WholeOf(wire[1..], packetSize)
  }

  lemma {:induction false} ExpectedIsWhole(wire: seq<seq<byte>>, packetSize: nat)
    requires packetSize >= 2
    ensures Join(ExpectedOf(wire, true, packetSize)) == WholeOf(wire, packetSize)
  {
    if wire != [] {
      ExpectedIsWhole(wire[1..], packetSize);
      WalkKeepsTransfer(wire[0], packetSize);
      JoinAppend(Chunks(wire[0], packetSize, true), ExpectedOf(wire[1..], true, packetSize));
    }
  }

  /** What a user is to get of all that arrived. */
  function Due(u: Stream, packetSize: nat): seq<byte>
    requires packetSize >= 2
  {
    if u.modem then WholeOf(u.wire, packetSize) else PayloadOf(u.wire, packetSize)
  }

  /** Read-stream exactness, in every reachable state: while the loop runs, the user of a stream has got
      exactly what is due of everything that arrived, in order: the payload, or with modem status the whole
      transfers.  Once the loop is stopping, it has got a beginning of it. */
  lemma ReadExactness(t: Loop, b: Setup, actions: seq<Action>)
    requires Reached(t, b, actions) && b.packetSize >= 2
    ensures t.packetSize == b.packetSize
    ensures forall k :: 0 <= k < |t.streams| ==>
      var u := t.streams[k];
      && Join(u.received) <= Due(u, t.packetSize)
      && (t.shouldRun ==> Join(u.received) == Due(u, t.packetSize))
  {
    ReachedIsSafe(t, b, actions);
    forall k | 0 <= k < |t.streams|
      ensures var u := t.streams[k];
        && Join(u.received) <= Due(u, t.packetSize)
        && (t.shouldRun ==> Join(u.received) == Due(u, t.packetSize))
    {
      var u := t.streams[k];
      assert StreamOk(u, t.packetSize, t.shouldRun);
      ExpectedIsPayload(u.wire, t.packetSize);
      ExpectedIsWhole(u.wire, t.packetSize);
      JoinOfPrefix(u.received, Expected(u, t.packetSize));
    }
  }

  // ----- shutting down -----

  /** The steps of a run that saw an event, left the loop stopping, and still returned true. */
  function StoppingSteps(s: Loop, actions: seq<Action>): nat
    requires s.WellFormed()
    decreases |actions|
  {
    if actions == [] then 0
    else
      var p := Act(s, actions[0]);
      (if actions[0].TakeStep? && actions[0].poll.Events? && !p.s.shouldRun && p.outcome == Continue then 1 else 0)
      + StoppingSteps(p.s, actions[1..])
  }

  lemma ActAndCounter(s: Loop, a: Action)
    requires s.WellFormed()
    ensures var p := Act(s, a);
      && p.s.cancelCounter <= s.cancelCounter
      && (a.TakeStep? && a.poll.Events? && !p.s.shouldRun && p.outcome == Continue ==>
            p.s.cancelCounter == s.cancelCounter - 1 >= 0)
  {
  }

  /** Bounded shutdown: in any run, whatever happens between the steps, at most `cancelCounter` steps that
      see an event leave the loop stopping and still return true; every other such step returns false or
      throws. */
  lemma {:induction false} BoundedShutdown(s: Loop, actions: seq<Action>)
    requires s.WellFormed()
    ensures StoppingSteps(s, actions) <= if s.cancelCounter > 0 then s.cancelCounter else 0
    decreases |actions|
  {
    if actions != [] {
      ActAndCounter(s, actions[0]);
      BoundedShutdown(Act(s, actions[0]).s, actions[1..]);
    }
  }

  /** Three such steps at most in the whole life of a loop, so the fourth step after the stop, counting the
      one that stopped it, ends it. */
  lemma AtMostThreeStoppingSteps(b: Setup, actions: seq<Action>)
    requires b.Proper()
    ensures StoppingSteps(Init(b).s, actions) <= 3
  {
    InitIsSafe(b);
    BoundedShutdown(Init(b).s, actions);
  }

  /** A step that ends the loop does so with no transfer in flight, unless the cancel counter ran out or
      the poll failed. */
  lemma FinishIsIdle(s: Loop, vs: seq<Event>)
    requires Inv(s) && Boundary(s)
    requires var p := ProcessStep(s, Events(vs)); p.outcome == Finish && p.s.cancelCounter >= 0
    ensures forall i :: 0 <= i < |s.entries| ==> !ProcessStep(s, Events(vs)).s.entries[i].inFlight
  {
    EventsKeepInv(s, vs);
    var t := OnEvents(s, vs).s;
    assert forall i :: 0 <= i < |t.entries| ==> EntryOk(t.entries[i], t.streams[t.entries[i].stream]);
  }

  /** libusb owns a transfer. */
  ghost predicate Busy(s: Loop) {
    exists i :: 0 <= i < |s.entries| && s.entries[i].inFlight
  }

  lemma CancelKeepsBusy(s: Loop)
    requires s.WellFormed()
    ensures Busy(ShutDown(s).s) <==> Busy(s)
  {
    var t := ShutDown(s).s;
    assert forall i :: 0 <= i < |s.entries| ==> t.entries[i].inFlight == s.entries[i].inFlight;
    if Busy(s) {
      var i :| 0 <= i < |s.entries| && s.entries[i].inFlight;
      assert t.entries[i].inFlight;
    }
  }

  /** When a step ends the loop although libusb still owns a transfer: the poll failed, or the
      loop was stopping already and the cancel counter is used up. */
  lemma BusyFinishIff(s: Loop, poll: Poll)
    requires Inv(s) && Boundary(s)
    ensures var p := ProcessStep(s, poll);
      p.outcome == Finish && Busy(p.s) <==>
        match poll
        case PollFails => Busy(s)
        case PollTimeout => false
        case Events(vs) =>
          var r := OnEvents(s, vs); !r.threw && !r.s.shouldRun && s.cancelCounter <= 0 && Busy(r.s)
  {
    match poll
    case PollFails =>
      assert Stopped(s).entries == s.entries;
    case PollTimeout =>
    case Events(vs) =>
      EventsKeepInv(s, vs);
      var r := OnEvents(s, vs);
      if !r.threw && !r.s.shouldRun {
        CancelKeepsBusy(r.s);
        if AllDisabled(r.s) {
          assert forall i :: 0 <= i < |r.s.entries| ==> EntryOk(r.s.entries[i], r.s.streams[r.s.entries[i].stream]);
        }
      }
  }

  /** As long as a stopping loop goes on, libusb has been asked to cancel every transfer still in flight. */
  lemma StoppingCancelsAll(s: Loop, vs: seq<Event>)
    requires Inv(s) && Boundary(s)
    requires var p := ProcessStep(s, Events(vs)); p.outcome == Continue && !p.s.shouldRun
    ensures forall i :: 0 <= i < |s.entries| ==>
      var e := ProcessStep(s, Events(vs)).s.entries[i];
      e.inFlight ==> e.cancelRequested
  {
    EventsKeepInv(s, vs);
    var t := OnEvents(s, vs).s;
    assert forall i :: 0 <= i < |t.entries| ==> EntryOk(t.entries[i], t.streams[t.entries[i].stream]);
  }

  // ----- stop_poll -----

  /** Calls of `process_step` until one does not return true: the state, and whether one did not. */
  function PollUntilDone(s: Loop, polls: seq<Poll>): (r: (Loop, bool))
    requires s.WellFormed()
    decreases |polls|
  {
    if polls == [] then (s, false)
    else
      var p := ProcessStep(s, polls[0]);
      if p.outcome != Continue then (p.s, true) else PollUntilDone(p.s, polls[1..])
  }

  /** Events that include the stop notice end with the loop stopping, or in an exception. */
  lemma {:induction false} NoticeStops(s: Loop, vs: seq<Event>, m: nat)
    requires s.WellFormed() && s.shouldCancel && m < |vs| && vs[m].Notice? && vs[m].read != Again
    ensures OnEvents(s, vs).threw || !OnEvents(s, vs).s.shouldRun
    decreases |vs|
  {
    var r := OnEvent(s, vs[0]);
    if m > 0 && !r.threw {
      NoticeStops(r.s, vs[1..], m - 1);
    }
  }

  /** The number of polls that do not just run into a time limit. */
  function Awake(polls: seq<Poll>): nat {
    if polls == [] then 0 else (if polls[0].PollTimeout? then 0 else 1) + Awake(polls[1..])
  }

  lemma {:induction false} StoppingEnds(s: Loop, polls: seq<Poll>)
    requires s.WellFormed() && !s.shouldRun && s.cancelCounter < Awake(polls) && Awake(polls) > 0
    ensures PollUntilDone(s, polls).1
    decreases |polls|
  {
    var p := ProcessStep(s, polls[0]);
    if p.outcome == Continue {
      StoppingEnds(p.s, polls[1..]);
    }
  }

  /** The stop notice is seen in poll `j`, and at least three polls that do not run into a time limit follow. */
  ghost predicate NoticeAt(polls: seq<Poll>, j: nat, m: nat) {
    && j < |polls| && polls[j].Events? && m < |polls[j].events|
    && polls[j].events[m].Notice? && polls[j].events[m].read != Again
    && Awake(polls[j + 1..]) >= 3
  }

  /** `stop_poll` comes to an end: once the step that sees the stop notice is over, at most three more steps
      are needed that see an event or an error of the poll. */
  lemma {:induction false} StopPollEnds(s: Loop, polls: seq<Poll>, j: nat, m: nat)
    requires s.WellFormed() && s.shouldCancel && s.cancelCounter <= 3 && NoticeAt(polls, j, m)
    ensures PollUntilDone(s, polls).1
    decreases j
  {
    var p := ProcessStep(s, polls[0]);
    if p.outcome == Continue {
      if j == 0 {
        NoticeStops(s, polls[0].events, m);
        StoppingEnds(p.s, polls[1..]);
      } else {
        assert polls[1..][j..] == polls[j + 1..];
        StopPollEnds(p.s, polls[1..], j - 1, m);
      }
    }
  }

  ghost predicate NoticeSeen(polls: seq<Poll>) {
    exists j, m :: NoticeAt(polls, j, m)
  }

  lemma SeenNoticeEnds(s: Loop, polls: seq<Poll>)
    requires s.WellFormed() && s.shouldCancel && s.cancelCounter <= 3 && NoticeSeen(polls)
    ensures PollUntilDone(s, polls).1
  {
    var j, m :| NoticeAt(polls, j, m);
    StopPollEnds(s, polls, j, m);
  }
}
