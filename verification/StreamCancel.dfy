/** What stops the loop, exactly; and what becomes of a request to disable the reading of one stream. */
module StreamCancel {
  import opened Memory
  import opened StreamRead
  import opened StreamModel
  import opened StreamInvariant
  import opened StreamRuns
  import AsyncRead

  // ----- what a completion does to the loop -----

  /** The loop goes on after a read completion exactly if the transfer completed, no callback threw, and it
      could be submitted again.  Then it is in flight again, and a request to cancel it is forgotten. */
  lemma ReadGoesOnIff(s: Loop, c: Completion)
    requires Inv(s) && Boundary(s) && c.entry < |s.entries|
    requires s.entries[c.entry].inFlight && s.entries[c.entry].isReading
    ensures var t, u := Complete(s, c), s.streams[s.entries[c.entry].stream];
      && (t.shouldRun <==>
            && s.shouldRun && c.status == AsyncRead.Completed && c.next.accepted
            && !Throws(Chunks(c.data, s.packetSize, u.modem), c.throwsAt))
      && (t.shouldRun ==>
            t.entries[c.entry].enabled && t.entries[c.entry].inFlight && !t.entries[c.entry].cancelRequested)
  {
    assert EntryOk(s.entries[c.entry], s.streams[s.entries[c.entry].stream]);
  }

  /** What is left of the queue after a write completion, if it is confirmed. */
  function Rest(s: Loop, c: Completion): Stream
    requires c.entry < |s.entries| && s.Has(c.entry)
  {
    var e := s.entries[c.entry];
    var n := Min(c.accepted, |e.buffer|);
    Confirm(Accepted(s.streams[e.stream], e.buffer, n), n)
  }

  /** The loop goes on after a write completion exactly if the transfer was not cancelled, what it sent was
      confirmed, the next fill did not fail, and there was nothing more to send or it could be submitted.
      Any other status counts as a completion.  Then the transfer is in flight again, with the front of the
      queue, unless there is nothing to send, which disables it. */
  lemma WriteGoesOnIff(s: Loop, c: Completion)
    requires Inv(s) && Boundary(s) && c.entry < |s.entries|
    requires s.entries[c.entry].inFlight && !s.entries[c.entry].isReading
    ensures var t, e, a, queue := Complete(s, c), s.entries[c.entry], c.next, Rest(s, c).queue;
      && (t.shouldRun <==>
            && s.shouldRun && c.status != AsyncRead.Cancelled
            && (Min(c.accepted, |e.buffer|) > 0 ==> c.confirm.Confirms?)
            && a.fill.Fill?
            && (FillLength(a.fill.n, queue, e.bufferSize) == 0 || a.accepted))
      && (t.shouldRun ==>
            var f, n := t.entries[c.entry], FillLength(a.fill.n, queue, e.bufferSize);
            && f.buffer == queue[..n] && (f.inFlight <==> n > 0) && (f.enabled <==> n > 0)
            && (n > 0 ==> !f.cancelRequested)
            && t.streams[e.stream] == Rest(s, c))
  {
    assert EntryOk(s.entries[c.entry], s.streams[s.entries[c.entry].stream]);
  }

  // ----- disabling the reading of a stream -----

  /** Serving enable requests leaves a transfer that is enabled already as it is, and the rest of the loop. */
  ghost predicate Undisturbed(s: Loop, t: Loop, i: nat) {
    && i < |s.entries| == |t.entries| && t.entries[i] == s.entries[i] && t.streams == s.streams
    && t == s.(entries := t.entries, doubleSubmit := t.doubleSubmit)
  }

  lemma PutLeaves(s: Loop, k: nat, e: Entry, i: nat)
    requires s.Has(k) && e.stream == s.entries[k].stream && i < |s.entries| && i != k
    ensures Undisturbed(s, Put(s, k, e, s.streams[e.stream]), i)
  {
    assert s.streams[e.stream := s.streams[e.stream]] == s.streams;
  }

  lemma StartLeaves(s: Loop, k: nat, e: Entry, accepted: bool, i: nat)
    requires s.Has(k) && e.stream == s.entries[k].stream && i < |s.entries| && i != k
    ensures Undisturbed(s, Start(s, k, e, accepted).s, i)
  {
    PutLeaves(s, k, e.(inFlight := true, cancelRequested := false), i);
    PutLeaves(s.(doubleSubmit := s.doubleSubmit || e.inFlight), k, e, i);
  }

  lemma SubmitLeaves(s: Loop, k: nat, a: SubmitAnswer, i: nat)
    requires s.Has(k) && i < |s.entries| && i != k
    ensures Undisturbed(s, Submit(s, k, a).s, i)
  {
    var e := s.entries[k];
    var f := if a.fill.Fill? then Filled(e, s.streams[e.stream], a.fill.n) else e;
    StartLeaves(s, k, e, a.accepted, i);
    StartLeaves(s, k, f, a.accepted, i);
    PutLeaves(s, k, e.(enabled := false), i);
    PutLeaves(s, k, f.(enabled := false), i);
  }

  lemma EnableOneLeaves(s: Loop, k: nat, a: SubmitAnswer, i: nat)
    requires s.WellFormed() && k < |s.entries| && i < |s.entries| && s.entries[i].enabled
    ensures Undisturbed(s, EnableOne(s, k, a).s, i)
  {
    if !s.entries[k].enabled {
      var e := s.entries[k].(enabled := true);
      PutLeaves(s, k, e, i);
      SubmitLeaves(Put(s, k, e, s.streams[e.stream]), k, a, i);
    }
  }

  lemma {:induction false} EnableRangeLeaves(s: Loop, fd: int, answers: seq<SubmitAnswer>, k: nat, i: nat)
    requires s.WellFormed() && k <= |s.entries| && i < |s.entries| && s.entries[i].enabled
    ensures Undisturbed(s, EnableRange(s, fd, answers, k).s, i)
    decreases |s.entries| - k
  {
    if k < |s.entries| {
      EnableOneLeaves(s, k, AnswerTo(answers, k), i);
      var r := if s.entries[k].fd == fd then EnableOne(s, k, AnswerTo(answers, k)) else Step(s, false);
      if !r.threw {
        EnableRangeLeaves(r.s, fd, answers, k + 1, i);
      }
    }
  }

  lemma {:induction false} EnableAllLeaves(s: Loop, fds: seq<int>, requested: set<int>, answers: seq<SubmitAnswer>,
                                           i: nat)
    requires s.WellFormed() && i < |s.entries| && s.entries[i].enabled
    ensures Undisturbed(s, EnableAll(s, fds, requested, answers).s, i)
    decreases |fds|
  {
    if fds != [] {
      EnableRangeLeaves(s, fds[0], answers, 0, i);
      var r := if fds[0] in requested then EnableRange(s, fds[0], answers, 0) else Step(s, false);
      if !r.threw {
        EnableAllLeaves(r.s, fds[1..], requested, answers, i);
      }
    }
  }

  /** Nothing but stopping the loop has ended the reading of transfer `i`. */
  ghost predicate KeepsReading(s: Loop, i: nat) {
    && Inv(s) && Boundary(s)
    && (s.shouldRun ==> i < |s.entries| && s.entries[i].isReading && s.entries[i].inFlight)
  }

  lemma CompleteKeepsReading(s: Loop, c: Completion, i: nat)
    requires KeepsReading(s, i)
    ensures KeepsReading(Complete(s, c), i)
  {
    CompleteKeepsInv(s, c);
    if s.shouldRun && c.entry == i {
      ReadGoesOnIff(s, c);
    }
  }

  lemma {:induction false} CompleteAllKeepsReading(s: Loop, cs: seq<Completion>, i: nat)
    requires KeepsReading(s, i)
    ensures KeepsReading(CompleteAll(s, cs), i)
    decreases |cs|
  {
    if cs != [] {
      CompleteKeepsReading(s, cs[0], i);
      CompleteAllKeepsReading(Complete(s, cs[0]), cs[1..], i);
    }
  }

  lemma EventKeepsReading(s: Loop, v: Event, i: nat)
    requires KeepsReading(s, i)
    ensures !OnEvent(s, v).threw ==> KeepsReading(OnEvent(s, v).s, i)
  {
    EventKeepsInv(s, v);
    if s.shouldRun {
      assert EntryOk(s.entries[i], s.streams[s.entries[i].stream]);
      match v
      case Usb(cs, _) => CompleteAllKeepsReading(s, cs, i);
      case Notice(_, _, order, answers) => EnableAllLeaves(s.(listReset := {}), order, s.listEnable, answers, i);
      case Timer(_, _, _) =>
      case Ready(fd, answers) => EnableRangeLeaves(s, fd, answers, 0, i);
      case PollFd(_) =>
    }
  }

  lemma {:induction false} EventsKeepReading(s: Loop, vs: seq<Event>, i: nat)
    requires KeepsReading(s, i)
    ensures !OnEvents(s, vs).threw ==> KeepsReading(OnEvents(s, vs).s, i)
    decreases |vs|
  {
    if vs != [] && !OnEvent(s, vs[0]).threw {
      EventKeepsReading(s, vs[0], i);
      EventsKeepReading(OnEvent(s, vs[0]).s, vs[1..], i);
    }
  }

  lemma ActKeepsReading(s: Loop, a: Action, i: nat)
    requires KeepsReading(s, i)
    ensures KeepsReading(Act(s, a).s, i)
  {
    ActKeepsInv(s, a);
    if a.TakeStep? && a.poll.Events? {
      EventsKeepReading(s, a.poll.events, i);
    }
  }

  /** The reading of a transfer never ends while the loop runs.  Whatever happens from a state in which it is in
      flight, completions of all streams, notices, timers, appended data and any requests, to disable it or
      others: either the loop stops, with all streams, or the transfer is in flight. */
  lemma {:induction false} ReadingEndsWithLoop(s: Loop, actions: seq<Action>, i: nat)
    requires Inv(s) && Boundary(s) && i < |s.entries| && s.entries[i].isReading
    requires s.shouldRun ==> s.entries[i].inFlight
    ensures var t := Run(s, actions);
      t.shouldRun ==> t.entries[i].enabled && t.entries[i].inFlight
    decreases |actions|
  {
    if actions == [] {
      assert EntryOk(s.entries[i], s.streams[s.entries[i].stream]);
    } else {
      ActKeepsReading(s, actions[0], i);
      if Act(s, actions[0]).s.shouldRun {
        ReadingEndsWithLoop(Act(s, actions[0]).s, actions[1..], i);
      }
    }
  }

  /** A loop that runs, with read transfer `i` of descriptor `fd` in flight. */
  ghost predicate Reading(s: Loop, fd: int, i: nat) {
    && Inv(s) && Boundary(s) && s.shouldRun && !s.shouldCancel
    && i < |s.entries| && s.entries[i].isReading && s.entries[i].inFlight && s.entries[i].fd == fd
  }

  /** The state in which the notice of a disable request leaves the loop. */
  function Noticed(s: Loop, fd: int, v: Event): Polled
    requires s.WellFormed()
  {
    ProcessStep(Act(s, DisableReading(fd)).s, Events([v]))
  }

  lemma OneEvent(s: Loop, v: Event)
    requires s.WellFormed()
    ensures OnEvents(s, [v]) == OnEvent(s, v)
  {
    assert [v][1..] == [];
  }

  /** The notice asks libusb to cancel the transfer, and forgets the request. */
  lemma NoticeAsksToCancel(s: Loop, fd: int, i: nat, v: Event)
    requires Reading(s, fd, i) && v.Notice? && v.read == Readable && Noticed(s, fd, v).outcome == Continue
    ensures var t := Noticed(s, fd, v).s;
      && Inv(t) && Boundary(t) && t.shouldRun && !t.shouldCancel && fd !in t.listDisable
      && t.packetSize == s.packetSize && t.streams == s.streams
      && |t.entries| == |s.entries| && t.entries[i] == s.entries[i].(cancelRequested := true)
  {
    var s1 := Act(s, DisableReading(fd)).s;
    assert EntryOk(s.entries[i], s.streams[s.entries[i].stream]);
    ActKeepsInv(s, DisableReading(fd));
    ProcessStepKeepsInv(s1, Events([v]));
    EnableAllLeaves(s1.(listReset := {}), v.order, s1.listEnable, v.answers, i);
    OneEvent(s1, v);
  }

  /** The three steps of disabling a stream: the request, its notice, and the completion of its transfer. */
  function Disabled(s: Loop, fd: int, v: Event, c: Completion): Loop
    requires s.WellFormed()
  {
    ProcessStep(Noticed(s, fd, v).s, Events([Usb([c], true)])).s
  }

  lemma OneCompletion(s: Loop, c: Completion)
    requires s.WellFormed()
    ensures ProcessStep(s, Events([Usb([c], true)])) ==
      if Complete(s, c).shouldRun then Polled(Complete(s, c), Continue) else ShutDown(Complete(s, c))
  {
    assert [c][1..] == [];
    assert CompleteAll(s, [c]) == CompleteAll(Complete(s, c), []);
    OneEvent(s, Usb([c], true));
  }

  lemma StopIsStopped(s: Loop, i: nat, c: Completion)
    requires s.WellFormed() && s.Has(i) && s.shouldRun && !ReadCallback(s, i, c).shouldRun
    ensures ReadCallback(s, i, c).shouldCancel
  {
  }

  lemma ReadKeepsLists(s: Loop, i: nat, c: Completion)
    requires s.WellFormed() && s.Has(i)
    ensures ReadCallback(s, i, c).listDisable == s.listDisable
  {
  }

  /** What disabling the reading of one stream does, exactly.  If the transfer still completes, is handed
      over and can be submitted again, the loop goes on: the transfer is in flight, nobody has asked to
      cancel it, and the request is lost.  Otherwise the whole loop stops, with all other streams.  There is
      no third outcome, in which only this stream stops. */
  lemma DisableIff(s: Loop, fd: int, i: nat, v: Event, c: Completion)
    requires Reading(s, fd, i) && v.Notice? && v.read == Readable && Noticed(s, fd, v).outcome == Continue
    requires c.entry == i
    ensures var t, u := Disabled(s, fd, v, c), s.streams[s.entries[i].stream];
      && |t.entries| == |s.entries|
      && (t.shouldRun <==>
            && c.status == AsyncRead.Completed && c.next.accepted
            && !Throws(Chunks(c.data, s.packetSize, u.modem), c.throwsAt))
      && (t.shouldRun ==>
            && t.entries[i].enabled && t.entries[i].inFlight && !t.entries[i].cancelRequested
            && fd !in t.listDisable)
      && (!t.shouldRun ==> t.shouldCancel)
  {
    NoticeAsksToCancel(s, fd, i, v);
    var q := Noticed(s, fd, v).s;
    ReadGoesOnIff(q, c);
    OneCompletion(q, c);
    ReadKeepsLists(q, i, c);
    if !Complete(q, c).shouldRun {
      StopIsStopped(q, i, c);
    }
  }

  // ----- two inputs -----

  /** Two streams that are read, with descriptors 5 and 6. */
  const TWO_READERS := Setup(
    [NewStream(false, []), NewStream(false, [])], 2,
    [Transfer(0, true, 5, 2, true), Transfer(1, true, 6, 2, true)], [], true, [])

  /** A completion of the first reader, after which it could be submitted again. */
  function ReadResultOf(status: Status, data: seq<byte>): Completion {
    Completion(0, status, data, 0, None, Confirms, SubmitAnswer(Fill(0), true))
  }

  const READ_NOTICE := Notice(Readable, false, [], [])

  /** Creating a reader and submitting it. */
  lemma ReaderStarts(s: Loop, x: Transfer)
    requires s.WellFormed() && s.shouldRun && x.isReading && x.startEnabled && x.bufferSize > 0
    requires x.stream < |s.streams|
    ensures Submit(Created(s, x, []), |s.entries|, AnswerTo([], |s.entries|))
         == Step(s.(entries := s.entries + [NewEntry(x).(inFlight := true)]), false)
  {
    var n, e := |s.entries|, NewEntry(x).(inFlight := true);
    var t := Created(s, x, []);
    assert t == s.(entries := s.entries + [NewEntry(x)]) && t.entries[n] == NewEntry(x);
    assert t.entries[n := e] == s.entries + [e] && t.streams[x.stream := t.streams[x.stream]] == s.streams;
  }

  lemma TwoReadersStart() returns (s: Loop)
    ensures TWO_READERS.Proper() && Init(TWO_READERS) == Step(s, false)
    ensures |s.entries| == 2 && s == Fresh(TWO_READERS.streams, 2).(entries := s.entries)
    ensures s.entries[0] == NewEntry(TWO_READERS.transfers[0]).(inFlight := true)
    ensures s.entries[1] == NewEntry(TWO_READERS.transfers[1]).(inFlight := true)
  {
    var b := TWO_READERS;
    var s0 := Fresh(b.streams, 2);
    var e := NewEntry(b.transfers[0]).(inFlight := true);
    var s1 := s0.(entries := s0.entries + [e]);
    s := s1.(entries := s1.entries + [NewEntry(b.transfers[1]).(inFlight := true)]);
    ReaderStarts(s0, b.transfers[0]);
    ReaderStarts(s1, b.transfers[1]);
    assert b.transfers[1..] == [b.transfers[1]] && b.transfers[1..][1..] == [];
    assert InitFrom(s1, b.transfers[1..], [], []) == InitFrom(s, [], [], []);
  }

  lemma TwoReadersRun()
    ensures TWO_READERS.Proper() && !Init(TWO_READERS).threw
    ensures var s := Init(TWO_READERS).s;
      && Reading(s, 5, 0) && Reading(s, 6, 1) && |s.entries| == 2 && s.listEnable == {} && s.listReset == {}
      && s.packetSize == 2 && s.streams == TWO_READERS.streams
  {
    var s := TwoReadersStart();
    InitIsSafe(TWO_READERS);
  }

  lemma NoticeContinues(s: Loop, fd: int, i: nat)
    requires Reading(s, fd, i) && s.listEnable == {} && s.listReset == {}
    ensures Noticed(s, fd, READ_NOTICE).outcome == Continue
  {
    var s1 := Act(s, DisableReading(fd)).s;
    OneEvent(s1, READ_NOTICE);
  }

  /** If the transfer is cancelled in time, the reading of the other stream ends as well. */
  lemma CancelledStopsAll()
    ensures TWO_READERS.Proper()
    ensures var c := ReadResultOf(AsyncRead.Cancelled, []);
      !Disabled(Init(TWO_READERS).s, 5, READ_NOTICE, c).shouldRun
  {
    TwoReadersRun();
    var s := Init(TWO_READERS).s;
    NoticeContinues(s, 5, 0);
    DisableIff(s, 5, 0, READ_NOTICE, ReadResultOf(AsyncRead.Cancelled, []));
  }

  /** If it completes before it is cancelled, the request is lost, and the stream is read on. */
  lemma CompletedLosesRequest()
    ensures TWO_READERS.Proper()
    ensures var c := ReadResultOf(AsyncRead.Completed, [1, 96]);
      var t := Disabled(Init(TWO_READERS).s, 5, READ_NOTICE, c);
      && t.shouldRun && |t.entries| == 2
      && t.entries[0].inFlight && !t.entries[0].cancelRequested && 5 !in t.listDisable
  {
    TwoReadersRun();
    var s := Init(TWO_READERS).s;
    NoticeContinues(s, 5, 0);
    DisableIff(s, 5, 0, READ_NOTICE, ReadResultOf(AsyncRead.Completed, [1, 96]));
  }
}
