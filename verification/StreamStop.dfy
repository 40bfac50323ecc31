/** What a stop means: when a step ends the loop, that a loop which stops was told to, and that a loop which is
    stopping starts nothing. */
module StreamStop {
  import opened Memory
  import opened StreamModel
  import opened StreamRuns

  // ----- the outcome of a step -----

  /** How a step ends, exactly.  It throws if an event does; it ends the loop if the poll fails, or if the loop is
      stopping and all transfers are disabled or the cancel counter is used up; and otherwise it goes on.  After
      a failing poll or an exception the loop was told to stop. */
  lemma OutcomeIff(s: Loop, poll: Poll)
    requires s.WellFormed()
    ensures var p := ProcessStep(s, poll);
      && (p.outcome == Exception <==> poll.Events? && OnEvents(s, poll.events).threw)
      && (p.outcome == Finish <==>
            || poll.PollFails?
            || (&& poll.Events? && !OnEvents(s, poll.events).threw && !OnEvents(s, poll.events).s.shouldRun
                && (|| s.cancelCounter <= 0
                    || forall e :: e in OnEvents(s, poll.events).s.entries ==> !e.enabled)))
      && (p.outcome == Exception || poll.PollFails? ==> !p.s.shouldRun && p.s.shouldCancel)
      && (poll.PollTimeout? ==> p.s == s)
  {
    if poll.Events? {
      var t := OnEvents(s, poll.events).s;
      assert AllDisabled(t) <==> forall e :: e in t.entries ==> !e.enabled;
    }
  }

  // ----- stopping is recorded -----

  /** A loop that does not run was told to stop, so that requests of other threads are ignored. */
  predicate Recorded(s: Loop) {
    !s.shouldRun ==> s.shouldCancel
  }

  lemma CompleteRecords(s: Loop, c: Completion)
    requires s.WellFormed() && Recorded(s)
    ensures Recorded(Complete(s, c))
  {
  }

  lemma {:induction false} CompleteAllRecords(s: Loop, cs: seq<Completion>)
    requires s.WellFormed() && Recorded(s)
    ensures Recorded(CompleteAll(s, cs))
    decreases |cs|
  {
    if cs != [] {
      CompleteRecords(s, cs[0]);
      CompleteAllRecords(Complete(s, cs[0]), cs[1..]);
    }
  }

  lemma EnableOneGoesOn(s: Loop, i: nat, a: SubmitAnswer)
    requires s.WellFormed() && i < |s.entries|
    ensures EnableOne(s, i, a).s.shouldRun == s.shouldRun
  {
    var e := s.entries[i];
    SubmitKeepsKinds(Put(s, i, e.(enabled := true), s.streams[e.stream]), i, a);
  }

  lemma {:induction false} EnableRangeGoesOn(s: Loop, fd: int, answers: seq<SubmitAnswer>, i: nat)
    requires s.WellFormed() && i <= |s.entries|
    ensures EnableRange(s, fd, answers, i).s.shouldRun == s.shouldRun
    decreases |s.entries| - i
  {
    if i < |s.entries| {
      EnableOneGoesOn(s, i, AnswerTo(answers, i));
      var r := if s.entries[i].fd == fd then EnableOne(s, i, AnswerTo(answers, i)) else Step(s, false);
      if !r.threw {
        EnableRangeGoesOn(r.s, fd, answers, i + 1);
      }
    }
  }

  lemma {:induction false} EnableAllGoesOn(s: Loop, fds: seq<int>, requested: set<int>, answers: seq<SubmitAnswer>)
    requires s.WellFormed()
    ensures EnableAll(s, fds, requested, answers).s.shouldRun == s.shouldRun
    decreases |fds|
  {
    if fds != [] {
      EnableRangeGoesOn(s, fds[0], answers, 0);
      var r := if fds[0] in requested then EnableRange(s, fds[0], answers, 0) else Step(s, false);
      if !r.threw {
        EnableAllGoesOn(r.s, fds[1..], requested, answers);
      }
    }
  }

  /** What stops the loop apart from completions, the timer and a failing poll: the notice, if it cannot be read or
      the loop was told to stop, and a descriptor of libusb that cannot be added or removed.  An error of
      libusb's event handling is an exception. */
  lemma EventGoesOnIff(s: Loop, v: Event)
    requires s.WellFormed()
    ensures var r := OnEvent(s, v);
      match v
      case Usb(_, ok) => r.threw == !ok
      case Notice(read, _, _, _) =>
        r.s.shouldRun <==> s.shouldRun && read != Fails && (read == Again || !s.shouldCancel)
      case Timer(_, _, _) => true
      case Ready(_, _) => r.s.shouldRun == s.shouldRun
      case PollFd(ok) => !r.threw && (r.s.shouldRun <==> s.shouldRun && ok)
  {
    match v
    case Notice(_, _, order, answers) => EnableAllGoesOn(s.(listReset := {}), order, s.listEnable, answers);
    case Ready(fd, answers) => EnableRangeGoesOn(s, fd, answers, 0);
    case _ =>
  }

  lemma EventRecords(s: Loop, v: Event)
    requires s.WellFormed() && Recorded(s)
    ensures Recorded(OnEvent(s, v).s)
  {
    match v
    case Usb(cs, _) => CompleteAllRecords(s, cs);
    case Notice(_, _, order, answers) => EnableAllGoesOn(s.(listReset := {}), order, s.listEnable, answers);
    case Timer(_, _, _) =>
    case Ready(fd, answers) => EnableRangeGoesOn(s, fd, answers, 0);
    case PollFd(_) =>
  }

  lemma {:induction false} EventsRecord(s: Loop, vs: seq<Event>)
    requires s.WellFormed() && Recorded(s)
    ensures Recorded(OnEvents(s, vs).s)
    decreases |vs|
  {
    if vs != [] {
      EventRecords(s, vs[0]);
      if !OnEvent(s, vs[0]).threw {
        EventsRecord(OnEvent(s, vs[0]).s, vs[1..]);
      }
    }
  }

  /** In every run: a loop that has stopped running was told to stop. */
  lemma {:induction false} StopIsRecorded(s: Loop, actions: seq<Action>)
    requires s.WellFormed() && Recorded(s)
    ensures Recorded(Run(s, actions))
    decreases |actions|
  {
    if actions != [] {
      var a := actions[0];
      if a.TakeStep? && a.poll.Events? {
        EventsRecord(s, a.poll.events);
      }
      StopIsRecorded(Act(s, a).s, actions[1..]);
    }
  }

  // ----- a stopping loop is quiet -----

  /** From `s` on nothing was submitted, confirmed or handed over. */
  ghost predicate Quiet(s: Loop, t: Loop) {
    && !s.shouldRun && !t.shouldRun && |t.entries| == |s.entries| && |t.streams| == |s.streams|
    && (forall i :: 0 <= i < |s.entries| && t.entries[i].inFlight ==> s.entries[i].inFlight)
    && (forall k :: 0 <= k < |s.streams| ==>
          t.streams[k].confirmed == s.streams[k].confirmed && t.streams[k].received == s.streams[k].received)
  }

  lemma QuietTwice(s: Loop, m: Loop, t: Loop)
    requires Quiet(s, m) && Quiet(m, t)
    ensures Quiet(s, t)
  {
  }

  lemma PutQuiet(s: Loop, q: Loop, i: nat, e: Entry, u: Stream)
    requires s.Has(i) && !s.shouldRun && q.entries == s.entries && q.streams == s.streams && !q.shouldRun
    requires e.stream == s.entries[i].stream && (e.inFlight ==> s.entries[i].inFlight)
    requires u.confirmed == s.streams[e.stream].confirmed && u.received == s.streams[e.stream].received
    ensures Quiet(s, Put(q, i, e, u))
  {
  }

  lemma WriteQuiet(s: Loop, i: nat, c: Completion)
    requires s.Has(i) && !s.shouldRun
    ensures Quiet(s, WriteCallback(s, i, c))
  {
    var e := Returned(s.entries[i]);
    var n := Min(c.accepted, |e.buffer|);
    var u := Accepted(s.streams[e.stream], e.buffer, n);
    PutQuiet(s, s.(strayCallback := true), i, e, u);
    PutQuiet(s, Stopped(s), i, e.(buffer := [], enabled := false), u);
    assert WriteCallback(s, i, c) ==
      if e.enabled then Put(Stopped(s), i, e.(buffer := [], enabled := false), u)
      else Put(s.(strayCallback := true), i, e, u);
  }

  lemma ReadQuiet(s: Loop, i: nat, c: Completion)
    requires s.Has(i) && s.packetSize >= 1 && !s.shouldRun
    ensures Quiet(s, ReadCallback(s, i, c))
  {
    var e := Returned(s.entries[i]);
    var u := Arrived(s.streams[e.stream], c.data);
    PutQuiet(s, s.(strayCallback := true), i, e, u);
    PutQuiet(s, Stopped(s), i, e.(enabled := false), u);
    assert ReadCallback(s, i, c) ==
      if e.enabled then Put(Stopped(s), i, e.(enabled := false), u) else Put(s.(strayCallback := true), i, e, u);
  }

  lemma {:induction false} CompleteAllQuiet(s: Loop, cs: seq<Completion>)
    requires s.WellFormed() && !s.shouldRun
    ensures Quiet(s, CompleteAll(s, cs))
    decreases |cs|
  {
    if cs != [] {
      var c := cs[0];
      if c.entry < |s.entries| && s.entries[c.entry].inFlight {
        WriteQuiet(s, c.entry, c);
        ReadQuiet(s, c.entry, c);
      }
      CompleteAllQuiet(Complete(s, c), cs[1..]);
      QuietTwice(s, Complete(s, c), CompleteAll(s, cs));
    }
  }

  lemma EnableOneQuiet(s: Loop, i: nat, a: SubmitAnswer)
    requires s.WellFormed() && !s.shouldRun && i < |s.entries|
    ensures Quiet(s, EnableOne(s, i, a).s) && !EnableOne(s, i, a).threw
  {
    var e := s.entries[i];
    PutQuiet(s, s, i, e.(enabled := true), s.streams[e.stream]);
  }

  lemma {:induction false} EnableRangeQuiet(s: Loop, fd: int, answers: seq<SubmitAnswer>, i: nat)
    requires s.WellFormed() && !s.shouldRun && i <= |s.entries|
    ensures Quiet(s, EnableRange(s, fd, answers, i).s)
    decreases |s.entries| - i
  {
    if i < |s.entries| {
      EnableOneQuiet(s, i, AnswerTo(answers, i));
      var r := if s.entries[i].fd == fd then EnableOne(s, i, AnswerTo(answers, i)) else Step(s, false);
      EnableRangeQuiet(r.s, fd, answers, i + 1);
      QuietTwice(s, r.s, EnableRange(s, fd, answers, i).s);
    }
  }

  lemma EventQuiet(s: Loop, v: Event)
    requires s.WellFormed() && !s.shouldRun
    ensures Quiet(s, OnEvent(s, v).s)
  {
    match v
    case Usb(cs, _) => CompleteAllQuiet(s, cs);
    case Notice(_, _, _, _) =>
    case Timer(_, _, _) =>
    case Ready(fd, answers) => EnableRangeQuiet(s, fd, answers, 0);
    case PollFd(_) =>
  }

  lemma {:induction false} EventsQuiet(s: Loop, vs: seq<Event>)
    requires s.WellFormed() && !s.shouldRun
    ensures Quiet(s, OnEvents(s, vs).s)
    decreases |vs|
  {
    if vs != [] {
      EventQuiet(s, vs[0]);
      var m := OnEvent(s, vs[0]);
      if !m.threw {
        EventsQuiet(m.s, vs[1..]);
        QuietTwice(s, m.s, OnEvents(s, vs).s);
      }
    }
  }

  lemma ActQuiet(s: Loop, a: Action)
    requires s.WellFormed() && !s.shouldRun
    ensures Quiet(s, Act(s, a).s)
  {
    if a.TakeStep? && a.poll.Events? {
      EventsQuiet(s, a.poll.events);
      var t := OnEvents(s, a.poll.events).s;
      assert Quiet(t, ShutDown(t).s);
      QuietTwice(s, t, Act(s, a).s);
    }
  }

  /** Once a loop does not run any more, whatever happens to it: no transfer that libusb does not own is submitted,
      no user gets anything or is asked for anything, and no byte is confirmed. */
  lemma {:induction false} StoppingIsQuiet(s: Loop, actions: seq<Action>)
    requires s.WellFormed() && !s.shouldRun
    ensures Quiet(s, Run(s, actions))
    decreases |actions|
  {
    if actions != [] {
      var m := Act(s, actions[0]).s;
      ActQuiet(s, actions[0]);
      StoppingIsQuiet(m, actions[1..]);
      QuietTwice(s, m, Run(s, actions));
    }
  }
}
