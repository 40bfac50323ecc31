/** Stopping a loop and starting it again: what the device gets twice. */
module StreamRestart {
  import opened Memory
  import opened StreamModel
  import opened StreamInvariant
  import opened StreamRuns
  import AsyncRead
  import StreamCancel

  // ----- when the device is ahead of the confirmations -----

  /** A write completion of stream `k` that sent something nobody confirms: the loop is stopping, the transfer
      was cancelled half-way, or the confirmation failed before the queue moved. */
  predicate LeavesAhead(s: Loop, c: Completion, k: nat) {
    && c.entry < |s.entries|
    && var e := s.entries[c.entry];
       && e.stream == k && !e.isReading && e.inFlight && Min(c.accepted, |e.buffer|) > 0
       && (!s.shouldRun || c.status == AsyncRead.Cancelled || c.confirm == ConfirmFails(false))
  }

  /** The device has what was confirmed, and no more. */
  predicate Level(s: Loop, k: nat) {
    k < |s.streams| && s.streams[k].device == s.streams[k].confirmed
  }

  lemma WriteLevelIff(s: Loop, c: Completion)
    requires Inv(s) && Boundary(s) && c.entry < |s.entries|
    requires s.entries[c.entry].inFlight && !s.entries[c.entry].isReading
    ensures var k := s.entries[c.entry].stream; Level(Complete(s, c), k) <==> !LeavesAhead(s, c, k)
  {
    var e := s.entries[c.entry];
    var u, n := s.streams[e.stream], Min(c.accepted, |e.buffer|);
    assert EntryOk(e, u);
    AcceptedIsPrefix(u, e.buffer, n);
    if n > 0 {
      assert |Accepted(u, e.buffer, n).device| == |u.confirmed| + n;
    }
  }

  /** Nothing else changes whether a stream is level, and what is ahead once stays ahead. */
  lemma CompleteLevelIff(s: Loop, c: Completion, k: nat)
    requires Inv(s) && Boundary(s) && k < |s.streams|
    ensures Level(Complete(s, c), k) <==> Level(s, k) && !LeavesAhead(s, c, k)
  {
    if c.entry < |s.entries| && s.entries[c.entry].inFlight {
      var e := s.entries[c.entry];
      assert EntryOk(e, s.streams[e.stream]);
      if !e.isReading && e.stream == k {
        WriteLevelIff(s, c);
      }
    }
  }

  /** Some completion in a run leaves stream `k` ahead. */
  predicate LeftAhead(s: Loop, cs: seq<Completion>, k: nat)
    requires s.WellFormed()
    decreases |cs|
  {
    cs != [] && (LeavesAhead(s, cs[0], k) || LeftAhead(Complete(s, cs[0]), cs[1..], k))
  }

  predicate EventsLeaveAhead(s: Loop, vs: seq<Event>, k: nat)
    requires s.WellFormed()
    decreases |vs|
  {
    && vs != []
    && (|| (vs[0].Usb? && LeftAhead(s, vs[0].completions, k))
        || (!OnEvent(s, vs[0]).threw && EventsLeaveAhead(OnEvent(s, vs[0]).s, vs[1..], k)))
  }

  predicate RunLeavesAhead(s: Loop, actions: seq<Action>, k: nat)
    requires s.WellFormed()
    decreases |actions|
  {
    && actions != []
    && var a := actions[0];
       || (a.TakeStep? && a.poll.Events? && EventsLeaveAhead(s, a.poll.events, k))
       || RunLeavesAhead(Act(s, a).s, actions[1..], k)
  }

  lemma {:induction false} CompleteAllLevelIff(s: Loop, cs: seq<Completion>, k: nat)
    requires Inv(s) && Boundary(s) && k < |s.streams|
    ensures Level(CompleteAll(s, cs), k) <==> Level(s, k) && !LeftAhead(s, cs, k)
    decreases |cs|
  {
    if cs != [] {
      CompleteLevelIff(s, cs[0], k);
      CompleteKeepsInv(s, cs[0]);
      CompleteAllLevelIff(Complete(s, cs[0]), cs[1..], k);
    }
  }

  lemma EnableOneKeepsStreams(s: Loop, i: nat, a: SubmitAnswer)
    requires s.WellFormed() && i < |s.entries|
    ensures EnableOne(s, i, a).s.streams == s.streams
  {
    var e := s.entries[i];
    if !e.enabled {
      SubmitKeepsKinds(Put(s, i, e.(enabled := true), s.streams[e.stream]), i, a);
    }
  }

  lemma {:induction false} EnableRangeKeepsStreams(s: Loop, fd: int, answers: seq<SubmitAnswer>, i: nat)
    requires s.WellFormed() && i <= |s.entries|
    ensures EnableRange(s, fd, answers, i).s.streams == s.streams
    decreases |s.entries| - i
  {
    if i < |s.entries| {
      var r := if s.entries[i].fd == fd then EnableOne(s, i, AnswerTo(answers, i)) else Step(s, false);
      EnableOneKeepsStreams(s, i, AnswerTo(answers, i));
      if !r.threw {
        EnableRangeKeepsStreams(r.s, fd, answers, i + 1);
      }
    }
  }

  lemma {:induction false} EnableAllKeepsStreams(s: Loop, fds: seq<int>, requested: set<int>,
                                                 answers: seq<SubmitAnswer>)
    requires s.WellFormed()
    ensures EnableAll(s, fds, requested, answers).s.streams == s.streams
    decreases |fds|
  {
    if fds != [] {
      EnableRangeKeepsStreams(s, fds[0], answers, 0);
      var r := if fds[0] in requested then EnableRange(s, fds[0], answers, 0) else Step(s, false);
      if !r.threw {
        EnableAllKeepsStreams(r.s, fds[1..], requested, answers);
      }
    }
  }

  lemma EventLevelIff(s: Loop, v: Event, k: nat)
    requires Inv(s) && Boundary(s) && k < |s.streams|
    ensures Level(OnEvent(s, v).s, k) <==> Level(s, k) && !(v.Usb? && LeftAhead(s, v.completions, k))
  {
    match v
    case Usb(cs, _) => CompleteAllLevelIff(s, cs, k);
    case Notice(_, _, order, answers) => EnableAllKeepsStreams(s.(listReset := {}), order, s.listEnable, answers);
    case Timer(_, _, _) =>
    case Ready(fd, answers) => EnableRangeKeepsStreams(s, fd, answers, 0);
    case PollFd(_) =>
  }

  lemma {:induction false} EventsLevelIff(s: Loop, vs: seq<Event>, k: nat)
    requires Inv(s) && Boundary(s) && k < |s.streams|
    ensures Level(OnEvents(s, vs).s, k) <==> Level(s, k) && !EventsLeaveAhead(s, vs, k)
    decreases |vs|
  {
    if vs != [] {
      EventLevelIff(s, vs[0], k);
      EventKeepsInv(s, vs[0]);
      if !OnEvent(s, vs[0]).threw {
        EventsLevelIff(OnEvent(s, vs[0]).s, vs[1..], k);
      }
    }
  }

  lemma ActLevelIff(s: Loop, a: Action, k: nat)
    requires Inv(s) && Boundary(s) && k < |s.streams|
    ensures Level(Act(s, a).s, k) <==>
      Level(s, k) && !(a.TakeStep? && a.poll.Events? && EventsLeaveAhead(s, a.poll.events, k))
  {
    if a.TakeStep? && a.poll.Events? {
      EventsLevelIff(s, a.poll.events, k);
    }
  }

  /** A run leaves the device ahead of the confirmations exactly if one of its completions does. */
  lemma {:induction false} RunLevelIff(s: Loop, actions: seq<Action>, k: nat)
    requires Inv(s) && Boundary(s) && k < |s.streams|
    ensures Level(Run(s, actions), k) <==> Level(s, k) && !RunLeavesAhead(s, actions, k)
    decreases |actions|
  {
    if actions != [] {
      ActLevelIff(s, actions[0], k);
      ActKeepsInv(s, actions[0]);
      RunLevelIff(Act(s, actions[0]).s, actions[1..], k);
    }
  }

  lemma {:induction false} InitKeepsStreams(s: Loop, xs: seq<Transfer>, answers: seq<SubmitAnswer>, joins: seq<bool>)
    requires s.WellFormed() && forall x :: x in xs ==> x.stream < |s.streams|
    ensures InitFrom(s, xs, answers, joins).s.streams == s.streams
    decreases |xs|
  {
    if xs != [] {
      var n := |s.entries|;
      var t := Created(s, xs[0], joins);
      SubmitKeepsKinds(t, n, AnswerTo(answers, n));
      InitKeepsStreams(Submit(t, n, AnswerTo(answers, n)).s, xs[1..], answers, joins);
    }
  }

  /** The same for a whole life of a loop. */
  lemma LifeLevelIff(t: Loop, b: Setup, actions: seq<Action>, k: nat)
    requires Reached(t, b, actions) && k < |t.streams|
    ensures Level(t, k) <==> !RunLeavesAhead(Init(b).s, actions, k)
  {
    InitIsSafe(b);
    InitKeepsStreams(Joined(Fresh(b.streams, b.packetSize), b.ready), b.transfers, b.answers, b.joins);
    RunLevelIff(Init(b).s, actions, k);
  }

  // ----- the second life -----

  /** What the next life of a loop finds of a stream: the queue, and nothing transferred yet. */
  function Restarted(u: Stream): Stream {
    NewStream(u.modem, u.queue)
  }

  /** What the device is ahead of the confirmations. */
  function Ahead(u: Stream): seq<byte>
    requires u.confirmed <= u.device
  {
    u.device[|u.confirmed|..]
  }

  lemma SplitAhead(u: Stream)
    requires u.appended == u.confirmed + u.queue && u.confirmed <= u.device <= u.appended
    ensures u.device == u.confirmed + Ahead(u) && Ahead(u) <= u.queue
  {
    assert u.appended[|u.confirmed|..] == u.queue;
  }

  lemma PrefixBehind(a: seq<byte>, b: seq<byte>, c: seq<byte>)
    requires b <= c
    ensures a + [] + b == a + b <= a + c
  {
  }

  /** A second start sends again what the device is ahead: over both lives it gets what was confirmed in the
      first, the bytes ahead, and then, as the second goes on, exactly what is confirmed in it.  Once
      everything is sent, the device has a prefix of what was appended exactly if no completion of the first
      life left it ahead. */
  lemma RestartRepeats(t: Loop, b: Setup, actions: seq<Action>, t': Loop, b': Setup, actions': seq<Action>, k: nat)
    requires Reached(t, b, actions) && Reached(t', b', actions')
    requires k < |t.streams| == |t'.streams| == |b'.streams| && b'.streams[k] == Restarted(t.streams[k])
    ensures var u, v := t.streams[k], t'.streams[k];
      var device, appended := u.device + v.device, u.confirmed + v.appended;
      var ahead := RunLeavesAhead(Init(b).s, actions, k);
      && u.confirmed <= u.device && Ahead(u) <= u.queue && (Ahead(u) != [] <==> ahead)
      && device == u.confirmed + Ahead(u) + v.device && v.device <= v.appended
      && (!ahead ==> device <= appended)
      && (t'.shouldRun ==> device == u.confirmed + Ahead(u) + v.confirmed)
      && (t'.shouldRun && v.queue == [] ==> (device <= appended <==> !ahead))
  {
    WriteExactness(t, b, actions);
    WriteExactness(t', b', actions');
    LifeLevelIff(t, b, actions, k);
    var u, v := t.streams[k], t'.streams[k];
    SplitAhead(u);
    PrefixBehind(u.confirmed, v.device, v.appended);
  }

  // ----- an input -----

  /** One stream that is written, with one byte to send. */
  const ONE_WRITER := Setup([NewStream(false, [7])], 2, [Transfer(0, false, 0, 1, true)],
                            [SubmitAnswer(Fill(1), true)], true, [])

  /** A step in which its transfer comes back with that byte sent. */
  function CompletesWith(status: Status): seq<Action> {
    [TakeStep(Events([Usb([Completion(0, status, [], 1, None, Confirms, SubmitAnswer(Fill(0), true))], true)]))]
  }

  lemma OneWriterStart() returns (s: Loop)
    ensures ONE_WRITER.Proper() && Init(ONE_WRITER) == Step(s, false)
    ensures s.WellFormed() && s.shouldRun && s.streams == ONE_WRITER.streams
    ensures s.entries == [NewEntry(ONE_WRITER.transfers[0]).(buffer := [7], inFlight := true)]
  {
    var b := ONE_WRITER;
    var s0 := Fresh(b.streams, 2);
    var e := NewEntry(b.transfers[0]);
    s := s0.(entries := [e.(buffer := [7], inFlight := true)]);
    assert b.streams[0].queue[..1] == [7];
    assert Created(s0, b.transfers[0], []).entries == [e];
    assert Submit(Created(s0, b.transfers[0], []), 0, b.answers[0]) == Step(s, false);
    assert b.transfers[1..] == [];
    assert InitFrom(s, [], b.answers, []) == Step(s, false);
  }

  lemma OneCompletionRun(s: Loop, status: Status)
    requires s.WellFormed()
    ensures var c := Completion(0, status, [], 1, None, Confirms, SubmitAnswer(Fill(0), true));
      Run(s, CompletesWith(status)) == if Complete(s, c).shouldRun then Complete(s, c) else ShutDown(Complete(s, c)).s
  {
    var c := Completion(0, status, [], 1, None, Confirms, SubmitAnswer(Fill(0), true));
    StreamCancel.OneCompletion(s, c);
    assert CompletesWith(status)[1..] == [];
  }

  /** The byte goes out just before its transfer is cancelled; the next start sends it again. */
  lemma SentAgain()
    ensures ONE_WRITER.Proper() && !Init(ONE_WRITER).threw
    ensures var s := Init(ONE_WRITER).s;
      var u := Run(s, CompletesWith(AsyncRead.Cancelled)).streams[0];
      var v := Run(s, CompletesWith(AsyncRead.Completed)).streams[0];
      && u.device == [7] && u.confirmed == [] && ONE_WRITER.streams[0] == Restarted(u)
      && v.device == v.confirmed == v.appended == [7] && u.device + v.device == [7, 7]
  {
    var s := OneWriterStart();
    OneCompletionRun(s, AsyncRead.Cancelled);
    OneCompletionRun(s, AsyncRead.Completed);
    assert [] + [7][..1] == [7];
  }
}
