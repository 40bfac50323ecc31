/** Writing makes progress: as long as the loop runs and the user fills the buffer when asked, everything
    that is appended to a stream reaches the device. */
module StreamDrain {
  import opened Memory
  import opened StreamModel
  import opened StreamInvariant
  import opened StreamRuns
  import opened StreamEnable
  import StreamCancel

  /** Transfer `i` writes stream `k`, and while the loop runs it is in flight, with something in its buffer,
      exactly if there is something to send. */
  ghost predicate Draining(s: Loop, i: nat, k: nat) {
    && Inv(s) && Boundary(s)
    && (s.shouldRun ==>
          && i < |s.entries|
          && var e := s.entries[i];
             && !e.isReading && e.stream == k && e.bufferSize > 0
             && (e.inFlight <==> s.streams[k].queue != []) && (e.inFlight ==> e.buffer != []))
  }

  /** A completion of the transfer that sends something, and after which the user has more if there is more. */
  predicate Progresses(c: Completion) {
    c.accepted > 0 && c.next.fill.Fill? && c.next.fill.n > 0
  }

  predicate AllProgress(cs: seq<Completion>, i: nat) {
    forall j :: 0 <= j < |cs| && cs[j].entry == i ==> Progresses(cs[j])
  }

  /** The completions of transfer `i`. */
  function Count(cs: seq<Completion>, i: nat): nat {
    if cs == [] then 0 else (if cs[0].entry == i then 1 else 0) + Count(cs[1..], i)
  }

  function Down(q: nat, n: nat): nat {
    if n < q then q - n else 0
  }

  /** From `s` to `t` at least `n` bytes of the queue of stream `k` were sent, or all of them, and none appended. */
  ghost predicate Sends(s: Loop, t: Loop, k: nat, n: nat) {
    && s.shouldRun && k < |s.streams| == |t.streams|
    && t.streams[k].appended == s.streams[k].appended
    && |t.streams[k].queue| <= Down(|s.streams[k].queue|, n)
  }

  lemma SendsMore(s: Loop, m: Loop, t: Loop, k: nat, a: nat, b: nat)
    requires Sends(s, m, k, a) && Sends(m, t, k, b)
    ensures Sends(s, t, k, a + b)
  {
  }

  // ----- completions -----

  lemma OwnCompletion(s: Loop, c: Completion, i: nat, k: nat)
    requires Draining(s, i, k) && c.entry == i && s.shouldRun && Progresses(c)
    ensures var t := Complete(s, c); Draining(t, i, k) && (t.shouldRun ==> Sends(s, t, k, 1))
  {
    var e := s.entries[i];
    CompleteKeepsInv(s, c);
    if e.inFlight {
      StreamCancel.WriteGoesOnIff(s, c);
      assert EntryOk(e, s.streams[k]);
    }
  }

  lemma OtherWrite(s: Loop, c: Completion, i: nat, k: nat)
    requires Inv(s) && c.entry < |s.entries| && i < |s.entries| && k < |s.streams| && c.entry != i && s.shouldRun
    requires var e := s.entries[c.entry]; e.inFlight && !e.isReading && e.stream != k
    ensures var t := Complete(s, c); t.entries[i] == s.entries[i] && t.streams[k] == s.streams[k]
  {
    assert EntryOk(s.entries[c.entry], s.streams[s.entries[c.entry].stream]);
  }

  lemma OtherRead(s: Loop, c: Completion, i: nat, k: nat)
    requires Draining(s, i, k) && c.entry != i && s.shouldRun
    requires c.entry < |s.entries| && s.entries[c.entry].inFlight && s.entries[c.entry].isReading
    ensures var t := Complete(s, c); Draining(t, i, k) && (t.shouldRun ==> Sends(s, t, k, 0))
  {
    CompleteKeepsInv(s, c);
  }

  lemma OtherCompletion(s: Loop, c: Completion, i: nat, k: nat)
    requires Draining(s, i, k) && c.entry != i && s.shouldRun
    ensures var t := Complete(s, c); Draining(t, i, k) && (t.shouldRun ==> Sends(s, t, k, 0))
  {
    if c.entry < |s.entries| && s.entries[c.entry].inFlight {
      if s.entries[c.entry].isReading {
        OtherRead(s, c, i, k);
      } else {
        CompleteKeepsInv(s, c);
        assert s.entries[c.entry].stream != k;
        OtherWrite(s, c, i, k);
      }
    }
  }

  lemma {:induction false} CompletionsDrain(s: Loop, cs: seq<Completion>, i: nat, k: nat)
    requires Draining(s, i, k) && AllProgress(cs, i)
    ensures var t := CompleteAll(s, cs); Draining(t, i, k) && (t.shouldRun ==> Sends(s, t, k, Count(cs, i)))
    decreases |cs|
  {
    if !s.shouldRun {
      CompleteAllKeepsInv(s, cs);
    } else if cs != [] {
      if cs[0].entry == i {
        OwnCompletion(s, cs[0], i, k);
      } else {
        OtherCompletion(s, cs[0], i, k);
      }
      var m := Complete(s, cs[0]);
      CompletionsDrain(m, cs[1..], i, k);
      if CompleteAll(s, cs).shouldRun {
        SendsMore(s, m, CompleteAll(s, cs), k, if cs[0].entry == i then 1 else 0, Count(cs[1..], i));
      }
    }
  }

  // ----- events -----

  function EventCount(v: Event, i: nat): nat {
    if v.Usb? then Count(v.completions, i) else 0
  }

  function EventsCount(vs: seq<Event>, i: nat): nat {
    if vs == [] then 0 else EventCount(vs[0], i) + EventsCount(vs[1..], i)
  }

  predicate EventsProgress(vs: seq<Event>, i: nat) {
    forall j :: 0 <= j < |vs| && vs[j].Usb? ==> AllProgress(vs[j].completions, i)
  }

  /** A transfer that is served without having anything to send stays as idle as it was. */
  lemma ServedDrains(s: Loop, t: Loop, i: nat, k: nat, a: SubmitAnswer)
    requires Draining(s, i, k) && s.shouldRun && Inv(t) && Boundary(t)
    requires |t.entries| == |s.entries| && t.streams == s.streams
    requires Served(s.entries[i], t.entries[i], s.streams[k], a) || t.entries[i] == s.entries[i]
    ensures Draining(t, i, k) && Sends(s, t, k, 0)
  {
  }

  lemma NoticeDrains(s: Loop, v: Event, i: nat, k: nat)
    requires Draining(s, i, k) && v.Notice?
    ensures var r := OnNotice(s, v);
      !r.threw ==> Draining(r.s, i, k) && (r.s.shouldRun ==> Sends(s, r.s, k, 0))
  {
    NoticeKeepsInv(s, v);
    if s.shouldRun && !s.shouldCancel && v.read == Readable {
      NoticeServes(s, v);
      var r := OnNotice(s, v);
      if !r.threw {
        assert StreamEnable.Noticed(s, s.entries[i], r.s.entries[i], v.order, AnswerTo(v.answers, i));
      }
    }
  }

  lemma EventDrains(s: Loop, v: Event, i: nat, k: nat)
    requires Draining(s, i, k) && (v.Usb? ==> AllProgress(v.completions, i))
    ensures var r := OnEvent(s, v);
      !r.threw ==> Draining(r.s, i, k) && (r.s.shouldRun ==> Sends(s, r.s, k, EventCount(v, i)))
  {
    EventKeepsInv(s, v);
    match v
    case Usb(cs, _) => CompletionsDrain(s, cs, i, k);
    case Notice(_, _, _, _) => NoticeDrains(s, v, i, k);
    case Timer(_, _, _) =>
    case Ready(fd, answers) =>
      if s.shouldRun {
        EnableRangeServes(s, fd, answers, 0);
        if !OnEvent(s, v).threw {
          ServedDrains(s, OnEvent(s, v).s, i, k, AnswerTo(answers, i));
        }
      }
    case PollFd(_) =>
  }

  lemma {:induction false} EventsDrain(s: Loop, vs: seq<Event>, i: nat, k: nat)
    requires Draining(s, i, k) && EventsProgress(vs, i)
    ensures var r := OnEvents(s, vs);
      !r.threw ==> Draining(r.s, i, k) && (r.s.shouldRun ==> Sends(s, r.s, k, EventsCount(vs, i)))
    decreases |vs|
  {
    if vs != [] && !OnEvent(s, vs[0]).threw {
      EventDrains(s, vs[0], i, k);
      var m := OnEvent(s, vs[0]).s;
      EventsDrain(m, vs[1..], i, k);
      var r := OnEvents(s, vs);
      if !r.threw && r.s.shouldRun {
        SendsMore(s, m, r.s, k, EventCount(vs[0], i), EventsCount(vs[1..], i));
      }
    }
  }

  // ----- runs -----

  function ActCount(a: Action, i: nat): nat {
    if a.TakeStep? && a.poll.Events? then EventsCount(a.poll.events, i) else 0
  }

  /** The number of times that transfer `i` comes back in a run. */
  function RunCount(actions: seq<Action>, i: nat): nat {
    if actions == [] then 0 else ActCount(actions[0], i) + RunCount(actions[1..], i)
  }

  /** Every time it does, something was sent, and the user fills the buffer again if it can. */
  predicate RunProgresses(actions: seq<Action>, i: nat) {
    forall j :: 0 <= j < |actions| && actions[j].TakeStep? && actions[j].poll.Events? ==>
      EventsProgress(actions[j].poll.events, i)
  }

  predicate NoAppend(actions: seq<Action>, k: nat) {
    forall j :: 0 <= j < |actions| && actions[j].Append? ==> actions[j].stream != k
  }

  lemma ActDrains(s: Loop, a: Action, i: nat, k: nat)
    requires Draining(s, i, k) && (a.Append? ==> a.stream != k)
    requires a.TakeStep? && a.poll.Events? ==> EventsProgress(a.poll.events, i)
    ensures var t := Act(s, a).s; Draining(t, i, k) && (t.shouldRun ==> Sends(s, t, k, ActCount(a, i)))
  {
    ActKeepsInv(s, a);
    if a.TakeStep? && a.poll.Events? {
      EventsDrain(s, a.poll.events, i, k);
    }
  }

  /** Whatever happens in a run, completions of all streams, notices, timers and requests: if the loop runs in the
      end, each time the transfer came back at least one byte of the queue was sent, or there was none left;
      and the transfer is in flight exactly if there is more. */
  lemma {:induction false} RunDrains(s: Loop, actions: seq<Action>, i: nat, k: nat)
    requires Draining(s, i, k) && NoAppend(actions, k) && RunProgresses(actions, i)
    ensures var t := Run(s, actions);
      Draining(t, i, k) && (t.shouldRun ==> s.shouldRun && (actions != [] ==> Sends(s, t, k, RunCount(actions, i))))
    decreases |actions|
  {
    if actions != [] {
      ActDrains(s, actions[0], i, k);
      var m, t := Act(s, actions[0]).s, Run(s, actions);
      RunDrains(m, actions[1..], i, k);
      if t.shouldRun && actions[1..] != [] {
        SendsMore(s, m, t, k, ActCount(actions[0], i), RunCount(actions[1..], i));
      }
    }
  }

  /** Once the transfer came back as often as there are bytes in the queue, the device has everything that was
      ever appended, and all of it is confirmed. */
  lemma EverythingIsSent(s: Loop, actions: seq<Action>, i: nat, k: nat)
    requires Draining(s, i, k) && s.shouldRun && NoAppend(actions, k) && RunProgresses(actions, i)
    requires Run(s, actions).shouldRun && RunCount(actions, i) >= |s.streams[k].queue|
    ensures var u := Run(s, actions).streams[k];
      u.queue == [] && u.device == u.confirmed == u.appended == s.streams[k].appended
  {
    RunDrains(s, actions, i, k);
    var t := Run(s, actions);
    assert StreamOk(t.streams[k], t.packetSize, true);
    assert t.streams[k].queue == [];
  }

  // ----- where it starts -----

  /** The start of a loop: the transfer is in flight if there is something to send, and the user fills the
      buffer. */
  lemma StartDrains(b: Setup, i: nat)
    requires b.Proper() && !Init(b).threw && i < |b.transfers| && !b.transfers[i].isReading
    requires b.transfers[i].bufferSize > 0
    requires var a := AnswerTo(b.answers, i); a.fill.Fill? && a.fill.n > 0
    ensures Draining(Init(b).s, i, b.transfers[i].stream)
  {
    InitIsSafe(b);
    if Init(b).s.shouldRun {
      InitStarts(b);
    }
  }

  /** The user appends something, and its descriptor is ready: if the step goes on, a transfer that was idle is
      in flight. */
  lemma AppendDrains(s: Loop, i: nat, k: nat, data: seq<byte>, answers: seq<SubmitAnswer>)
    requires Draining(s, i, k) && s.shouldRun
    requires var a := AnswerTo(answers, i); a.fill.Fill? && a.fill.n > 0
    ensures var t := Run(s, [Append(k, data), TakeStep(Events([Ready(s.entries[i].fd, answers)]))]);
      t.shouldRun ==> Draining(t, i, k) && t.streams[k].queue == s.streams[k].queue + data
                      && t.streams[k].appended == s.streams[k].appended + data
  {
    var fd := s.entries[i].fd;
    var actions := [Append(k, data), TakeStep(Events([Ready(fd, answers)]))];
    var m := Act(s, actions[0]).s;
    ActKeepsInv(s, actions[0]);
    ActKeepsInv(m, actions[1]);
    ReadyServes(m, fd, answers);
    assert actions[1..] == [actions[1]] && actions[1..][1..] == [];
    var t := Act(m, actions[1]).s;
    assert Run(s, actions) == Run(m, actions[1..]) == Run(t, []) == t;
    if t.shouldRun {
      assert Served(m.entries[i], t.entries[i], m.streams[k], AnswerTo(answers, i));
    }
  }
}
