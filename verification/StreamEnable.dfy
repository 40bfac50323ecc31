/** What enabling transfers does: the start of a loop, a descriptor of the user that is ready, and the notice of a
    request.  Every transfer that has something to do is in flight afterwards, and no other is touched. */
module StreamEnable {
  import opened Memory
  import opened StreamModel
  import opened StreamInvariant
  import opened StreamRuns
  import StreamCancel

  /** A transfer that has something to do: a reader with a buffer, or a write that the user has bytes for. */
  predicate HasWork(e: Entry, u: Stream, a: SubmitAnswer) {
    if e.isReading then e.bufferSize > 0 else a.fill.Fill? && FillLength(a.fill.n, u.queue, e.bufferSize) > 0
  }

  /** Its submit does not throw. */
  predicate GoesWell(e: Entry, u: Stream, a: SubmitAnswer) {
    (e.isReading || a.fill.Fill?) && (HasWork(e, u, a) ==> a.accepted)
  }

  /** The transfer is the same one. */
  predicate SameTransfer(e: Entry, f: Entry) {
    && f.stream == e.stream && f.isReading == e.isReading && f.fd == e.fd && f.bufferSize == e.bufferSize
    && f.callbacks == e.callbacks && f.bytes == e.bytes
  }

  /** `f` is transfer `e` after it was enabled: if it was disabled, it is in flight exactly if it has something
      to do, a write with the front of the queue. */
  ghost predicate Served(e: Entry, f: Entry, u: Stream, a: SubmitAnswer) {
    if e.enabled then f == e
    else
      && SameTransfer(e, f)
      && (f.inFlight <==> HasWork(e, u, a)) && (f.enabled <==> HasWork(e, u, a))
      && (HasWork(e, u, a) ==> !f.cancelRequested)
      && (HasWork(e, u, a) && !e.isReading ==> f.buffer == u.queue[..FillLength(a.fill.n, u.queue, e.bufferSize)])
  }

  lemma ServedTwice(e: Entry, f: Entry, g: Entry, u: Stream, a: SubmitAnswer)
    requires Served(e, f, u, a) && Served(f, g, u, a)
    ensures Served(e, g, u, a)
  {
  }

  /** Only transfers changed. */
  ghost predicate SameButEntries(s: Loop, t: Loop) {
    t == s.(entries := t.entries) && |t.entries| == |s.entries|
  }

  lemma PutSame(s: Loop, i: nat, e: Entry)
    requires s.Has(i) && e.stream == s.entries[i].stream
    ensures Put(s, i, e, s.streams[e.stream]) == s.(entries := s.entries[i := e])
  {
    assert s.streams[e.stream := s.streams[e.stream]] == s.streams;
  }

  /** The submit of a transfer that was just enabled. */
  lemma SubmitServes(t: Loop, i: nat, a: SubmitAnswer)
    requires t.Has(i) && t.shouldRun && t.entries[i].enabled && !t.entries[i].inFlight && !t.doubleSubmit
    ensures var r, e, u := Submit(t, i, a), t.entries[i], t.streams[t.entries[i].stream];
      && (r.threw <==> !GoesWell(e, u, a))
      && (!r.threw ==>
            && SameButEntries(t, r.s) && r.s.entries == t.entries[i := r.s.entries[i]]
            && Served(e.(enabled := false), r.s.entries[i], u, a))
  {
    var e := t.entries[i];
    var u := t.streams[e.stream];
    var f := if a.fill.Fill? && !e.isReading then Filled(e, u, a.fill.n) else e;
    PutSame(t, i, f.(enabled := false));
    PutSame(t, i, f.(inFlight := true, cancelRequested := false));
  }

  lemma EnableOneServes(s: Loop, i: nat, a: SubmitAnswer)
    requires Inv(s) && Boundary(s) && s.shouldRun && i < |s.entries|
    ensures var r, e, u := EnableOne(s, i, a), s.entries[i], s.streams[s.entries[i].stream];
      && (r.threw <==> !e.enabled && !GoesWell(e, u, a))
      && (!r.threw ==>
            && SameButEntries(s, r.s) && r.s.entries == s.entries[i := r.s.entries[i]]
            && Served(e, r.s.entries[i], u, a))
  {
    var e := s.entries[i];
    if !e.enabled {
      var on := e.(enabled := true);
      PutSame(s, i, on);
      SubmitServes(Put(s, i, on, s.streams[e.stream]), i, a);
    }
  }

  /** The disabled transfers of descriptor `fd`, from number `i` on, can be submitted. */
  ghost predicate AllGoWell(s: Loop, fd: int, answers: seq<SubmitAnswer>, i: nat)
    requires s.WellFormed()
  {
    forall k :: i <= k < |s.entries| && s.entries[k].fd == fd && !s.entries[k].enabled ==>
      GoesWell(s.entries[k], s.streams[s.entries[k].stream], AnswerTo(answers, k))
  }

  /** The transfers of descriptor `fd`, from number `i` on, are served, and the others are as they were. */
  ghost predicate AllServed(s: Loop, t: Loop, fd: int, answers: seq<SubmitAnswer>, i: nat)
    requires s.WellFormed() && |t.entries| == |s.entries|
  {
    forall k :: 0 <= k < |s.entries| ==>
      if i <= k && s.entries[k].fd == fd
      then Served(s.entries[k], t.entries[k], s.streams[s.entries[k].stream], AnswerTo(answers, k))
      else t.entries[k] == s.entries[k]
  }

  /** Enabling a descriptor throws exactly if one of its disabled transfers cannot be submitted.  Otherwise all
      of them that have something to do are in flight, and nothing else has changed. */
  lemma RangeCompose(s: Loop, m: Loop, t: Loop, fd: int, answers: seq<SubmitAnswer>, i: nat)
    requires s.WellFormed() && m.WellFormed() && SameButEntries(s, m) && i < |s.entries| == |t.entries|
    requires m.entries == s.entries[i := m.entries[i]] && AllServed(m, t, fd, answers, i + 1)
    requires var e := s.entries[i];
      if e.fd == fd then Served(e, m.entries[i], s.streams[e.stream], AnswerTo(answers, i)) else m.entries[i] == e
    ensures AllServed(s, t, fd, answers, i)
  {
    forall k | 0 <= k < |s.entries|
      ensures k == i ==> t.entries[k] == m.entries[k]
      ensures k != i ==> m.entries[k] == s.entries[k]
    {
    }
  }

  lemma GoWellNext(s: Loop, m: Loop, fd: int, answers: seq<SubmitAnswer>, i: nat)
    requires s.WellFormed() && m.WellFormed() && SameButEntries(s, m) && i < |s.entries|
    requires m.entries == s.entries[i := m.entries[i]]
    requires var e := s.entries[i];
      e.fd == fd && !e.enabled ==> GoesWell(e, s.streams[e.stream], AnswerTo(answers, i))
    ensures AllGoWell(s, fd, answers, i) <==> AllGoWell(m, fd, answers, i + 1)
  {
    assert forall k :: i + 1 <= k < |s.entries| ==> m.entries[k] == s.entries[k];
  }

  /** Enabling a descriptor throws exactly if one of its disabled transfers cannot be submitted.  Otherwise all
      of them that have something to do are in flight, and nothing else has changed. */
  lemma {:induction false} EnableRangeServes(s: Loop, fd: int, answers: seq<SubmitAnswer>, i: nat)
    requires Inv(s) && Boundary(s) && s.shouldRun && i <= |s.entries|
    ensures var r := EnableRange(s, fd, answers, i);
      && (r.threw <==> !AllGoWell(s, fd, answers, i))
      && (!r.threw ==> SameButEntries(s, r.s) && AllServed(s, r.s, fd, answers, i))
    decreases |s.entries| - i
  {
    if i < |s.entries| {
      var a := AnswerTo(answers, i);
      var r := if s.entries[i].fd == fd then EnableOne(s, i, a) else Step(s, false);
      EnableOneServes(s, i, a);
      EnableOneKeepsInv(s, i, a);
      if !r.threw {
        EnableRangeServes(r.s, fd, answers, i + 1);
        GoWellNext(s, r.s, fd, answers, i);
        var q := EnableRange(r.s, fd, answers, i + 1);
        if !q.threw {
          RangeCompose(s, r.s, q.s, fd, answers, i);
        }
      }
    }
  }

  // ----- a descriptor that is ready -----

  /** A step in which descriptor `fd` of the user is ready, as an exact account: it throws if and only if a
      disabled transfer of it cannot be submitted. */
  lemma ReadyServes(s: Loop, fd: int, answers: seq<SubmitAnswer>)
    requires Inv(s) && Boundary(s) && s.shouldRun
    ensures var p := ProcessStep(s, Events([Ready(fd, answers)]));
      && p.outcome == (if AllGoWell(s, fd, answers, 0) then Continue else Exception)
      && (p.outcome == Continue ==> SameButEntries(s, p.s) && AllServed(s, p.s, fd, answers, 0))
  {
    EnableRangeServes(s, fd, answers, 0);
    StreamCancel.OneEvent(s, Ready(fd, answers));
  }

  // ----- requests -----

  /** The same for several descriptors. */
  ghost predicate AllRequestsGoWell(s: Loop, fds: seq<int>, requested: set<int>, answers: seq<SubmitAnswer>)
    requires s.WellFormed()
  {
    forall k :: 0 <= k < |s.entries| && s.entries[k].fd in fds && s.entries[k].fd in requested
                && !s.entries[k].enabled ==>
      GoesWell(s.entries[k], s.streams[s.entries[k].stream], AnswerTo(answers, k))
  }

  ghost predicate AllRequestsServed(s: Loop, t: Loop, fds: seq<int>, requested: set<int>,
                                    answers: seq<SubmitAnswer>)
    requires s.WellFormed() && |t.entries| == |s.entries|
  {
    forall k :: 0 <= k < |s.entries| ==>
      if s.entries[k].fd in fds && s.entries[k].fd in requested
      then Served(s.entries[k], t.entries[k], s.streams[s.entries[k].stream], AnswerTo(answers, k))
      else t.entries[k] == s.entries[k]
  }

  lemma RequestsCompose(s: Loop, m: Loop, t: Loop, fds: seq<int>, requested: set<int>, answers: seq<SubmitAnswer>)
    requires s.WellFormed() && fds != [] && fds[0] in requested
    requires SameButEntries(s, m) && m.WellFormed() && AllServed(s, m, fds[0], answers, 0)
    requires |t.entries| == |s.entries| && AllRequestsServed(m, t, fds[1..], requested, answers)
    ensures AllRequestsServed(s, t, fds, requested, answers)
  {
    forall k | 0 <= k < |s.entries|
      ensures if s.entries[k].fd in fds && s.entries[k].fd in requested
              then Served(s.entries[k], t.entries[k], s.streams[s.entries[k].stream], AnswerTo(answers, k))
              else t.entries[k] == s.entries[k]
    {
      var e, f, g, u, a := s.entries[k], m.entries[k], t.entries[k], s.streams[s.entries[k].stream],
                           AnswerTo(answers, k);
      assert f.stream == e.stream && f.fd == e.fd;
      assert e.fd in fds <==> e.fd == fds[0] || e.fd in fds[1..];
      if e.fd == fds[0] && e.fd in fds[1..] {
        ServedTwice(e, f, g, u, a);
      }
    }
  }

  lemma GoWellCompose(s: Loop, m: Loop, fds: seq<int>, requested: set<int>, answers: seq<SubmitAnswer>)
    requires s.WellFormed() && fds != [] && fds[0] in requested
    requires SameButEntries(s, m) && m.WellFormed() && AllServed(s, m, fds[0], answers, 0)
    requires AllGoWell(s, fds[0], answers, 0)
    ensures AllRequestsGoWell(s, fds, requested, answers) <==> AllRequestsGoWell(m, fds[1..], requested, answers)
  {
    forall k | 0 <= k < |s.entries|
      ensures s.entries[k].fd in fds && s.entries[k].fd in requested && !s.entries[k].enabled ==>
        s.entries[k].fd == fds[0] || (s.entries[k].fd in fds[1..] && m.entries[k] == s.entries[k])
    {
    }
    forall k | 0 <= k < |s.entries|
      ensures m.entries[k].stream == s.entries[k].stream && m.entries[k].fd == s.entries[k].fd
      ensures s.entries[k].fd == fds[0] && !m.entries[k].enabled ==>
        GoesWell(m.entries[k], m.streams[m.entries[k].stream], AnswerTo(answers, k))
    {
    }
  }

  lemma {:induction false} EnableAllServes(s: Loop, fds: seq<int>, requested: set<int>, answers: seq<SubmitAnswer>)
    requires Inv(s) && Boundary(s) && s.shouldRun
    ensures var r := EnableAll(s, fds, requested, answers);
      && (r.threw <==> !AllRequestsGoWell(s, fds, requested, answers))
      && (!r.threw ==> SameButEntries(s, r.s) && AllRequestsServed(s, r.s, fds, requested, answers))
    decreases |fds|
  {
    if fds != [] {
      if fds[0] in requested {
        EnableRangeServes(s, fds[0], answers, 0);
        EnableRangeKeepsInv(s, fds[0], answers, 0);
        var r := EnableRange(s, fds[0], answers, 0);
        if !r.threw {
          EnableAllServes(r.s, fds[1..], requested, answers);
          GoWellCompose(s, r.s, fds, requested, answers);
          var q := EnableAll(r.s, fds[1..], requested, answers);
          if !q.threw {
            RequestsCompose(s, r.s, q.s, fds, requested, answers);
          }
        }
      } else {
        EnableAllServes(s, fds[1..], requested, answers);
      }
    }
  }

  /** What the notice makes of transfer `e`, in state `s`: an enable request serves it, a disable request asks
      libusb to cancel it if it is in flight, and anything else leaves it alone. */
  ghost predicate Noticed(s: Loop, e: Entry, f: Entry, order: seq<int>, a: SubmitAnswer)
    requires e.stream < |s.streams|
  {
    if e.fd in s.listEnable then (if e.fd in order then Served(e, f, s.streams[e.stream], a) else f == e)
    else if e.fd in s.listDisable && e.inFlight then f == e.(cancelRequested := true)
    else f == e
  }

  lemma NoticeEntries(s: Loop, v: Event, m: Loop)
    requires Inv(s) && Boundary(s) && s.shouldRun && v.Notice? && SameButEntries(s.(listReset := {}), m)
    requires AllRequestsServed(s.(listReset := {}), m, v.order, s.listEnable, v.answers)
    ensures var t := CancelWhere(m.(listEnable := {}), s.listDisable);
      forall k :: 0 <= k < |s.entries| ==>
        Noticed(s, s.entries[k], t.entries[k], v.order, AnswerTo(v.answers, k))
  {
    forall k | 0 <= k < |s.entries|
      ensures Noticed(s, s.entries[k], CancelWhere(m.(listEnable := {}), s.listDisable).entries[k], v.order,
                      AnswerTo(v.answers, k))
    {
      assert m.entries[k].fd == s.entries[k].fd;
    }
  }

  /** The notice of a running loop that nobody has asked to stop, as an exact account.  It throws if and only if
      a reset does, or a requested transfer cannot be submitted.  Otherwise every request is served, no other
      transfer is touched, and no request is left. */
  lemma NoticeServes(s: Loop, v: Event)
    requires Inv(s) && Boundary(s) && s.shouldRun && !s.shouldCancel && v.Notice? && v.read == Readable
    ensures var r := OnNotice(s, v);
      && (r.threw <==> (v.resetThrows && s.listReset != {})
                       || !AllRequestsGoWell(s, v.order, s.listEnable, v.answers))
      && (!r.threw ==>
            && r.s == s.(entries := r.s.entries, listEnable := {}, listDisable := {}, listReset := {})
            && |r.s.entries| == |s.entries|
            && forall k :: 0 <= k < |s.entries| ==>
                 Noticed(s, s.entries[k], r.s.entries[k], v.order, AnswerTo(v.answers, k)))
  {
    if !(v.resetThrows && s.listReset != {}) {
      var t := s.(listReset := {});
      ListsKeepInv(s, t);
      EnableAllServes(t, v.order, s.listEnable, v.answers);
      assert AllRequestsGoWell(t, v.order, s.listEnable, v.answers)
        <==> AllRequestsGoWell(s, v.order, s.listEnable, v.answers);
      if !EnableAll(t, v.order, s.listEnable, v.answers).threw {
        NoticeEntries(s, v, EnableAll(t, v.order, s.listEnable, v.answers).s);
      }
    }
  }

  /** A request to enable reading, and its notice: if the step goes on, every read transfer of the descriptor
      with a buffer is in flight, and the request is gone. */
  lemma EnableReadingServed(s: Loop, fd: int, v: Event)
    requires Inv(s) && Boundary(s) && s.shouldRun && !s.shouldCancel
    requires v.Notice? && v.read == Readable && fd in v.order
    ensures var t := Act(s, EnableReading(fd)).s;
      var p := ProcessStep(t, Events([v]));
      && fd in t.listEnable && fd !in t.listDisable
      && (p.outcome == Continue <==>
            !(v.resetThrows && s.listReset != {}) && AllRequestsGoWell(s, v.order, s.listEnable + {fd}, v.answers))
      && (p.outcome == Continue ==>
            && p.s.shouldRun && p.s.listEnable == {} && |p.s.entries| == |s.entries|
            && forall k :: 0 <= k < |s.entries| && s.entries[k].fd == fd ==>
                 && Served(s.entries[k], p.s.entries[k], s.streams[s.entries[k].stream], AnswerTo(v.answers, k))
                 && (s.entries[k].isReading && s.entries[k].bufferSize > 0 ==> p.s.entries[k].inFlight))
  {
    var t := Act(s, EnableReading(fd)).s;
    ActKeepsInv(s, EnableReading(fd));
    NoticeServes(t, v);
    StreamCancel.OneEvent(t, v);
    assert AllRequestsGoWell(t, v.order, t.listEnable, v.answers)
      <==> AllRequestsGoWell(s, v.order, s.listEnable + {fd}, v.answers);
    var r := OnNotice(t, v);
    if !r.threw {
      forall k | 0 <= k < |s.entries| && s.entries[k].fd == fd
        ensures Served(s.entries[k], r.s.entries[k], s.streams[s.entries[k].stream], AnswerTo(v.answers, k))
      {
        assert Noticed(t, t.entries[k], r.s.entries[k], v.order, AnswerTo(v.answers, k));
      }
    }
  }

  // ----- the start -----

  /** What the start makes of transfer `x`: a write, or a reader that is to start enabled, is in flight exactly
      if it has something to do. */
  ghost predicate Started(x: Transfer, f: Entry, u: Stream, a: SubmitAnswer) {
    && SameTransfer(NewEntry(x), f)
    && (f.inFlight <==> (!x.isReading || x.startEnabled) && HasWork(NewEntry(x), u, a))
    && f.enabled == f.inFlight && !f.cancelRequested
    && (f.inFlight && !x.isReading ==> f.buffer == u.queue[..FillLength(a.fill.n, u.queue, x.bufferSize)])
  }

  lemma CreatedStarts(s: Loop, x: Transfer, joins: seq<bool>, a: SubmitAnswer)
    requires s.WellFormed() && !s.doubleSubmit && x.stream < |s.streams|
    ensures var n := |s.entries|;
      var r := Submit(Created(s, x, joins), n, a);
      !r.threw && r.s.shouldRun ==>
        && !r.s.doubleSubmit && r.s.streams == s.streams && |r.s.entries| == n + 1
        && r.s.entries[..n] == s.entries && Started(x, r.s.entries[n], s.streams[x.stream], a)
  {
    var n := |s.entries|;
    var t := Created(s, x, joins);
    if t.shouldRun {
      assert t == s.(entries := s.entries + [NewEntry(x)]);
      if t.entries[n].enabled {
        SubmitServes(t, n, a);
      }
    } else {
      assert Submit(t, n, a) == Step(t, false);
    }
  }

  /** The transfers `xs` are behind those of `s`, each as above. */
  ghost predicate AllStarted(s: Loop, t: Loop, xs: seq<Transfer>, answers: seq<SubmitAnswer>)
    requires forall x :: x in xs ==> x.stream < |s.streams|
  {
    var n := |s.entries|;
    && t.streams == s.streams && |t.entries| == n + |xs| && t.entries[..n] == s.entries
    && forall j :: 0 <= j < |xs| ==>
         Started(xs[j], t.entries[n + j], s.streams[xs[j].stream], AnswerTo(answers, n + j))
  }

  lemma StartsCompose(s: Loop, m: Loop, t: Loop, xs: seq<Transfer>, answers: seq<SubmitAnswer>)
    requires xs != [] && forall x :: x in xs ==> x.stream < |s.streams|
    requires AllStarted(s, m, [xs[0]], answers) && AllStarted(m, t, xs[1..], answers)
    ensures AllStarted(s, t, xs, answers)
  {
    var n := |s.entries|;
    assert t.entries[..n] == t.entries[..n + 1][..n] && t.entries[n] == t.entries[..n + 1][n];
    forall j | 0 <= j < |xs|
      ensures Started(xs[j], t.entries[n + j], s.streams[xs[j].stream], AnswerTo(answers, n + j))
    {
      if j == 0 {
        assert [xs[0]][0] == xs[0];
      } else {
        assert xs[1..][j - 1] == xs[j] && n + j == n + 1 + (j - 1);
      }
    }
  }

  /** A start that stops does not run again. */
  lemma {:induction false} StoppedInit(s: Loop, xs: seq<Transfer>, answers: seq<SubmitAnswer>, joins: seq<bool>)
    requires s.WellFormed() && !s.shouldRun && forall x :: x in xs ==> x.stream < |s.streams|
    ensures !InitFrom(s, xs, answers, joins).s.shouldRun
    decreases |xs|
  {
    if xs != [] {
      var n := |s.entries|;
      var r := Submit(Created(s, xs[0], joins), n, AnswerTo(answers, n));
      if !r.threw {
        StoppedInit(r.s, xs[1..], answers, joins);
      }
    }
  }

  lemma {:induction false} InitKeepsEntries(s: Loop, xs: seq<Transfer>, answers: seq<SubmitAnswer>,
                                            joins: seq<bool>)
    requires s.WellFormed() && !s.doubleSubmit && forall x :: x in xs ==> x.stream < |s.streams|
    ensures var r := InitFrom(s, xs, answers, joins);
      !r.threw && r.s.shouldRun ==> AllStarted(s, r.s, xs, answers)
    decreases |xs|
  {
    if xs != [] {
      var n := |s.entries|;
      var r := Submit(Created(s, xs[0], joins), n, AnswerTo(answers, n));
      if !r.threw && r.s.shouldRun {
        CreatedStarts(s, xs[0], joins, AnswerTo(answers, n));
        InitKeepsEntries(r.s, xs[1..], answers, joins);
        var q := InitFrom(r.s, xs[1..], answers, joins);
        if !q.threw && q.s.shouldRun {
          StartsCompose(s, r.s, q.s, xs, answers);
        }
      } else if !r.threw {
        StoppedInit(r.s, xs[1..], answers, joins);
      }
    }
  }

  lemma FirstStarts(s: Loop, t: Loop, xs: seq<Transfer>, answers: seq<SubmitAnswer>, j: nat)
    requires forall x :: x in xs ==> x.stream < |s.streams|
    requires s.entries == [] && AllStarted(s, t, xs, answers) && j < |xs|
    ensures Started(xs[j], t.entries[j], s.streams[xs[j].stream], AnswerTo(answers, j))
  {
    var n := |s.entries|;
    assert Started(xs[j], t.entries[n + j], s.streams[xs[j].stream], AnswerTo(answers, n + j));
  }

  /** A start after which the loop runs: it has exactly the transfers it was given, each in flight if it is to
      start and has something to do. */
  lemma InitStarts(b: Setup)
    requires b.Proper() && !Init(b).threw && Init(b).s.shouldRun
    ensures var s := Init(b).s;
      && s.streams == b.streams && |s.entries| == |b.transfers|
      && forall j :: 0 <= j < |b.transfers| ==>
           Started(b.transfers[j], s.entries[j], b.streams[b.transfers[j].stream], AnswerTo(b.answers, j))
  {
    var s := Joined(Fresh(b.streams, b.packetSize), b.ready);
    InitKeepsEntries(s, b.transfers, b.answers, b.joins);
    var t := Init(b).s;
    forall j: nat | j < |b.transfers|
      ensures Started(b.transfers[j], t.entries[j], b.streams[b.transfers[j].stream], AnswerTo(b.answers, j))
    {
      FirstStarts(s, t, b.transfers, b.answers, j);
    }
  }
}
