/** What every step of the streaming layer keeps. */
module StreamInvariant {
  import opened Memory
  import opened StreamRead
  import opened StreamModel
  import AsyncRead

  /** The write side of a stream: the confirmed bytes, then what the device has beyond them, are always
      the beginning of what the user appended, and the queue is the rest of it. */
  ghost predicate WriteSide(u: Stream) {
    && u.confirmed + u.queue == u.appended
    && u.confirmed <= u.device <= u.appended
  }

  function ExpectedOf(wire: seq<seq<byte>>, modem: bool, packetSize: nat): seq<seq<byte>>
    requires packetSize >= 1
  {
    if wire == [] then [] else Chunks(wire[0], packetSize, modem) + ExpectedOf(wire[1..], modem, packetSize)
  }

  /** What the transfers read so far have for the user. */
  function Expected(u: Stream, packetSize: nat): seq<seq<byte>>
    requires packetSize >= 1
  {
    ExpectedOf(u.wire, u.modem, packetSize)
  }

  /** Ownership: libusb owns only enabled transfers.  A write in flight has the front of the queue in its
      buffer, and nothing unconfirmed is in the device. */
  ghost predicate EntryOk(e: Entry, u: Stream) {
    && (e.inFlight ==> e.enabled)
    && (!e.isReading ==> |e.buffer| <= e.bufferSize && |u.device| <= |u.confirmed| + e.bufferSize)
    && (!e.isReading && e.inFlight ==> e.buffer <= u.queue && u.device == u.confirmed)
  }

  /** While the loop runs, everything the device has was confirmed, and everything read was handed over. */
  ghost predicate StreamOk(u: Stream, packetSize: nat, running: bool)
    requires packetSize >= 1
  {
    && WriteSide(u)
    && u.received <= Expected(u, packetSize)
    && (running ==> u.device == u.confirmed && u.received == Expected(u, packetSize))
  }

  /** At most one write transfer per stream. */
  ghost predicate OneWriter(entries: seq<Entry>) {
    forall i, j ::
      0 <= i < j < |entries| && !entries[i].isReading && !entries[j].isReading
      ==> entries[i].stream != entries[j].stream
  }

  ghost predicate EntriesOk(s: Loop)
    requires s.WellFormed()
  {
    forall i :: 0 <= i < |s.entries| ==> EntryOk(s.entries[i], s.streams[s.entries[i].stream])
  }

  ghost predicate StreamsOk(s: Loop)
    requires s.WellFormed()
  {
    forall k :: 0 <= k < |s.streams| ==> StreamOk(s.streams[k], s.packetSize, s.shouldRun)
  }

  ghost predicate Inv(s: Loop) {
    && s.WellFormed() && EntriesOk(s) && StreamsOk(s) && OneWriter(s.entries)
    && !s.doubleSubmit && !s.strayCallback && s.listEnable !! s.listDisable
    && s.cancelCounter <= 3 && (s.shouldRun ==> s.cancelCounter == 3)
  }

  /** At a step boundary, while the loop runs, exactly the enabled transfers are in flight. */
  ghost predicate Boundary(s: Loop) {
    s.shouldRun ==> forall i :: 0 <= i < |s.entries| ==> s.entries[i].enabled == s.entries[i].inFlight
  }

  ghost predicate Good(r: Step) {
    Inv(r.s) && (!r.threw ==> Boundary(r.s))
  }

  /** Every action changes one transfer and its stream, and the loop flags. */
  lemma PutKeepsInv(s: Loop, i: nat, e: Entry, u: Stream, t: Loop)
    requires Inv(s) && s.Has(i)
    requires e.stream == s.entries[i].stream && e.isReading == s.entries[i].isReading
    requires t == Put(s, i, e, u) || t == Put(Stopped(s), i, e, u)
    requires EntryOk(e, u) && StreamOk(u, s.packetSize, t.shouldRun)
    requires e.isReading ==> var was := s.streams[e.stream];
      u.queue == was.queue && u.confirmed == was.confirmed && u.device == was.device
    ensures Inv(t)
  {
    forall j | 0 <= j < |t.entries|
      ensures EntryOk(t.entries[j], t.streams[t.entries[j].stream])
    {
      if j != i {
        assert t.entries[j] == s.entries[j];
        assert EntryOk(s.entries[j], s.streams[s.entries[j].stream]);
      }
    }
    forall k | 0 <= k < |t.streams|
      ensures StreamOk(t.streams[k], t.packetSize, t.shouldRun)
    {
      assert StreamOk(s.streams[k], s.packetSize, s.shouldRun);
    }
  }

  lemma PutKeepsBoundary(s: Loop, i: nat, e: Entry, u: Stream)
    requires Boundary(s) && s.Has(i) && e.stream == s.entries[i].stream && e.enabled == e.inFlight
    ensures Boundary(Put(s, i, e, u))
  {
  }

  lemma StoppedKeepsInv(s: Loop)
    requires Inv(s)
    ensures Inv(Stopped(s)) && Boundary(Stopped(s))
  {
    forall k | 0 <= k < |s.streams|
      ensures StreamOk(s.streams[k], s.packetSize, false)
    {
      assert StreamOk(s.streams[k], s.packetSize, s.shouldRun);
    }
  }

  // ----- the write callback -----

  lemma FillIsPrefix(e: Entry, u: Stream, n: nat)
    ensures var b := Filled(e, u, n).buffer; b <= u.queue && |b| <= e.bufferSize
  {
  }

  /** Accepting `n` bytes of a buffer that is the front of the queue. */
  lemma AcceptedIsPrefix(u: Stream, buffer: seq<byte>, n: nat)
    requires WriteSide(u) && u.device == u.confirmed && buffer <= u.queue && n <= |buffer|
    ensures var v := u.(device := u.device + buffer[..n]);
      && WriteSide(v)
      && |v.device| <= |v.confirmed| + n
      && Confirm(v, n).device == Confirm(v, n).confirmed
      && WriteSide(Confirm(v, n))
  {
    var v := u.(device := u.device + buffer[..n]);
    assert buffer[..n] == u.queue[..n];
    assert v.device + u.queue[n..] == u.appended by {
      assert u.queue == u.queue[..n] + u.queue[n..];
    }
    if n == 0 {
      assert v.device == u.device;
    }
  }

  lemma EnabledInFlight(s: Loop, i: nat, e: Entry, u: Stream, filled: Entry)
    requires Inv(s) && Boundary(s) && s.Has(i) && s.shouldRun
    requires e.stream == filled.stream == s.entries[i].stream && !filled.isReading && !s.entries[i].isReading
    requires filled.enabled && filled.buffer <= u.queue && |filled.buffer| <= filled.bufferSize
    requires StreamOk(u, s.packetSize, true)
    ensures var t := Put(s, i, filled.(inFlight := true, cancelRequested := false), u); Inv(t) && Boundary(t)
  {
    var f := filled.(inFlight := true, cancelRequested := false);
    PutKeepsInv(s, i, f, u, Put(s, i, f, u));
  }

  /** What `write_callback` does once the completion has been taken account of. */
  lemma RefillKeepsInv(s: Loop, i: nat, e: Entry, u: Stream, a: SubmitAnswer)
    requires Inv(s) && Boundary(s) && s.Has(i) && s.shouldRun
    requires e.stream == s.entries[i].stream && !e.isReading && !s.entries[i].isReading && e.enabled && !e.inFlight
    requires |e.buffer| <= e.bufferSize && StreamOk(u, s.packetSize, true)
    ensures Inv(Refill(s, i, e, u, a)) && Boundary(Refill(s, i, e, u, a))
  {
    match a.fill
    case FillFails =>
      PutKeepsInv(s, i, e.(enabled := false), u, Put(Stopped(s), i, e.(enabled := false), u));
    case Fill(n) =>
      FillIsPrefix(e, u, n);
      var filled := Filled(e, u, n);
      if filled.buffer == [] {
        PutKeepsInv(s, i, filled.(enabled := false), u, Put(s, i, filled.(enabled := false), u));
      } else if a.accepted {
        EnabledInFlight(s, i, e, u, filled);
      } else {
        PutKeepsInv(s, i, filled.(enabled := false), u, Put(Stopped(s), i, filled.(enabled := false), u));
      }
  }

  ghost predicate SameReadSide(u: Stream, v: Stream) {
    u.wire == v.wire && u.received == v.received && u.modem == v.modem
  }

  lemma WriteStopped(s: Loop, i: nat, f: Entry, v: Stream)
    requires Inv(s) && s.Has(i)
    requires f.stream == s.entries[i].stream && !f.isReading && !s.entries[i].isReading
    requires !f.inFlight && !f.enabled && |f.buffer| <= f.bufferSize
    requires WriteSide(v) && |v.device| <= |v.confirmed| + f.bufferSize
    requires SameReadSide(v, s.streams[f.stream])
    ensures var t := Put(Stopped(s), i, f, v); Inv(t) && Boundary(t)
  {
    assert StreamOk(s.streams[f.stream], s.packetSize, s.shouldRun);
    PutKeepsInv(s, i, f, v, Put(Stopped(s), i, f, v));
  }

  lemma SettleKeepsInv(s: Loop, i: nat, e: Entry, u: Stream, v: Stream, n: nat, c: Completion)
    requires Inv(s) && Boundary(s) && s.Has(i)
    requires e.stream == s.entries[i].stream && !e.isReading && !s.entries[i].isReading
    requires e.enabled && !e.inFlight && |e.buffer| <= e.bufferSize && n <= e.bufferSize
    requires SameReadSide(u, s.streams[e.stream]) && WriteSide(u) && |u.device| <= |u.confirmed| + n
    requires v == Confirm(u, n) && WriteSide(v) && v.device == v.confirmed
    ensures Inv(Settle(s, i, e, u, n, c)) && Boundary(Settle(s, i, e, u, n, c))
  {
    if c.status == AsyncRead.Cancelled || !s.shouldRun {
      var f := e.(enabled := false, buffer := []);
      WriteStopped(s, i, f, u);
      assert Settle(s, i, e, u, n, c) == Put(Stopped(s), i, f, u);
    } else if n > 0 && c.confirm.ConfirmFails? {
      var f, w := e.(enabled := false, bytes := e.bytes + n), if c.confirm.moved then v else u;
      WriteStopped(s, i, f, w);
      assert Settle(s, i, e, u, n, c) == Put(Stopped(s), i, f, w);
    } else {
      var f := e.(bytes := e.bytes + n);
      assert StreamOk(s.streams[e.stream], s.packetSize, true);
      RefillKeepsInv(s, i, f, v, c.next);
      assert Settle(s, i, e, u, n, c) == Refill(s, i, f, v, c.next);
    }
  }

  lemma WriteCallbackKeepsInv(s: Loop, i: nat, c: Completion)
    requires Inv(s) && Boundary(s) && s.Has(i) && s.entries[i].inFlight && !s.entries[i].isReading
    ensures Inv(WriteCallback(s, i, c)) && Boundary(WriteCallback(s, i, c))
  {
    var e := s.entries[i];
    var u := s.streams[e.stream];
    assert EntryOk(e, u) && StreamOk(u, s.packetSize, s.shouldRun);
    var n := Min(c.accepted, |e.buffer|);
    AcceptedIsPrefix(u, e.buffer, n);
    SettleKeepsInv(s, i, Returned(e), Accepted(u, e.buffer, n), Confirm(Accepted(u, e.buffer, n), n), n, c);
  }

  // ----- the read callback -----

  lemma {:induction false} ExpectedAppend(wire: seq<seq<byte>>, data: seq<byte>, modem: bool, packetSize: nat)
    requires packetSize >= 1
    ensures ExpectedOf(wire + [data], modem, packetSize)
         == ExpectedOf(wire, modem, packetSize) + Chunks(data, packetSize, modem)
  {
    if wire == [] {
      assert [] + [data] == [data] && [data][1..] == [];
    } else {
      assert (wire + [data])[1..] == wire[1..] + [data];
      ExpectedAppend(wire[1..], data, modem, packetSize);
      Assoc(Chunks(wire[0], packetSize, modem), ExpectedOf(wire[1..], modem, packetSize),
            Chunks(data, packetSize, modem));
    }
  }

  ghost predicate SameWriteSide(u: Stream, v: Stream) {
    u.queue == v.queue && u.appended == v.appended && u.confirmed == v.confirmed && u.device == v.device
    && u.modem == v.modem
  }

  lemma ReadStopped(s: Loop, i: nat, f: Entry, v: Stream)
    requires Inv(s) && s.Has(i) && f.stream == s.entries[i].stream && f.isReading && s.entries[i].isReading
    requires !f.inFlight && !f.enabled && StreamOk(v, s.packetSize, false)
    requires SameWriteSide(v, s.streams[f.stream])
    ensures var t := Put(Stopped(s), i, f, v); Inv(t) && Boundary(t)
  {
    PutKeepsInv(s, i, f, v, Put(Stopped(s), i, f, v));
  }

  lemma ReadGoesOn(s: Loop, i: nat, f: Entry, v: Stream)
    requires Inv(s) && Boundary(s) && s.Has(i)
    requires f.stream == s.entries[i].stream && f.isReading && s.entries[i].isReading
    requires f.inFlight && f.enabled && StreamOk(v, s.packetSize, true)
    requires SameWriteSide(v, s.streams[f.stream])
    ensures var t := Put(s, i, f, v); Inv(t) && Boundary(t)
  {
    PutKeepsInv(s, i, f, v, Put(s, i, f, v));
  }

  lemma FedKeepsReadSide(u: Stream, data: seq<byte>, calls: seq<seq<byte>>, packetSize: nat)
    requires packetSize >= 1 && StreamOk(u, packetSize, true) && calls <= Chunks(data, packetSize, u.modem)
    ensures StreamOk(Fed(Arrived(u, data), calls), packetSize, calls == Chunks(data, packetSize, u.modem))
  {
    ExpectedAppend(u.wire, data, u.modem, packetSize);
  }

  lemma CompletedKeepsInv(s: Loop, i: nat, e: Entry, u: Stream, c: Completion)
    requires Inv(s) && Boundary(s) && s.Has(i) && s.shouldRun && c.status == AsyncRead.Completed
    requires e.stream == s.entries[i].stream && e.isReading && s.entries[i].isReading
    requires e.enabled && !e.inFlight && u == s.streams[e.stream] && StreamOk(u, s.packetSize, true)
    ensures var t := HandOver(s, i, e, Arrived(u, c.data), c); Inv(t) && Boundary(t)
  {
    var chunks := Chunks(c.data, s.packetSize, u.modem);
    var calls := Calls(chunks, c.throwsAt);
    var read := e.(bytes := e.bytes + CountBytes(calls, u.modem));
    var fed := Fed(Arrived(u, c.data), calls);
    FedKeepsReadSide(u, c.data, calls, s.packetSize);
    if Throws(chunks, c.throwsAt) || !c.next.accepted {
      ReadStopped(s, i, read.(enabled := false), fed);
      assert HandOver(s, i, e, Arrived(u, c.data), c) == Put(Stopped(s), i, read.(enabled := false), fed);
    } else {
      var f := read.(inFlight := true, cancelRequested := false);
      ReadGoesOn(s, i, f, fed);
      assert HandOver(s, i, e, Arrived(u, c.data), c) == Put(s, i, f, fed);
    }
  }

  lemma ArrivedKeepsReadSide(u: Stream, data: seq<byte>, packetSize: nat, running: bool)
    requires packetSize >= 1 && StreamOk(u, packetSize, running)
    ensures StreamOk(Arrived(u, data), packetSize, false)
  {
    ExpectedAppend(u.wire, data, u.modem, packetSize);
  }

  lemma HandOverKeepsInv(s: Loop, i: nat, e: Entry, u: Stream, c: Completion)
    requires Inv(s) && Boundary(s) && s.Has(i)
    requires e.stream == s.entries[i].stream && e.isReading && s.entries[i].isReading
    requires e.enabled && !e.inFlight && u == s.streams[e.stream] && StreamOk(u, s.packetSize, s.shouldRun)
    ensures var t := HandOver(s, i, e, Arrived(u, c.data), c); Inv(t) && Boundary(t)
  {
    if c.status != AsyncRead.Completed || !s.shouldRun {
      ArrivedKeepsReadSide(u, c.data, s.packetSize, s.shouldRun);
      ReadStopped(s, i, e.(enabled := false), Arrived(u, c.data));
    } else {
      CompletedKeepsInv(s, i, e, u, c);
    }
  }

  lemma ReadCallbackKeepsInv(s: Loop, i: nat, c: Completion)
    requires Inv(s) && Boundary(s) && s.Has(i) && s.entries[i].inFlight && s.entries[i].isReading
    ensures Inv(ReadCallback(s, i, c)) && Boundary(ReadCallback(s, i, c))
  {
    var e := s.entries[i];
    var u := s.streams[e.stream];
    assert EntryOk(e, u) && StreamOk(u, s.packetSize, s.shouldRun);
    HandOverKeepsInv(s, i, Returned(e), u, c);
  }

  lemma CompleteKeepsInv(s: Loop, c: Completion)
    requires Inv(s) && Boundary(s)
    ensures Inv(Complete(s, c)) && Boundary(Complete(s, c))
  {
    if c.entry < |s.entries| && s.entries[c.entry].inFlight {
      if s.entries[c.entry].isReading {
        ReadCallbackKeepsInv(s, c.entry, c);
      } else {
        WriteCallbackKeepsInv(s, c.entry, c);
      }
    }
  }

  lemma {:induction false} CompleteAllKeepsInv(s: Loop, cs: seq<Completion>)
    requires Inv(s) && Boundary(s)
    ensures Inv(CompleteAll(s, cs)) && Boundary(CompleteAll(s, cs))
    decreases |cs|
  {
    if cs != [] {
      CompleteKeepsInv(s, cs[0]);
      CompleteAllKeepsInv(Complete(s, cs[0]), cs[1..]);
    }
  }

  // ----- submitting and cancelling -----

  lemma SubmittedKeepsInv(s: Loop, t: Loop, i: nat, e: Entry, u: Stream, f: Entry)
    requires Inv(s) && Boundary(s) && s.shouldRun && s.Has(i)
    requires e.stream == s.entries[i].stream && e.isReading == s.entries[i].isReading
    requires t == Put(s, i, e, u) && Inv(t)
    requires e.enabled && !e.inFlight && u == s.streams[e.stream] && EntryOk(e, u)
    requires f == e.(buffer := f.buffer)
    requires !e.isReading ==> f.buffer <= u.queue && |f.buffer| <= e.bufferSize
    ensures Inv(Put(t, i, f, u))
    ensures var off := Put(t, i, f.(enabled := false), u); Inv(off) && Boundary(off)
    ensures var on := Put(t, i, f.(inFlight := true, cancelRequested := false), u); Inv(on) && Boundary(on)
  {
    var off, on := f.(enabled := false), f.(inFlight := true, cancelRequested := false);
    assert StreamOk(u, s.packetSize, true);
    PutKeepsInv(t, i, f, u, Put(t, i, f, u));
    PutKeepsInv(t, i, off, u, Put(t, i, off, u));
    PutKeepsInv(t, i, on, u, Put(t, i, on, u));
    PutKeepsBoundary(s, i, off, u);
    PutKeepsBoundary(s, i, on, u);
    assert Put(t, i, off, u) == Put(s, i, off, u) && Put(t, i, on, u) == Put(s, i, on, u);
  }

  lemma SubmitKeepsInv(s: Loop, t: Loop, i: nat, e: Entry, u: Stream, a: SubmitAnswer)
    requires Inv(s) && Boundary(s) && s.shouldRun && s.Has(i)
    requires e.stream == s.entries[i].stream && e.isReading == s.entries[i].isReading
    requires t == Put(s, i, e, u) && Inv(t)
    requires e.enabled && !e.inFlight && u == s.streams[e.stream]
    ensures Good(Submit(t, i, a))
  {
    assert t.entries[i] == e && t.streams[e.stream] == u;
    assert EntryOk(e, u) && StreamOk(u, s.packetSize, true);
    if e.isReading {
      SubmittedKeepsInv(s, t, i, e, u, e);
    } else {
      match a.fill
      case FillFails =>
      case Fill(n) =>
        FillIsPrefix(e, u, n);
        SubmittedKeepsInv(s, t, i, e, u, Filled(e, u, n));
    }
  }

  /** Enabling a disabled transfer and submitting it: an exception may leave it enabled but not in flight,
      and then the loop is about to be stopped. */
  lemma EnableOneKeepsInv(s: Loop, i: nat, a: SubmitAnswer)
    requires Inv(s) && Boundary(s) && i < |s.entries|
    ensures Good(EnableOne(s, i, a))
  {
    var e := s.entries[i];
    var u := s.streams[e.stream];
    assert EntryOk(e, u) && StreamOk(u, s.packetSize, s.shouldRun);
    if !e.enabled {
      var on := e.(enabled := true);
      var t := Put(s, i, on, u);
      PutKeepsInv(s, i, on, u, t);
      if s.shouldRun {
        SubmitKeepsInv(s, t, i, on, u, a);
      }
    }
  }

  lemma {:induction false} EnableRangeKeepsInv(s: Loop, fd: int, answers: seq<SubmitAnswer>, i: nat)
    requires Inv(s) && Boundary(s) && i <= |s.entries|
    ensures Good(EnableRange(s, fd, answers, i))
    decreases |s.entries| - i
  {
    if i < |s.entries| {
      var r := if s.entries[i].fd == fd then EnableOne(s, i, AnswerTo(answers, i)) else Step(s, false);
      if s.entries[i].fd == fd {
        EnableOneKeepsInv(s, i, AnswerTo(answers, i));
      }
      if !r.threw {
        EnableRangeKeepsInv(r.s, fd, answers, i + 1);
      }
    }
  }

  lemma {:induction false} EnableAllKeepsInv(s: Loop, fds: seq<int>, requested: set<int>,
                                             answers: seq<SubmitAnswer>)
    requires Inv(s) && Boundary(s)
    ensures Good(EnableAll(s, fds, requested, answers))
    decreases |fds|
  {
    if fds != [] {
      EnableRangeKeepsInv(s, fds[0], answers, 0);
      var r := if fds[0] in requested then EnableRange(s, fds[0], answers, 0) else Step(s, false);
      if !r.threw {
        EnableAllKeepsInv(r.s, fds[1..], requested, answers);
      }
    }
  }

  ghost predicate SameOwnership(e: Entry, f: Entry) {
    f == e.(cancelRequested := f.cancelRequested, callbacks := f.callbacks, bytes := f.bytes)
  }

  /** Changing only counters and cancellation requests. */
  lemma SameOwnershipKeepsInv(s: Loop, t: Loop)
    requires Inv(s) && t == s.(entries := t.entries, cancelCounter := t.cancelCounter) && |t.entries| == |s.entries|
    requires t.cancelCounter <= s.cancelCounter && (s.shouldRun ==> t.cancelCounter == s.cancelCounter)
    requires forall i :: 0 <= i < |s.entries| ==> SameOwnership(s.entries[i], t.entries[i])
    ensures Inv(t) && (Boundary(s) ==> Boundary(t))
  {
    forall j | 0 <= j < |t.entries|
      ensures EntryOk(t.entries[j], t.streams[t.entries[j].stream])
    {
      assert EntryOk(s.entries[j], s.streams[s.entries[j].stream]);
    }
    assert forall k :: 0 <= k < |s.streams| ==> StreamOk(s.streams[k], s.packetSize, s.shouldRun);
  }

  lemma CancelKeepsInv(s: Loop, fds: set<int>)
    requires Inv(s)
    ensures Inv(CancelWhere(s, fds)) && (Boundary(s) ==> Boundary(CancelWhere(s, fds)))
  {
    SameOwnershipKeepsInv(s, CancelWhere(s, fds));
  }

  // ----- events -----

  lemma NotRunningKeepsInv(s: Loop)
    requires Inv(s)
    ensures Inv(s.(shouldRun := false)) && Boundary(s.(shouldRun := false))
  {
    forall k | 0 <= k < |s.streams|
      ensures StreamOk(s.streams[k], s.packetSize, false)
    {
      assert StreamOk(s.streams[k], s.packetSize, s.shouldRun);
    }
  }

  /** The request lists can change as long as no descriptor is in both. */
  lemma ListsKeepInv(s: Loop, t: Loop)
    requires Inv(s) && t == s.(listEnable := t.listEnable, listDisable := t.listDisable, listReset := t.listReset,
                               shouldCancel := t.shouldCancel)
    requires t.listEnable !! t.listDisable
    ensures Inv(t) && (Boundary(s) ==> Boundary(t))
  {
    assert EntriesOk(t) by {
      assert forall i :: 0 <= i < |s.entries| ==> EntryOk(s.entries[i], s.streams[s.entries[i].stream]);
    }
    assert StreamsOk(t) by {
      assert forall k :: 0 <= k < |s.streams| ==> StreamOk(s.streams[k], s.packetSize, s.shouldRun);
    }
  }

  lemma NoticeKeepsInv(s: Loop, v: Event)
    requires Inv(s) && Boundary(s) && v.Notice?
    ensures Good(OnNotice(s, v))
  {
    StoppedKeepsInv(s);
    NotRunningKeepsInv(s);
    if v.read == Readable && s.shouldRun && !s.shouldCancel && !(v.resetThrows && s.listReset != {}) {
      var t := s.(listReset := {});
      ListsKeepInv(s, t);
      EnableAllKeepsInv(t, v.order, s.listEnable, v.answers);
      var r := EnableAll(t, v.order, s.listEnable, v.answers);
      if !r.threw {
        var q := r.s.(listEnable := {});
        ListsKeepInv(r.s, q);
        CancelKeepsInv(q, q.listDisable);
        var p := CancelWhere(q, q.listDisable);
        ListsKeepInv(p, p.(listDisable := {}));
      }
    }
  }

  lemma TimerKeepsInv(s: Loop, v: Event)
    requires Inv(s) && Boundary(s) && v.Timer?
    ensures Good(OnTimer(s, v))
  {
    StoppedKeepsInv(s);
    if v.read == Readable {
      if v.throwsAt.Some? && v.throwsAt.value < |s.entries| {
        SameOwnershipKeepsInv(s, ClearCounters(s, v.throwsAt.value));
      } else {
        var t := ClearCounters(s, |s.entries|);
        SameOwnershipKeepsInv(s, t);
        StoppedKeepsInv(t);
      }
    }
  }

  lemma EventKeepsInv(s: Loop, v: Event)
    requires Inv(s) && Boundary(s)
    ensures Good(OnEvent(s, v))
  {
    match v
    case Usb(cs, _) => CompleteAllKeepsInv(s, cs);
    case Notice(_, _, _, _) => NoticeKeepsInv(s, v);
    case Timer(_, _, _) => TimerKeepsInv(s, v);
    case Ready(fd, answers) => EnableRangeKeepsInv(s, fd, answers, 0);
    case PollFd(_) => StoppedKeepsInv(s);
  }

  lemma {:induction false} EventsKeepInv(s: Loop, vs: seq<Event>)
    requires Inv(s) && Boundary(s)
    ensures Good(OnEvents(s, vs))
    decreases |vs|
  {
    if vs != [] {
      EventKeepsInv(s, vs[0]);
      var r := OnEvent(s, vs[0]);
      if !r.threw {
        EventsKeepInv(r.s, vs[1..]);
      }
    }
  }

  lemma ShutDownKeepsInv(s: Loop)
    requires Inv(s) && !s.shouldRun
    ensures Inv(ShutDown(s).s) && Boundary(ShutDown(s).s)
  {
    var t := CancelAll(s).(cancelCounter := s.cancelCounter - 1);
    SameOwnershipKeepsInv(s, t);
  }

  /** One call of `process_step`, whatever happens in it: the invariant holds again, and if the loop still
      runs, exactly the enabled transfers are in flight. */
  lemma ProcessStepKeepsInv(s: Loop, poll: Poll)
    requires Inv(s) && Boundary(s)
    ensures Inv(ProcessStep(s, poll).s) && Boundary(ProcessStep(s, poll).s)
  {
    match poll
    case PollFails => StoppedKeepsInv(s);
    case PollTimeout =>
    case Events(vs) =>
      EventsKeepInv(s, vs);
      var r := OnEvents(s, vs);
      if r.threw {
        StoppedKeepsInv(r.s);
      } else if !r.s.shouldRun {
        ShutDownKeepsInv(r.s);
      }
  }
}
