/** The counters of a transfer, and the timer that reports them. */
module StreamCounters {
  import opened Memory
  import opened Packets
  import opened StreamRead
  import opened StreamModel
  import opened StreamInvariant
  import AsyncRead
  import StreamCancel
  import StreamDrain

  // ----- the timer -----

  /** How many counters the timer reports and clears before a callback throws. */
  function Reported(s: Loop, v: Event): nat
    requires v.Timer?
  {
    if v.read != Readable then 0
    else if v.throwsAt.Some? then Min(v.throwsAt.value, |s.entries|) else |s.entries|
  }

  /** The timer event, exactly.  It throws if the callback of some counter does; otherwise it stops the loop if
      its descriptor cannot be read, or the time limit is over.  The counters that were reported are cleared, and
      nothing else changes. */
  lemma TimerIff(s: Loop, v: Event)
    requires s.WellFormed() && v.Timer?
    ensures var r := OnTimer(s, v);
      && (r.threw <==> v.read == Readable && v.throwsAt.Some? && v.throwsAt.value < |s.entries|)
      && (!r.threw ==>
            (r.s.shouldRun <==> s.shouldRun && (v.read == Again || (v.read == Readable && !v.expired))))
      && (r.threw ==> r.s.shouldRun == s.shouldRun)
      && r.s == s.(entries := r.s.entries, shouldRun := r.s.shouldRun, shouldCancel := r.s.shouldCancel)
      && |r.s.entries| == |s.entries|
      && forall i :: 0 <= i < |s.entries| ==>
           r.s.entries[i] ==
             if i < Reported(s, v) then s.entries[i].(callbacks := 0, bytes := 0) else s.entries[i]
  {
  }

  // ----- what a completion counts -----

  /** A read completion: one more callback, the bytes of the payload, and what the user gets.  A transfer that did
      not complete, or came back to a stopping loop, hands over and counts nothing. */
  lemma ReadCounts(s: Loop, c: Completion)
    requires Inv(s) && Boundary(s) && c.entry < |s.entries|
    requires s.entries[c.entry].inFlight && s.entries[c.entry].isReading
    ensures var t, e := Complete(s, c), s.entries[c.entry];
      var u := s.streams[e.stream];
      var calls := if s.shouldRun && c.status == AsyncRead.Completed
                   then Calls(Chunks(c.data, s.packetSize, u.modem), c.throwsAt) else [];
      && t.entries[c.entry].callbacks == e.callbacks + 1
      && t.entries[c.entry].bytes == e.bytes + CountBytes(calls, u.modem)
      && t.streams[e.stream].received == u.received + calls
      && t.streams[e.stream].wire == u.wire + [c.data]
  {
    var e := s.entries[c.entry];
    var u := s.streams[e.stream];
    assert EntryOk(e, u);
    assert u.received + [] == u.received;
  }

  /** A write completion: one more callback, and the bytes that went out, unless the transfer was cancelled or the
      loop is stopping. */
  lemma WriteCounts(s: Loop, c: Completion)
    requires Inv(s) && Boundary(s) && c.entry < |s.entries|
    requires s.entries[c.entry].inFlight && !s.entries[c.entry].isReading
    ensures var t, e := Complete(s, c), s.entries[c.entry];
      && t.entries[c.entry].callbacks == e.callbacks + 1
      && t.entries[c.entry].bytes ==
           e.bytes + if s.shouldRun && c.status != AsyncRead.Cancelled then Min(c.accepted, |e.buffer|) else 0
  {
    assert EntryOk(s.entries[c.entry], s.streams[s.entries[c.entry].stream]);
  }

  // ----- what the counters add up to -----

  lemma WriteLeaves(s: Loop, j: nat, c: Completion, i: nat)
    requires s.Has(j) && s.entries[j].enabled && i < |s.entries| && j != i
    ensures WriteCallback(s, j, c).entries[i] == s.entries[i]
  {
  }

  lemma ReadLeaves(s: Loop, j: nat, c: Completion, i: nat)
    requires s.Has(j) && s.packetSize >= 1 && s.entries[j].enabled && i < |s.entries| && j != i
    ensures ReadCallback(s, j, c).entries[i] == s.entries[i]
  {
  }

  lemma LeavesOthers(s: Loop, c: Completion, i: nat)
    requires Inv(s) && i < |s.entries| && c.entry != i
    ensures Complete(s, c).entries[i] == s.entries[i]
  {
    if c.entry < |s.entries| && s.entries[c.entry].inFlight {
      assert EntryOk(s.entries[c.entry], s.streams[s.entries[c.entry].stream]);
      WriteLeaves(s, c.entry, c, i);
      ReadLeaves(s, c.entry, c, i);
    }
  }

  /** The payload of the completions of transfer `i`. */
  function PayloadOf(cs: seq<Completion>, i: nat, packetSize: nat): nat
    requires packetSize >= 2
  {
    if cs == [] then 0
    else (if cs[0].entry == i then |Strip(cs[0].data, packetSize)| else 0) + PayloadOf(cs[1..], i, packetSize)
  }

  lemma OneReadCounted(s: Loop, c: Completion)
    requires Inv(s) && Boundary(s) && c.entry < |s.entries| && s.packetSize >= 2
    requires s.entries[c.entry].inFlight && s.entries[c.entry].isReading && Complete(s, c).shouldRun
    ensures Complete(s, c).entries[c.entry].bytes == s.entries[c.entry].bytes + |Strip(c.data, s.packetSize)|
  {
    StreamCancel.ReadGoesOnIff(s, c);
    ReadCounts(s, c);
    CounterCountsPayload(c.data, s.packetSize, s.streams[s.entries[c.entry].stream].modem);
  }

  /** As long as the loop runs, the counters of a read transfer grow by the number of its completions and by the
      length of all their payload, whatever other transfers do in between. */
  lemma {:induction false} CountersAddUp(s: Loop, cs: seq<Completion>, i: nat)
    requires Inv(s) && Boundary(s) && s.packetSize >= 2 && i < |s.entries|
    requires s.entries[i].isReading && s.entries[i].inFlight && CompleteAll(s, cs).shouldRun
    ensures var e, f := s.entries[i], CompleteAll(s, cs).entries[i];
      && f.inFlight && f.callbacks == e.callbacks + StreamDrain.Count(cs, i)
      && f.bytes == e.bytes + PayloadOf(cs, i, s.packetSize)
    decreases |cs|
  {
    if cs != [] {
      var c, m := cs[0], Complete(s, cs[0]);
      CompleteKeepsInv(s, c);
      if c.entry == i {
        StreamCancel.ReadGoesOnIff(s, c);
        ReadCounts(s, c);
        OneReadCounted(s, c);
        assert m.entries[i].isReading;
      } else {
        LeavesOthers(s, c, i);
      }
      CountersAddUp(m, cs[1..], i);
    }
  }
}
