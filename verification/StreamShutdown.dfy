/** A run that ends although libusb still owns the transfers of the loop. */
module StreamShutdown {
  import opened StreamModel
  import opened StreamRuns
  import opened StreamCancel

  /** A poll that sees libusb's descriptors, but no transfer comes back. */
  const NOTHING_BACK := Events([Usb([], true)])

  /** The stop is requested and noticed, and three times libusb has something to do, but the cancelled transfers
      do not come back. */
  const STOP_POLLS := [Events([READ_NOTICE]), NOTHING_BACK, NOTHING_BACK, NOTHING_BACK]

  lemma NothingBack(s: Loop)
    requires s.WellFormed() && !s.shouldRun
    ensures ProcessStep(s, NOTHING_BACK) == ShutDown(s)
  {
    OneEvent(s, Usb([], true));
    assert CompleteAll(s, []) == s;
  }

  lemma StopNoticed(s: Loop)
    requires s.WellFormed() && s.shouldRun && s.shouldCancel
    ensures ProcessStep(s, Events([READ_NOTICE])) == ShutDown(s.(shouldRun := false))
  {
    OneEvent(s, READ_NOTICE);
  }

  /** A stopping step in which an enabled transfer does not come back. */
  lemma StillStopping(s: Loop)
    requires s.WellFormed() && !s.shouldRun && |s.entries| > 0 && s.entries[0].enabled && s.entries[0].inFlight
    ensures var p := ShutDown(s);
      && p.outcome == (if s.cancelCounter > 0 then Continue else Finish)
      && |p.s.entries| > 0 && p.s.entries[0].enabled && p.s.entries[0].inFlight
      && !p.s.shouldRun && p.s.cancelCounter == s.cancelCounter - 1
  {
    assert !AllDisabled(s);
  }

  lemma {:induction false} NeverBack(s: Loop, polls: seq<Poll>)
    requires s.WellFormed() && !s.shouldRun && |s.entries| > 0 && s.entries[0].enabled && s.entries[0].inFlight
    requires s.cancelCounter >= 0 && |polls| == s.cancelCounter + 1
    requires forall k :: 0 <= k < |polls| ==> polls[k] == NOTHING_BACK
    ensures var r := PollUntilDone(s, polls); r.1 && Busy(r.0) && r.0.cancelCounter == -1
    decreases |polls|
  {
    NothingBack(s);
    StillStopping(s);
    var p := ShutDown(s);
    if s.cancelCounter > 0 {
      NeverBack(p.s, polls[1..]);
    } else {
      assert p.s.entries[0].inFlight;
    }
  }

  /** Two streams are read, and the loop is stopped: `stop_poll` ends after four steps with both transfers owned
      by libusb, and `process_cleanup` comes next. */
  lemma EndsBusy()
    ensures TWO_READERS.Proper() && !Init(TWO_READERS).threw
    ensures var r := PollUntilDone(Act(Init(TWO_READERS).s, RequestStop).s, STOP_POLLS);
      r.1 && Busy(r.0) && r.0.cancelCounter == -1
  {
    var s := TwoReadersStart();
    var t := Act(s, RequestStop).s;
    StopNoticed(t);
    StillStopping(t.(shouldRun := false));
    assert STOP_POLLS[1..] == [NOTHING_BACK, NOTHING_BACK, NOTHING_BACK];
    NeverBack(ShutDown(t.(shouldRun := false)).s, STOP_POLLS[1..]);
  }
}
