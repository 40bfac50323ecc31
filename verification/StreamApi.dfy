/** The public class of the streaming layer: the checks of its constructor, the transfers they lead to, and
    the requests to the running loop. */
module StreamApi {
  import opened Memory
  import opened StreamModel
  import opened StreamRuns
  import StreamLoop
  import AsyncRead

  const UINT32_MAX := 0xFFFF_FFFF

  /** One `FtdiStreamEntry`, with what its callbacks return for the file descriptors. */
  datatype Config = Config(
    sameContext: bool, maxPacketSize: nat, writebufferChunksize: nat, modem: bool,
    hasReadCallback: bool, readFd: int, readStartEnabled: bool, readTransfers: nat, readPackets: nat,
    hasWriteCallback: bool, writeFd: int, writeTransfers: nat, writePackets: nat)

  datatype Fault =
    | NoStreams | OtherContext
    | ZeroReadPackets | NoReadCallback
    | ZeroWritePackets | NotOneWriteTransfer | NoWriteCallback
    | NoTransfers | NoTimeouts

  /** What is wrong with one stream, if anything is. */
  function FaultOf(c: Config): Option<Fault> {
    if !c.sameContext then Some(OtherContext)
    else if c.readTransfers > 0 && !c.hasReadCallback then Some(NoReadCallback)
    else if c.readTransfers > 0 && c.readPackets == 0 then Some(ZeroReadPackets)
    else if c.writeTransfers > 0 && !c.hasWriteCallback then Some(NoWriteCallback)
    else if c.writeTransfers > 0 && c.writePackets == 0 then Some(ZeroWritePackets)
    else if c.writeTransfers > 0 && c.writeTransfers != 1 then Some(NotOneWriteTransfer)
    else None
  }

  /** The two sides of a stream, in terms of its fields. */
  predicate ReadSideOk(c: Config) {
    c.readTransfers > 0 ==> c.hasReadCallback && c.readPackets > 0
  }

  predicate WriteSideOk(c: Config) {
    c.writeTransfers > 0 ==> c.hasWriteCallback && c.writePackets > 0 && c.writeTransfers == 1
  }

  /** Every fault by the fields of the stream; the context comes first, then reading, then writing. */
  lemma FaultIff(c: Config)
    ensures FaultOf(c) == None <==> c.sameContext && ReadSideOk(c) && WriteSideOk(c)
    ensures FaultOf(c) == Some(OtherContext) <==> !c.sameContext
    ensures FaultOf(c) == Some(NoReadCallback) <==> c.sameContext && c.readTransfers > 0 && !c.hasReadCallback
    ensures FaultOf(c) == Some(ZeroReadPackets) <==>
      c.sameContext && c.readTransfers > 0 && c.hasReadCallback && c.readPackets == 0
    ensures FaultOf(c) == Some(NoWriteCallback) <==>
      c.sameContext && ReadSideOk(c) && c.writeTransfers > 0 && !c.hasWriteCallback
    ensures FaultOf(c) == Some(ZeroWritePackets) <==>
      c.sameContext && ReadSideOk(c) && c.writeTransfers > 0 && c.hasWriteCallback && c.writePackets == 0
    ensures FaultOf(c) == Some(NotOneWriteTransfer) <==>
      c.sameContext && ReadSideOk(c) && c.writeTransfers > 1 && c.hasWriteCallback && c.writePackets > 0
  {
  }

  predicate HasTransfers(c: Config) {
    c.readTransfers > 0 || c.writeTransfers > 0
  }

  /** `m` is the smallest of the values, or the initial one. */
  ghost predicate Smallest(m: nat, values: seq<nat>) {
    && m <= UINT32_MAX && (m == UINT32_MAX || m in values)
    && forall v :: v in values ==> m <= v
  }

  function ReadSizes(cs: seq<Config>): seq<nat> {
    seq(|cs|, i requires 0 <= i < |cs| => cs[i].maxPacketSize)
  }

  function WriteSizes(cs: seq<Config>): seq<nat> {
    seq(|cs|, i requires 0 <= i < |cs| => cs[i].writebufferChunksize)
  }

  lemma SmallestStep(m: nat, values: seq<nat>, i: nat)
    requires i < |values| && Smallest(m, values[..i])
    ensures Smallest(Min(m, values[i]), values[..i + 1])
  {
    assert values[..i + 1] == values[..i] + [values[i]];
  }

  /** The constructor: it finds a fault exactly if there is one, the first one in order, and otherwise the
      smallest packet sizes of all streams. */
  method Construct(cs: seq<Config>, handlesTimeouts: bool)
      returns (fault: Option<Fault>, readPacketsize: nat, writePacketsize: nat)
    ensures fault == None <==>
      && cs != [] && handlesTimeouts
      && (forall i :: 0 <= i < |cs| ==> FaultOf(cs[i]) == None)
      && (exists i :: 0 <= i < |cs| && HasTransfers(cs[i]))
    ensures forall i ::
      0 <= i < |cs| && FaultOf(cs[i]) != None && (forall j :: 0 <= j < i ==> FaultOf(cs[j]) == None)
      ==> fault == FaultOf(cs[i])
    ensures cs == [] ==> fault == Some(NoStreams)
    ensures cs != [] && (forall i :: 0 <= i < |cs| ==> FaultOf(cs[i]) == None) ==>
      fault == if !(exists i :: 0 <= i < |cs| && HasTransfers(cs[i])) then Some(NoTransfers)
               else if !handlesTimeouts then Some(NoTimeouts)
               else None
    ensures fault == None ==> Smallest(readPacketsize, ReadSizes(cs)) && Smallest(writePacketsize, WriteSizes(cs))
  {
    readPacketsize, writePacketsize := UINT32_MAX, UINT32_MAX;
    if |cs| == 0 {
      return Some(NoStreams), readPacketsize, writePacketsize;
    }
    var areSomeTransfers := false;
    var i := 0;
    while i < |cs|
      invariant 0 <= i <= |cs|
      invariant forall j :: 0 <= j < i ==> FaultOf(cs[j]) == None
      invariant areSomeTransfers <==> exists j :: 0 <= j < i && HasTransfers(cs[j])
      invariant Smallest(readPacketsize, ReadSizes(cs)[..i]) && Smallest(writePacketsize, WriteSizes(cs)[..i])
    {
      var c := cs[i];
      SmallestStep(readPacketsize, ReadSizes(cs), i);
      SmallestStep(writePacketsize, WriteSizes(cs), i);
      fault := FaultOf(c);
      if fault != None {
        return;
      }
      readPacketsize := Min(readPacketsize, c.maxPacketSize);
      writePacketsize := Min(writePacketsize, c.writebufferChunksize);
      if HasTransfers(c) {
        areSomeTransfers := true;
      }
      i := i + 1;
    }
    assert ReadSizes(cs)[..|cs|] == ReadSizes(cs) && WriteSizes(cs)[..|cs|] == WriteSizes(cs);
    fault := if !areSomeTransfers then Some(NoTransfers) else if !handlesTimeouts then Some(NoTimeouts) else None;
  }

  /** The transfers that `process_init` creates for stream `k`. */
  function TransfersOf(c: Config, k: nat, readPacketsize: nat, writePacketsize: nat): seq<Transfer> {
    seq(c.readTransfers, _ => Transfer(k, true, c.readFd, readPacketsize * c.readPackets, c.readStartEnabled))
    + seq(c.writeTransfers, _ => Transfer(k, false, c.writeFd, writePacketsize * c.writePackets, true))
  }

  /** ... and for all streams from number `k` on. */
  function AllTransfers(cs: seq<Config>, k: nat, readPacketsize: nat, writePacketsize: nat): (xs: seq<Transfer>)
    ensures forall x :: x in xs ==> k <= x.stream < k + |cs|
  {
    if cs == [] then []
    else TransfersOf(cs[0], k, readPacketsize, writePacketsize)
         + AllTransfers(cs[1..], k + 1, readPacketsize, writePacketsize)
  }

  /** The number of transfers of stream `k`, for reading or for writing. */
  function Number(xs: seq<Transfer>, k: nat, isReading: bool): nat {
    if xs == [] then 0
    else (if xs[0].stream == k && xs[0].isReading == isReading then 1 else 0) + Number(xs[1..], k, isReading)
  }

  lemma {:induction false} NumberAppend(xs: seq<Transfer>, ys: seq<Transfer>, k: nat, isReading: bool)
    ensures Number(xs + ys, k, isReading) == Number(xs, k, isReading) + Number(ys, k, isReading)
    decreases |xs|
  {
    if xs == [] {
      assert xs + ys == ys;
    } else {
      assert (xs + ys)[1..] == xs[1..] + ys;
      NumberAppend(xs[1..], ys, k, isReading);
    }
  }

  lemma {:induction false} NumberOfSame(n: nat, x: Transfer, k: nat, isReading: bool)
    ensures Number(seq(n, _ => x), k, isReading) == if x.stream == k && x.isReading == isReading then n else 0
    decreases n
  {
    if n > 0 {
      var xs: seq<Transfer> := seq(n, _ => x);
      assert xs[1..] == seq(n - 1, _ => x);
      NumberOfSame(n - 1, x, k, isReading);
    }
  }

  lemma NumberOfOne(c: Config, k: nat, readPacketsize: nat, writePacketsize: nat, j: nat, isReading: bool)
    ensures Number(TransfersOf(c, k, readPacketsize, writePacketsize), j, isReading)
         == if j != k then 0 else if isReading then c.readTransfers else c.writeTransfers
  {
    var x := Transfer(k, true, c.readFd, readPacketsize * c.readPackets, c.readStartEnabled);
    var y := Transfer(k, false, c.writeFd, writePacketsize * c.writePackets, true);
    NumberAppend(seq(c.readTransfers, _ => x), seq(c.writeTransfers, _ => y), j, isReading);
    NumberOfSame(c.readTransfers, x, j, isReading);
    NumberOfSame(c.writeTransfers, y, j, isReading);
  }

  lemma {:induction false} NoneOf(xs: seq<Transfer>, k: nat, isReading: bool)
    requires forall x :: x in xs ==> x.stream != k
    ensures Number(xs, k, isReading) == 0
    decreases |xs|
  {
    if xs != [] {
      assert xs[0] in xs;
      NoneOf(xs[1..], k, isReading);
    }
  }

  /** The transfer has the descriptor and the buffer that its stream asks for. */
  predicate Matches(x: Transfer, c: Config, readPacketsize: nat, writePacketsize: nat) {
    if x.isReading then
      x.fd == c.readFd && x.bufferSize == readPacketsize * c.readPackets && x.startEnabled == c.readStartEnabled
    else x.fd == c.writeFd && x.bufferSize == writePacketsize * c.writePackets
  }

  lemma NumberOfFirst(cs: seq<Config>, k: nat, readPacketsize: nat, writePacketsize: nat, m: nat, isReading: bool)
    requires cs != []
    ensures Number(AllTransfers(cs, k, readPacketsize, writePacketsize), m, isReading)
         == (if m != k then 0 else if isReading then cs[0].readTransfers else cs[0].writeTransfers)
            + Number(AllTransfers(cs[1..], k + 1, readPacketsize, writePacketsize), m, isReading)
  {
    NumberAppend(TransfersOf(cs[0], k, readPacketsize, writePacketsize),
                 AllTransfers(cs[1..], k + 1, readPacketsize, writePacketsize), m, isReading);
    NumberOfOne(cs[0], k, readPacketsize, writePacketsize, m, isReading);
  }

  /** Every stream gets as many transfers as it asks for, ... */
  lemma {:induction false} TransfersCount(cs: seq<Config>, k: nat, readPacketsize: nat, writePacketsize: nat,
                                          m: nat, isReading: bool)
    requires k <= m < k + |cs|
    ensures Number(AllTransfers(cs, k, readPacketsize, writePacketsize), m, isReading)
         == if isReading then cs[m - k].readTransfers else cs[m - k].writeTransfers
    decreases |cs|
  {
    var b: seq<Transfer> := AllTransfers(cs[1..], k + 1, readPacketsize, writePacketsize);
    NumberOfFirst(cs, k, readPacketsize, writePacketsize, m, isReading);
    if m == k {
      NoneOf(b, k, isReading);
    } else {
      TransfersCount(cs[1..], k + 1, readPacketsize, writePacketsize, m, isReading);
      assert cs[1..][m - (k + 1)] == cs[m - k];
    }
  }

  /** ... with the descriptors and buffers that it asks for. */
  lemma {:induction false} TransfersMatch(cs: seq<Config>, k: nat, readPacketsize: nat, writePacketsize: nat,
                                          x: Transfer)
    requires x in AllTransfers(cs, k, readPacketsize, writePacketsize)
    ensures Matches(x, cs[x.stream - k], readPacketsize, writePacketsize)
    decreases |cs|
  {
    if x !in TransfersOf(cs[0], k, readPacketsize, writePacketsize) {
      TransfersMatch(cs[1..], k + 1, readPacketsize, writePacketsize, x);
      assert cs[1..][x.stream - (k + 1)] == cs[x.stream - k];
    }
  }

  /** The check that the state machine rests on: streams without fault have one write transfer at most. */
  lemma {:induction false} CheckedStreamsHaveOneWriter(cs: seq<Config>, k: nat,
                                                             readPacketsize: nat, writePacketsize: nat)
    requires forall i :: 0 <= i < |cs| ==> FaultOf(cs[i]) == None
    ensures OneWriteTransfer(AllTransfers(cs, k, readPacketsize, writePacketsize))
    decreases |cs|
  {
    if cs != [] {
      assert FaultOf(cs[0]) == None;
      CheckedStreamsHaveOneWriter(cs[1..], k + 1, readPacketsize, writePacketsize);
      var a: seq<Transfer> := TransfersOf(cs[0], k, readPacketsize, writePacketsize);
      var b: seq<Transfer> := AllTransfers(cs[1..], k + 1, readPacketsize, writePacketsize);
      forall i, j | 0 <= i < j < |a + b| && !(a + b)[i].isReading && !(a + b)[j].isReading
        ensures (a + b)[i].stream != (a + b)[j].stream
      {
        if i < |a| {
          assert j >= |a|;
          assert b[j - |a|] in b;
        } else {
          assert b[i - |a|].stream != b[j - |a|].stream;
        }
      }
    }
  }

  /** Two write transfers on a stream whose user appends one byte make the device get it twice. */
  ghost predicate SentTwice(xs: seq<Transfer>, answers: seq<SubmitAnswer>, actions: seq<Action>) {
    && (forall x :: x in xs ==> x.stream == 0 && !x.isReading)
    && var r := InitFrom(Fresh([NewStream(false, [7])], 2), xs, answers, []);
       && !r.threw
       && Run(r.s, actions).streams[0].appended == [7]
       && Run(r.s, actions).streams[0].device == [7, 7]
  }

  lemma TwoWritersStart(x: Transfer, a: SubmitAnswer) returns (s: Loop)
    requires x == Transfer(0, false, 0, 1, true) && a == SubmitAnswer(Fill(1), true)
    ensures InitFrom(Fresh([NewStream(false, [7])], 2), [x, x], [a, a], []) == Step(s, false)
    ensures s.shouldRun && s.packetSize == 2 && s.streams == [NewStream(false, [7])] && |s.entries| == 2
    ensures s.entries[0] == s.entries[1] == NewEntry(x).(buffer := [7], inFlight := true)
  {
    var s0 := Fresh([NewStream(false, [7])], 2);
    var e := NewEntry(x).(buffer := [7], inFlight := true);
    var s1 := s0.(entries := [e]);
    s := s0.(entries := [e, e]);
    assert s0.streams[0].queue[..1] == [7];
    assert s0.entries + [NewEntry(x)] == [NewEntry(x)];
    assert Created(s0, x, []) == s0.(entries := [NewEntry(x)]);
    assert Created(s1, x, []) == s1.(entries := [e, NewEntry(x)]);
    assert Submit(s0.(entries := [NewEntry(x)]), 0, a) == Step(s1, false);
    assert s1.entries + [NewEntry(x)] == [e, NewEntry(x)];
    assert Submit(s1.(entries := [e, NewEntry(x)]), 1, a) == Step(s, false);
    assert [x, x][1..] == [x] && [x][1..] == [];
    assert InitFrom(s1, [x], [a, a], []) == InitFrom(s, [], [a, a], []);
  }

  lemma TwoWritersComplete(s: Loop, c: Completion, actions: seq<Action>)
    requires s.shouldRun && s.packetSize == 2 && s.streams == [NewStream(false, [7])] && |s.entries| == 2
    requires s.entries[0] == s.entries[1] == NewEntry(Transfer(0, false, 0, 1, true)).(buffer := [7], inFlight := true)
    requires c == Completion(0, AsyncRead.Completed, [], 1, None, Confirms, SubmitAnswer(Fill(0), true))
    requires actions == [TakeStep(Events([Usb([c, c.(entry := 1)], true)]))]
    ensures s.WellFormed()
    ensures Run(s, actions).streams[0].appended == [7] && Run(s, actions).streams[0].device == [7, 7]
  {
    var s1 := Complete(s, c);
    assert s1.streams[0].device == [7] && s1.entries[1] == s.entries[1] && s1.shouldRun;
    var s2 := Complete(s1, c.(entry := 1));
    assert s2.streams[0].device == [7, 7] && s2.streams[0].appended == [7] && s2.shouldRun;
    var cs := [c, c.(entry := 1)];
    assert cs[1..] == [c.(entry := 1)] && cs[1..][1..] == [];
    assert CompleteAll(s1, cs[1..]) == CompleteAll(s2, []);
    assert CompleteAll(s, cs) == s2;
    assert [Usb(cs, true)][1..] == [];
    assert OnEvents(s, [Usb(cs, true)]) == OnEvents(s2, []);
    assert actions[1..] == [];
    assert Run(s, actions) == Run(s2, []);
  }

  /** Why the check is needed: both transfers take the same bytes off the queue. */
  lemma TwoWritersDuplicate()
    ensures exists xs, answers, actions :: SentTwice(xs, answers, actions)
  {
    var x, a := Transfer(0, false, 0, 1, true), SubmitAnswer(Fill(1), true);
    var s := TwoWritersStart(x, a);
    var c := Completion(0, AsyncRead.Completed, [], 1, None, Confirms, SubmitAnswer(Fill(0), true));
    var actions := [TakeStep(Events([Usb([c, c.(entry := 1)], true)]))];
    TwoWritersComplete(s, c, actions);
    assert SentTwice([x, x], [a, a], actions);
  }

  datatype Requested = Done | Ignored | Rejected

  /** The object that other threads talk to. */
  class FtdiStream {
    const state: StreamLoop.FtdiStreamState
    const configs: seq<Config>
    var started: bool

    constructor (configs: seq<Config>, state: StreamLoop.FtdiStreamState)
      ensures this.configs == configs && this.state == state && started
    {
      this.configs, this.state, this.started := configs, state, true;
    }

    /** `fd` is what the read callback of the stream returns for its descriptor. */
    method EnableReading(k: nat, fd: int) returns (r: Requested)
      requires state.State().WellFormed()
      modifies state`listEnable, state`listDisable
      ensures r.Ignored? <==> !started || state.shouldCancel
      ensures r.Rejected? <==> !r.Ignored? && (k >= |configs| || !configs[k].hasReadCallback || fd < 0)
      ensures state.State() ==
        if r.Done? then Act(old(state.State()), StreamRuns.EnableReading(fd)).s else old(state.State())
      ensures r.Done? ==>
        state.listEnable == old(state.listEnable) + {fd} && state.listDisable == old(state.listDisable) - {fd}
      ensures old(state.listEnable !! state.listDisable) ==> state.listEnable !! state.listDisable
    {
      if !started || state.shouldCancel {
        return Ignored;
      }
      if k >= |configs| || !configs[k].hasReadCallback || fd < 0 {
        return Rejected;
      }
      state.listDisable := state.listDisable - {fd};
      state.listEnable := state.listEnable + {fd};
      return Done;
    }

    method DisableReading(k: nat, fd: int) returns (r: Requested)
      requires state.State().WellFormed()
      modifies state`listEnable, state`listDisable
      ensures r.Ignored? <==> !started || state.shouldCancel
      ensures r.Rejected? <==> !r.Ignored? && (k >= |configs| || !configs[k].hasReadCallback || fd < 0)
      ensures state.State() ==
        if r.Done? then Act(old(state.State()), StreamRuns.DisableReading(fd)).s else old(state.State())
      ensures r.Done? ==>
        state.listEnable == old(state.listEnable) - {fd} && state.listDisable == old(state.listDisable) + {fd}
      ensures old(state.listEnable !! state.listDisable) ==> state.listEnable !! state.listDisable
    {
      if !started || state.shouldCancel {
        return Ignored;
      }
      if k >= |configs| || !configs[k].hasReadCallback || fd < 0 {
        return Rejected;
      }
      state.listEnable := state.listEnable - {fd};
      state.listDisable := state.listDisable + {fd};
      return Done;
    }

    method ResetStream(k: nat) returns (r: Requested)
      requires state.State().WellFormed() && |configs| == |state.streams|
      modifies state`listReset
      ensures r.Ignored? <==> !started || state.shouldCancel
      ensures r.Rejected? <==> !r.Ignored? && k >= |configs|
      ensures state.State() ==
        if r.Done? then Act(old(state.State()), StreamRuns.ResetStream(k)).s else old(state.State())
      ensures r.Done? ==> state.listReset == old(state.listReset) + {k}
    {
      if !started || state.shouldCancel {
        return Ignored;
      }
      if k >= |configs| {
        return Rejected;
      }
      state.listReset := state.listReset + {k};
      return Done;
    }
  }
}
