/** What any sequence of `ftdi_read_data` calls does to the byte stream. */
module ReadHistory {
  import opened Memory
  import opened Packets
  import opened Context
  import opened SyncRead

  /** The payload of each transfer, whether libusb reports it as an error or not. */
  function Payloads(incoming: seq<BulkResult>, ps: nat): (p: seq<seq<byte>>)
    requires ps >= 2
    ensures |p| == |incoming|
  {
    seq(|incoming|, i requires 0 <= i < |incoming| => Strip(incoming[i].bytes, ps))
  }

  /** The payload of everything the device still has to say. */
  function Payload(incoming: seq<BulkResult>, ps: nat): seq<byte>
    requires ps >= 2
  {
    Join(Payloads(incoming, ps))
  }

  lemma PayloadCons(incoming: seq<BulkResult>, ps: nat)
    requires ps >= 2 && incoming != []
    ensures Payload(incoming, ps) == Strip(incoming[0].bytes, ps) + Payload(incoming[1..], ps)
  {
    assert Payloads(incoming, ps)[1..] == Payloads(incoming[1..], ps);
  }

  lemma PayloadOfPrefix(a: seq<BulkResult>, b: seq<BulkResult>, ps: nat)
    requires ps >= 2
    ensures Payload(a + b, ps) == Payload(a, ps) + Payload(b, ps)
  {
    JoinAppend(Payloads(a, ps), Payloads(b, ps));
    assert Payloads(a + b, ps) == Payloads(a, ps) + Payloads(b, ps);
  }

  /** Everything that successful calls returned, in order. */
  function Returned(rs: seq<ReadResult>): seq<byte> {
    if rs == [] then [] else rs[0].Returned() + Returned(rs[1..])
  }

  /** One call: what it returns or loses, its leftover, and what is still to come. */
  lemma {:induction false} GatherConserves(incoming: seq<BulkResult>, chunk: nat, ps: nat, size: nat, got: seq<byte>)
    requires ps >= 2 && |got| < size
    ensures var r := Gather(incoming, chunk, ps, size, got);
      r.Returned() + r.Gone() + r.Left() + Payload(r.incoming, ps) == got + Payload(incoming, ps)
    decreases |incoming|
  {
    if incoming != [] {
      var b := incoming[0].bytes;
      var all := got + Strip(b, ps);
      PayloadCons(incoming, ps);
      assert got + Payload(incoming, ps) == all + Payload(incoming[1..], ps);
      if Next(incoming, chunk).Data? && |b| > 2 && all != got && |all| < size {
        GatherConserves(incoming[1..], chunk, ps, size, all);
      }
    }
  }

  /** The results of a sequence of calls of the given sizes; an error does not end the sequence. */
  function ReadCalls(left: seq<byte>, incoming: seq<BulkResult>, chunk: nat, ps: nat, sizes: seq<nat>)
    : (rs: seq<ReadResult>)
    requires ps >= 2
    ensures |rs| == |sizes|
    decreases |sizes|
  {
    if sizes == [] then []
    else
      var r := Read(left, incoming, chunk, ps, sizes[0]);
      [r] + ReadCalls(r.Left(), r.incoming, chunk, ps, sizes[1..])
  }

  /** Everything that was returned or lost, in order. */
  function Taken(rs: seq<ReadResult>): seq<byte> {
    if rs == [] then [] else rs[0].Returned() + rs[0].Gone() + Taken(rs[1..])
  }

  /** No call lost anything. */
  ghost predicate NothingGone(rs: seq<ReadResult>) {
    forall i :: 0 <= i < |rs| ==> rs[i].Gone() == []
  }

  lemma ReadConserves(left: seq<byte>, incoming: seq<BulkResult>, chunk: nat, ps: nat, size: nat)
    requires ps >= 2
    ensures var r := Read(left, incoming, chunk, ps, size);
      r.Returned() + r.Gone() + r.Left() + Payload(r.incoming, ps) == left + Payload(incoming, ps)
  {
    if size <= |left| {
      assert left[..size] + [] + left[size..] == left;
    } else {
      GatherConserves(incoming, chunk, ps, size, left);
    }
  }

  /** What the last of a sequence of calls leaves. */
  function Final(left: seq<byte>, incoming: seq<BulkResult>, chunk: nat, ps: nat, sizes: seq<nat>): ReadResult
    requires ps >= 2 && sizes != []
  {
    ReadCalls(left, incoming, chunk, ps, sizes)[|sizes| - 1]
  }

  lemma TakenCons(r: ReadResult, tail: seq<ReadResult>)
    ensures Taken([r] + tail) == r.Returned() + r.Gone() + Taken(tail)
  {
    assert ([r] + tail)[1..] == tail;
  }

  lemma RunCons(left: seq<byte>, incoming: seq<BulkResult>, chunk: nat, ps: nat, sizes: seq<nat>)
    requires ps >= 2 && sizes != []
    ensures var r := Read(left, incoming, chunk, ps, sizes[0]);
      && Taken(ReadCalls(left, incoming, chunk, ps, sizes))
         == r.Returned() + r.Gone() + Taken(ReadCalls(r.Left(), r.incoming, chunk, ps, sizes[1..]))
      && Final(left, incoming, chunk, ps, sizes)
         == (if |sizes| == 1 then r else Final(r.Left(), r.incoming, chunk, ps, sizes[1..]))
      && (|sizes| == 1 ==> Taken(ReadCalls(left, incoming, chunk, ps, sizes)) == r.Returned() + r.Gone())
  {
    var r := Read(left, incoming, chunk, ps, sizes[0]);
    TakenCons(r, ReadCalls(r.Left(), r.incoming, chunk, ps, sizes[1..]));
  }

  lemma Chain(a: seq<byte>, b: seq<byte>, c: seq<byte>, total: seq<byte>, h: seq<byte>, l: seq<byte>, p: seq<byte>)
    requires a + b + c == total && h + l + p == b + c
    ensures (a + h) + l + p == total
  {
    assert a + b + c == a + (b + c);
    assert (a + h) + l + p == a + (h + l + p);
  }

  /** Conservation over any run, errors included: the bytes returned or lost, then the leftover window, then
      the payload still to come, are always the original leftover and payload. */
  lemma {:induction false} StreamConserved(left: seq<byte>, incoming: seq<BulkResult>, chunk: nat,
                                           ps: nat, sizes: seq<nat>)
    requires ps >= 2 && sizes != []
    ensures var last := Final(left, incoming, chunk, ps, sizes);
      Taken(ReadCalls(left, incoming, chunk, ps, sizes)) + last.Left() + Payload(last.incoming, ps)
      == left + Payload(incoming, ps)
    decreases |sizes|
  {
    var r := Read(left, incoming, chunk, ps, sizes[0]);
    RunCons(left, incoming, chunk, ps, sizes);
    ReadConserves(left, incoming, chunk, ps, sizes[0]);
    if |sizes| > 1 {
      StreamConserved(r.Left(), r.incoming, chunk, ps, sizes[1..]);
      var last := Final(r.Left(), r.incoming, chunk, ps, sizes[1..]);
      Chain(r.Returned() + r.Gone(), r.Left(), Payload(r.incoming, ps), left + Payload(incoming, ps),
            Taken(ReadCalls(r.Left(), r.incoming, chunk, ps, sizes[1..])),
            last.Left(), Payload(last.incoming, ps));
    }
  }

  ghost predicate SuffixOf(rest: seq<BulkResult>, all: seq<BulkResult>) {
    |rest| <= |all| && rest == all[|all| - |rest|..]
  }

  /** Reading only ever drops transfers from the front of what the device says. */
  lemma {:induction false} GatherConsumesPrefix(incoming: seq<BulkResult>, chunk: nat,
                                                ps: nat, size: nat, got: seq<byte>)
    requires ps >= 2 && |got| < size
    ensures SuffixOf(Gather(incoming, chunk, ps, size, got).incoming, incoming)
    decreases |incoming|
  {
    match Next(incoming, chunk)
    case Failed(_, _) =>
    case Data(b) =>
      var all := got + Strip(b, ps);
      if |b| > 2 && all != got && |all| < size {
        GatherConsumesPrefix(incoming[1..], chunk, ps, size, all);
      }
  }

  lemma SuffixTransitive(a: seq<BulkResult>, b: seq<BulkResult>, c: seq<BulkResult>)
    requires SuffixOf(a, b) && SuffixOf(b, c)
    ensures SuffixOf(a, c)
  {
  }

  lemma {:induction false} RunConsumesPrefix(left: seq<byte>, incoming: seq<BulkResult>, chunk: nat,
                                             ps: nat, sizes: seq<nat>)
    requires ps >= 2 && sizes != []
    ensures SuffixOf(Final(left, incoming, chunk, ps, sizes).incoming, incoming)
    decreases |sizes|
  {
    var r := Read(left, incoming, chunk, ps, sizes[0]);
    if sizes[0] > |left| {
      GatherConsumesPrefix(incoming, chunk, ps, sizes[0], left);
    }
    RunCons(left, incoming, chunk, ps, sizes);
    if |sizes| > 1 {
      RunConsumesPrefix(r.Left(), r.incoming, chunk, ps, sizes[1..]);
      SuffixTransitive(Final(r.Left(), r.incoming, chunk, ps, sizes[1..]).incoming, r.incoming, incoming);
    }
  }

  /** Losing nothing is returning everything. */
  lemma {:induction false} ReturnedIsTaken(rs: seq<ReadResult>)
    ensures NothingGone(rs) ==> Returned(rs) == Taken(rs)
    ensures !NothingGone(rs) ==> |Returned(rs)| < |Taken(rs)|
    ensures |Returned(rs)| <= |Taken(rs)|
  {
    if rs != [] {
      ReturnedIsTaken(rs[1..]);
      assert NothingGone(rs) <==> rs[0].Gone() == [] && NothingGone(rs[1..]);
    }
  }

  lemma CancelSuffix(a: seq<byte>, b: seq<byte>, c: seq<byte>)
    requires a + c == b + c
    ensures a == b
  {
    assert |a| == |b|;
    assert (a + c)[..|a|] == a;
    assert (b + c)[..|b|] == b;
  }

  /** Stream refinement: starting with an empty window, every byte of the transfers consumed so far was
      returned, lost in an error return, or is in the leftover window, once and in order.  The bytes returned
      and the window alone are exactly the stripped transfers if and only if no error return lost any. */
  lemma StreamRefinement(incoming: seq<BulkResult>, chunk: nat, ps: nat, sizes: seq<nat>)
    requires ps >= 2 && sizes != []
    ensures var rs, last := ReadCalls([], incoming, chunk, ps, sizes), Final([], incoming, chunk, ps, sizes);
      && |last.incoming| <= |incoming|
      && var payload := Payload(incoming[..|incoming| - |last.incoming|], ps);
         && Taken(rs) + last.Left() == payload
         && (Returned(rs) + last.Left() == payload <==> NothingGone(rs))
  {
    var rs := ReadCalls([], incoming, chunk, ps, sizes);
    var last := Final([], incoming, chunk, ps, sizes);
    StreamConserved([], incoming, chunk, ps, sizes);
    RunConsumesPrefix([], incoming, chunk, ps, sizes);
    var consumed := incoming[..|incoming| - |last.incoming|];
    assert consumed + last.incoming == incoming;
    PayloadOfPrefix(consumed, last.incoming, ps);
    CancelSuffix(Taken(rs) + last.Left(), Payload(consumed, ps), Payload(last.incoming, ps));
    ReturnedIsTaken(rs);
  }

  /** The number of transfers at the front that fit and have payload: a call goes on after each of them. */
  function Leading(incoming: seq<BulkResult>, chunk: nat, ps: nat): (n: nat)
    requires ps >= 2
    ensures n <= |incoming|
    decreases |incoming|
  {
    if Next(incoming, chunk).Data? && Strip(incoming[0].bytes, ps) != [] then 1 + Leading(incoming[1..], chunk, ps)
    else 0
  }

  /** What a call gets at most: the window and the payload of these transfers. */
  function Within(left: seq<byte>, incoming: seq<BulkResult>, chunk: nat, ps: nat): seq<byte>
    requires ps >= 2
  {
    left + Payload(incoming[..Leading(incoming, chunk, ps)], ps)
  }

  /** The first transfer that ends a call, whatever its size. */
  function Ending(incoming: seq<BulkResult>, chunk: nat, ps: nat): BulkResult
    requires ps >= 2
  {
    Next(incoming[Leading(incoming, chunk, ps)..], chunk)
  }

  /** It ends the call with an error: it fails, or it has more than its status and still no payload. */
  predicate EndsBadly(end: BulkResult) {
    end.Failed? || |end.bytes| > 2
  }

  function ErrorOf(end: BulkResult): int {
    if end.Failed? then end.code else NEVER_REACHED
  }

  lemma WithinCons(left: seq<byte>, incoming: seq<BulkResult>, chunk: nat, ps: nat)
    requires ps >= 2
    ensures Leading(incoming, chunk, ps) == 0 ==>
      Within(left, incoming, chunk, ps) == left && Ending(incoming, chunk, ps) == Next(incoming, chunk)
    ensures Leading(incoming, chunk, ps) > 0 ==>
      && Within(left, incoming, chunk, ps) == Within(left + Strip(incoming[0].bytes, ps), incoming[1..], chunk, ps)
      && Ending(incoming, chunk, ps) == Ending(incoming[1..], chunk, ps)
  {
    var n := Leading(incoming, chunk, ps);
    if n == 0 {
      assert incoming[..0] == [] && incoming[0..] == incoming;
    } else {
      PayloadCons(incoming[..n], ps);
      assert incoming[..n][1..] == incoming[1..][..n - 1] && incoming[n..] == incoming[1..][n - 1..];
      ConcatAssoc(left, Strip(incoming[0].bytes, ps), Payload(incoming[1..][..n - 1], ps));
    }
  }

  lemma {:induction false} GatherLosesIff(incoming: seq<BulkResult>, chunk: nat, ps: nat, size: nat, got: seq<byte>)
    requires ps >= 2 && |got| < size
    ensures var r, all, end := Gather(incoming, chunk, ps, size, got), Within(got, incoming, chunk, ps),
                               Ending(incoming, chunk, ps);
      && (r.Lost? <==> |all| < size && EndsBadly(end))
      && (r.Lost? ==> r.bytes == all && r.dropped == Strip(end.bytes, ps) && r.code == ErrorOf(end))
    decreases |incoming|
  {
    WithinCons(got, incoming, chunk, ps);
    if Leading(incoming, chunk, ps) > 0 {
      var all := got + Strip(incoming[0].bytes, ps);
      if |all| < size {
        GatherLosesIff(incoming[1..], chunk, ps, size, all);
      }
    }
  }

  lemma {:induction false} EndingHasNoPayload(incoming: seq<BulkResult>, chunk: nat, ps: nat)
    requires ps >= 2
    ensures var end := Ending(incoming, chunk, ps); end.Data? ==> Strip(end.bytes, ps) == []
    decreases |incoming|
  {
    WithinCons([], incoming, chunk, ps);
    if Leading(incoming, chunk, ps) > 0 {
      EndingHasNoPayload(incoming[1..], chunk, ps);
    }
  }

  /** When a call loses bytes, by what is there before it: the window and the transfers up to the first one
      that ends a call do not meet the request, and that one ends it with an error.  All of them are lost then,
      with what a failing transfer brought.  With packets of three bytes or more only a failing transfer
      does that. */
  lemma LosesIff(left: seq<byte>, incoming: seq<BulkResult>, chunk: nat, ps: nat, size: nat)
    requires ps >= 2
    ensures var r, all, end := Read(left, incoming, chunk, ps, size), Within(left, incoming, chunk, ps),
                               Ending(incoming, chunk, ps);
      && (r.Lost? <==> |all| < size && EndsBadly(end))
      && (r.Lost? ==> r.Return() == ErrorOf(end) < 0 && r.Gone() == all + Strip(end.bytes, ps))
      && (r.Gone() != [] <==> |all| < size && EndsBadly(end) && all + Strip(end.bytes, ps) != [])
      && (ps >= 3 ==> (EndsBadly(end) <==> end.Failed?))
  {
    if size > |left| {
      GatherLosesIff(incoming, chunk, ps, size, left);
    }
    if ps >= 3 {
      EndingHasNoPayload(incoming, chunk, ps);
      if |Ending(incoming, chunk, ps).bytes| > 2 {
        PayloadNonEmpty(Ending(incoming, chunk, ps).bytes, ps);
      }
    }
  }

  /** One payload byte arrives, and then a transfer fails: the caller gets the error code, and nobody the byte. */
  lemma ErrorLosesGathered(x: byte, code: ErrorCode)
    ensures var r := Read([], [Data([1, 96, x]), Failed(code, [])], 64, 64, 2);
      r.Return() == code && r.Returned() == [] && r.Gone() == [x] && r.Left() == [] && r.incoming == []
  {
    var t := [Failed(code, [])];
    var incoming := [Data([1, 96, x]), Failed(code, [])];
    assert [] + Strip([1, 96, x], 64) == [x] && incoming[1..] == t;
    assert Gather(t, 64, 64, 2, [x]) == Lost([x], [], code, []);
  }

  /** The same for a byte that arrives in the failing transfer. */
  lemma ErrorLosesItsOwn(x: byte, code: ErrorCode)
    ensures var r := Read([], [Failed(code, [1, 96, x])], 64, 64, 1);
      r.Return() == code && r.Returned() == [] && r.Gone() == [x] && r.Left() == [] && r.incoming == []
  {
    assert Strip([1, 96, x], 64) == [x];
    assert Gather([Failed(code, [1, 96, x])], 64, 64, 1, []) == Lost([], [x], code, []);
  }

  /** A successful call returns exactly what was asked for, or it ran into a transfer with no payload;
      then nothing is left over. */
  lemma {:induction false} ShortOnlyOnStatus(incoming: seq<BulkResult>, chunk: nat, ps: nat, size: nat, got: seq<byte>)
    requires ps >= 2 && |got| < size
    ensures var r := Gather(incoming, chunk, ps, size, got);
      r.Got? && |r.bytes| < size ==>
        && r.rest == []
        && exists k :: 0 <= k < |incoming| && r.incoming == incoming[k + 1..]
             && incoming[k].Data? && |incoming[k].bytes| <= 2
    decreases |incoming|
  {
    var r := Gather(incoming, chunk, ps, size, got);
    if r.Got? && |r.bytes| < size {
      var b := Next(incoming, chunk).bytes;
      if |b| <= 2 {
        assert r.incoming == incoming[0 + 1..];
      } else {
        ShortOnlyOnStatus(incoming[1..], chunk, ps, size, got + Strip(b, ps));
        var k :| 0 <= k < |incoming[1..]| && r.incoming == incoming[1..][k + 1..]
             && incoming[1..][k].Data? && |incoming[1..][k].bytes| <= 2;
        assert r.incoming == incoming[(k + 1) + 1..] && incoming[k + 1].Data?;
      }
    }
  }

  /** A call takes at most one transfer per requested byte, and the return after the loop is dead,
      for packets with room for payload. */
  lemma {:induction false} ReadTerminates(incoming: seq<BulkResult>, chunk: nat, ps: nat, size: nat, got: seq<byte>)
    requires ps >= 3 && |got| < size
    ensures var r := Gather(incoming, chunk, ps, size, got);
      && r.Return() != NEVER_REACHED
      && |incoming| - |r.incoming| <= size - |got|
    decreases |incoming|
  {
    match Next(incoming, chunk)
    case Failed(_, _) =>
    case Data(b) =>
      if |b| > 2 {
        PayloadNonEmpty(b, ps);
        var all := got + Strip(b, ps);
        if |all| < size {
          ReadTerminates(incoming[1..], chunk, ps, size, all);
        }
      }
  }

  /** The "never reached" return of `ftdi_read_data` is dead exactly when packets are longer than their
      status bytes. */
  lemma NeverReachedIff(ps: nat)
    requires ps >= 2
    ensures (forall left: seq<byte>, incoming: seq<BulkResult>, chunk: nat, size: nat ::
               Read(left, incoming, chunk, ps, size).Return() != NEVER_REACHED)
       <==> ps >= 3
  {
    if ps >= 3 {
      forall left: seq<byte>, incoming: seq<BulkResult>, chunk: nat, size: nat
        ensures Read(left, incoming, chunk, ps, size).Return() != NEVER_REACHED
      {
        if size > |left| {
          ReadTerminates(incoming, chunk, ps, size, left);
        }
      }
    } else {
      var b: seq<byte> := [0, 0, 0];
      PayloadNonEmpty(b, ps);
      assert [] + Strip(b, ps) == [];
      assert Gather([Data(b)], 3, ps, 1, []).Return() == NEVER_REACHED;
      assert Read([], [Data(b)], 3, ps, 1).Return() == NEVER_REACHED;
    }
  }
}
