/** How the streaming layer finds the payload: it walks a pointer over the packets of a transfer and
    hands every packet to the user. */
module StreamRead {
  import opened Memory
  import opened Packets

  /** What the user gets of one packet. */
  function HandedOver(packet: seq<byte>, modem: bool): seq<seq<byte>> {
    if modem then (if |packet| >= 2 then [packet] else [])
    else (if |packet| > 2 then [packet[2..]] else [])
  }

  /** The reference: the buffers handed to the user for one transfer. */
  function Chunks(s: seq<byte>, ps: nat, modem: bool): (cs: seq<seq<byte>>)
    requires ps >= 1
    decreases |s|
  {
    if s == [] then []
    else
      var n := Min(|s|, ps);
      HandedOver(s[..n], modem) + Chunks(s[n..], ps, modem)
  }

  /** The payload bytes that the counter of a transfer counts for the buffers handed to the user. */
  function CountBytes(chunks: seq<seq<byte>>, modem: bool): nat {
    if chunks == [] then 0
    else (if modem then if |chunks[0]| >= 2 then |chunks[0]| - 2 else 0 else |chunks[0]|)
         + CountBytes(chunks[1..], modem)
  }

  lemma {:induction false} CountAppend(a: seq<seq<byte>>, b: seq<seq<byte>>, modem: bool)
    ensures CountBytes(a + b, modem) == CountBytes(a, modem) + CountBytes(b, modem)
  {
    if a == [] {
      assert a + b == b;
    } else {
      CountAppend(a[1..], b, modem);
      assert (a + b)[1..] == a[1..] + b;
    }
  }

  predicate Throws(chunks: seq<seq<byte>>, throwsAt: Option<nat>) {
    throwsAt.Some? && throwsAt.value < |chunks|
  }

  /** The calls of the user's read callback for one transfer: all of them, or up to the one that throws. */
  function Calls(chunks: seq<seq<byte>>, throwsAt: Option<nat>): (calls: seq<seq<byte>>)
    ensures calls <= chunks
  {
    if Throws(chunks, throwsAt) then chunks[..throwsAt.value + 1] else chunks
  }

  /** What is handed over from offset `ptr` of the transfer on. */
  function Rest(data: seq<byte>, ps: nat, modem: bool, ptr: nat): seq<seq<byte>>
    requires ps >= 1 && ptr <= |data|
  {
    Chunks(data[ptr..], ps, modem)
  }

  /** One round of the walk. */
  lemma WalkStep(s: seq<byte>, ps: nat, modem: bool, ptr: nat, n: nat)
    requires ps >= 1 && ptr < |s| && n == Min(|s| - ptr, ps)
    ensures Rest(s, ps, modem, ptr) == HandedOver(s[ptr..ptr + n], modem) + Rest(s, ps, modem, ptr + n)
    ensures CountBytes(HandedOver(s[ptr..ptr + n], modem), modem) == if n >= 2 then n - 2 else 0
  {
    var t := s[ptr..];
    assert t[n..] == s[ptr + n..] && t[..n] == s[ptr..ptr + n];
  }

  lemma ThrownCall(calls: seq<seq<byte>>, rest: seq<seq<byte>>, throwsAt: Option<nat>)
    requires calls != [] && throwsAt == Some(|calls| - 1)
    ensures Calls(calls + rest, throwsAt) == calls && Throws(calls + rest, throwsAt)
  {
    assert (calls + rest)[..|calls|] == calls;
  }

  lemma AllCalls(calls: seq<seq<byte>>, throwsAt: Option<nat>)
    requires throwsAt.Some? ==> throwsAt.value >= |calls|
    ensures Calls(calls, throwsAt) == calls && !Throws(calls, throwsAt)
  {
  }

  lemma Assoc(a: seq<seq<byte>>, b: seq<seq<byte>>, c: seq<seq<byte>>)
    ensures (a + b) + c == a + (b + c)
  {
  }

  /** The walk of `read_callback` over a transfer; the user's callback may throw. */
  method WalkPackets(data: seq<byte>, readPacketsize: nat, isModemStatus: bool, throwsAt: Option<nat>)
      returns (calls: seq<seq<byte>>, counted: nat, threw: bool)
    requires readPacketsize >= 1
    ensures calls == Calls(Chunks(data, readPacketsize, isModemStatus), throwsAt)
    ensures threw == Throws(Chunks(data, readPacketsize, isModemStatus), throwsAt)
    ensures counted == CountBytes(calls, isModemStatus)
  {
    var ptr: nat, length: nat := 0, |data|;
    calls, counted, threw := [], 0, false;
    ghost var all := Chunks(data, readPacketsize, isModemStatus);
    ghost var rest := all;
    assert data[0..] == data;
    while length > 0
      invariant ptr + length == |data|
      invariant calls + rest == all && rest == Rest(data, readPacketsize, isModemStatus, ptr)
      invariant counted == CountBytes(calls, isModemStatus)
      invariant throwsAt.Some? ==> throwsAt.value >= |calls|
    {
      var packetLen := Min(length, readPacketsize);
      WalkStep(data, readPacketsize, isModemStatus, ptr, packetLen);
      var handed := HandedOver(data[ptr..ptr + packetLen], isModemStatus);
      CountAppend(calls, handed, isModemStatus);
      rest := Rest(data, readPacketsize, isModemStatus, ptr + packetLen);
      Assoc(calls, handed, rest);
      threw := handed != [] && throwsAt == Some(|calls|);
      calls := calls + handed;
      counted := counted + (if packetLen >= 2 then packetLen - 2 else 0);
      assert calls + rest == all;
      if threw {
        ThrownCall(calls, rest, throwsAt);
        return;
      }
      ptr := ptr + packetLen;
      length := length - packetLen;
    }
    assert data[ptr..] == [] && rest == [];
    AllCalls(calls, throwsAt);
    assert calls + [] == calls;
  }

  /** The counter of a transfer grows by exactly the payload. */
  lemma {:induction false} CounterCountsPayload(s: seq<byte>, ps: nat, modem: bool)
    requires ps >= 2
    ensures CountBytes(Chunks(s, ps, modem), modem) == |Strip(s, ps)|
    decreases |s|
  {
    if s != [] {
      var n := Min(|s|, ps);
      CounterCountsPayload(s[n..], ps, modem);
      CountAppend(HandedOver(s[..n], modem), Chunks(s[n..], ps, modem), modem);
    }
  }

  lemma JoinCons(c: seq<byte>, cs: seq<seq<byte>>)
    ensures Join([c] + cs) == c + Join(cs)
  {
    assert ([c] + cs)[1..] == cs;
  }

  /** Without modem status the walk hands over exactly the payload, so it agrees with the in-place
      compaction of the C library. */
  lemma {:induction false} WalkFindsPayload(s: seq<byte>, ps: nat)
    requires ps >= 2
    ensures Join(Chunks(s, ps, false)) == Strip(s, ps)
    decreases |s|
  {
    if s != [] {
      var n := Min(|s|, ps);
      WalkFindsPayload(s[n..], ps);
      if n > 2 {
        JoinCons(s[2..n], Chunks(s[n..], ps, false));
        assert s[..n][2..] == s[2..n];
      } else {
        assert Chunks(s, ps, false) == Chunks(s[n..], ps, false);
        if |s| > 2 {
          assert s[2..ps] + Strip(s[ps..], ps) == Strip(s[ps..], ps);
        }
      }
    }
  }

  /** The length of a last packet that is too short for its status. */
  function Fragment(len: nat, ps: nat): (f: nat)
    requires ps >= 2
    ensures f <= len
  {
    if len < ps then (if len == 1 then 1 else 0) else Fragment(len - ps, ps)
  }

  lemma DropPacket(len: nat, ps: nat)
    requires len >= ps >= 2
    ensures len % ps == (len - ps) % ps
  {
    var d := len / ps - (len - ps) / ps - 1;
    assert ps * d == (len - ps) % ps - len % ps;
    assert d == 0;
  }

  lemma {:induction false} FragmentIsRemainder(len: nat, ps: nat)
    requires ps >= 2
    ensures Fragment(len, ps) == if len % ps == 1 then 1 else 0
  {
    if len >= ps {
      FragmentIsRemainder(len - ps, ps);
      DropPacket(len, ps);
    }
  }

  lemma {:induction false} WalkDropsFragment(s: seq<byte>, ps: nat)
    requires ps >= 2
    ensures Join(Chunks(s, ps, true)) == s[..|s| - Fragment(|s|, ps)]
    decreases |s|
  {
    if |s| >= ps {
      var t := s[ps..];
      WalkDropsFragment(t, ps);
      JoinCons(s[..ps], Chunks(t, ps, true));
      assert s[..ps] + t[..|t| - Fragment(|t|, ps)] == s[..|s| - Fragment(|s|, ps)];
    } else if s != [] {
      assert s[..|s|] == s && s[|s|..] == [];
      JoinCons(s, []);
    }
  }

  /** With modem status the walk hands over the whole transfer, except for a last packet of one byte. */
  lemma WalkKeepsTransfer(s: seq<byte>, ps: nat)
    requires ps >= 2
    ensures Join(Chunks(s, ps, true)) == s[..|s| - (if |s| % ps == 1 then 1 else 0)]
  {
    WalkDropsFragment(s, ps);
    FragmentIsRemainder(|s|, ps);
  }

  /** Every buffer handed over with modem status holds both status bytes and at most one packet; without
      it, a buffer is never empty. */
  lemma {:induction false} ChunkSizes(s: seq<byte>, ps: nat, modem: bool)
    requires ps >= 2
    ensures forall c :: c in Chunks(s, ps, modem) ==>
      if modem then 2 <= |c| <= ps else 1 <= |c| <= ps - 2
    decreases |s|
  {
    if s != [] {
      ChunkSizes(s[Min(|s|, ps)..], ps, modem);
    }
  }

  /** The streaming layer and the C library agree on every transfer of a device exactly when the one
      packet size of the streaming layer is the packet size of that device. */
  lemma AgreesWithLibrary(readPacketsize: nat, maxPacketSize: nat)
    requires readPacketsize >= 2 && maxPacketSize >= 2
    ensures (forall s: seq<byte> :: Join(Chunks(s, readPacketsize, false)) == Strip(s, maxPacketSize))
       <==> readPacketsize == maxPacketSize
  {
    PacketSizesMustAgree(readPacketsize, maxPacketSize);
    forall s: seq<byte>
      ensures Join(Chunks(s, readPacketsize, false)) == Strip(s, readPacketsize)
    {
      WalkFindsPayload(s, readPacketsize);
    }
  }
}
