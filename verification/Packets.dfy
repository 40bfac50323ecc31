/** USB read transfers are runs of packets of `ps` bytes (the last one may be shorter), and every
    packet starts with two modem status bytes.  `Strip` says which bytes are payload; the code has
    two ways to find them, and both are proved against it. */
module Packets {
  import opened Memory

  /** The payload of one transfer: every packet without its two status bytes, in order. */
  function Strip(s: seq<byte>, ps: nat): (p: seq<byte>)
    requires ps >= 2
    ensures |p| <= |s|
    decreases |s|
  {
    if |s| <= 2 then []
    else if |s| <= ps then s[2..]
    else s[2..ps] + Strip(s[ps..], ps)
  }

  lemma OnePacketLess(ps: nat, k: nat)
    requires k > 0
    ensures ps * k == ps + ps * (k - 1) && ps * (k - 1) >= 0
  {
  }

  lemma SlicesOfSum(s: seq<byte>, t: seq<byte>, ps: nat)
    requires 2 <= ps <= |s|
    ensures (s + t)[2..ps] == s[2..ps] && (s + t)[ps..] == s[ps..] + t
  {
  }

  lemma StripUnfold(s: seq<byte>, ps: nat)
    requires 2 <= ps <= |s|
    ensures Strip(s, ps) == s[2..ps] + Strip(s[ps..], ps)
  {
    if |s| == ps {
      assert s[2..ps] == s[2..] && s[ps..] == [];
    }
  }

  lemma StripFirst(s: seq<byte>, t: seq<byte>, ps: nat)
    requires 2 <= ps <= |s| && Strip(s[ps..] + t, ps) == Strip(s[ps..], ps) + Strip(t, ps)
    ensures Strip(s + t, ps) == Strip(s, ps) + Strip(t, ps)
  {
    StripUnfold(s, ps);
    StripUnfold(s + t, ps);
    SlicesOfSum(s, t, ps);
    ConcatAssoc(s[2..ps], Strip(s[ps..], ps), Strip(t, ps));
  }

  /** Stripping distributes over a cut at a packet boundary. */
  lemma {:induction false} StripAtBoundary(s: seq<byte>, t: seq<byte>, ps: nat, k: nat)
    requires ps >= 2 && |s| == ps * k
    ensures Strip(s + t, ps) == Strip(s, ps) + Strip(t, ps)
    decreases k
  {
    if k == 0 {
      assert s + t == t;
    } else {
      OnePacketLess(ps, k);
      StripAtBoundary(s[ps..], t, ps, k - 1);
      StripFirst(s, t, ps);
    }
  }

  /** One more full packet after `i` full packets. */
  lemma StripNextPacket(s: seq<byte>, ps: nat, i: nat, len: nat)
    requires ps >= 2 && len <= ps && ps * i + len <= |s|
    ensures Strip(s[..ps * i + len], ps)
         == Strip(s[..ps * i], ps) + (if len <= 2 then [] else s[ps * i + 2..ps * i + len])
  {
    var head, tail := s[..ps * i], s[ps * i..ps * i + len];
    StripAtBoundary(head, tail, ps, i);
    assert head + tail == s[..ps * i + len];
    assert len > 2 ==> tail[2..] == s[ps * i + 2..ps * i + len];
  }

  lemma {:induction false} StripPairsIsEmpty(s: seq<byte>)
    ensures Strip(s, 2) == []
    decreases |s|
  {
    if |s| > 2 {
      StripPairsIsEmpty(s[2..]);
    }
  }

  /** A transfer of more than two bytes carries payload exactly when packets are longer than the status. */
  lemma {:induction false} PayloadNonEmpty(s: seq<byte>, ps: nat)
    requires ps >= 2 && |s| > 2
    ensures Strip(s, ps) != [] <==> ps >= 3
    decreases |s|
  {
    if ps == 2 {
      StripPairsIsEmpty(s);
    }
  }

  /** Two packet sizes find the same payload in every transfer exactly when they are equal. */
  lemma PacketSizesMustAgree(m: nat, ps: nat)
    requires m >= 2 && ps >= 2
    ensures (forall s: seq<byte> :: Strip(s, m) == Strip(s, ps)) <==> m == ps
  {
    if m != ps {
      var lo, hi := Min(m, ps), if m < ps then ps else m;
      var s: seq<byte> := seq(lo + 1, _ => 0);
      assert |Strip(s, hi)| == lo - 1;
      assert s[2..lo] + Strip(s[lo..], lo) == s[2..lo];
      assert |Strip(s, lo)| == lo - 2;
      assert Strip(s, m) != Strip(s, ps);
    }
  }

  /** Where packet `i` of a transfer starts. */
  function Offset(ps: nat, i: nat): nat {
    if i == 0 then 0 else Offset(ps, i - 1) + ps
  }

  lemma {:induction false} OffsetIsProduct(ps: nat, i: nat)
    ensures Offset(ps, i) == ps * i
  {
    if i > 0 {
      OffsetIsProduct(ps, i - 1);
      assert ps * i == ps * (i - 1) + ps;
    }
  }

  /** The indices of the code's memmove, for packet `i`. */
  lemma PacketIndices(ps: nat, i: nat)
    ensures ps * i == Offset(ps, i) && (ps - 2) * i == Offset(ps, i) - 2 * i
  {
    OffsetIsProduct(ps, i);
  }

  lemma {:induction false} OffsetMonotone(ps: nat, i: nat, j: nat)
    requires i <= j
    ensures Offset(ps, i) <= Offset(ps, j)
  {
    if i < j {
      OffsetMonotone(ps, i, j - 1);
    }
  }

  lemma WholePackets(n: nat, ps: nat)
    requires ps >= 2 && n >= ps
    ensures n / ps >= 1 && Offset(ps, n / ps) == n - n % ps
    ensures Offset(ps, 1) == ps
  {
    OffsetIsProduct(ps, n / ps);
    OffsetIsProduct(ps, 1);
  }

  lemma NextPacket(w: seq<byte>, ps: nat, i: nat, len: nat)
    requires ps >= 2 && len <= ps && Offset(ps, i) + len <= |w|
    ensures len <= 2 ==> Strip(w[..Offset(ps, i) + len], ps) == Strip(w[..Offset(ps, i)], ps)
    ensures len >= 2 ==>
      Strip(w[..Offset(ps, i) + len], ps)
      == Strip(w[..Offset(ps, i)], ps) + w[Offset(ps, i) + 2..Offset(ps, i) + len]
  {
    OffsetIsProduct(ps, i);
    StripNextPacket(w, ps, i, len);
  }

  /** Compaction of buffer `w` has got as far as offset `start`: the payload up to there is in place
      behind the first status bytes, and everything from there on is still as it was received. */
  ghost predicate SqueezedTo(v: seq<byte>, w: seq<byte>, ps: nat, start: nat, got: nat)
    requires ps >= 2
  {
    && start <= |w| == |v|
    && got + 2 <= |w|
    && v[2..2 + got] == Strip(w[..start], ps)
    && v[start..] == w[start..]
  }

  /** ... and `start` is where packet `i` starts. */
  ghost predicate Squeezed(v: seq<byte>, w: seq<byte>, ps: nat, i: nat)
    requires ps >= 2
  {
    2 * i <= Offset(ps, i) && SqueezedTo(v, w, ps, Offset(ps, i), Offset(ps, i) - 2 * i)
  }

  /** Packet 0 is where it has to be. */
  lemma FirstPacket(w: seq<byte>, ps: nat)
    requires 2 <= ps <= |w|
    ensures Squeezed(w, w, ps, 1)
  {
    assert Offset(ps, 1) == ps && w[..ps][2..] == w[2..ps];
  }

  lemma SliceOfRest(v: seq<byte>, start: nat, i: nat, j: nat)
    requires i <= j && start + j <= |v|
    ensures v[start + i..start + j] == v[start..][i..j]
    ensures start + j == |v| ==> v[start + i..] == v[start..][i..]
  {
  }

  lemma CopiedDown(v: seq<byte>, u: seq<byte>, w: seq<byte>, start: nat, got: nat, len: nat)
    requires |v| == |w| && got <= start && 2 <= len && start + len <= |v| && v[start..] == w[start..]
    requires u == Copied(v, 2 + got, v, 2 + start, len - 2)
    ensures u[2..2 + got + len - 2] == v[2..2 + got] + w[start + 2..start + len]
    ensures u[start + len..] == w[start + len..]
  {
    SliceOfRest(v, start, 2, len);
    SliceOfRest(w, start, 2, len);
    SliceOfRest(v, start, len, |v| - start);
    SliceOfRest(w, start, len, |w| - start);
  }

  lemma StripMoved(v: seq<byte>, u: seq<byte>, w: seq<byte>, ps: nat, i: nat, len: nat)
    requires ps >= 2 && i > 0 && 2 <= len <= ps && Offset(ps, i) + len <= |w| && 2 * i <= Offset(ps, i)
    requires var got := Offset(ps, i) - 2 * i;
      && got + len <= |u| && got + 2 <= |v|
      && u[2..2 + got + len - 2] == v[2..2 + got] + w[Offset(ps, i) + 2..Offset(ps, i) + len]
      && v[2..2 + got] == Strip(w[..Offset(ps, i)], ps)
    ensures u[2..2 + (Offset(ps, i) - 2 * i) + len - 2] == Strip(w[..Offset(ps, i) + len], ps)
  {
    NextPacket(w, ps, i, len);
  }

  lemma MovedPacket(v: seq<byte>, u: seq<byte>, w: seq<byte>, ps: nat, i: nat, len: nat)
    requires ps >= 2 && i > 0 && 2 <= len <= ps && Offset(ps, i) + len <= |v|
    requires Squeezed(v, w, ps, i)
    requires u == Copied(v, 2 + Offset(ps, i) - 2 * i, v, 2 + Offset(ps, i), len - 2)
    ensures SqueezedTo(u, w, ps, Offset(ps, i) + len, Offset(ps, i) - 2 * i + len - 2)
  {
    var start := Offset(ps, i);
    var got := start - 2 * i;
    CopiedDown(v, u, w, start, got, len);
    StripMoved(v, u, w, ps, i, len);
  }

  /** A last packet of at most two bytes has no payload, so there is nothing left to move. */
  lemma LastFragment(v: seq<byte>, w: seq<byte>, ps: nat, i: nat, len: nat)
    requires ps >= 2 && len < ps && len <= 2 && Offset(ps, i) + len <= |w|
    requires Squeezed(v, w, ps, i)
    ensures SqueezedTo(v, w, ps, Offset(ps, i) + len, Offset(ps, i) - 2 * i)
  {
    NextPacket(w, ps, i, len);
    assert v[Offset(ps, i) + len..] == v[Offset(ps, i)..][len..];
    assert w[Offset(ps, i) + len..] == w[Offset(ps, i)..][len..];
  }

  /** memmove inside the first `n` bytes of an array. */
  method MoveWithin(a: array<byte>, dst: nat, src: nat, len: nat, ghost n: nat)
    requires dst + len <= n <= a.Length && src + len <= n
    modifies a
    ensures a[..] == Copied(old(a[..]), dst, old(a[..]), src, len)
    ensures a[..][n..] == old(a[..])[n..]
  {
    MemMove(a, dst, src, len);
  }

  /** Moves packet `i`, of `len` bytes, from `src` to `dst`. */
  method Move(a: array<byte>, ghost w: seq<byte>, ps: nat, i: nat, len: nat, dst: nat, src: nat, ghost n: nat)
    requires ps >= 2 && i > 0 && 2 <= len <= ps
    requires Offset(ps, i) + len <= n <= a.Length && Squeezed(a[..], w, ps, i)
    requires dst == 2 + Offset(ps, i) - 2 * i && src == 2 + Offset(ps, i)
    modifies a
    ensures SqueezedTo(a[..], w, ps, Offset(ps, i) + len, Offset(ps, i) - 2 * i + len - 2)
    ensures a[..][n..] == old(a[..])[n..]
  {
    ghost var v := a[..];
    MoveWithin(a, dst, src, len - 2, n);
    MovedPacket(v, a[..], w, ps, i, len);
  }

  /** The memmove of the full packet `i` of a transfer of `n` bytes.  The packet is still as it was received,
      because only bytes before it have been written. */
  method MovePacket(a: array<byte>, ghost w: seq<byte>, ps: nat, i: nat, ghost n: nat)
    requires ps >= 2 && i > 0 && Offset(ps, i) + ps <= n <= a.Length && Squeezed(a[..], w, ps, i)
    modifies a
    ensures Squeezed(a[..], w, ps, i + 1)
    ensures a[..][n..] == old(a[..])[n..]
  {
    PacketIndices(ps, i);
    Move(a, w, ps, i, ps, 2 + (ps - 2) * i, 2 + ps * i, n);
  }

  /** The memmove of the last packet, number `i`, of `len` bytes. */
  method MoveFragment(a: array<byte>, ghost w: seq<byte>, ps: nat, i: nat, len: nat)
    requires ps >= 2 && i > 0 && 2 <= len <= ps
    requires Offset(ps, i) + len <= a.Length && Squeezed(a[..], w, ps, i)
    modifies a
    ensures SqueezedTo(a[..], w, ps, Offset(ps, i) + len, Offset(ps, i) - 2 * i + len - 2)
  {
    PacketIndices(ps, i);
    Move(a, w, ps, i, len, 2 + (ps - 2) * i, 2 + ps * i, Offset(ps, i) + len);
  }

  /** The loop over the full packets. */
  method SqueezeFullPackets(a: array<byte>, ps: nat, numOfChunks: nat) returns (i: nat)
    requires ps >= 2 && numOfChunks >= 1 && ps <= Offset(ps, numOfChunks) <= a.Length
    modifies a
    ensures i == numOfChunks && Squeezed(a[..], old(a[..]), ps, i)
  {
    FirstPacket(a[..], ps);
    i := 1;
    while i < numOfChunks
      invariant 1 <= i <= numOfChunks
      invariant Squeezed(a[..], old(a[..]), ps, i)
    {
      OffsetMonotone(ps, i + 1, numOfChunks);
      MovePacket(a, old(a[..]), ps, i, Offset(ps, numOfChunks));
      i := i + 1;
    }
  }

  /** The packet after the full ones, and the length of the payload. */
  method SqueezeFragment(a: array<byte>, ghost w: seq<byte>, ps: nat, i: nat, numOfChunks: nat,
                         chunkRemains: nat, length: nat) returns (len: nat)
    requires ps >= 2 && i == numOfChunks > 0 && chunkRemains < ps
    requires length + 2 == Offset(ps, i) + chunkRemains <= a.Length && Squeezed(a[..], w, ps, i)
    modifies a
    ensures len <= length && SqueezedTo(a[..], w, ps, length + 2, len)
  {
    if chunkRemains > 2 {
      MoveFragment(a, w, ps, i, chunkRemains);
      len := length - 2 * numOfChunks;
    } else {
      LastFragment(a[..], w, ps, i, chunkRemains);
      len := length - (2 * (numOfChunks - 1) + chunkRemains);
    }
  }

  /** Squeezes the status bytes of a transfer of `n` bytes out of the buffer that received it, in
      place.  The payload ends up at offset 2; nothing beyond the transfer is touched. */
  method Compact(a: array<byte>, ps: nat, n: nat) returns (len: nat)
    requires ps >= 2 && 2 < n <= a.Length
    modifies a
    ensures 2 + len <= n
    ensures a[..][2..2 + len] == Strip(old(a[..])[..n], ps)
    ensures a[..][n..] == old(a[..])[n..]
  {
    var numOfChunks, chunkRemains := n / ps, n % ps;
    ghost var w := a[..];
    len := n - 2;
    if n - 2 > ps - 2 {
      WholePackets(n, ps);
      var i := SqueezeFullPackets(a, ps, numOfChunks);
      len := SqueezeFragment(a, w, ps, i, numOfChunks, chunkRemains, len);
    } else {
      assert w[..n][2..] == w[2..n];
    }
  }
}
