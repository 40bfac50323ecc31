/** Bytes, and the two block copies of the C library. */
module Memory {

  type byte = bv8

  /** A number that fits into a byte survives there. */
  lemma ByteHolds(n: nat)
    requires n < 256
    ensures (n as bv8) as int == n
  {
    // one case for each value of the upper three bits
    if n < 32 {
    } else if n < 64 {
    } else if n < 96 {
    } else if n < 128 {
    } else if n < 160 {
    } else if n < 192 {
    } else if n < 224 {
    }
  }

  datatype Option<+T> = None | Some(value: T)

  function Min(a: int, b: int): (m: int) {
    if a < b then a else b
  }

  /** The concatenation of a sequence of byte strings. */
  function Join(parts: seq<seq<byte>>): seq<byte> {
    if parts == [] then [] else parts[0] + Join(parts[1..])
  }

  lemma ConcatAssoc(a: seq<byte>, b: seq<byte>, c: seq<byte>)
    ensures (a + b) + c == a + (b + c)
  {
  }

  lemma {:induction false} JoinAppend(a: seq<seq<byte>>, b: seq<seq<byte>>)
    ensures Join(a + b) == Join(a) + Join(b)
  {
    if a == [] {
      assert a + b == b;
    } else {
      JoinAppend(a[1..], b);
      assert (a + b)[0] == a[0] && (a + b)[1..] == a[1..] + b;
      ConcatAssoc(a[0], Join(a[1..]), Join(b));
    }
  }

  /** `dst` with `len` bytes of `src` copied in. */
  function Copied(dst: seq<byte>, at: nat, src: seq<byte>, from: nat, len: nat): (d: seq<byte>)
    requires at + len <= |dst| && from + len <= |src|
    ensures |d| == |dst|
  {
    dst[..at] + src[from..from + len] + dst[at + len..]
  }

  /** memmove inside one array: the two ranges may overlap. */
  method MemMove(a: array<byte>, dst: nat, src: nat, len: nat)
    requires dst + len <= a.Length && src + len <= a.Length
    modifies a
    ensures a[..] == Copied(old(a[..]), dst, old(a[..]), src, len)
  {
    forall k | 0 <= k < len {
      a[dst + k] := a[src + k];
    }
  }

  /** memcpy between two different arrays. */
  method MemCpy(dst: array<byte>, at: nat, src: array<byte>, from: nat, len: nat)
    requires dst != src
    requires at + len <= dst.Length && from + len <= src.Length
    modifies dst
    ensures dst[..] == Copied(old(dst[..]), at, src[..], from, len)
  {
    forall k | 0 <= k < len {
      dst[at + k] := src[from + k];
    }
  }
}
