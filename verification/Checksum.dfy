/** The checksum of an EEPROM image: all 16-bit words but the last are xored into a register that rotates. */
module Checksum {
  import opened Memory

  type word = bv16

  const SEED: word := 0xAAAA

  /** Word `i` of an image, low byte first. */
  function Word(img: seq<byte>, i: nat): word
    requires 2 * i + 1 < |img|
  {
    (img[2 * i] as bv16) + ((img[2 * i + 1] as bv16) << 8)
  }

  /** The first `n` words. */
  function Words(img: seq<byte>, n: nat): (ws: seq<word>)
    requires 2 * n <= |img|
    ensures |ws| == n
  {
    seq(n, i requires 0 <= i < n => Word(img, i))
  }

  function Rotate(x: word): word {
    (x << 1) | (x >> 15)
  }

  function Mix(c: word, w: word): word {
    Rotate(w ^ c)
  }

  function Fold(c: word, ws: seq<word>): word
    decreases |ws|
  {
    if ws == [] then c else Fold(Mix(c, ws[0]), ws[1..])
  }

  /** Rotating is to the left: the top bit becomes the lowest, and the others move up. */
  lemma RotateIsLeft(x: word)
    ensures Rotate(x) & 1 == x >> 15 && Rotate(x) >> 1 == x & 0x7fff
  {
  }

  /** The checksum of two words, as a number. */
  lemma KnownChecksum()
    ensures Fold(SEED, [0x4000, 0x0403]) == 0xA2AD
  {
    var ws: seq<word> := [0x4000, 0x0403];
    assert ws[1..] == [0x0403] && ws[1..][1..] == [];
    assert Mix(SEED, 0x4000) == 0xD555 && Mix(0xD555, 0x0403) == 0xA2AD;
  }

  lemma {:induction false} FoldSnoc(c: word, ws: seq<word>, w: word)
    ensures Fold(c, ws + [w]) == Mix(Fold(c, ws), w)
    decreases |ws|
  {
    if ws == [] {
      assert [w][1..] == [] && ws + [w] == [w];
    } else {
      assert (ws + [w])[1..] == ws[1..] + [w];
      FoldSnoc(Mix(c, ws[0]), ws[1..], w);
    }
  }

  lemma WordsSnoc(img: seq<byte>, n: nat)
    requires 2 * n + 1 < |img|
    ensures Words(img, n + 1) == Words(img, n) + [Word(img, n)]
  {
  }

  method LoadWord(buf: array<byte>, i: nat) returns (value: word)
    requires 2 * i + 1 < buf.Length
    ensures value == Word(buf[..], i)
  {
    value := buf[i * 2] as bv16;
    value := value + ((buf[i * 2 + 1] as bv16) << 8);
  }

  /** The loop of `ftdi_eeprom_build` and of `ftdi_eeprom_decode`, for all chips but the FT230X. */
  method Compute(buf: array<byte>, size: nat) returns (checksum: word)
    requires size % 2 == 0 && 2 <= size <= buf.Length
    ensures checksum == Fold(SEED, Words(buf[..], size / 2 - 1))
  {
    checksum := SEED;
    var i := 0;
    assert Words(buf[..], 0) == [];
    while i < size / 2 - 1
      invariant 0 <= i <= size / 2 - 1
      invariant checksum == Fold(SEED, Words(buf[..], i))
    {
      var value := LoadWord(buf, i);
      WordsSnoc(buf[..], i);
      FoldSnoc(SEED, Words(buf[..], i), value);
      checksum := Mix(checksum, value);
      i := i + 1;
    }
  }

  // ----- what the checksum detects -----

  lemma XorTwice(x: word, y: word)
    ensures x ^ (x ^ y) == y
  {
  }

  lemma XorCancels(x: word, y: word, z: word)
    requires x ^ y == x ^ z
    ensures y == z
  {
    XorTwice(x, y);
    XorTwice(x, z);
  }

  lemma RotateBack(x: word)
    ensures (Rotate(x) >> 1) | (Rotate(x) << 15) == x
  {
  }

  lemma RotateIsInjective(x: word, y: word)
    requires Rotate(x) == Rotate(y)
    ensures x == y
  {
    RotateBack(x);
    RotateBack(y);
  }

  lemma RegisterRecovered(c: word, d: word, w: word)
    requires Rotate(w ^ c) == Rotate(w ^ d)
    ensures c == d
  {
    RotateIsInjective(w ^ c, w ^ d);
    XorCancels(w, c, d);
  }

  lemma XorCommutes(x: word, y: word)
    ensures x ^ y == y ^ x
  {
  }

  /** One step is a bijection of the register, and of the word. */
  lemma MixIsInjective(c: word, d: word, v: word, w: word)
    ensures Mix(c, w) == Mix(d, w) ==> c == d
    ensures Mix(c, v) == Mix(c, w) ==> v == w
  {
    if Mix(c, w) == Mix(d, w) {
      RegisterRecovered(c, d, w);
    }
    if Mix(c, v) == Mix(c, w) {
      XorCommutes(v, c);
      XorCommutes(w, c);
      RegisterRecovered(v, w, c);
    }
  }

  lemma {:induction false} FoldIsInjective(c: word, d: word, ws: seq<word>)
    requires c != d
    ensures Fold(c, ws) != Fold(d, ws)
    decreases |ws|
  {
    if ws != [] {
      MixIsInjective(c, d, ws[0], ws[0]);
      FoldIsInjective(Mix(c, ws[0]), Mix(d, ws[0]), ws[1..]);
    }
  }

  /** Changing exactly one word of a sequence of any length changes its checksum. */
  lemma {:induction false} OneWordChanges(c: word, a: seq<word>, k: nat, w: word)
    requires k < |a| && a[k] != w
    ensures Fold(c, a) != Fold(c, a[k := w])
    decreases |a|
  {
    if k == 0 {
      MixIsInjective(c, c, a[0], w);
      assert a[0 := w][1..] == a[1..];
      FoldIsInjective(Mix(c, a[0]), Mix(c, w), a[1..]);
    } else {
      assert a[k := w][1..] == a[1..][k - 1 := w];
      OneWordChanges(Mix(c, a[0]), a[1..], k - 1, w);
    }
  }

  /** The stored checksum, in the last word, is the computed one. */
  predicate Verifies(img: seq<byte>, size: nat)
    requires size % 2 == 0 && 2 <= size <= |img|
  {
    Fold(SEED, Words(img, size / 2 - 1)) == Word(img, size / 2 - 1)
  }

  /** The two images differ in word `k` and in no other word. */
  ghost predicate DifferInWord(a: seq<byte>, b: seq<byte>, size: nat, k: nat)
    requires size % 2 == 0 && size <= |a| && size <= |b|
  {
    k < size / 2 && forall i :: 0 <= i < size / 2 ==> (Word(a, i) != Word(b, i) <==> i == k)
  }

  /** Any change within one word of a verified image is detected, the checksum word included. */
  lemma DetectsOneWord(a: seq<byte>, b: seq<byte>, size: nat, k: nat)
    requires size % 2 == 0 && 2 <= size <= |a| && size <= |b|
    requires DifferInWord(a, b, size, k) && Verifies(a, size)
    ensures !Verifies(b, size)
  {
    var n := size / 2 - 1;
    if k < n {
      assert Words(b, n) == Words(a, n)[k := Word(b, k)];
      OneWordChanges(SEED, Words(a, n), k, Word(b, k));
    } else {
      assert Words(b, n) == Words(a, n);
    }
  }

  function LowByte(w: word): byte {
    (w & 0xff) as byte
  }

  function HighByte(w: word): byte {
    (w >> 8) as byte
  }

  lemma BytesOfWord(w: word)
    ensures (LowByte(w) as bv16) + ((HighByte(w) as bv16) << 8) == w
  {
  }

  /** Storing a word and reading it back. */
  lemma WordRoundTrip(img: seq<byte>, i: nat, w: word)
    requires 2 * i + 1 < |img| && img[2 * i] == LowByte(w) && img[2 * i + 1] == HighByte(w)
    ensures Word(img, i) == w
  {
    BytesOfWord(w);
  }
}
