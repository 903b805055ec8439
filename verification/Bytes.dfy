/**
  Byte strings, big-endian numbers and byte-wise exclusive or, shared by the
  codecs and the cryptography.  Casts such as `x as u16` are truncations, so
  `BigEndian(v, width)` keeps the low `width` bytes of `v`.
 */
module Bytes {

  type Byte = x: int | 0 <= x < 256

  type ByteString = seq<Byte>

  /** One more than the largest 32-bit and the largest 64-bit number. */
  const WORD_LIMIT := 0x1_0000_0000

  const HYPER_LIMIT := 0x1_0000_0000_0000_0000

  type U32 = x: int | 0 <= x < WORD_LIMIT

  function Pow256(n: nat): (p: nat)
    ensures p >= 1
  {
    if n == 0 then 1 else 256 * Pow256(n - 1)
  }

  /** `from_be_bytes`: the number a byte string spells, most significant byte first. */
  function Value(s: seq<nat>): nat
  {
    if s == [] then 0 else 256 * Value(s[..|s| - 1]) + s[|s| - 1]
  }

  /** `to_be_bytes` of the low `width` bytes of `v`. */
  function BigEndian(v: nat, width: nat): (b: ByteString)
    ensures |b| == width
  {
    if width == 0 then [] else BigEndian(v / 256, width - 1) + [v % 256]
  }

  lemma {:induction false} ValueBound(s: ByteString)
    ensures Value(s) < Pow256(|s|)
  {
    if s != [] {
      ValueBound(s[..|s| - 1]);
    }
  }

  lemma {:induction false} ValueOfBigEndian(v: nat, width: nat)
    requires v < Pow256(width)
    ensures Value(BigEndian(v, width)) == v
  {
    if width > 0 {
      assert v / 256 < Pow256(width - 1);
      ValueOfBigEndian(v / 256, width - 1);
      var b := BigEndian(v, width);
      assert b[..|b| - 1] == BigEndian(v / 256, width - 1);
    }
  }

  lemma {:induction false} BigEndianOfValue(s: ByteString)
    ensures BigEndian(Value(s), |s|) == s
  {
    if s != [] {
      BigEndianOfValue(s[..|s| - 1]);
      assert s == s[..|s| - 1] + [s[|s| - 1]];
    }
  }

  /** `n` modulo 2^32 as four bytes, most significant first. */
  function FourBytes(n: nat): ByteString
  {
    [n / 0x100_0000 % 256, n / 0x1_0000 % 256, n / 0x100 % 256, n % 256]
  }

  lemma FourBytesOf(v: nat)
    ensures BigEndian(v, 4) == FourBytes(v)
  {
    var a, b, c := v / 256, v / 256 / 256, v / 256 / 256 / 256;
    assert BigEndian(c, 1) == [c % 256] && BigEndian(b, 2) == BigEndian(c, 1) + [b % 256];
    assert BigEndian(a, 3) == BigEndian(b, 2) + [a % 256] && BigEndian(v, 4) == BigEndian(a, 3) + [v % 256];
    assert b == v / 0x1_0000 && c == v / 0x100_0000;
  }

  /** Eight bytes are the four of the high word and the four of the low one. */
  lemma EightBytesOf(v: nat)
    ensures BigEndian(v, 8) == FourBytes(v / 0x1_0000_0000) + FourBytes(v)
  {
    var a, b, c, d := v / 256, v / 256 / 256, v / 256 / 256 / 256, v / 256 / 256 / 256 / 256;
    assert BigEndian(v, 8) == BigEndian(a, 7) + [v % 256] && BigEndian(a, 7) == BigEndian(b, 6) + [a % 256];
    assert BigEndian(b, 6) == BigEndian(c, 5) + [b % 256] && BigEndian(c, 5) == BigEndian(d, 4) + [c % 256];
    FourBytesOf(d);
    assert b == v / 0x1_0000 && c == v / 0x100_0000 && d == v / 0x1_0000_0000;
  }

  /** The powers the fixed-width integers of the wire formats need. */
  lemma Widths()
    ensures Pow256(1) == 0x100
    ensures Pow256(2) == 0x1_0000
    ensures Pow256(4) == 0x1_0000_0000
    ensures Pow256(8) == 0x1_0000_0000_0000_0000
  {
    assert Pow256(2) == 256 * Pow256(1);
    assert Pow256(3) == 256 * Pow256(2);
    assert Pow256(4) == 256 * Pow256(3);
    assert Pow256(5) == 256 * Pow256(4);
    assert Pow256(6) == 256 * Pow256(5);
    assert Pow256(7) == 256 * Pow256(6);
    assert Pow256(8) == 256 * Pow256(7);
  }

  function Zeros(n: nat): (z: ByteString)
    ensures |z| == n && forall i :: 0 <= i < n ==> z[i] == 0
  {
    seq(n, _ => 0)
  }

  /** Four bytes in front are cut off as they are. */
  lemma FourInFront(head: ByteString, tail: ByteString)
    requires |head| == 4
    ensures (head + tail)[..4] == head && (head + tail)[4..] == tail
    ensures forall n: nat {:trigger (head + tail)[4..4 + n]} :: n <= |tail| ==> (head + tail)[4..4 + n] == tail[..n]
  {
  }

  function Concat(blocks: seq<ByteString>): ByteString
  {
    if blocks == [] then [] else blocks[0] + Concat(blocks[1..])
  }

  /** Zero bytes after `len` bytes of XDR data, up to a multiple of four. */
  function Padding(len: nat): (p: nat)
    ensures p < 4 && (len + p) % 4 == 0
  {
    (4 - len % 4) % 4
  }

  lemma AddAligned(x: nat, y: nat)
    requires x % 4 == 0 && y % 4 == 0
    ensures (x + y) % 4 == 0
  {
  }

  // ------------------------------------------------------------ bit-wise operations

  /** `(v >> k) & 1` */
  function BitAt(v: nat, k: nat): (bit: nat)
    ensures bit <= 1
  {
    if k == 0 then v % 2 else BitAt(v / 2, k - 1)
  }

  function Pow2(n: nat): (p: nat)
    ensures p >= 1
  {
    if n == 0 then 1 else 2 * Pow2(n - 1)
  }

  /** Bit-wise exclusive or of the low `width` bits. */
  function XorBits(a: nat, b: nat, width: nat): (x: nat)
    ensures x < Pow2(width)
  {
    if width == 0 then 0
    else 2 * XorBits(a / 2, b / 2, width - 1) + if a % 2 == b % 2 then 0 else 1
  }

  lemma {:induction false} XorBitsCancels(a: nat, b: nat, width: nat)
    requires a < Pow2(width)
    ensures XorBits(XorBits(a, b, width), b, width) == a
  {
    if width > 0 {
      XorBitsCancels(a / 2, b / 2, width - 1);
      var half := XorBits(a / 2, b / 2, width - 1);
      assert XorBits(a, b, width) / 2 == half;
    }
  }

  lemma {:induction false} XorBitsZero(a: nat, width: nat)
    requires a < Pow2(width)
    ensures XorBits(a, 0, width) == a
  {
    if width > 0 {
      XorBitsZero(a / 2, width - 1);
    }
  }

  lemma {:induction false} XorBitsCommutes(a: nat, b: nat, width: nat)
    ensures XorBits(a, b, width) == XorBits(b, a, width)
  {
    if width > 0 {
      XorBitsCommutes(a / 2, b / 2, width - 1);
    }
  }

  /** Bit by bit: one exactly where the two differ. */
  lemma {:induction false} XorBitsAt(a: nat, b: nat, width: nat, k: nat)
    requires k < width
    ensures BitAt(XorBits(a, b, width), k) == if BitAt(a, k) == BitAt(b, k) then 0 else 1
    decreases width
  {
    if k > 0 {
      XorBitsAt(a / 2, b / 2, width - 1, k - 1);
    }
  }

  lemma EightBits()
    ensures Pow2(8) == 256
  {
    assert Pow2(2) == 4 && Pow2(4) == 16 && Pow2(6) == 64;
  }

  function Xor(a: Byte, b: Byte): Byte
  {
    EightBits();
    XorBits(a, b, 8)
  }

  lemma XorCommutes(a: Byte, b: Byte)
    ensures Xor(a, b) == Xor(b, a)
  {
    XorBitsCommutes(a, b, 8);
  }

  lemma XorCancels(a: Byte, b: Byte)
    ensures Xor(Xor(a, b), b) == a
  {
    EightBits();
    XorBitsCancels(a, b, 8);
  }

  lemma XorZero(a: Byte)
    ensures Xor(a, 0) == a
  {
    EightBits();
    XorBitsZero(a, 8);
  }

  /** Exclusive or undoes itself from either side, and zero is neutral. */
  lemma XorLaws(a: Byte, b: Byte)
    ensures Xor(Xor(a, b), b) == a
    ensures Xor(Xor(a, b), a) == b
    ensures Xor(a, Xor(a, b)) == b
    ensures Xor(a, 0) == a && Xor(0, a) == a
    ensures Xor(a, b) == 0 <==> a == b
  {
    XorCancels(a, b);
    XorCancels(b, a);
    XorCommutes(a, b);
    XorCommutes(a, Xor(a, b));
    XorZero(a);
    XorZero(b);
    XorCommutes(a, 0);
    XorCommutes(0, b);
    XorCancels(0, a);
  }

  /** Bit-wise or of the low `width` bits; zero only for two zeros. */
  function OrBits(a: nat, b: nat, width: nat): (x: nat)
    ensures x < Pow2(width)
    ensures a < Pow2(width) && b < Pow2(width) ==> (x == 0 <==> a == 0 && b == 0)
  {
    if width == 0 then 0
    else 2 * OrBits(a / 2, b / 2, width - 1) + if a % 2 == 1 || b % 2 == 1 then 1 else 0
  }

  /** The differences of the first `n` bytes, or-ed together. */
  function Differences(a: ByteString, b: ByteString, n: nat): (d: Byte)
    requires n <= |a| == |b|
    ensures d == 0 <==> a[..n] == b[..n]
  {
    if n == 0 then 0
    else
      EightBits();
      XorLaws(a[n - 1], b[n - 1]);
      assert a[..n] == a[..n - 1] + [a[n - 1]] && b[..n] == b[..n - 1] + [b[n - 1]];
      OrBits(Differences(a, b, n - 1), Xor(a[n - 1], b[n - 1]), 8)
  }

  /** `ct_eq`: the comparison that looks at every byte still decides equality. */
  predicate CtEq(a: ByteString, b: ByteString): (equal: bool)
    ensures equal <==> a == b
  {
    assert a[..|a|] == a && b[..|b|] == b;
    |a| == |b| && Differences(a, b, |a|) == 0
  }
}
