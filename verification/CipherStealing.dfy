/**
  AES-CBC with ciphertext stealing, variant CS3 with a zero initial vector
  (section 5 of RFC 3962).  The block cipher is any pair of functions on
  sixteen-byte blocks; the theorems ask only that each undoes the other.
 */
module CipherStealing {
  import opened Wrappers
  import opened Bytes

  type Block = b: ByteString | |b| == 16 witness [0, 0, 0, 0, 0, 0, 0, 0, 0, 0, 0, 0, 0, 0, 0, 0]

  datatype BlockCipher = BlockCipher(enc: Block -> Block, dec: Block -> Block)

  ghost predicate Permutation(c: BlockCipher)
  {
    && (forall b: Block :: c.dec(c.enc(b)) == b)
    && (forall b: Block :: c.enc(c.dec(b)) == b)
  }

  const ZERO_BLOCK: Block := [0, 0, 0, 0, 0, 0, 0, 0, 0, 0, 0, 0, 0, 0, 0, 0]

  /** `xor16`: `data` exclusive-ored into the front of `a`; the tail of `a` stays. */
  function XorInto(a: Block, data: ByteString): Block
    requires |data| <= 16
  {
    seq(16, i requires 0 <= i < 16 => if i < |data| then Xor(a[i], data[i]) else a[i])
  }

  // ------------------------------------------------------------ reference definitions

  /** Plain CBC blocks of the zero-padded input, chained from `prev`. */
  function CbcBlocks(c: BlockCipher, prev: Block, p: ByteString): (blocks: seq<Block>)
    ensures p != [] ==> |blocks| == (|p| + 15) / 16
    ensures p == [] ==> blocks == []
    decreases |p|
  {
    if p == [] then []
    else if |p| <= 16 then [c.enc(XorInto(prev, p))]
    else
      var b := c.enc(XorInto(prev, p[..16]));
      [b] + CbcBlocks(c, b, p[16..])
  }

  function Flatten(blocks: seq<Block>): (s: ByteString)
    ensures |s| == 16 * |blocks|
  {
    if blocks == [] then [] else blocks[0] + Flatten(blocks[1..])
  }

  /** The last two blocks swapped and the new last one cut to `lastLen` bytes. */
  function SwapAndCut(blocks: seq<Block>, lastLen: nat): ByteString
    requires |blocks| >= 2 && lastLen <= 16
  {
    var n := |blocks|;
    Flatten(blocks[..n - 2]) + blocks[n - 1] + blocks[n - 2][..lastLen]
  }

  /** Ciphertext stealing block by block from the front, chained from `prev`. */
  function Encrypt(c: BlockCipher, prev: Block, p: ByteString): (y: ByteString)
    requires |p| >= 16
    ensures |y| == |p|
    decreases |p|
  {
    if |p| == 16 then c.enc(XorInto(prev, p))
    else
      var b := c.enc(XorInto(prev, p[..16]));
      if |p| <= 32 then c.enc(XorInto(b, p[16..])) + b[..|p| - 16]
      else b + Encrypt(c, b, p[16..])
  }

  function Decrypt(c: BlockCipher, prev: Block, y: ByteString): (p: ByteString)
    requires |y| >= 16
    ensures |p| == |y|
    decreases |y|
  {
    if |y| == 16 then XorInto(c.dec(y), prev)
    else if |y| <= 32 then
      var z := c.dec(y[..16]);
      var stolen: Block := y[16..] + z[|y| - 16..];
      XorInto(c.dec(stolen), prev) + XorInto(z, stolen)[..|y| - 16]
    else XorInto(c.dec(y[..16]), prev) + Decrypt(c, y[..16], y[16..])
  }

  // ------------------------------------------------------------ exclusive-or facts

  lemma XorIntoCancels(a: Block, b: Block)
    ensures XorInto(XorInto(a, b), b) == a
    ensures XorInto(XorInto(a, b), a) == b
    ensures XorInto(a, XorInto(a, b)) == b
    ensures XorInto(b, XorInto(a, b)) == a
    ensures XorInto(a, ZERO_BLOCK) == a
    ensures XorInto(ZERO_BLOCK, a) == a
  {
    forall i | 0 <= i < 16
      ensures XorInto(XorInto(a, b), b)[i] == a[i]
      ensures XorInto(XorInto(a, b), a)[i] == b[i]
      ensures XorInto(a, XorInto(a, b))[i] == b[i]
      ensures XorInto(b, XorInto(a, b))[i] == a[i]
      ensures XorInto(a, ZERO_BLOCK)[i] == a[i]
      ensures XorInto(ZERO_BLOCK, a)[i] == a[i]
    {
      XorLaws(a[i], b[i]);
      XorLaws(b[i], a[i]);
      XorCommutes(a[i], b[i]);
    }
  }

  /** A short last block: the stolen tail comes back, and so does the data. */
  lemma StealingRecovers(b: Block, data: ByteString)
    requires |data| <= 16
    ensures var z := XorInto(b, data);
            b[..|data|] + z[|data|..] == b && XorInto(z, b)[..|data|] == data
  {
    var z := XorInto(b, data);
    assert forall i :: |data| <= i < 16 ==> z[i] == b[i];
    assert b[..|data|] + z[|data|..] == b;
    forall i | 0 <= i < |data|
      ensures XorInto(z, b)[..|data|][i] == data[i]
    {
      XorLaws(b[i], data[i]);
    }
  }

  /** The other way round: re-encrypting a recovered short block restores it. */
  lemma StealingRestores(z: Block, tail: ByteString)
    requires |tail| <= 16
    ensures var stolen: Block := tail + z[|tail|..];
            XorInto(stolen, XorInto(z, stolen)[..|tail|]) == z && stolen[..|tail|] == tail
  {
    var stolen: Block := tail + z[|tail|..];
    var data := XorInto(z, stolen)[..|tail|];
    forall i | 0 <= i < 16
      ensures XorInto(stolen, data)[i] == z[i]
    {
      if i < |tail| {
        XorLaws(stolen[i], z[i]);
        XorCommutes(stolen[i], z[i]);
      }
    }
  }

  // ------------------------------------------------------------ main theorems

  /** Decryption undoes encryption: every input of at least one block, every permutation. */
  lemma {:induction false} DecryptUndoesEncrypt(c: BlockCipher, prev: Block, p: ByteString)
    requires Permutation(c)
    requires |p| >= 16
    ensures Decrypt(c, prev, Encrypt(c, prev, p)) == p
    decreases |p|
  {
    var y := Encrypt(c, prev, p);
    if |p| == 16 {
      XorIntoCancels(prev, p);
    } else {
      var b := c.enc(XorInto(prev, p[..16]));
      XorIntoCancels(prev, p[..16]);
      assert p == p[..16] + p[16..];
      if |p| <= 32 {
        var z := XorInto(b, p[16..]);
        StealingRecovers(b, p[16..]);
        assert y[..16] == c.enc(z) && y[16..] == b[..|p| - 16];
      } else {
        assert y[..16] == b && y[16..] == Encrypt(c, b, p[16..]);
        DecryptUndoesEncrypt(c, b, p[16..]);
      }
    }
  }

  /** Encryption undoes decryption, so stealing is a bijection on each length. */
  lemma {:induction false} EncryptUndoesDecrypt(c: BlockCipher, prev: Block, y: ByteString)
    requires Permutation(c)
    requires |y| >= 16
    ensures Encrypt(c, prev, Decrypt(c, prev, y)) == y
    decreases |y|
  {
    var p := Decrypt(c, prev, y);
    if |y| == 16 {
      XorIntoCancels(c.dec(y), prev);
    } else if |y| <= 32 {
      var z := c.dec(y[..16]);
      var stolen: Block := y[16..] + z[|y| - 16..];
      StealingRestores(z, y[16..]);
      XorIntoCancels(c.dec(stolen), prev);
      assert p[..16] == XorInto(c.dec(stolen), prev);
      assert p[16..] == XorInto(z, stolen)[..|y| - 16];
      assert y == y[..16] + y[16..];
    } else {
      assert p[..16] == XorInto(c.dec(y[..16]), prev);
      assert p[16..] == Decrypt(c, y[..16], y[16..]);
      XorIntoCancels(c.dec(y[..16]), prev);
      EncryptUndoesDecrypt(c, y[..16], y[16..]);
      assert y == y[..16] + y[16..];
    }
  }

  /** The front-to-back form is the textbook one: CBC, swap the last two blocks, cut. */
  lemma {:induction false} EncryptIsSwappedCbc(c: BlockCipher, prev: Block, p: ByteString)
    requires |p| > 16
    ensures var blocks := CbcBlocks(c, prev, p);
            Encrypt(c, prev, p) == SwapAndCut(blocks, |p| - 16 * (|blocks| - 1))
    decreases |p|
  {
    var blocks := CbcBlocks(c, prev, p);
    var b := c.enc(XorInto(prev, p[..16]));
    var rest := CbcBlocks(c, b, p[16..]);
    assert blocks == [b] + rest;
    if |p| <= 32 {
      assert blocks[..0] == [];
    } else {
      EncryptIsSwappedCbc(c, b, p[16..]);
      var n := |blocks|;
      assert blocks[..n - 2] == [b] + rest[..n - 3];
    }
  }

  // ------------------------------------------------------------ the loops of the source

  lemma {:induction false} FlattenSnoc(blocks: seq<Block>, b: Block)
    ensures Flatten(blocks + [b]) == Flatten(blocks) + b
  {
    if blocks == [] {
      assert [b][1..] == [];
    } else {
      assert (blocks + [b])[1..] == blocks[1..] + [b];
      FlattenSnoc(blocks[1..], b);
    }
  }

  /** One step of the chunk loop: the chunk at `pos` is the next CBC block. */
  lemma CbcStep(c: BlockCipher, prev: Block, input: ByteString, pos: nat)
    requires pos < |input|
    ensures var next := if pos + 16 <= |input| then pos + 16 else |input|;
            var b := c.enc(XorInto(prev, input[pos..next]));
            CbcBlocks(c, prev, input[pos..]) == [b] + CbcBlocks(c, b, input[next..])
  {
    var tail := input[pos..];
    if |tail| > 16 {
      assert input[pos..pos + 16] == tail[..16] && tail[16..] == input[pos + 16..];
    } else {
      assert input[pos..|input|] == tail && input[|input|..] == [];
    }
  }

  /** The first loop of `cts_encrypt`: CBC over the chunks of the input. */
  method CbcEncrypt(c: BlockCipher, input: ByteString) returns (blocks: seq<Block>)
    ensures blocks == CbcBlocks(c, ZERO_BLOCK, input)
  {
    blocks := [];
    var prev := ZERO_BLOCK;
    var pos := 0;
    while pos < |input|
      invariant 0 <= pos <= |input|
      invariant blocks + CbcBlocks(c, prev, input[pos..]) == CbcBlocks(c, ZERO_BLOCK, input)
    {
      CbcStep(c, prev, input, pos);
      var next := if pos + 16 <= |input| then pos + 16 else |input|;
      var b := c.enc(XorInto(prev, input[pos..next]));
      blocks := blocks + [b];
      prev := b;
      pos := next;
    }
  }

  /** `cts_encrypt`: CBC over the chunks, then swap the last two blocks and cut. */
  method CtsEncrypt(c: BlockCipher, input: ByteString) returns (r: Result<ByteString, ()>)
    ensures |input| < 16 ==> r == Err(())
    ensures |input| >= 16 ==> r == Ok(Encrypt(c, ZERO_BLOCK, input))
  {
    if |input| < 16 {
      return Err(());
    }
    var n := (|input| + 15) / 16;
    var blocks := CbcEncrypt(c, input);
    if n == 1 {
      return Ok(blocks[0]);
    }
    EncryptIsSwappedCbc(c, ZERO_BLOCK, input);
    var lastLen := |input| - 16 * (n - 1);
    var out := [];
    var i := 0;
    while i < n - 2
      invariant 0 <= i <= n - 2
      invariant out == Flatten(blocks[..i])
    {
      FlattenSnoc(blocks[..i], blocks[i]);
      assert blocks[..i + 1] == blocks[..i] + [blocks[i]];
      out := out + blocks[i];
      i := i + 1;
    }
    return Ok(out + blocks[n - 1] + blocks[n - 2][..lastLen]);
  }

  /** `cts_decrypt`: CBC over all but the last two blocks, then undo the swap. */
  method CtsDecrypt(c: BlockCipher, input: ByteString) returns (r: Result<ByteString, ()>)
    ensures |input| < 16 ==> r == Err(())
    ensures |input| >= 16 ==> r == Ok(Decrypt(c, ZERO_BLOCK, input))
  {
    if |input| < 16 {
      return Err(());
    }
    var n := (|input| + 15) / 16;
    if n == 1 {
      XorIntoCancels(c.dec(input), ZERO_BLOCK);
      return Ok(c.dec(input));
    }
    var out := [];
    var prev := ZERO_BLOCK;
    var k := 0;
    while k < n - 2
      invariant 0 <= k <= n - 2
      invariant out + Decrypt(c, prev, input[16 * k..]) == Decrypt(c, ZERO_BLOCK, input)
    {
      ghost var tail := input[16 * k..];
      var chunk: Block := input[16 * k..16 * k + 16];
      assert tail[..16] == chunk && tail[16..] == input[16 * (k + 1)..];
      out := out + XorInto(c.dec(chunk), prev);
      prev := chunk;
      k := k + 1;
    }
    var base := 16 * (n - 2);
    var lastLen := |input| - 16 * (n - 1);
    ghost var end := input[base..];
    var swapped: Block := input[base..base + 16];
    var tail := input[base + 16..];
    assert end[..16] == swapped && end[16..] == tail;
    var z := c.dec(swapped);
    var cPrev: Block := tail + z[lastLen..];
    var lastPlain := XorInto(z, cPrev);
    var p := XorInto(c.dec(cPrev), prev);
    assert Decrypt(c, prev, end) == p + lastPlain[..lastLen];
    assert out + (p + lastPlain[..lastLen]) == out + p + lastPlain[..lastLen];
    return Ok(out + p + lastPlain[..lastLen]);
  }

  // ------------------------------------------------------------ the reference, block by block

  /** Byte `j` of the input, zero behind its end. */
  function PaddedAt(p: ByteString, j: nat): Byte { if j < |p| then p[j] else 0 }

  /**
    Every CBC block decrypts to its sixteen input bytes exclusive-ored with the block
    before it, the first with `prev`.
   */
  lemma {:induction false} CbcBlockIs(c: BlockCipher, prev: Block, p: ByteString, i: nat, j: nat)
    requires Permutation(c) && i < |CbcBlocks(c, prev, p)| && j < 16
    ensures c.dec(CbcBlocks(c, prev, p)[i])[j] ==
            Xor(if i == 0 then prev[j] else CbcBlocks(c, prev, p)[i - 1][j], PaddedAt(p, 16 * i + j))
    decreases i
  {
    if i == 0 {
      XorZero(prev[j]);
    } else {
      var b := c.enc(XorInto(prev, p[..16]));
      assert CbcBlocks(c, prev, p) == [b] + CbcBlocks(c, b, p[16..]);
      CbcBlockIs(c, b, p[16..], i - 1, j);
      assert PaddedAt(p[16..], 16 * (i - 1) + j) == PaddedAt(p, 16 * i + j);
    }
  }

  /** Where the blocks stand in a ciphertext: all but two in order, then the last, and the last but one cut short. */
  lemma StolenBlocks(c: BlockCipher, p: ByteString, i: nat)
    requires |p| > 16
    ensures var y, blocks := Encrypt(c, ZERO_BLOCK, p), CbcBlocks(c, ZERO_BLOCK, p);
            var n := (|p| + 15) / 16;
            && |blocks| == n && |y| == |p|
            && y[16 * n - 32..16 * n - 16] == blocks[n - 1]
            && y[16 * n - 16..] == blocks[n - 2][..|p| - (16 * n - 16)]
            && (i < n - 2 ==> y[16 * i..16 * i + 16] == blocks[i])
  {
    var blocks, n := CbcBlocks(c, ZERO_BLOCK, p), (|p| + 15) / 16;
    EncryptIsSwappedCbc(c, ZERO_BLOCK, p);
    var front, lastLen := Flatten(blocks[..n - 2]), |p| - (16 * n - 16);
    assert |front| == 16 * n - 32;
    var y := front + blocks[n - 1] + blocks[n - 2][..lastLen];
    assert y[16 * n - 32..16 * n - 16] == blocks[n - 1];
    if i < n - 2 {
      FlattenedAt(blocks[..n - 2], i);
      assert y[16 * i..16 * i + 16] == front[16 * i..16 * i + 16];
    }
  }

  lemma {:induction false} FlattenedAt(blocks: seq<Block>, i: nat)
    requires i < |blocks|
    ensures Flatten(blocks)[16 * i..16 * i + 16] == blocks[i]
    decreases i
  {
    if i > 0 {
      FlattenedAt(blocks[1..], i - 1);
      assert Flatten(blocks)[16 * i..16 * i + 16] == Flatten(blocks[1..])[16 * (i - 1)..16 * (i - 1) + 16];
    }
  }
}
