/**
  Readers of a buffer at an offset, put together from smaller ones, and what
  it takes for one to find a value wherever its bytes stand in the buffer.
 */
module Readers {
  import opened Wrappers
  import opened Bytes

  /** What was read, and the offset behind it, which may lie past the end of the buffer. */
  datatype Placed<T> = Placed(got: T, next: nat)

  type Reader<!T> = nat -> Option<Placed<T>>

  // ------------------------------------------------------------ combinations

  function Then<A, B>(a: Option<Placed<A>>, b: Reader<B>): Option<Placed<(A, B)>>
  {
    if a.None? then None
    else
      var y := b(a.value.next);
      if y.None? then None else Some(Placed((a.value.got, y.value.got), y.value.next))
  }

  /** One thing after another. */
  function Pair<A, B>(a: Reader<A>, b: Reader<B>): Reader<(A, B)>
  {
    (o: nat) => Then(a(o), b)
  }

  function Mapped<A, B>(f: A -> B, r: Option<Placed<A>>): Option<Placed<B>>
  {
    if r.None? then None else Some(Placed(f(r.value.got), r.value.next))
  }

  function Map<A, B>(f: A -> B, read: Reader<A>): Reader<B>
  {
    (o: nat) => Mapped(f, read(o))
  }

  function Before<T>(x: T, r: Option<Placed<seq<T>>>): Option<Placed<seq<T>>>
  {
    if r.None? then None else Some(Placed([x] + r.value.got, r.value.next))
  }

  /** `count` things in a row. */
  function ListAt<T>(read: Reader<T>, count: nat, off: nat): Option<Placed<seq<T>>>
    decreases count
  {
    if count == 0 then Some(Placed([], off))
    else
      var x := read(off);
      if x.None? then None else Before(x.value.got, ListAt(read, count - 1, x.value.next))
  }

  function NumAt(buf: ByteString, off: nat, width: nat): nat
    requires off + width <= |buf|
  {
    Value(buf[off..off + width])
  }

  /** Like a list, but one that breaks off ends early, at `stop`, and still counts. */
  function LenientAt<T>(read: Reader<T>, stop: nat -> nat, count: nat, off: nat): Placed<seq<T>>
    decreases count
  {
    if count == 0 then Placed([], off)
    else
      var x := read(off);
      if x.None? then Placed([], stop(off))
      else
        var more := LenientAt(read, stop, count - 1, x.value.next);
        Placed([x.value.got] + more.got, more.next)
  }

  /** Things of different kinds in a row, up to the first that cannot be read or lies past `limit`. */
  function ChainAt<T>(readers: seq<Reader<T>>, limit: nat, off: nat): seq<T>
    decreases |readers|
  {
    if readers == [] || off > limit then []
    else
      var x := readers[0](off);
      if x.None? then [] else [x.value.got] + ChainAt(readers[1..], limit, x.value.next)
  }

  // ------------------------------------------------------------ bytes in place

  /** `bytes` stand in `buf` at `off`. */
  predicate At(buf: ByteString, off: nat, bytes: ByteString)
  {
    off + |bytes| <= |buf| && buf[off..off + |bytes|] == bytes
  }

  lemma AtBoth(buf: ByteString, off: nat, a: ByteString, b: ByteString)
    requires At(buf, off, a + b)
    ensures At(buf, off, a) && At(buf, off + |a|, b)
  {
    var ab := buf[off..off + |a + b|];
    assert buf[off..off + |a|] == ab[..|a|] == a;
    assert buf[off + |a|..off + |a| + |b|] == ab[|a|..] == b;
  }

  /** Wherever `block` stands, `read` finds `x`, and nothing behind the block matters. */
  ghost predicate Reads<T(!new)>(buf: ByteString, read: Reader<T>, block: ByteString, x: T)
  {
    forall o: nat :: At(buf, o, block) ==> read(o) == Some(Placed(x, o + |block|))
  }

  lemma PairReads<A(!new), B(!new)>(buf: ByteString, ra: Reader<A>, rb: Reader<B>, a: ByteString, b: ByteString,
                                    x: A, y: B)
    requires Reads(buf, ra, a, x) && Reads(buf, rb, b, y)
    ensures Reads(buf, Pair(ra, rb), a + b, (x, y))
  {
    forall o: nat | At(buf, o, a + b) ensures Pair(ra, rb)(o) == Some(Placed((x, y), o + |a + b|)) {
      AtBoth(buf, o, a, b);
      assert ra(o) == Some(Placed(x, o + |a|));
      assert rb(o + |a|) == Some(Placed(y, o + |a| + |b|));
    }
  }

  lemma MapReads<A(!new), B(!new)>(buf: ByteString, f: A -> B, read: Reader<A>, block: ByteString, x: A)
    requires Reads(buf, read, block, x)
    ensures Reads(buf, Map(f, read), block, f(x))
  {
  }

  ghost predicate AllRead<T(!new)>(buf: ByteString, read: Reader<T>, blocks: seq<ByteString>, xs: seq<T>)
  {
    |blocks| == |xs| && forall i :: 0 <= i < |xs| ==> Reads(buf, read, blocks[i], xs[i])
  }

  lemma ListCons<T>(read: Reader<T>, xs: seq<T>, off: nat, next: nat, end: nat)
    requires xs != [] && read(off) == Some(Placed(xs[0], next))
    requires ListAt(read, |xs| - 1, next) == Some(Placed(xs[1..], end))
    ensures ListAt(read, |xs|, off) == Some(Placed(xs, end))
  {
    assert [xs[0]] + xs[1..] == xs;
  }

  lemma LenientCons<T>(read: Reader<T>, stop: nat -> nat, xs: seq<T>, off: nat, next: nat, end: nat)
    requires xs != [] && read(off) == Some(Placed(xs[0], next))
    requires LenientAt(read, stop, |xs| - 1, next) == Placed(xs[1..], end)
    ensures LenientAt(read, stop, |xs|, off) == Placed(xs, end)
  {
    assert [xs[0]] + xs[1..] == xs;
  }

  lemma {:induction false} ListReads<T(!new)>(buf: ByteString, read: Reader<T>, blocks: seq<ByteString>, xs: seq<T>,
                                              off: nat)
    requires AllRead(buf, read, blocks, xs) && At(buf, off, Concat(blocks))
    ensures ListAt(read, |xs|, off) == Some(Placed(xs, off + |Concat(blocks)|))
    decreases |xs|
  {
    if xs != [] {
      AtBoth(buf, off, blocks[0], Concat(blocks[1..]));
      assert Reads(buf, read, blocks[0], xs[0]);
      ListReads(buf, read, blocks[1..], xs[1..], off + |blocks[0]|);
      ListCons(read, xs, off, off + |blocks[0]|, off + |Concat(blocks)|);
    }
  }

  lemma {:induction false} LenientReads<T(!new)>(buf: ByteString, read: Reader<T>, stop: nat -> nat,
                                                 blocks: seq<ByteString>, xs: seq<T>, off: nat)
    requires AllRead(buf, read, blocks, xs) && At(buf, off, Concat(blocks))
    ensures LenientAt(read, stop, |xs|, off) == Placed(xs, off + |Concat(blocks)|)
    decreases |xs|
  {
    if xs != [] {
      AtBoth(buf, off, blocks[0], Concat(blocks[1..]));
      assert Reads(buf, read, blocks[0], xs[0]);
      LenientReads(buf, read, stop, blocks[1..], xs[1..], off + |blocks[0]|);
      LenientCons(read, stop, xs, off, off + |blocks[0]|, off + |Concat(blocks)|);
    }
  }

  lemma NumReads(buf: ByteString, off: nat, n: nat, width: nat)
    requires At(buf, off, BigEndian(n, width)) && n < Pow256(width)
    ensures NumAt(buf, off, width) == n
  {
    ValueOfBigEndian(n, width);
  }

  /** A counted list is split off into its count and its elements. */
  lemma CountSplits(buf: ByteString, off: nat, head: ByteString, body: ByteString)
    requires |head| == 4 && At(buf, off, head + body)
    ensures off + 4 <= |buf| && NumAt(buf, off, 4) == Value(head) && At(buf, off + 4, body)
  {
    AtBoth(buf, off, head, body);
  }

  /** A list reader for a fixed count. */
  function List<T>(read: Reader<T>, count: nat): Reader<seq<T>> { (o: nat) => ListAt(read, count, o) }

  function LenientList<T>(read: Reader<T>, stop: nat -> nat, count: nat): Reader<seq<T>>
  {
    (o: nat) => Some(LenientAt(read, stop, count, o))
  }

  lemma ListBlockReads<T(!new)>(buf: ByteString, read: Reader<T>, blocks: seq<ByteString>, xs: seq<T>)
    requires AllRead(buf, read, blocks, xs)
    ensures Reads(buf, List(read, |xs|), Concat(blocks), xs)
  {
    forall o: nat | At(buf, o, Concat(blocks)) ensures List(read, |xs|)(o) == Some(Placed(xs, o + |Concat(blocks)|)) {
      ListReads(buf, read, blocks, xs, o);
    }
  }

  lemma LenientBlockReads<T(!new)>(buf: ByteString, read: Reader<T>, stop: nat -> nat, blocks: seq<ByteString>,
                                   xs: seq<T>)
    requires AllRead(buf, read, blocks, xs)
    ensures Reads(buf, LenientList(read, stop, |xs|), Concat(blocks), xs)
  {
    forall o: nat | At(buf, o, Concat(blocks))
      ensures LenientList(read, stop, |xs|)(o) == Some(Placed(xs, o + |Concat(blocks)|))
    {
      LenientReads(buf, read, stop, blocks, xs, o);
    }
  }

  /** Reading a count first: `list` is what a reader does once it knows the count. */
  function After4<T>(buf: ByteString, list: nat -> Reader<T>): Reader<T>
  {
    (o: nat) => if o + 4 > |buf| then None else list(NumAt(buf, o, 4))(o + 4)
  }

  lemma After4Reads<T(!new)>(buf: ByteString, list: nat -> Reader<T>, n: nat, head: ByteString, body: ByteString, x: T)
    requires |head| == 4 && Value(head) == n && Reads(buf, list(n), body, x)
    ensures Reads(buf, After4(buf, list), head + body, x)
  {
    forall o: nat | At(buf, o, head + body) ensures After4(buf, list)(o) == Some(Placed(x, o + |head + body|)) {
      CountSplits(buf, o, head, body);
      assert list(n)(o + 4) == Some(Placed(x, o + 4 + |body|));
    }
  }

  /** A 32-bit count and so many things. */
  function Counted<T>(buf: ByteString, read: Reader<T>): Reader<seq<T>>
  {
    After4(buf, (n: nat) => List(read, n))
  }

  function Lenient<T>(buf: ByteString, read: Reader<T>, stop: nat -> nat): Reader<seq<T>>
  {
    After4(buf, (n: nat) => LenientList(read, stop, n))
  }

  lemma CountedIs<T>(buf: ByteString, read: Reader<T>, o: nat)
    ensures Counted(buf, read)(o) == if o + 4 > |buf| then None else ListAt(read, NumAt(buf, o, 4), o + 4)
  {
  }

  lemma LenientIs<T>(buf: ByteString, read: Reader<T>, stop: nat -> nat, o: nat)
    ensures Lenient(buf, read, stop)(o) ==
            if o + 4 > |buf| then None else Some(LenientAt(read, stop, NumAt(buf, o, 4), o + 4))
  {
  }

  lemma CountedReads<T(!new)>(buf: ByteString, read: Reader<T>, blocks: seq<ByteString>, xs: seq<T>)
    requires AllRead(buf, read, blocks, xs) && |xs| < 0x1_0000_0000
    ensures Reads(buf, Counted(buf, read), BigEndian(|xs|, 4) + Concat(blocks), xs)
  {
    Widths();
    ValueOfBigEndian(|xs|, 4);
    ListBlockReads(buf, read, blocks, xs);
    After4Reads(buf, (n: nat) => List(read, n), |xs|, BigEndian(|xs|, 4), Concat(blocks), xs);
  }

  lemma LenientCountedReads<T(!new)>(buf: ByteString, read: Reader<T>, stop: nat -> nat, blocks: seq<ByteString>,
                                     xs: seq<T>)
    requires AllRead(buf, read, blocks, xs) && |xs| < 0x1_0000_0000
    ensures Reads(buf, Lenient(buf, read, stop), BigEndian(|xs|, 4) + Concat(blocks), xs)
  {
    Widths();
    ValueOfBigEndian(|xs|, 4);
    LenientBlockReads(buf, read, stop, blocks, xs);
    After4Reads(buf, (n: nat) => LenientList(read, stop, n), |xs|, BigEndian(|xs|, 4), Concat(blocks), xs);
  }

  /** A chain reads its first `k` values when their bytes stand there and the next one cannot be read at all. */
  lemma {:induction false} ChainReads<T(!new)>(buf: ByteString, readers: seq<Reader<T>>, blocks: seq<ByteString>,
                                               xs: seq<T>, k: nat, off: nat)
    requires |readers| == |blocks| == |xs| && k <= |xs| && At(buf, off, Concat(blocks))
    requires forall i :: 0 <= i < k ==> Reads(buf, readers[i], blocks[i], xs[i])
    requires k < |xs| ==> forall o :: readers[k](o).None?
    ensures ChainAt(readers, |buf|, off) == xs[..k]
    decreases |xs|
  {
    if k > 0 {
      AtBoth(buf, off, blocks[0], Concat(blocks[1..]));
      assert Reads(buf, readers[0], blocks[0], xs[0]);
      ChainReads(buf, readers[1..], blocks[1..], xs[1..], k - 1, off + |blocks[0]|);
      assert [xs[0]] + xs[1..][..k - 1] == xs[..k];
    }
  }
}
