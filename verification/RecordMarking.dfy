/**
  Record marking on a byte stream: every fragment is preceded by a word whose
  top bit says whether it is the last of its record and whose other bits are
  its length.  The decoder is called on what has arrived so far and keeps the
  fragments it has consumed only while one call lasts.
 */
module RecordMarking {
  import opened Bytes

  const MAX_FRAGMENT := 8 * 1024 * 1024

  const LAST_BIT := 0x8000_0000

  datatype Outcome = Pending | Record(data: ByteString) | TooLarge

  // ------------------------------------------------------------ one call of the decoder

  /** What the decoder does with `src`, given the fragments it has consumed in this call. */
  function DecodeFrom(acc: ByteString, src: ByteString): (r: (Outcome, ByteString))
    ensures |r.1| <= |src| && (r.0.Record? ==> |r.1| + 4 <= |src|)
    decreases |src|
  {
    if |src| < 4 then (Pending, src)
    else
      var header := Value(src[..4]);
      var length := header % LAST_BIT;
      if length > MAX_FRAGMENT then (TooLarge, src)
      else if |src| < 4 + length then (Pending, src)
      else if header >= LAST_BIT then (Record(acc + src[4..4 + length]), src[4 + length..])
      else DecodeFrom(acc + src[4..4 + length], src[4 + length..])
  }

  function Decode(src: ByteString): (Outcome, ByteString) { DecodeFrom([], src) }

  method DecodeBuffer(src: ByteString) returns (outcome: Outcome, rest: ByteString)
    ensures (outcome, rest) == Decode(src)
  {
    rest := src;
    var message: ByteString := [];
    var last := false;
    while !last
      invariant !last ==> DecodeFrom(message, rest) == Decode(src)
      invariant last ==> Decode(src) == (Record(message), rest)
      decreases !last, |rest|
    {
      if |rest| < 4 {
        return Pending, rest;
      }
      var header := Value(rest[..4]);
      last := header >= LAST_BIT;
      var length := header % LAST_BIT;
      if length > MAX_FRAGMENT {
        return TooLarge, rest;
      }
      if |rest| < 4 + length {
        return Pending, rest;
      }
      message := message + rest[4..4 + length];
      rest := rest[4 + length..];
    }
    outcome := Record(message);
  }

  // ------------------------------------------------------------ a connection

  datatype Delivery = Delivery(records: seq<ByteString>, rest: ByteString, failed: bool)

  /** The framing layer calls the decoder until it wants more bytes; an error ends the stream. */
  function Drain(buf: ByteString): (d: Delivery)
    ensures !d.failed ==> Decode(d.rest).0.Pending?
    decreases |buf|
  {
    var (outcome, rest) := Decode(buf);
    match outcome
    case Pending => PendingIsStable([], buf); Delivery([], rest, false)
    case TooLarge => Delivery([], rest, true)
    case Record(data) =>
      var more := Drain(rest);
      Delivery([data] + more.records, more.rest, more.failed)
  }

  lemma DrainsRecord(buf: ByteString, data: ByteString, rest: ByteString)
    requires Decode(buf) == (Record(data), rest)
    ensures Drain(buf) == Delivery([data] + Drain(rest).records, Drain(rest).rest, Drain(rest).failed)
  {
  }

  /** All that is delivered as `chunks` arrive after `buf`. */
  function Session(buf: ByteString, chunks: seq<ByteString>): Delivery
    decreases |chunks|
  {
    if chunks == [] then Delivery([], buf, false)
    else
      var d := Drain(buf + chunks[0]);
      if d.failed then d
      else
        var more := Session(d.rest, chunks[1..]);
        Delivery(d.records + more.records, more.rest, more.failed)
  }

  lemma {:induction false} PendingIsStable(acc: ByteString, src: ByteString)
    requires DecodeFrom(acc, src).0.Pending?
    ensures forall other :: DecodeFrom(other, DecodeFrom(acc, src).1) == (Pending, DecodeFrom(acc, src).1)
    decreases |src|
  {
    if |src| >= 4 {
      var length := Value(src[..4]) % LAST_BIT;
      if |src| >= 4 + length {
        PendingIsStable(acc + src[4..4 + length], src[4 + length..]);
      }
    }
  }

  // ------------------------------------------------------------ frames

  function Frame(data: ByteString, last: bool): (f: ByteString)
    ensures |f| == 4 + |data|
  {
    BigEndian(Header(|data|, last), 4) + data
  }

  /** A frame: a word that holds the length, with the top bit for the last fragment, and the data. */
  lemma FrameBytes(data: ByteString, last: bool)
    requires Fits(data)
    ensures var f := Frame(data, last);
            Value(f[..4]) == |data| + (if last then 0x8000_0000 else 0) && f[4..] == data
  {
    Widths();
    ValueOfBigEndian(Header(|data|, last), 4);
    assert Frame(data, last)[..4] == BigEndian(Header(|data|, last), 4);
  }

  /** A fragment announced with more than eight megabytes ends the stream, and nothing of it is consumed. */
  lemma LargeIsRefused(acc: ByteString, src: ByteString)
    requires |src| >= 4 && Value(src[..4]) % 0x8000_0000 > 0x80_0000
    ensures DecodeFrom(acc, src) == (TooLarge, src) && Drain(src) == Delivery([], src, true)
  {
  }

  predicate Fits(data: ByteString) { |data| <= MAX_FRAGMENT }

  predicate AllFit(frags: seq<ByteString>) { forall i :: 0 <= i < |frags| ==> Fits(frags[i]) }

  /** `len as u32 + (1 << 31)`, a 32-bit sum. */
  function ReplyHeader(len: nat): nat { (len % WORD_LIMIT + LAST_BIT) % WORD_LIMIT }

  /** The encoder: a header and the message; it decodes to the message exactly when that is within the size limit. */
  method EncodeReply(message: ByteString, dst: ByteString) returns (out: ByteString)
    ensures out == dst + EncodedReply(message)
    ensures Decode(EncodedReply(message)) == (Record(message), []) <==> Fits(message)
  {
    var header := BigEndian(ReplyHeader(|message|), 4);
    out := dst + header;
    out := out + message;
    assert out == dst + EncodedReply(message);
    ReplyDecodesIff(message);
  }

  function EncodedReply(message: ByteString): ByteString { BigEndian(ReplyHeader(|message|), 4) + message }

  /** A decoded record is one fragment, or at least two headers shorter than its bytes. */
  lemma {:induction false} RecordIsShort(acc: ByteString, src: ByteString)
    requires DecodeFrom(acc, src).0.Record?
    ensures var data := DecodeFrom(acc, src).0.data;
            |data| <= |acc| + MAX_FRAGMENT || |data| + 8 <= |acc| + |src|
    decreases |src|
  {
    var length := Value(src[..4]) % LAST_BIT;
    if Value(src[..4]) < LAST_BIT {
      RecordIsShort(acc + src[4..4 + length], src[4 + length..]);
      RecordHeld(acc + src[4..4 + length], src[4 + length..]);
    }
  }

  lemma {:induction false} RecordHeld(acc: ByteString, src: ByteString)
    requires DecodeFrom(acc, src).0.Record?
    ensures |DecodeFrom(acc, src).0.data| + 4 <= |acc| + |src|
    decreases |src|
  {
    var length := Value(src[..4]) % LAST_BIT;
    if Value(src[..4]) < LAST_BIT {
      RecordHeld(acc + src[4..4 + length], src[4 + length..]);
    }
  }

  lemma ReplyDecodesIff(message: ByteString)
    ensures Decode(EncodedReply(message)) == (Record(message), []) <==> |message| <= 0x80_0000
  {
    if Fits(message) {
      FrameDecodes([], message, true, []);
      assert ReplyHeader(|message|) == Header(|message|, true);
      assert Frame(message, true) + [] == EncodedReply(message);
      assert [] + message == message;
    } else if Decode(EncodedReply(message)) == (Record(message), []) {
      RecordIsShort([], EncodedReply(message));
    }
  }

  /** The header word of a fragment of `n` bytes. */
  function Header(n: nat, last: bool): nat { n + if last then LAST_BIT else 0 }

  lemma HeaderWord(n: nat, last: bool)
    requires n <= MAX_FRAGMENT
    ensures Value(BigEndian(Header(n, last), 4)) == Header(n, last)
    ensures Header(n, last) % LAST_BIT == n && (Header(n, last) >= LAST_BIT <==> last)
  {
    Widths();
    ValueOfBigEndian(Header(n, last), 4);
  }

  lemma FrameParts(data: ByteString, last: bool, rest: ByteString)
    ensures var src := Frame(data, last) + rest;
            && src[..4] == BigEndian(Header(|data|, last), 4)
            && src[4..4 + |data|] == data && src[4 + |data|..] == rest
  {
  }

  lemma FrameDecodes(acc: ByteString, data: ByteString, last: bool, rest: ByteString)
    requires Fits(data)
    ensures DecodeFrom(acc, Frame(data, last) + rest) ==
            if last then (Record(acc + data), rest) else DecodeFrom(acc + data, rest)
  {
    HeaderWord(|data|, last);
    FrameParts(data, last, rest);
  }

  /** Part of a frame only makes the decoder wait, and it keeps all of it. */
  lemma PartialFrameWaits(acc: ByteString, data: ByteString, last: bool, n: nat)
    requires Fits(data) && n < 4 + |data|
    ensures DecodeFrom(acc, Frame(data, last)[..n]) == (Pending, Frame(data, last)[..n])
  {
    if n >= 4 {
      HeaderWord(|data|, last);
      assert Frame(data, last)[..n][..4] == BigEndian(Header(|data|, last), 4);
    }
  }

  // ------------------------------------------------------------ records of one fragment

  function Stream(records: seq<ByteString>): ByteString
  {
    if records == [] then [] else Frame(records[0], true) + Stream(records[1..])
  }

  /** The part of `f + more` that has arrived either ends in `f` or holds all of it. */
  lemma FrontOf(f: ByteString, more: ByteString, buf: ByteString, rest: ByteString)
    requires buf + rest == f + more
    ensures |buf| < |f| ==> buf == f[..|buf|]
    ensures |buf| >= |f| ==> buf == f + buf[|f|..] && buf[|f|..] + rest == more
  {
    if |buf| < |f| {
      assert buf == (buf + rest)[..|buf|];
      assert f[..|buf|] == (f + more)[..|buf|];
    } else {
      assert buf[..|f|] == (buf + rest)[..|f|];
      assert f == (f + more)[..|f|];
      assert buf[|f|..] + rest == (buf + rest)[|f|..];
      assert more == (f + more)[|f|..];
    }
  }

  /** Whatever part `buf` of the stream has arrived: the whole records in it come out, the rest stays. */
  lemma {:induction false} DrainsPrefix(records: seq<ByteString>, buf: ByteString, rest: ByteString)
    requires AllFit(records) && buf + rest == Stream(records)
    ensures var d := Drain(buf);
            && !d.failed && |d.records| <= |records| && d.records == records[..|d.records|]
            && d.rest + rest == Stream(records[|d.records|..])
    decreases |records|
  {
    if records == [] {
      assert buf == [] && rest == [];
    } else {
      var f := Frame(records[0], true);
      FrontOf(f, Stream(records[1..]), buf, rest);
      if |buf| < |f| {
        PartialFrameWaits([], records[0], true, |buf|);
        assert records[0..] == records;
      } else {
        var left := buf[|f|..];
        FirstDrains(records[0], buf, left);
        DrainsPrefix(records[1..], left, rest);
        var n := |Drain(left).records|;
        assert [records[0]] + records[1..][..n] == records[..1 + n];
        assert records[1..][n..] == records[1 + n..];
      }
    }
  }

  lemma FirstDrains(data: ByteString, buf: ByteString, left: ByteString)
    requires Fits(data) && buf == Frame(data, true) + left
    ensures Drain(buf) == Delivery([data] + Drain(left).records, Drain(left).rest, Drain(left).failed)
  {
    FrameDecodes([], data, true, left);
    assert [] + data == data;
    DrainsRecord(buf, data, left);
  }

  /** A buffer the decoder waits on holds no whole record. */
  lemma PendingIsShort(records: seq<ByteString>, buf: ByteString)
    requires AllFit(records) && buf == Stream(records) && Decode(buf).0.Pending?
    ensures records == []
  {
    if records != [] {
      FrameDecodes([], records[0], true, Stream(records[1..]));
    }
  }

  /**
    For records of one fragment the arrival pattern does not matter: any split
    of the stream into chunks delivers exactly the records, in order.
   */
  lemma {:induction false} ChunkingIndependent(records: seq<ByteString>, buf: ByteString, chunks: seq<ByteString>)
    requires AllFit(records) && buf + Concat(chunks) == Stream(records) && Decode(buf).0.Pending?
    ensures Session(buf, chunks) == Delivery(records, [], false)
    decreases |chunks|
  {
    if chunks == [] {
      assert buf + [] == buf;
      PendingIsShort(records, buf);
    } else {
      var have, rest := buf + chunks[0], Concat(chunks[1..]);
      assert have + rest == Stream(records);
      DrainsPrefix(records, have, rest);
      var d := Drain(have);
      ChunkingIndependent(records[|d.records|..], d.rest, chunks[1..]);
      assert d.records + records[|d.records|..] == records;
    }
  }

  // ------------------------------------------------------------ records of several fragments

  /** One record as its sender cuts it up. */
  function Whole(frags: seq<ByteString>): ByteString
    requires frags != []
  {
    if |frags| == 1 then Frame(frags[0], true) else Frame(frags[0], false) + Whole(frags[1..])
  }

  /** A record that has arrived whole is the concatenation of its fragments, and exactly its bytes are consumed. */
  lemma {:induction false} WholeDecodes(acc: ByteString, frags: seq<ByteString>, rest: ByteString)
    requires frags != [] && AllFit(frags)
    ensures DecodeFrom(acc, Whole(frags) + rest) == (Record(acc + Concat(frags)), rest)
    decreases |frags|
  {
    if |frags| == 1 {
      FrameDecodes(acc, frags[0], true, rest);
      assert Concat(frags[1..]) == [];
      assert Concat(frags) == frags[0];
    } else {
      var tail := Whole(frags[1..]) + rest;
      assert Whole(frags) + rest == Frame(frags[0], false) + tail;
      FrameDecodes(acc, frags[0], false, tail);
      WholeDecodes(acc + frags[0], frags[1..], rest);
      assert (acc + frags[0]) + Concat(frags[1..]) == acc + Concat(frags);
    }
  }

  /** How many fragments the first `n` bytes hold in full. */
  function Complete(frags: seq<ByteString>, n: nat): (k: nat)
    ensures k <= |frags|
  {
    if frags == [] || n < 4 + |frags[0]| then 0 else 1 + Complete(frags[1..], n - 4 - |frags[0]|)
  }

  /** The bytes of the first `k` frames. */
  function Offset(frags: seq<ByteString>, k: nat): (n: nat)
    requires k <= |frags|
  {
    if k == 0 then 0 else 4 + |frags[0]| + Offset(frags[1..], k - 1)
  }

  lemma WholeHasFirst(frags: seq<ByteString>)
    requires frags != []
    ensures |Whole(frags)| >= 4 + |frags[0]|
  {
  }

  lemma FirstFrame(frags: seq<ByteString>)
    requires |frags| > 1
    ensures Whole(frags) == Frame(frags[0], false) + Whole(frags[1..])
  {
  }

  /** Where a cut falls: in the frame after the complete ones, which are a record of their own from there on. */
  lemma {:induction false} CutPlace(frags: seq<ByteString>, n: nat)
    requires frags != [] && n < |Whole(frags)|
    ensures var k := Complete(frags, n);
            && k < |frags| && Offset(frags, k) <= n && n - Offset(frags, k) < 4 + |frags[k]|
            && Whole(frags)[Offset(frags, k)..] == Whole(frags[k..])
    decreases |frags|
  {
    var size := 4 + |frags[0]|;
    if n < size {
      assert Whole(frags)[0..] == Whole(frags) && frags[0..] == frags;
    } else {
      CutPlace(frags[1..], n - size);
      var k := Complete(frags[1..], n - size);
      var at := Offset(frags[1..], k);
      assert Whole(frags[1..])[at..] == Whole(frags)[size + at..];
      assert frags[1..][k..] == frags[1 + k..];
    }
  }

  /** Cutting `f + tail` behind `f` cuts `tail`. */
  lemma CutBehind(f: ByteString, tail: ByteString, n: nat, at: nat)
    requires |f| <= n <= |f| + |tail| && |f| + at <= n
    ensures (f + tail)[..n] == f + tail[..n - |f|]
    ensures tail[at..n - |f|] == (f + tail)[|f| + at..n]
  {
  }

  lemma CutInFirst(acc: ByteString, frags: seq<ByteString>, n: nat)
    requires frags != [] && AllFit(frags) && n < 4 + |frags[0]|
    ensures n < |Whole(frags)| && DecodeFrom(acc, Whole(frags)[..n]) == (Pending, Whole(frags)[..n])
  {
    PartialFrameWaits(acc, frags[0], |frags| == 1, n);
    assert Whole(frags)[..n] == Frame(frags[0], |frags| == 1)[..n];
  }

  /** A whole first frame is consumed, and decoding goes on behind it. */
  lemma CutBehindFirst(acc: ByteString, frags: seq<ByteString>, n: nat, at: nat)
    requires |frags| > 1 && AllFit(frags) && 4 + |frags[0]| + at <= n <= |Whole(frags)|
    ensures n <= 4 + |frags[0]| + |Whole(frags[1..])|
    ensures DecodeFrom(acc, Whole(frags)[..n]) == DecodeFrom(acc + frags[0], Whole(frags[1..])[..n - 4 - |frags[0]|])
    ensures Whole(frags[1..])[at..n - 4 - |frags[0]|] == Whole(frags)[4 + |frags[0]| + at..n]
  {
    FirstFrame(frags);
    CutBehind(Frame(frags[0], false), Whole(frags[1..]), n, at);
    FrameDecodes(acc, frags[0], false, Whole(frags[1..])[..n - 4 - |frags[0]|]);
  }

  /** Cut short, a call drops the complete fragments and leaves the start of the next one. */
  lemma {:induction false} CutDrops(acc: ByteString, frags: seq<ByteString>, n: nat)
    requires frags != [] && AllFit(frags) && n < |Whole(frags)|
    ensures var k := Complete(frags, n);
            && k < |frags| && Offset(frags, k) <= n
            && DecodeFrom(acc, Whole(frags)[..n]) == (Pending, Whole(frags)[Offset(frags, k)..n])
    decreases |frags|
  {
    var size := 4 + |frags[0]|;
    if n < size {
      CutInFirst(acc, frags, n);
      assert Whole(frags)[0..n] == Whole(frags)[..n];
    } else {
      CutDrops(acc + frags[0], frags[1..], n - size);
      CutBehindFirst(acc, frags, n, Offset(frags[1..], Complete(frags[1..], n - size)));
    }
  }

  lemma {:induction false} EmptyChunksDeliverNothing(buf: ByteString, chunks: seq<ByteString>)
    requires Decode(buf) == (Pending, buf) && Concat(chunks) == []
    ensures Session(buf, chunks) == Delivery([], buf, false)
    decreases |chunks|
  {
    if chunks != [] {
      assert chunks[0] == [] && Concat(chunks[1..]) == [];
      assert buf + chunks[0] == buf;
      EmptyChunksDeliverNothing(buf, chunks[1..]);
    }
  }

  /** A chunk that does not complete the record delivers nothing and loses the complete fragments. */
  lemma ChunkDrops(frags: seq<ByteString>, have: ByteString, rest: ByteString)
    requires frags != [] && AllFit(frags) && have + rest == Whole(frags) && rest != []
    ensures var k := Complete(frags, |have|);
            && k < |frags| && Offset(frags, k) <= |have| && |have| - Offset(frags, k) < 4 + |frags[k]|
            && Drain(have) == Delivery([], have[Offset(frags, k)..], false)
            && have[Offset(frags, k)..] + rest == Whole(frags[k..])
  {
    var w, n := Whole(frags), |have|;
    assert have == w[..n];
    CutPlace(frags, n);
    CutDrops([], frags, n);
    var at := Offset(frags, Complete(frags, n));
    assert have[at..] == w[at..n];
    assert have[at..] + rest == (have + rest)[at..];
  }

  lemma {:induction false} ConcatSplits(frags: seq<ByteString>, k: nat)
    requires k <= |frags|
    ensures Concat(frags) == Concat(frags[..k]) + Concat(frags[k..])
    decreases k
  {
    if k == 0 {
      assert frags[0..] == frags;
    } else {
      ConcatSplits(frags[1..], k - 1);
      assert frags[..k][1..] == frags[1..][..k - 1];
      assert frags[1..][k - 1..] == frags[k..];
      assert frags[0] + (Concat(frags[1..][..k - 1]) + Concat(frags[k..])) ==
             (frags[0] + Concat(frags[1..][..k - 1])) + Concat(frags[k..]);
    }
  }

  /** The bytes of the record that have arrived before the chunk that completes it. */
  function LastBoundary(arrived: nat, chunks: seq<ByteString>, total: nat): nat
    decreases |chunks|
  {
    if chunks == [] || arrived + |chunks[0]| >= total then arrived
    else LastBoundary(arrived + |chunks[0]|, chunks[1..], total)
  }

  lemma {:induction false} CompleteSplits(frags: seq<ByteString>, k: nat, n: nat)
    requires k <= |frags|
    ensures Complete(frags, Offset(frags, k) + n) == k + Complete(frags[k..], n)
    decreases k
  {
    if k == 0 {
      assert frags[0..] == frags;
    } else {
      CompleteSplits(frags[1..], k - 1, n);
      assert frags[1..][k - 1..] == frags[k..];
    }
  }

  lemma {:induction false} LastBoundaryShifts(arrived: nat, chunks: seq<ByteString>, total: nat, shift: nat)
    requires shift <= arrived && shift <= total
    ensures LastBoundary(arrived, chunks, total) >= shift
    ensures LastBoundary(arrived - shift, chunks, total - shift) == LastBoundary(arrived, chunks, total) - shift
    decreases |chunks|
  {
    if chunks != [] && arrived + |chunks[0]| < total {
      LastBoundaryShifts(arrived + |chunks[0]|, chunks[1..], total, shift);
    }
  }

  // ------------------------------------------------------------ a stream of records of several fragments

  type Fragments = seq<ByteString>

  predicate Sendable(records: seq<Fragments>)
  {
    forall i :: 0 <= i < |records| ==> records[i] != [] && AllFit(records[i])
  }

  function StreamOf(records: seq<Fragments>): ByteString
    requires Sendable(records)
  {
    if records == [] then [] else Whole(records[0]) + StreamOf(records[1..])
  }

  /** Where record `i` starts in the stream. */
  function StartOf(records: seq<Fragments>, i: nat): nat
    requires Sendable(records) && i <= |records|
    decreases i
  {
    if i == 0 then 0 else |Whole(records[0])| + StartOf(records[1..], i - 1)
  }

  /** The records held in full, joined. */
  function Joined(records: seq<Fragments>, m: nat): (data: seq<ByteString>)
    requires m <= |records|
    ensures |data| == m
  {
    seq(m, i requires 0 <= i < m => Concat(records[i]))
  }

  /** What is still to come when `m` records and the first `k` fragments of the next are gone. */
  function RemainingAt(records: seq<Fragments>, m: nat, k: nat): seq<Fragments>
    requires m < |records| && k < |records[m]|
  {
    [records[m][k..]] + records[m + 1..]
  }

  function TakenAt(records: seq<Fragments>, m: nat, k: nat): nat
    requires Sendable(records) && m < |records| && k < |records[m]|
  {
    StartOf(records, m) + Offset(records[m], k)
  }

  /** After `n` bytes the decoder is behind `m` records and `k` fragments of the next. */
  predicate CutAt(records: seq<Fragments>, n: nat, m: nat, k: nat)
    requires Sendable(records)
  {
    && m < |records| && k < |records[m]| && StartOf(records, m) <= n < StartOf(records, m + 1)
    && k == Complete(records[m], n - StartOf(records, m))
    && TakenAt(records, m, k) <= n < TakenAt(records, m, k) + 4 + |records[m][k]|
    && Offset(records[m], k) <= |Whole(records[m])|
    && |Whole(records[m][k..])| == |Whole(records[m])| - Offset(records[m], k)
  }

  /** A cut within the first record. */
  lemma CutInFirstRecord(records: seq<Fragments>, n: nat)
    requires Sendable(records) && records != [] && n < |Whole(records[0])|
    ensures CutAt(records, n, 0, Complete(records[0], n))
  {
    CutPlace(records[0], n);
    assert StartOf(records, 1) == |Whole(records[0])| + StartOf(records[1..], 0);
  }

  /** A cut of the later records is a cut of all. */
  lemma CutShifts(records: seq<Fragments>, n: nat, m: nat, k: nat)
    requires Sendable(records) && records != [] && CutAt(records[1..], n, m, k)
    ensures CutAt(records, |Whole(records[0])| + n, m + 1, k)
    ensures TakenAt(records, m + 1, k) == |Whole(records[0])| + TakenAt(records[1..], m, k)
    ensures RemainingAt(records, m + 1, k) == RemainingAt(records[1..], m, k)
  {
    assert records[1..][m] == records[m + 1];
    assert StartOf(records, m + 1) == |Whole(records[0])| + StartOf(records[1..], m);
    assert StartOf(records, m + 2) == |Whole(records[0])| + StartOf(records[1..], m + 1);
    assert records[1..][m + 1..] == records[m + 2..];
  }

  lemma CutSendable(records: seq<Fragments>, n: nat, m: nat, k: nat)
    requires Sendable(records) && CutAt(records, n, m, k)
    ensures Sendable(RemainingAt(records, m, k))
    ensures n - TakenAt(records, m, k) < 4 + |RemainingAt(records, m, k)[0][0]|
  {
    var frags := records[m][k..];
    assert frags[0] == records[m][k];
    forall i | 0 <= i < |frags| ensures Fits(frags[i]) {
      assert frags[i] == records[m][k + i];
    }
  }

  /** The part of `w + more` behind `have`, when `have` ends in `w`. */
  lemma BehindPart(w: ByteString, more: ByteString, have: ByteString, rest: ByteString)
    requires have + rest == w + more && |have| < |w|
    ensures have + w[|have|..] == w && rest == w[|have|..] + more && w[|have|..] != []
  {
    FrontOf(w, more, have, rest);
    assert rest == (have + rest)[|have|..];
    assert w[|have|..] + more == (w + more)[|have|..];
    assert w == w[..|have|] + w[|have|..];
  }

  lemma DrainsPartOfRecord(frags: Fragments, have: ByteString, rest: ByteString, more: ByteString)
    requires frags != [] && AllFit(frags) && have + rest == Whole(frags) + more && |have| < |Whole(frags)|
    ensures var k := Complete(frags, |have|);
            && k < |frags| && Offset(frags, k) <= |have|
            && Drain(have) == Delivery([], have[Offset(frags, k)..], false)
            && have[Offset(frags, k)..] + rest == Whole(frags[k..]) + more
  {
    BehindPart(Whole(frags), more, have, rest);
    var part := Whole(frags)[|have|..];
    ChunkDrops(frags, have, part);
    Rejoin(have[Offset(frags, Complete(frags, |have|))..], part, more);
  }

  lemma Rejoin(a: ByteString, b: ByteString, c: ByteString)
    ensures a + (b + c) == (a + b) + c
  {
  }

  lemma DrainsWholeRecord(frags: Fragments, left: ByteString)
    requires frags != [] && AllFit(frags)
    ensures Drain(Whole(frags) + left) ==
            Delivery([Concat(frags)] + Drain(left).records, Drain(left).rest, Drain(left).failed)
  {
    WholeDecodes([], frags, left);
    assert [] + Concat(frags) == Concat(frags);
    DrainsRecord(Whole(frags) + left, Concat(frags), left);
  }

  /** What a drained buffer leaves to do, at a cut. */
  ghost predicate DrainedTo(records: seq<Fragments>, have: ByteString, rest: ByteString, m: nat, k: nat)
    requires Sendable(records)
  {
    && CutAt(records, |have|, m, k) && Sendable(RemainingAt(records, m, k))
    && !Drain(have).failed && Drain(have).records == Joined(records, m)
    && |Drain(have).rest| == |have| - TakenAt(records, m, k)
    && Drain(have).rest + rest == StreamOf(RemainingAt(records, m, k))
  }

  lemma JoinedStepsOver(records: seq<Fragments>, m: nat)
    requires records != [] && m <= |records[1..]|
    ensures [Concat(records[0])] + Joined(records[1..], m) == Joined(records, m + 1)
  {
  }

  lemma DrainStepsOver(records: seq<Fragments>, have: ByteString, rest: ByteString, left: ByteString, m: nat, k: nat)
    requires Sendable(records) && records != [] && have == Whole(records[0]) + left
    requires DrainedTo(records[1..], left, rest, m, k)
    ensures DrainedTo(records, have, rest, m + 1, k)
  {
    CutShifts(records, |left|, m, k);
    DrainsWholeRecord(records[0], left);
    JoinedStepsOver(records, m);
  }

  lemma DrainsPart(records: seq<Fragments>, have: ByteString, rest: ByteString)
    requires Sendable(records) && records != [] && have + rest == StreamOf(records) && |have| < |Whole(records[0])|
    ensures DrainedTo(records, have, rest, 0, Complete(records[0], |have|))
  {
    var k, more := Complete(records[0], |have|), StreamOf(records[1..]);
    CutInFirstRecord(records, |have|);
    CutSendable(records, |have|, 0, k);
    DrainsPartOfRecord(records[0], have, rest, more);
    var r := RemainingAt(records, 0, k);
    assert r[1..] == records[1..];
  }

  /**
    Whatever part of the stream has arrived: the whole records come out, and the decoder
    has dropped what else it took.
   */
  lemma {:induction false} DrainsStream(records: seq<Fragments>, have: ByteString, rest: ByteString)
    returns (m: nat, k: nat)
    requires Sendable(records) && have + rest == StreamOf(records)
    ensures m <= |records|
    ensures m == |records| ==>
              rest == [] && Drain(have) == Delivery(Joined(records, m), [], false) && StartOf(records, m) == |have|
    ensures m < |records| ==> DrainedTo(records, have, rest, m, k)
    decreases |records|
  {
    m, k := 0, 0;
    if records == [] {
      assert have == [] && rest == [];
      assert Drain([]) == Delivery([], [], false);
    } else if |have| < |Whole(records[0])| {
      k := Complete(records[0], |have|);
      DrainsPart(records, have, rest);
    } else {
      var w := Whole(records[0]);
      FrontOf(w, StreamOf(records[1..]), have, rest);
      var left := have[|w|..];
      m, k := DrainsStream(records[1..], left, rest);
      if m < |records[1..]| {
        DrainStepsOver(records, have, rest, left, m, k);
      } else {
        DrainsWholeRecord(records[0], left);
        JoinedStepsOver(records, m);
      }
      m := m + 1;
    }
  }

  // ------------------------------------------------------------ which fragments survive

  /**
    The fragments lost of a record that stands from `start` to `end`: those
    complete before the chunk that completes it, as `have` bytes have arrived and
    `chunks` come.
   */
  function LostBetween(frags: Fragments, start: nat, end: nat, have: nat, chunks: seq<ByteString>): (k: nat)
    ensures k <= |frags|
  {
    var before := LastBoundary(have, chunks, end);
    if before <= start then 0 else Complete(frags, before - start)
  }

  /** The fragments lost of record `i` of the stream. */
  function LostOf(records: seq<Fragments>, i: nat, have: nat, chunks: seq<ByteString>): (k: nat)
    requires Sendable(records) && i < |records|
    ensures k <= |records[i]|
  {
    LostBetween(records[i], StartOf(records, i), StartOf(records, i + 1), have, chunks)
  }

  function Survivors(records: seq<Fragments>, have: nat, chunks: seq<ByteString>): (data: seq<ByteString>)
    requires Sendable(records)
    ensures |data| == |records|
  {
    seq(|records|, i requires 0 <= i < |records| => Concat(records[i][LostOf(records, i, have, chunks)..]))
  }

  lemma {:induction false} StartOfRises(records: seq<Fragments>, i: nat, j: nat)
    requires Sendable(records) && i < j <= |records|
    ensures StartOf(records, i) + |Whole(records[i])| <= StartOf(records, j)
    ensures StartOf(records, i) + |Whole(records[i])| == StartOf(records, i + 1)
    decreases i
  {
    if i > 0 {
      StartOfRises(records[1..], i - 1, j - 1);
    } else if j > 1 {
      assert StartOf(records, 1) == |Whole(records[0])| + StartOf(records[1..], 0);
    }
  }

  lemma {:induction false} StartOfSplits(records: seq<Fragments>, m: nat, i: nat)
    requires Sendable(records) && m <= i <= |records|
    ensures StartOf(records, i) == StartOf(records, m) + StartOf(records[m..], i - m)
    decreases m
  {
    if m == 0 {
      assert records[0..] == records;
    } else {
      StartOfSplits(records[1..], m - 1, i - 1);
      assert records[1..][m - 1..] == records[m..];
    }
  }

  /** Records that a chunk completes lose nothing, when no fragment was complete before it. */
  lemma CompletedLoseNothing(records: seq<Fragments>, i: nat, have: nat, chunks: seq<ByteString>)
    requires Sendable(records) && chunks != [] && i < |records| && have < 4 + |records[0][0]|
    requires StartOf(records, i + 1) <= have + |chunks[0]|
    ensures LostOf(records, i, have, chunks) == 0
  {
    WholeHasFirst(records[0]);
    if i > 0 {
      StartOfRises(records, 0, i);
    }
  }

  /** Where a record starts behind another. */
  lemma StartBehind(records: seq<Fragments>, m: nat, j: nat)
    requires Sendable(records) && 0 < j <= |records| - m
    ensures StartOf(records, m + j) == StartOf(records, m) + |Whole(records[m])| + StartOf(records[m + 1..], j - 1)
  {
    StartOfRises(records, m, m + 1);
    StartOfSplits(records, m + 1, m + j);
  }

  lemma StartWithin(first: Fragments, others: seq<Fragments>, j: nat)
    requires first != [] && Sendable([first] + others) && 0 < j <= 1 + |others|
    ensures Sendable(others) && StartOf([first] + others, j) == |Whole(first)| + StartOf(others, j - 1)
  {
    var r := [first] + others;
    assert r[1..] == others;
    forall i | 0 <= i < |others| ensures others[i] != [] && AllFit(others[i]) {
      assert others[i] == r[1 + i];
    }
  }

  /** Where record `m + j` of the stream starts in what remains of it. */
  lemma RemainingStarts(records: seq<Fragments>, n: nat, m: nat, k: nat, j: nat)
    requires Sendable(records) && CutAt(records, n, m, k) && 0 < j <= |records| - m
    ensures Sendable(RemainingAt(records, m, k)) && |RemainingAt(records, m, k)| == |records| - m
    ensures StartOf(RemainingAt(records, m, k), j) + TakenAt(records, m, k) == StartOf(records, m + j)
  {
    CutSendable(records, n, m, k);
    StartBehind(records, m, j);
    StartWithin(records[m][k..], records[m + 1..], j);
  }

  lemma {:induction false} LastBoundaryAtLeast(arrived: nat, chunks: seq<ByteString>, total: nat)
    ensures LastBoundary(arrived, chunks, total) >= arrived
    decreases |chunks|
  {
    if chunks != [] && arrived + |chunks[0]| < total {
      LastBoundaryAtLeast(arrived + |chunks[0]|, chunks[1..], total);
    }
  }

  /** The last boundary before a later end, counted from where the decoder stands. */
  lemma BoundaryGoesOn(have: nat, chunks: seq<ByteString>, end: nat, taken: nat)
    requires chunks != [] && taken <= have + |chunks[0]| < end
    ensures LastBoundary(have, chunks, end) >= have + |chunks[0]|
    ensures LastBoundary(have + |chunks[0]| - taken, chunks[1..], end - taken) ==
            LastBoundary(have, chunks, end) - taken
  {
    var n := have + |chunks[0]|;
    LastBoundaryShifts(n, chunks[1..], end, taken);
    LastBoundaryAtLeast(n, chunks[1..], end);
  }

  /** A record behind the cut loses of the rest of the stream what it loses of all. */
  lemma LaterLost(frags: Fragments, start: nat, end: nat, have: nat, chunks: seq<ByteString>, taken: nat)
    requires chunks != [] && taken <= have + |chunks[0]| < end && taken <= start
    ensures LostBetween(frags, start, end, have, chunks) ==
            LostBetween(frags, start - taken, end - taken, have + |chunks[0]| - taken, chunks[1..])
  {
    BoundaryGoesOn(have, chunks, end, taken);
  }

  /** The record the chunk cuts has lost `k` fragments, and loses the others as what remains does. */
  lemma CutRecordLoses(frags: Fragments, start: nat, end: nat, have: nat, chunks: seq<ByteString>, k: nat, taken: nat)
    requires chunks != [] && k <= |frags| && taken == start + Offset(frags, k) && taken <= have + |chunks[0]| < end
    ensures var later := LostBetween(frags[k..], 0, end - taken, have + |chunks[0]| - taken, chunks[1..]);
            LostBetween(frags, start, end, have, chunks) == k + later
  {
    BoundaryGoesOn(have, chunks, end, taken);
    var before := LastBoundary(have, chunks, end);
    CompleteSplits(frags, k, before - taken);
    assert Complete(frags[k..], 0) == 0;
    var later := LostBetween(frags[k..], 0, end - taken, have + |chunks[0]| - taken, chunks[1..]);
    assert later == Complete(frags[k..], before - taken);
    assert k == 0 || Offset(frags, k) >= 4;
  }

  lemma SuffixOfSuffix(frags: Fragments, k: nat, l: nat)
    requires k <= |frags| && l <= |frags[k..]|
    ensures frags[k..][l..] == frags[k + l..]
  {
  }

  /**
    A chunk is through: the record it cuts loses of the rest of the stream what it loses
    of all, but for the dropped fragments.
   */
  lemma CutGoesOn(records: seq<Fragments>, m: nat, k: nat, have: nat, chunks: seq<ByteString>)
    requires Sendable(records) && chunks != [] && CutAt(records, have + |chunks[0]|, m, k)
    ensures var r := RemainingAt(records, m, k);
            && Sendable(r) && r[0] == records[m][k..]
            && LostOf(records, m, have, chunks) ==
               k + LostOf(r, 0, have + |chunks[0]| - TakenAt(records, m, k), chunks[1..])
  {
    var n, r, taken := have + |chunks[0]|, RemainingAt(records, m, k), TakenAt(records, m, k);
    RemainingStarts(records, n, m, k, 1);
    assert StartOf(r, 0) == 0 && StartOf(r, 0 + 1) == StartOf(records, m + 1) - taken;
    CutRecordLoses(records[m], StartOf(records, m), StartOf(records, m + 1), have, chunks, k, taken);
  }

  /** So it is for a later record. */
  lemma LaterGoesOn(records: seq<Fragments>, m: nat, k: nat, j: nat, have: nat, chunks: seq<ByteString>)
    requires Sendable(records) && chunks != [] && CutAt(records, have + |chunks[0]|, m, k) && j > 0 && m + j < |records|
    ensures var r := RemainingAt(records, m, k);
            && Sendable(r) && j < |r| && r[j] == records[m + j]
            && LostOf(records, m + j, have, chunks) ==
               LostOf(r, j, have + |chunks[0]| - TakenAt(records, m, k), chunks[1..])
  {
    var n := have + |chunks[0]|;
    RemainingStarts(records, n, m, k, j);
    RemainingStarts(records, n, m, k, j + 1);
    EndsLater(records, n, m, k, j);
    LaterLost(records[m + j], StartOf(records, m + j), StartOf(records, m + j + 1), have, chunks,
              TakenAt(records, m, k));
  }

  lemma EndsLater(records: seq<Fragments>, n: nat, m: nat, k: nat, j: nat)
    requires Sendable(records) && CutAt(records, n, m, k) && m + j < |records|
    ensures StartOf(records, m + j + 1) > n
    ensures j > 0 ==> StartOf(records, m + j) > n
  {
    if j > 0 {
      StartOfRises(records, m, m + j);
      StartOfRises(records, m, m + j + 1);
    }
  }

  /** What one record keeps of the stream is what it keeps of the rest of it. */
  lemma SurvivorGoesOn(records: seq<Fragments>, m: nat, k: nat, j: nat, have: nat, chunks: seq<ByteString>)
    requires Sendable(records) && chunks != [] && CutAt(records, have + |chunks[0]|, m, k) && m + j < |records|
    ensures var r := RemainingAt(records, m, k);
            && Sendable(r) && j < |r|
            && Concat(records[m + j][LostOf(records, m + j, have, chunks)..])
               == Concat(r[j][LostOf(r, j, have + |chunks[0]| - TakenAt(records, m, k), chunks[1..])..])
  {
    if j == 0 {
      CutGoesOn(records, m, k, have, chunks);
      SuffixOfSuffix(records[m], k,
                     LostOf(RemainingAt(records, m, k), 0, have + |chunks[0]| - TakenAt(records, m, k), chunks[1..]));
    } else {
      LaterGoesOn(records, m, k, j, have, chunks);
    }
  }

  /** What is kept of the records from number `m` on. */
  lemma LaterSurvivors(records: seq<Fragments>, m: nat, k: nat, have: nat, chunks: seq<ByteString>)
    requires Sendable(records) && chunks != [] && CutAt(records, have + |chunks[0]|, m, k)
    ensures Sendable(RemainingAt(records, m, k))
    ensures Survivors(records, have, chunks)[m..] ==
            Survivors(RemainingAt(records, m, k), have + |chunks[0]| - TakenAt(records, m, k), chunks[1..])
  {
    RemainingStarts(records, have + |chunks[0]|, m, k, 1);
    var all := Survivors(records, have, chunks);
    var later := Survivors(RemainingAt(records, m, k), have + |chunks[0]| - TakenAt(records, m, k), chunks[1..]);
    var tail := all[m..];
    forall j | 0 <= j < |tail| ensures tail[j] == later[j] {
      SurvivorGoesOn(records, m, k, j, have, chunks);
    }
  }

  /** What is kept of the records a chunk completes: all of it. */
  lemma EarlierSurvivors(records: seq<Fragments>, m: nat, have: nat, chunks: seq<ByteString>)
    requires Sendable(records) && chunks != [] && m <= |records| && (records != [] ==> have < 4 + |records[0][0]|)
    requires StartOf(records, m) <= have + |chunks[0]|
    ensures Survivors(records, have, chunks)[..m] == Joined(records, m)
  {
    var all := Survivors(records, have, chunks);
    forall i | 0 <= i < m ensures all[i] == Concat(records[i]) {
      StartOfRises(records, i, m);
      CompletedLoseNothing(records, i, have, chunks);
      assert records[i][0..] == records[i];
    }
  }

  lemma SessionJoins(buf: ByteString, chunks: seq<ByteString>, d: Delivery)
    requires chunks != [] && Drain(buf + chunks[0]) == d && !d.failed
    ensures var more := Session(d.rest, chunks[1..]);
            Session(buf, chunks) == Delivery(d.records + more.records, more.rest, more.failed)
  {
  }

  /** The stream ends with a chunk. */
  lemma StreamEnds(records: seq<Fragments>, buf: ByteString, chunks: seq<ByteString>)
    requires Sendable(records) && chunks != [] && (records != [] ==> |buf| < 4 + |records[0][0]|)
    requires Concat(chunks[1..]) == [] && StartOf(records, |records|) == |buf| + |chunks[0]|
    requires Drain(buf + chunks[0]) == Delivery(Joined(records, |records|), [], false)
    ensures Session(buf, chunks) == Delivery(Survivors(records, |buf|, chunks), [], false)
  {
    EarlierSurvivors(records, |records|, |buf|, chunks);
    assert Survivors(records, |buf|, chunks)[..|records|] == Survivors(records, |buf|, chunks);
    EmptyChunksDeliverNothing([], chunks[1..]);
    SessionJoins(buf, chunks, Drain(buf + chunks[0]));
  }

  lemma SurvivorsJoin(records: seq<Fragments>, m: nat, k: nat, have: nat, chunks: seq<ByteString>)
    requires Sendable(records) && chunks != [] && CutAt(records, have + |chunks[0]|, m, k) && have < 4 + |records[0][0]|
    ensures Sendable(RemainingAt(records, m, k))
    ensures Survivors(records, have, chunks) ==
            Joined(records, m) +
            Survivors(RemainingAt(records, m, k), have + |chunks[0]| - TakenAt(records, m, k), chunks[1..])
  {
    var all := Survivors(records, have, chunks);
    EarlierSurvivors(records, m, have, chunks);
    LaterSurvivors(records, m, k, have, chunks);
    assert all == all[..m] + all[m..];
  }

  /** The stream goes on behind a chunk. */
  lemma JoinDelivery(buf: ByteString, chunks: seq<ByteString>, left: ByteString, first: seq<ByteString>,
                     later: seq<ByteString>)
    requires chunks != [] && Drain(buf + chunks[0]) == Delivery(first, left, false)
    requires Session(left, chunks[1..]) == Delivery(later, [], false)
    ensures Session(buf, chunks) == Delivery(first + later, [], false)
  {
  }

  /**
    However a stream of records of several fragments arrives, as many records are
    delivered, in order, and record `i` is what is left of it after the fragments
    that were complete before the chunk that completed it.
   */
  lemma {:induction false} StreamDelivers(records: seq<Fragments>, buf: ByteString, chunks: seq<ByteString>)
    requires Sendable(records) && buf + Concat(chunks) == StreamOf(records)
    requires records != [] ==> |buf| < 4 + |records[0][0]|
    ensures Session(buf, chunks) == Delivery(Survivors(records, |buf|, chunks), [], false)
    decreases |chunks|
  {
    if chunks == [] {
      assert buf + [] == buf;
      if records != [] {
        WholeHasFirst(records[0]);
      }
      assert buf == [];
    } else {
      var have, rest := buf + chunks[0], Concat(chunks[1..]);
      assert have + rest == StreamOf(records);
      var m, k := DrainsStream(records, have, rest);
      if m == |records| {
        StreamEnds(records, buf, chunks);
      } else {
        CutSendable(records, |have|, m, k);
        StreamDelivers(RemainingAt(records, m, k), Drain(have).rest, chunks[1..]);
        SurvivorsJoin(records, m, k, |buf|, chunks);
        JoinDelivery(buf, chunks, Drain(have).rest, Joined(records, m),
                     Survivors(RemainingAt(records, m, k), |Drain(have).rest|, chunks[1..]));
      }
    }
  }

  /**
    Record `i` of a stream is delivered whole exactly when the fragments complete before
    its last chunk held no data.
   */
  lemma StreamDeliversWholeIff(records: seq<Fragments>, chunks: seq<ByteString>, i: nat)
    requires Sendable(records) && Concat(chunks) == StreamOf(records) && i < |records|
    ensures |Session([], chunks).records| == |records|
    ensures Session([], chunks).records[i] == Concat(records[i]) <==>
            Concat(records[i][..LostOf(records, i, 0, chunks)]) == []
  {
    assert [] + Concat(chunks) == Concat(chunks);
    StreamDelivers(records, [], chunks);
    SuffixIsAllIff(records[i], LostOf(records, i, 0, chunks));
  }

  /** Leaving out the first fragments leaves the same data exactly when they held none. */
  lemma SuffixIsAllIff(frags: Fragments, k: nat)
    requires k <= |frags|
    ensures Concat(frags[k..]) == Concat(frags) <==> Concat(frags[..k]) == []
  {
    ConcatSplits(frags, k);
    if Concat(frags[..k]) == [] {
      assert [] + Concat(frags[k..]) == Concat(frags[k..]);
    }
  }

  lemma TwoFragments(a: ByteString, b: ByteString)
    ensures Whole([a, b]) == Frame(a, false) + Frame(b, true)
    ensures Concat([a, b]) == a + b && Concat([b]) == b
    ensures Complete([a, b], 4 + |a|) == 1
  {
    assert [a, b][1..] == [b] && [b][1..] == [];
    assert Concat([b]) == b + [];
    assert b + [] == b;
  }

  /** Two fragments, the second a chunk later: the first is lost. */
  lemma SplitRecordLosesData(a: ByteString, b: ByteString)
    requires Fits(a) && Fits(b)
    ensures Session([], [Frame(a, false), Frame(b, true)]).records == [b]
  {
    var records, chunks := [[a, b]], [Frame(a, false), Frame(b, true)];
    TwoFragments(a, b);
    TwoFragments(Frame(a, false), Frame(b, true));
    assert records[1..] == [] && StreamOf(records) == Whole([a, b]) + StreamOf([]);
    assert [] + Concat(chunks) == StreamOf(records);
    StreamDelivers(records, [], chunks);
    assert StartOf(records, 1) == |Whole([a, b])| + StartOf(records[1..], 0);
    assert LastBoundary(0, chunks, |Whole([a, b])|) == LastBoundary(4 + |a|, chunks[1..], |Whole([a, b])|);
    assert LastBoundary(4 + |a|, chunks[1..], |Whole([a, b])|) == 4 + |a|;
    assert LostOf(records, 0, 0, chunks) == 1;
    assert records[0][1..] == [b];
  }
}
