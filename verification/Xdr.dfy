/**
  The XDR encoding: a schema per type the serialisation framework can describe,
  values of it, the encoder and the decoder.  An enum or union is tagged by the
  position of its variant.  The decoder reads from the front of its input and
  hands back what it did not read.  `Ref` names another schema; by itself it has
  no values (see the recursive schemas for what it stands for).
 */
module Xdr {
  import opened Wrappers
  import opened Bytes

  datatype Schema =
    | Bool
    | Unsigned(bytes: nat)       // u8, u16, u32: 1, 2 or 4 bytes, sent as one word
    | Signed(bytes: nat)         // i8, i16, i32: likewise
    | Char
    | Hyper                      // u64
    | SignedHyper                // i64
    | Opaque                     // opaque<> and strings
    | Fixed(len: nat)            // opaque[len]
    | Optional(elem: Schema)
    | Array(elem: Schema)        // variable length
    | Struct(fields: seq<Schema>)
    | Union(variants: seq<Schema>)
    | Ref(name: string)

  datatype Value =
    | Flag(flag: bool)
    | Number(number: int)
    | Data(data: ByteString)
    | Absent
    | Present(value: Value)
    | Items(items: seq<Value>)
    | Variant(index: nat, body: Value)

  /** Half the range of a signed number of so many bytes. */
  function Half(bytes: nat): int { if bytes == 1 then 0x80 else if bytes == 2 then 0x8000 else 0x8000_0000 }

  predicate UnsignedFits(n: int, bytes: nat) { 0 <= n < 2 * Half(bytes) }

  predicate SignedFits(n: int, bytes: nat) { -Half(bytes) <= n < Half(bytes) }

  /** A Unicode scalar value. */
  predicate IsChar(n: int) { 0 <= n < 0xD800 || 0xE000 <= n <= 0x10_FFFF }

  /** Two's complement of `n` in a space of `limit` numbers, and back. */
  function ToUnsigned(n: int, limit: nat): int { if n < 0 then n + limit else n }

  function ToSigned(n: int, limit: nat): int { if 2 * n >= limit then n - limit else n }

  // ------------------------------------------------------------ encoding

  function PutWord(n: nat): ByteString { BigEndian(n, 4) }

  function PutOpaque(data: ByteString): (r: Option<ByteString>)
  {
    if |data| < WORD_LIMIT then Some(PutWord(|data|) + data + Zeros(Padding(|data|))) else None
  }

  /** Fixed-length opaque data, one word per block of four bytes. */
  function PutBlocks(data: ByteString): ByteString
  {
    if |data| == 0 then []
    else if |data| < 4 then PutWord(Bytes.Value(data + Zeros(4 - |data|)))
    else PutWord(Bytes.Value(data[..4])) + PutBlocks(data[4..])
  }

  function PutNumber(s: Schema, n: int): Option<ByteString>
  {
    match s
    case Unsigned(w) => if UnsignedFits(n, w) then Some(PutWord(n)) else None
    case Signed(w) => if SignedFits(n, w) then Some(PutWord(ToUnsigned(n, WORD_LIMIT))) else None
    case Char => if IsChar(n) then Some(PutWord(n)) else None
    case Hyper => if 0 <= n < HYPER_LIMIT then Some(BigEndian(n, 8)) else None
    case SignedHyper =>
      if -HYPER_LIMIT <= 2 * n < HYPER_LIMIT then Some(BigEndian(ToUnsigned(n, HYPER_LIMIT), 8)) else None
    case _ => None
  }

  function Prefixed(head: ByteString, tail: Option<ByteString>): Option<ByteString>
  {
    if tail.Some? then Some(head + tail.value) else None
  }

  /** The bytes of `v`, or nothing when it is not of the type or too long to encode. */
  function Encode(s: Schema, v: Value): Option<ByteString>
    decreases s, 2, 0
  {
    match v
    case Flag(b) => if s.Bool? then Some(PutWord(if b then 1 else 0)) else None
    case Number(n) => PutNumber(s, n)
    case Data(d) =>
      if s.Opaque? then PutOpaque(d)
      else if s.Fixed? && |d| == s.len then Some(PutBlocks(d))
      else None
    case Absent => if s.Optional? then Some(PutWord(0)) else None
    case Present(x) => if s.Optional? then Prefixed(PutWord(1), Encode(s.elem, x)) else None
    case Items(xs) =>
      if s.Array? then if |xs| < WORD_LIMIT then Prefixed(PutWord(|xs|), WriteMany(ItemWriter(s.elem), 0, xs)) else None
      else if s.Struct? && |xs| == |s.fields| then WriteMany(FieldWriter(s), 0, xs)
      else None
    case Variant(i, x) =>
      if s.Union? && i < |s.variants| && i < WORD_LIMIT then Prefixed(PutWord(i), Encode(s.variants[i], x)) else None
  }

  function ItemWriter(elem: Schema): (nat, Value) -> Option<ByteString>
    decreases elem, 3, 0
  {
    (i: nat, x: Value) => Encode(elem, x)
  }

  function FieldWriter(s: Schema): (nat, Value) -> Option<ByteString>
    requires s.Struct?
    decreases s, 1, 0
  {
    (i: nat, x: Value) => if i < |s.fields| then Encode(s.fields[i], x) else None
  }

  /** The elements of an array or the fields of a struct, from number `i` on. */
  function WriteMany(write: (nat, Value) -> Option<ByteString>, i: nat, xs: seq<Value>): Option<ByteString>
    decreases |xs|
  {
    if xs == [] then Some([])
    else
      var head := write(i, xs[0]);
      if head.None? then None else Prefixed(head.value, WriteMany(write, i + 1, xs[1..]))
  }

  // ------------------------------------------------------------ decoding

  /** A decoded value and the bytes after it. */
  datatype Read<T> = Read(got: T, rest: ByteString)

  function GetNumber(b: ByteString, width: nat): Option<Read<nat>>
  {
    if |b| < width then None else Some(Read(Bytes.Value(b[..width]), b[width..]))
  }

  function GetWord(b: ByteString): Option<Read<nat>> { GetNumber(b, 4) }

  /** The padding bytes are read but not looked at. */
  function GetOpaque(b: ByteString): Option<Read<ByteString>>
  {
    var len := GetWord(b);
    if len.None? then None else Split(len.value.rest, len.value.got)
  }

  function Split(b: ByteString, len: nat): Option<Read<ByteString>>
  {
    if |b| < len + Padding(len) then None else Some(Read(b[..len], b[len + Padding(len)..]))
  }

  function GetBlocks(len: nat, b: ByteString): Option<Read<ByteString>>
    decreases len
  {
    if len == 0 then Some(Read([], b))
    else
      var word := GetWord(b);
      if word.None? then None
      else if len < 4 then Some(Read(BigEndian(word.value.got, 4)[..len], word.value.rest))
      else
        var more := GetBlocks(len - 4, word.value.rest);
        if more.None? then None else Some(Read(BigEndian(word.value.got, 4) + more.value.got, more.value.rest))
  }

  function AsNumber(ok: bool, n: int, rest: ByteString): Option<Read<Value>>
  {
    if ok then Some(Read(Number(n), rest)) else None
  }

  function Number32(s: Schema, b: ByteString): Option<Read<Value>>
  {
    var word := GetWord(b);
    if word.None? then None
    else
      var n, rest := word.value.got, word.value.rest;
      match s
      case Unsigned(w) => AsNumber(UnsignedFits(n, w), n, rest)
      case Signed(w) => AsNumber(SignedFits(ToSigned(n, WORD_LIMIT), w), ToSigned(n, WORD_LIMIT), rest)
      case Char => AsNumber(IsChar(n), n, rest)
      case _ => None
  }

  function Number64(s: Schema, b: ByteString): Option<Read<Value>>
  {
    var hyper := GetNumber(b, 8);
    if hyper.None? then None
    else Some(Read(Number(if s.Hyper? then hyper.value.got else ToSigned(hyper.value.got, HYPER_LIMIT)),
                   hyper.value.rest))
  }

  function AsData(r: Option<Read<ByteString>>): Option<Read<Value>>
  {
    if r.None? then None else Some(Read(Data(r.value.got), r.value.rest))
  }

  function AsItems(r: Option<Read<seq<Value>>>): Option<Read<Value>>
  {
    if r.None? then None else Some(Read(Items(r.value.got), r.value.rest))
  }

  function Decode(s: Schema, b: ByteString): Option<Read<Value>>
    decreases s, 2, 0
  {
    match s
    case Unsigned(_) => Number32(s, b)
    case Signed(_) => Number32(s, b)
    case Char => Number32(s, b)
    case Hyper => Number64(s, b)
    case SignedHyper => Number64(s, b)
    case Opaque => AsData(GetOpaque(b))
    case Fixed(len) => AsData(GetBlocks(len, b))
    case Struct(fields) => AsItems(ReadMany(FieldReader(s), 0, |fields|, b))
    case _ => DecodeTagged(s, GetWord(b))
  }

  /** The types that start with a word that says what follows. */
  function DecodeTagged(s: Schema, word: Option<Read<nat>>): Option<Read<Value>>
    decreases s, 1, 0
  {
    if word.None? then None
    else
      var n, rest := word.value.got, word.value.rest;
      match s
      case Bool => if n > 1 then None else Some(Read(Flag(n == 1), rest))
      case Optional(elem) =>
        if n == 0 then Some(Read(Absent, rest)) else if n == 1 then Wrapped(Decode(elem, rest)) else None
      case Array(elem) => AsItems(ReadMany(ItemReader(elem), 0, n, rest))
      case Union(variants) => if n < |variants| then Tagged(n, Decode(variants[n], rest)) else None
      case _ => None
  }

  function Wrapped(r: Option<Read<Value>>): Option<Read<Value>>
  {
    if r.None? then None else Some(Read(Present(r.value.got), r.value.rest))
  }

  function Tagged(n: nat, r: Option<Read<Value>>): Option<Read<Value>>
  {
    if r.None? then None else Some(Read(Variant(n, r.value.got), r.value.rest))
  }

  function ItemReader(elem: Schema): (nat, ByteString) -> Option<Read<Value>>
    decreases elem, 3, 0
  {
    (i: nat, b: ByteString) => Decode(elem, b)
  }

  function FieldReader(s: Schema): (nat, ByteString) -> Option<Read<Value>>
    requires s.Struct?
    decreases s, 1, 0
  {
    (i: nat, b: ByteString) => if i < |s.fields| then Decode(s.fields[i], b) else None
  }

  /** `Elements`: the values numbered `i` up to `n`, one after the other. */
  function ReadMany(read: (nat, ByteString) -> Option<Read<Value>>, i: nat, n: nat,
                    b: ByteString): Option<Read<seq<Value>>>
    requires i <= n
    decreases n - i
  {
    if i == n then Some(Read([], b))
    else
      var head := read(i, b);
      if head.None? then None else Cons(head.value.got, ReadMany(read, i + 1, n, head.value.rest))
  }

  function Cons<T>(x: T, r: Option<Read<seq<T>>>): Option<Read<seq<T>>>
  {
    if r.None? then None else Some(Read([x] + r.value.got, r.value.rest))
  }

  /** `xs` before whatever was read after them. */
  function Prepend<T>(xs: seq<T>, r: Option<Read<seq<T>>>): Option<Read<seq<T>>>
  {
    if r.None? then None else Some(Read(xs + r.value.got, r.value.rest))
  }

  lemma PrependNothing<T>(r: Option<Read<seq<T>>>)
    ensures Prepend([], r) == r
  {
    if r.Some? {
      assert [] + r.value.got == r.value.got;
    }
  }

  lemma PrependCons<T>(xs: seq<T>, x: T, r: Option<Read<seq<T>>>)
    ensures Prepend(xs, Cons(x, r)) == Prepend(xs + [x], r)
  {
    if r.Some? {
      assert xs + ([x] + r.value.got) == (xs + [x]) + r.value.got;
    }
  }

  // ------------------------------------------------------------ words, opaque data and blocks

  lemma NumberReads(n: nat, width: nat, rest: ByteString)
    requires n < Pow256(width)
    ensures GetNumber(BigEndian(n, width) + rest, width) == Some(Read(n, rest))
  {
    ValueOfBigEndian(n, width);
    var b := BigEndian(n, width) + rest;
    assert b[..width] == BigEndian(n, width) && b[width..] == rest;
  }

  lemma WordReads(n: nat, rest: ByteString)
    requires n < WORD_LIMIT
    ensures GetWord(PutWord(n) + rest) == Some(Read(n, rest))
  {
    Widths();
    NumberReads(n, 4, rest);
  }

  lemma SplitReads(data: ByteString, rest: ByteString)
    ensures Split(data + Zeros(Padding(|data|)) + rest, |data|) == Some(Read(data, rest))
  {
    var b := data + Zeros(Padding(|data|)) + rest;
    assert b[..|data|] == data && b[|data| + Padding(|data|)..] == rest;
  }

  lemma OpaqueReads(data: ByteString, rest: ByteString)
    requires |data| < WORD_LIMIT
    ensures PutOpaque(data).Some? && GetOpaque(PutOpaque(data).value + rest) == Some(Read(data, rest))
    ensures |PutOpaque(data).value| % 4 == 0
  {
    var tail := data + Zeros(Padding(|data|)) + rest;
    assert PutOpaque(data).value + rest == PutWord(|data|) + tail;
    WordReads(|data|, tail);
    SplitReads(data, rest);
    AddAligned(4, |data| + Padding(|data|));
  }

  /** Cutting data into words and writing the words is writing the data, padded. */
  lemma {:induction false} BlocksArePadded(data: ByteString)
    ensures PutBlocks(data) == data + Zeros(Padding(|data|))
    decreases |data|
  {
    if |data| < 4 {
      LastBlockIsPadded(data);
    } else {
      WordOfBytes(data[..4]);
      BlocksArePadded(data[4..]);
      FirstBlock(data);
    }
  }

  lemma WordOfBytes(word: ByteString)
    requires |word| == 4
    ensures PutWord(Bytes.Value(word)) == word
  {
    BigEndianOfValue(word);
  }

  lemma ShortPadding(n: nat)
    requires 0 < n < 4
    ensures Padding(n) == 4 - n
  {
  }

  lemma ShortBlock(data: ByteString, pad: nat)
    requires 0 < |data| < 4 && pad == 4 - |data|
    ensures PutBlocks(data) == data + Zeros(pad)
  {
    WordOfBytes(data + Zeros(pad));
  }

  lemma LastBlockIsPadded(data: ByteString)
    requires |data| < 4
    ensures PutBlocks(data) == data + Zeros(Padding(|data|))
  {
    if |data| > 0 {
      ShortPadding(|data|);
      ShortBlock(data, Padding(|data|));
    } else {
      assert data == [] && Padding(0) == 0;
      assert [] + Zeros(0) == [];
    }
  }

  lemma FirstBlock(data: ByteString)
    requires |data| >= 4
    ensures data[..4] + (data[4..] + Zeros(Padding(|data[4..]|))) == data + Zeros(Padding(|data|))
  {
    assert Padding(|data[4..]|) == Padding(|data|);
    assert data[..4] + data[4..] == data;
  }

  lemma GetWordBack(b: ByteString)
    requires |b| >= 4
    ensures GetWord(b).Some? && GetWord(b).value.rest == b[4..] && GetWord(b).value.got < WORD_LIMIT
    ensures BigEndian(GetWord(b).value.got, 4) == b[..4]
  {
    BigEndianOfValue(b[..4]);
    Widths();
    ValueBound(b[..4]);
  }

  /** Cutting off four bytes first makes no difference. */
  lemma SplitAfterWord(b: ByteString, len: nat)
    requires len >= 4 && |b| >= 4
    ensures Split(b[4..], len - 4).Some? <==> Split(b, len).Some?
    ensures Split(b, len).Some? ==>
              Split(b, len).value == Read(b[..4] + Split(b[4..], len - 4).value.got, Split(b[4..], len - 4).value.rest)
  {
    var c, p := b[4..], Padding(len);
    assert Padding(len - 4) == p;
    if |b| >= len + p {
      assert c[..len - 4] == b[4..len];
      assert c[len - 4 + p..] == b[len + p..];
      assert b[..4] + b[4..len] == b[..len];
    }
  }

  /** Reading blocks is cutting the data and its padding off the front. */
  lemma {:induction false} BlocksAreSplit(len: nat, b: ByteString)
    ensures GetBlocks(len, b) == Split(b, len)
    decreases len
  {
    if len > 0 && |b| >= 4 {
      GetWordBack(b);
      if len < 4 {
        assert b[..4][..len] == b[..len];
      } else {
        BlocksAreSplit(len - 4, b[4..]);
        SplitAfterWord(b, len);
      }
    }
  }

  // ------------------------------------------------------------ round trip

  lemma NumberRoundTrip(s: Schema, n: int, rest: ByteString)
    requires PutNumber(s, n).Some?
    ensures Decode(s, PutNumber(s, n).value + rest) == Some(Read(Number(n), rest))
  {
    Widths();
    match s
    case Signed(_) => WordReads(ToUnsigned(n, WORD_LIMIT), rest);
    case Hyper => NumberReads(n, 8, rest);
    case SignedHyper => NumberReads(ToUnsigned(n, HYPER_LIMIT), 8, rest);
    case Unsigned(_) => WordReads(n, rest);
    case Char => WordReads(n, rest);
    case _ =>
  }

  lemma DataRoundTrip(s: Schema, d: ByteString, rest: ByteString)
    requires Encode(s, Data(d)).Some?
    ensures Decode(s, Encode(s, Data(d)).value + rest) == Some(Read(Data(d), rest))
  {
    if s.Opaque? {
      OpaqueReads(d, rest);
    } else {
      BlocksArePadded(d);
      BlocksAreSplit(s.len, PutBlocks(d) + rest);
      SplitReads(d, rest);
    }
  }

  /** Writing `head` before `tail` only moves the word in front. */
  lemma TaggedReads(n: nat, body: ByteString, rest: ByteString)
    requires n < WORD_LIMIT
    ensures GetWord((PutWord(n) + body) + rest) == Some(Read(n, body + rest))
  {
    assert (PutWord(n) + body) + rest == PutWord(n) + (body + rest);
    WordReads(n, body + rest);
  }

  /** The body of an optional, a union or an array reads back: so does the whole. */
  lemma PresentReads(s: Schema, x: Value, rest: ByteString)
    requires s.Optional? && Encode(s.elem, x).Some?
    requires Decode(s.elem, Encode(s.elem, x).value + rest) == Some(Read(x, rest))
    ensures Decode(s, Encode(s, Present(x)).value + rest) == Some(Read(Present(x), rest))
  {
    TaggedReads(1, Encode(s.elem, x).value, rest);
  }

  lemma VariantReads(s: Schema, i: nat, x: Value, rest: ByteString)
    requires s.Union? && i < |s.variants| && i < WORD_LIMIT && Encode(s.variants[i], x).Some?
    requires Decode(s.variants[i], Encode(s.variants[i], x).value + rest) == Some(Read(x, rest))
    ensures Decode(s, Encode(s, Variant(i, x)).value + rest) == Some(Read(Variant(i, x), rest))
  {
    TaggedReads(i, Encode(s.variants[i], x).value, rest);
  }

  lemma ArrayReads(s: Schema, xs: seq<Value>, rest: ByteString)
    requires s.Array? && |xs| < WORD_LIMIT && WriteMany(ItemWriter(s.elem), 0, xs).Some?
    requires ReadMany(ItemReader(s.elem), 0, |xs|, WriteMany(ItemWriter(s.elem), 0, xs).value + rest) ==
             Some(Read(xs, rest))
    ensures Decode(s, Encode(s, Items(xs)).value + rest) == Some(Read(Items(xs), rest))
  {
    TaggedReads(|xs|, WriteMany(ItemWriter(s.elem), 0, xs).value, rest);
  }

  lemma WordValueReads(s: Schema, v: Value, rest: ByteString)
    requires (v.Flag? || v.Absent?) && Encode(s, v).Some?
    ensures Decode(s, Encode(s, v).value + rest) == Some(Read(v, rest))
  {
    WordReads(if v.Flag? && v.flag then 1 else 0, rest);
  }

  /**
    Decoding an encoding followed by any bytes returns the value and exactly
    those bytes.
   */
  lemma {:induction false} RoundTrip(s: Schema, v: Value, rest: ByteString)
    requires Encode(s, v).Some?
    ensures Decode(s, Encode(s, v).value + rest) == Some(Read(v, rest))
    decreases s, 2, 0
  {
    match v
    case Number(n) => NumberRoundTrip(s, n, rest);
    case Data(d) => DataRoundTrip(s, d, rest);
    case Present(x) =>
      RoundTrip(s.elem, x, rest);
      PresentReads(s, x, rest);
    case Items(xs) =>
      if s.Array? {
        ItemsUndone(s.elem);
        ManyRoundTrip(ItemWriter(s.elem), ItemReader(s.elem), 0, xs, rest);
        ArrayReads(s, xs, rest);
      } else {
        FieldsUndone(s);
        ManyRoundTrip(FieldWriter(s), FieldReader(s), 0, xs, rest);
      }
    case Variant(i, x) =>
      RoundTrip(s.variants[i], x, rest);
      VariantReads(s, i, x, rest);
    case _ => WordValueReads(s, v, rest);
  }

  /** Reading undoes writing, value by value. */
  ghost predicate Undoes(write: (nat, Value) -> Option<ByteString>, read: (nat, ByteString) -> Option<Read<Value>>)
  {
    forall i, x, rest :: write(i, x).Some? ==> read(i, write(i, x).value + rest) == Some(Read(x, rest))
  }

  lemma {:induction false} ItemsUndone(elem: Schema)
    ensures Undoes(ItemWriter(elem), ItemReader(elem))
    decreases elem, 3, 0
  {
    forall i: nat, x: Value, rest: ByteString | ItemWriter(elem)(i, x).Some?
      ensures ItemReader(elem)(i, ItemWriter(elem)(i, x).value + rest) == Some(Read(x, rest))
    {
      RoundTrip(elem, x, rest);
    }
  }

  lemma {:induction false} FieldsUndone(s: Schema)
    requires s.Struct?
    ensures Undoes(FieldWriter(s), FieldReader(s))
    decreases s, 1, 0
  {
    forall i: nat, x: Value, rest: ByteString | FieldWriter(s)(i, x).Some?
      ensures FieldReader(s)(i, FieldWriter(s)(i, x).value + rest) == Some(Read(x, rest))
    {
      RoundTrip(s.fields[i], x, rest);
    }
  }

  lemma {:induction false} ManyRoundTrip(write: (nat, Value) -> Option<ByteString>,
                                         read: (nat, ByteString) -> Option<Read<Value>>,
                                         i: nat, xs: seq<Value>, rest: ByteString)
    requires Undoes(write, read) && WriteMany(write, i, xs).Some?
    ensures ReadMany(read, i, i + |xs|, WriteMany(write, i, xs).value + rest) == Some(Read(xs, rest))
    decreases |xs|
  {
    if xs == [] {
      assert WriteMany(write, i, xs).value + rest == rest;
    } else {
      var head, tail := write(i, xs[0]).value, WriteMany(write, i + 1, xs[1..]).value;
      assert (head + tail) + rest == head + (tail + rest);
      assert read(i, head + (tail + rest)) == Some(Read(xs[0], tail + rest));
      ManyRoundTrip(write, read, i + 1, xs[1..], rest);
      assert xs == [xs[0]] + xs[1..];
    }
  }

  // ------------------------------------------------------------ alignment

  lemma DataAligned(s: Schema, d: ByteString)
    requires Encode(s, Data(d)).Some?
    ensures |Encode(s, Data(d)).value| % 4 == 0
  {
    if s.Opaque? {
      OpaqueReads(d, []);
    } else {
      BlocksArePadded(d);
    }
  }

  /** Every encoding is a multiple of four bytes long. */
  lemma {:induction false} Aligned(s: Schema, v: Value)
    requires Encode(s, v).Some?
    ensures |Encode(s, v).value| % 4 == 0
    decreases s, 2, 0
  {
    match v
    case Data(d) => DataAligned(s, d);
    case Present(x) =>
      Aligned(s.elem, x);
      AddAligned(4, |Encode(s.elem, x).value|);
    case Items(xs) =>
      if s.Array? {
        ItemsAligned(s.elem);
        ManyAligned(ItemWriter(s.elem), 0, xs);
        AddAligned(4, |WriteMany(ItemWriter(s.elem), 0, xs).value|);
      } else {
        FieldsAligned(s);
        ManyAligned(FieldWriter(s), 0, xs);
      }
    case Variant(i, x) =>
      Aligned(s.variants[i], x);
      AddAligned(4, |Encode(s.variants[i], x).value|);
    case _ =>
  }

  ghost predicate WritesWords(write: (nat, Value) -> Option<ByteString>)
  {
    forall i, x :: write(i, x).Some? ==> |write(i, x).value| % 4 == 0
  }

  lemma {:induction false} ItemsAligned(elem: Schema)
    ensures WritesWords(ItemWriter(elem))
    decreases elem, 3, 0
  {
    forall i: nat, x: Value | ItemWriter(elem)(i, x).Some? ensures |ItemWriter(elem)(i, x).value| % 4 == 0 {
      Aligned(elem, x);
    }
  }

  lemma {:induction false} FieldsAligned(s: Schema)
    requires s.Struct?
    ensures WritesWords(FieldWriter(s))
    decreases s, 1, 0
  {
    forall i: nat, x: Value | FieldWriter(s)(i, x).Some? ensures |FieldWriter(s)(i, x).value| % 4 == 0 {
      Aligned(s.fields[i], x);
    }
  }

  lemma {:induction false} ManyAligned(write: (nat, Value) -> Option<ByteString>, i: nat, xs: seq<Value>)
    requires WritesWords(write) && WriteMany(write, i, xs).Some?
    ensures |WriteMany(write, i, xs).value| % 4 == 0
    decreases |xs|
  {
    if xs != [] {
      ManyAligned(write, i + 1, xs[1..]);
      AddAligned(|write(i, xs[0]).value|, |WriteMany(write, i + 1, xs[1..]).value|);
    }
  }

  // ------------------------------------------------------------ more input changes nothing

  lemma NumberExtends(b: ByteString, width: nat, more: ByteString)
    requires GetNumber(b, width).Some?
    ensures GetNumber(b + more, width) ==
            Some(Read(GetNumber(b, width).value.got, GetNumber(b, width).value.rest + more))
  {
    assert (b + more)[..width] == b[..width];
    assert (b + more)[width..] == b[width..] + more;
  }

  lemma SplitExtends(b: ByteString, len: nat, more: ByteString)
    requires Split(b, len).Some?
    ensures Split(b + more, len) == Some(Read(Split(b, len).value.got, Split(b, len).value.rest + more))
  {
    assert (b + more)[..len] == b[..len];
    assert (b + more)[len + Padding(len)..] == b[len + Padding(len)..] + more;
  }

  lemma DataExtends(s: Schema, b: ByteString, more: ByteString)
    requires (s.Opaque? || s.Fixed?) && Decode(s, b).Some?
    ensures Decode(s, b + more) == Some(Read(Decode(s, b).value.got, Decode(s, b).value.rest + more))
  {
    if s.Opaque? {
      NumberExtends(b, 4, more);
      SplitExtends(GetWord(b).value.rest, GetWord(b).value.got, more);
    } else {
      BlocksAreSplit(s.len, b);
      BlocksAreSplit(s.len, b + more);
      SplitExtends(b, s.len, more);
    }
  }

  /** What decodes, decodes the same when more bytes follow. */
  lemma {:induction false} Extends(s: Schema, b: ByteString, more: ByteString)
    requires Decode(s, b).Some?
    ensures Decode(s, b + more) == Some(Read(Decode(s, b).value.got, Decode(s, b).value.rest + more))
    decreases s, 2, 0
  {
    match s
    case Hyper => NumberExtends(b, 8, more);
    case SignedHyper => NumberExtends(b, 8, more);
    case Opaque => DataExtends(s, b, more);
    case Fixed(_) => DataExtends(s, b, more);
    case Struct(fields) =>
      FieldsExtend(s);
      ManyExtend(FieldReader(s), 0, |fields|, b, more);
    case Optional(elem) =>
      NumberExtends(b, 4, more);
      if GetWord(b).value.got == 1 {
        Extends(elem, GetWord(b).value.rest, more);
      }
    case Array(elem) =>
      NumberExtends(b, 4, more);
      ItemsExtend(elem);
      ManyExtend(ItemReader(elem), 0, GetWord(b).value.got, GetWord(b).value.rest, more);
    case Union(variants) =>
      NumberExtends(b, 4, more);
      Extends(variants[GetWord(b).value.got], GetWord(b).value.rest, more);
    case Bool => NumberExtends(b, 4, more);
    case Unsigned(_) => NumberExtends(b, 4, more);
    case Signed(_) => NumberExtends(b, 4, more);
    case Char => NumberExtends(b, 4, more);
    case Ref(_) =>
  }

  ghost predicate ExtendsEach(read: (nat, ByteString) -> Option<Read<Value>>)
  {
    forall i, b, more :: read(i, b).Some? ==>
      read(i, b + more) == Some(Read(read(i, b).value.got, read(i, b).value.rest + more))
  }

  lemma {:induction false} ItemsExtend(elem: Schema)
    ensures ExtendsEach(ItemReader(elem))
    decreases elem, 3, 0
  {
    var read := ItemReader(elem);
    forall i: nat, b: ByteString, more: ByteString | read(i, b).Some?
      ensures read(i, b + more) == Some(Read(read(i, b).value.got, read(i, b).value.rest + more))
    {
      Extends(elem, b, more);
    }
  }

  lemma {:induction false} FieldsExtend(s: Schema)
    requires s.Struct?
    ensures ExtendsEach(FieldReader(s))
    decreases s, 1, 0
  {
    var read := FieldReader(s);
    forall i: nat, b: ByteString, more: ByteString | read(i, b).Some?
      ensures read(i, b + more) == Some(Read(read(i, b).value.got, read(i, b).value.rest + more))
    {
      Extends(s.fields[i], b, more);
    }
  }

  lemma {:induction false} ManyExtend(read: (nat, ByteString) -> Option<Read<Value>>, i: nat, n: nat, b: ByteString,
                                      more: ByteString)
    requires ExtendsEach(read) && i <= n && ReadMany(read, i, n, b).Some?
    ensures ReadMany(read, i, n, b + more) ==
            Some(Read(ReadMany(read, i, n, b).value.got, ReadMany(read, i, n, b).value.rest + more))
    decreases n - i
  {
    if i < n {
      assert read(i, b + more) == Some(Read(read(i, b).value.got, read(i, b).value.rest + more));
      ManyExtend(read, i + 1, n, read(i, b).value.rest, more);
    }
  }

  /** No strict prefix of an encoding decodes, as any value. */
  lemma NoPrefixDecodes(s: Schema, v: Value, n: nat)
    requires Encode(s, v).Some? && n < |Encode(s, v).value|
    ensures Decode(s, Encode(s, v).value[..n]).None?
  {
    var e := Encode(s, v).value;
    var p, tail := e[..n], e[n..];
    RoundTrip(s, v, []);
    assert e + [] == e && p + tail == e;
    if Decode(s, p).Some? {
      Extends(s, p, tail);
      assert false;
    }
  }

  /** So no two values of a type have one encoding, nor one the start of the other's. */
  lemma EncodingsAreDistinct(s: Schema, v: Value, w: Value, n: nat)
    requires Encode(s, v).Some? && Encode(s, w).Some? && n <= |Encode(s, v).value|
    requires Encode(s, w).value == Encode(s, v).value[..n]
    ensures v == w && n == |Encode(s, v).value|
  {
    var e := Encode(s, v).value;
    RoundTrip(s, w, []);
    RoundTrip(s, v, []);
    assert e[..n] + [] == e[..n] && e + [] == e;
    if n < |e| {
      NoPrefixDecodes(s, v, n);
      assert false;
    }
    assert e[..n] == e;
  }

  // ------------------------------------------------------------ what decodes can be encoded

  lemma NumberBack(s: Schema, b: ByteString)
    requires (s.Unsigned? || s.Signed? || s.Char? || s.Hyper? || s.SignedHyper?) && Decode(s, b).Some?
    ensures var r := Decode(s, b).value;
            Encode(s, r.got).Some? && Encode(s, r.got).value + r.rest == b
  {
    Widths();
    var width := if s.Hyper? || s.SignedHyper? then 8 else 4;
    ValueBound(b[..width]);
    BigEndianOfValue(b[..width]);
    assert b == b[..width] + b[width..];
  }

  lemma SplitBack(b: ByteString, len: nat)
    requires Split(b, len).Some?
    ensures |Split(b, len).value.got| == len
    ensures len + Padding(len) + |Split(b, len).value.rest| == |b|
  {
  }

  lemma OpaqueBack(b: ByteString)
    requires GetOpaque(b).Some?
    ensures var r := GetOpaque(b).value;
            PutOpaque(r.got).Some? && |PutOpaque(r.got).value| + |r.rest| == |b|
  {
    GetWordBack(b);
    SplitBack(GetWord(b).value.rest, GetWord(b).value.got);
  }

  lemma FixedBack(len: nat, b: ByteString)
    requires GetBlocks(len, b).Some?
    ensures var r := GetBlocks(len, b).value;
            |r.got| == len && |PutBlocks(r.got)| + |r.rest| == |b|
  {
    BlocksAreSplit(len, b);
    SplitBack(b, len);
    BlocksArePadded(GetBlocks(len, b).value.got);
  }

  lemma DataBack(s: Schema, b: ByteString)
    requires (s.Opaque? || s.Fixed?) && Decode(s, b).Some?
    ensures var r := Decode(s, b).value;
            Encode(s, r.got).Some? && |Encode(s, r.got).value| + |r.rest| == |b|
  {
    if s.Opaque? {
      OpaqueBack(b);
    } else {
      FixedBack(s.len, b);
    }
  }

  /** `r` is a value the encoder accepts, of as many bytes as were read from `b`. */
  predicate Encodes(s: Schema, b: ByteString, r: Read<Value>)
  {
    Encode(s, r.got).Some? && |Encode(s, r.got).value| + |r.rest| == |b|
  }

  lemma BoolBack(s: Schema, b: ByteString)
    requires s.Bool? && Decode(s, b).Some?
    ensures Encodes(s, b, Decode(s, b).value)
  {
    GetWordBack(b);
  }

  lemma OptionalBack(s: Schema, b: ByteString)
    requires s.Optional? && Decode(s, b).Some? && GetWord(b).Some?
    requires GetWord(b).value.got == 1 ==> Decode(s.elem, GetWord(b).value.rest).Some?
    requires GetWord(b).value.got == 1 ==>
             Encodes(s.elem, GetWord(b).value.rest, Decode(s.elem, GetWord(b).value.rest).value)
    ensures Encodes(s, b, Decode(s, b).value)
  {
    GetWordBack(b);
  }

  lemma UnionBack(s: Schema, b: ByteString)
    requires s.Union? && Decode(s, b).Some? && GetWord(b).Some? && GetWord(b).value.got < |s.variants|
    requires var w := GetWord(b).value;
             Decode(s.variants[w.got], w.rest).Some?
             && Encodes(s.variants[w.got], w.rest, Decode(s.variants[w.got], w.rest).value)
    ensures Encodes(s, b, Decode(s, b).value)
  {
    GetWordBack(b);
  }

  lemma ArrayBack(s: Schema, b: ByteString)
    requires s.Array? && Decode(s, b).Some? && GetWord(b).Some?
    requires ReadMany(ItemReader(s.elem), 0, GetWord(b).value.got, GetWord(b).value.rest).Some?
    requires var w := GetWord(b).value;
             var r := ReadMany(ItemReader(s.elem), 0, w.got, w.rest).value;
             && |r.got| == w.got && WriteMany(ItemWriter(s.elem), 0, r.got).Some?
             && |WriteMany(ItemWriter(s.elem), 0, r.got).value| + |r.rest| == |w.rest|
    ensures Encodes(s, b, Decode(s, b).value)
  {
    GetWordBack(b);
  }

  /**
    Everything the decoder accepts is a value the encoder accepts, of as many
    bytes as were read.
   */
  lemma {:induction false} DecodedEncodes(s: Schema, b: ByteString)
    requires Decode(s, b).Some?
    ensures Encodes(s, b, Decode(s, b).value)
    decreases s, 2, 0
  {
    match s
    case Bool => BoolBack(s, b);
    case Opaque => DataBack(s, b);
    case Fixed(_) => DataBack(s, b);
    case Struct(fields) =>
      FieldsBack(s);
      ManyBack(FieldWriter(s), FieldReader(s), 0, |fields|, b);
    case Optional(elem) =>
      if GetWord(b).value.got == 1 {
        DecodedEncodes(elem, GetWord(b).value.rest);
      }
      OptionalBack(s, b);
    case Array(elem) =>
      ItemsBack(elem);
      ManyBack(ItemWriter(elem), ItemReader(elem), 0, GetWord(b).value.got, GetWord(b).value.rest);
      ArrayBack(s, b);
    case Union(variants) =>
      DecodedEncodes(variants[GetWord(b).value.got], GetWord(b).value.rest);
      UnionBack(s, b);
    case Ref(_) =>
    case _ => NumberBack(s, b);
  }

  ghost predicate EncodesEach(write: (nat, Value) -> Option<ByteString>, read: (nat, ByteString) -> Option<Read<Value>>)
  {
    forall i, b :: read(i, b).Some? ==>
      write(i, read(i, b).value.got).Some? && |write(i, read(i, b).value.got).value| + |read(i, b).value.rest| == |b|
  }

  lemma {:induction false} ItemsBack(elem: Schema)
    ensures EncodesEach(ItemWriter(elem), ItemReader(elem))
    decreases elem, 3, 0
  {
    forall i: nat, b: ByteString | ItemReader(elem)(i, b).Some?
      ensures Encodes(elem, b, ItemReader(elem)(i, b).value)
    {
      DecodedEncodes(elem, b);
    }
  }

  lemma {:induction false} FieldsBack(s: Schema)
    requires s.Struct?
    ensures EncodesEach(FieldWriter(s), FieldReader(s))
    decreases s, 1, 0
  {
    forall i: nat, b: ByteString | FieldReader(s)(i, b).Some?
      ensures i < |s.fields| && Encodes(s.fields[i], b, FieldReader(s)(i, b).value)
    {
      DecodedEncodes(s.fields[i], b);
    }
  }

  lemma {:induction false} ManyBack(write: (nat, Value) -> Option<ByteString>,
                                    read: (nat, ByteString) -> Option<Read<Value>>,
                                    i: nat, n: nat, b: ByteString)
    requires EncodesEach(write, read) && i <= n && ReadMany(read, i, n, b).Some?
    ensures var r := ReadMany(read, i, n, b).value;
            && i + |r.got| == n && WriteMany(write, i, r.got).Some?
            && |WriteMany(write, i, r.got).value| + |r.rest| == |b|
    decreases n - i
  {
    if i < n {
      var head := read(i, b).value;
      ManyBack(write, read, i + 1, n, head.rest);
      var r := ReadMany(read, i, n, b).value;
      assert r.got[1..] == ReadMany(read, i + 1, n, head.rest).value.got;
    }
  }

  /** File attributes on the wire: bitmap words, then the value bytes as opaque data. */
  const FATTR := Struct([Array(Unsigned(4)), Opaque])

  // ------------------------------------------------------------ the bytes on the wire

  /** Numbers: narrow ones fill a word, negative ones in two's complement; wide ones two, the high one first. */
  lemma NumbersOnWire(n: int, w: nat)
    requires w in {1, 2, 4}
    ensures var size := if w == 1 then 0x100 else if w == 2 then 0x1_0000 else 0x1_0000_0000;
            && Encode(Unsigned(w), Number(n)) == (if 0 <= n < size then Some(FourBytes(n)) else None)
            && Encode(Signed(w), Number(n)) ==
               (if -size <= 2 * n < size then Some(FourBytes(if n < 0 then n + 0x1_0000_0000 else n)) else None)
    ensures 0 <= n < 0x1_0000_0000_0000_0000 ==>
              Encode(Hyper, Number(n)) == Some(FourBytes(n / 0x1_0000_0000) + FourBytes(n))
  {
    if n >= 0 {
      FourBytesOf(n);
      EightBytesOf(n);
    } else if n >= -0x8000_0000 {
      FourBytesOf(n + 0x1_0000_0000);
    }
  }

  /** A flag is a word, and a byte string is its length, its bytes, and zeros up to a multiple of four. */
  lemma DataOnWire(b: bool, d: ByteString)
    ensures Encode(Bool, Flag(b)) == Some([0, 0, 0, if b then 1 else 0])
    ensures |d| < 0x1_0000_0000 ==> Encode(Opaque, Data(d)) == Some(FourBytes(|d|) + d + Zeros((4 - |d| % 4) % 4))
  {
    FourBytesOf(0);
    FourBytesOf(1);
    FourBytesOf(|d|);
  }

  /** In front of an option stands a flag. */
  lemma OptionOnWire(elem: Schema, x: Value)
    ensures Encode(Optional(elem), Absent) == Some([0, 0, 0, 0])
    ensures Encode(elem, x).Some? ==>
              Encode(Optional(elem), Present(x)) == Some([0, 0, 0, 1] + Encode(elem, x).value)
  {
    FourBytesOf(0);
    FourBytesOf(1);
  }

  /** In front of a variant stands its position. */
  lemma VariantOnWire(variants: seq<Schema>, i: nat, x: Value)
    requires i < |variants| && i < 0x1_0000_0000 && Encode(variants[i], x).Some?
    ensures Encode(Union(variants), Variant(i, x)) == Some(FourBytes(i) + Encode(variants[i], x).value)
  {
    FourBytesOf(i);
  }

  /** In front of an array's elements stands their number. */
  lemma ArrayOnWire(elem: Schema, xs: seq<Value>)
    requires |xs| < 0x1_0000_0000 && WriteMany(ItemWriter(elem), 0, xs).Some?
    ensures Encode(Array(elem), Items(xs)) == Some(FourBytes(|xs|) + WriteMany(ItemWriter(elem), 0, xs).value)
  {
    FourBytesOf(|xs|);
  }

  /** What the decoder refuses: flags above 1, positions without a variant, numbers outside their type, surrogates. */
  lemma StrictWords(b: ByteString, elem: Schema, variants: seq<Schema>, w: nat)
    requires |b| >= 4
    ensures var n := Bytes.Value(b[..4]);
            && (n > 1 ==> Decode(Bool, b).None? && Decode(Optional(elem), b).None?)
            && (n >= |variants| ==> Decode(Union(variants), b).None?)
            && (w == 1 && n > 0xFF ==> Decode(Unsigned(w), b).None?)
            && (w == 2 && n > 0xFFFF ==> Decode(Unsigned(w), b).None?)
            && (w == 1 && 0x80 <= n < 0xFFFF_FF80 ==> Decode(Signed(w), b).None?)
            && (w == 2 && 0x8000 <= n < 0xFFFF_8000 ==> Decode(Signed(w), b).None?)
            && (0xD800 <= n < 0xE000 || n > 0x10_FFFF ==> Decode(Char, b).None?)
  {
    assert GetWord(b) == Some(Read(Bytes.Value(b[..4]), b[4..]));
  }

  /** The padding of a byte string may hold anything when it is read. */
  lemma PaddingIsIgnored(d: ByteString, pad: ByteString, rest: ByteString)
    requires |d| < WORD_LIMIT && |pad| == Padding(|d|)
    ensures Decode(Opaque, PutWord(|d|) + (d + (pad + rest))) == Some(Read(Data(d), rest))
  {
    var tail := d + (pad + rest);
    WordReads(|d|, tail);
    assert tail[..|d|] == d && tail[|d| + |pad|..] == rest;
  }
}
