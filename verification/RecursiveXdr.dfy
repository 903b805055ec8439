/**
  Recursive types: schemas that name schemas of an environment, such as the
  directory entry whose last field is an optional next entry.  A name stands for
  its schema unrolled again and again; the decoder unrolls as deep as its input is
  long, and deeper makes no difference, so it satisfies the equations of the
  recursive decoder.  A name has to stand behind a count, a tag or a flag, as a
  boxed field of a type of finite size does.
 */
module RecursiveXdr {
  import opened Wrappers
  import opened Bytes
  import opened Xdr

  type Env = map<string, Schema>

  /** A union without variants has no values. */
  const NEVER := Union([])

  function Unroll(env: Env, s: Schema, depth: nat): Schema
    decreases depth, s
  {
    match s
    case Ref(name) => if depth == 0 || name !in env then NEVER else Unroll(env, env[name], depth - 1)
    case Optional(elem) => Optional(Unroll(env, elem, depth))
    case Array(elem) => Array(Unroll(env, elem, depth))
    case Struct(fields) => Struct(seq(|fields|, i requires 0 <= i < |fields| => Unroll(env, fields[i], depth)))
    case Union(variants) => Union(seq(|variants|, i requires 0 <= i < |variants| => Unroll(env, variants[i], depth)))
    case _ => s
  }

  /** Names stand only behind a word that was read. */
  predicate Guarded(s: Schema)
  {
    match s
    case Ref(_) => false
    case Struct(fields) => forall i :: 0 <= i < |fields| ==> Guarded(fields[i])
    case _ => true
  }

  predicate GuardedEnv(env: Env) { forall name :: name in env ==> Guarded(env[name]) }

  /** Decoding in an environment: one unrolling per word of input, and one more. */
  function DecodeIn(env: Env, s: Schema, b: ByteString): Option<Read<Value>>
  {
    Decode(Unroll(env, s, |b| / 4 + 1), b)
  }

  /** `e` encodes `v`, at some depth. */
  ghost predicate HasEncoding(env: Env, s: Schema, v: Value, e: ByteString)
  {
    exists depth: nat :: Encode(Unroll(env, s, depth), v) == Some(e)
  }

  // ------------------------------------------------------------ readers that agree

  lemma Shrinks(s: Schema, b: ByteString)
    ensures Decode(s, b).Some? ==> |Decode(s, b).value.rest| <= |b|
  {
    if Decode(s, b).Some? {
      DecodedEncodes(s, b);
    }
  }

  /** The two readers do the same on inputs of at most `n` bytes, and never lengthen them. */
  ghost predicate AgreeUpTo(r1: (nat, ByteString) -> Option<Read<Value>>,
                            r2: (nat, ByteString) -> Option<Read<Value>>, n: nat)
  {
    forall i, b :: |b| <= n ==> r1(i, b) == r2(i, b) && (r1(i, b).Some? ==> |r1(i, b).value.rest| <= |b|)
  }

  lemma {:induction false} ManyAgree(r1: (nat, ByteString) -> Option<Read<Value>>,
                                     r2: (nat, ByteString) -> Option<Read<Value>>,
                                     i: nat, n: nat, b: ByteString, limit: nat)
    requires AgreeUpTo(r1, r2, limit) && i <= n && |b| <= limit
    ensures ReadMany(r1, i, n, b) == ReadMany(r2, i, n, b)
    decreases n - i
  {
    if i < n {
      assert r1(i, b) == r2(i, b);
      if r1(i, b).Some? {
        ManyAgree(r1, r2, i + 1, n, r1(i, b).value.rest, limit);
      }
    }
  }

  // ------------------------------------------------------------ deeper makes no difference

  /** Deep enough for this input. */
  predicate DeepEnough(s: Schema, depth: nat, size: nat)
  {
    size < 4 * depth || (Guarded(s) && size < 4 * (depth + 1))
  }

  lemma TaggedIs(s: Schema, b: ByteString)
    requires s.Optional? || s.Array? || s.Union?
    ensures Decode(s, b) == DecodeTagged(s, GetWord(b))
  {
  }

  lemma OptionalsTagged(s1: Schema, s2: Schema, n: nat, rest: ByteString)
    requires Decode(s1, rest) == Decode(s2, rest)
    ensures DecodeTagged(Optional(s1), Some(Read(n, rest))) == DecodeTagged(Optional(s2), Some(Read(n, rest)))
  {
  }

  lemma UnionsTagged(vs1: seq<Schema>, vs2: seq<Schema>, n: nat, rest: ByteString)
    requires |vs1| == |vs2| && (n < |vs1| ==> Decode(vs1[n], rest) == Decode(vs2[n], rest))
    ensures DecodeTagged(Union(vs1), Some(Read(n, rest))) == DecodeTagged(Union(vs2), Some(Read(n, rest)))
  {
  }

  lemma ArraysTagged(s1: Schema, s2: Schema, n: nat, rest: ByteString)
    requires AgreeUpTo(ItemReader(s1), ItemReader(s2), |rest|)
    ensures DecodeTagged(Array(s1), Some(Read(n, rest))) == DecodeTagged(Array(s2), Some(Read(n, rest)))
  {
    ManyAgree(ItemReader(s1), ItemReader(s2), 0, n, rest, |rest|);
  }

  lemma OptionalsAgree(s1: Schema, s2: Schema, b: ByteString)
    requires |b| >= 4 ==> Decode(s1, b[4..]) == Decode(s2, b[4..])
    ensures Decode(Optional(s1), b) == Decode(Optional(s2), b)
  {
    TaggedIs(Optional(s1), b);
    TaggedIs(Optional(s2), b);
    if |b| >= 4 {
      OptionalsTagged(s1, s2, Bytes.Value(b[..4]), b[4..]);
    }
  }

  lemma UnionsAgree(vs1: seq<Schema>, vs2: seq<Schema>, b: ByteString)
    requires |vs1| == |vs2|
    requires |b| >= 4 && Bytes.Value(b[..4]) < |vs1| ==>
               Decode(vs1[Bytes.Value(b[..4])], b[4..]) == Decode(vs2[Bytes.Value(b[..4])], b[4..])
    ensures Decode(Union(vs1), b) == Decode(Union(vs2), b)
  {
    TaggedIs(Union(vs1), b);
    TaggedIs(Union(vs2), b);
    if |b| >= 4 {
      UnionsTagged(vs1, vs2, Bytes.Value(b[..4]), b[4..]);
    }
  }

  lemma ArraysAgree(s1: Schema, s2: Schema, b: ByteString)
    requires |b| >= 4 ==> AgreeUpTo(ItemReader(s1), ItemReader(s2), |b| - 4)
    ensures Decode(Array(s1), b) == Decode(Array(s2), b)
  {
    TaggedIs(Array(s1), b);
    TaggedIs(Array(s2), b);
    if |b| >= 4 {
      ArraysTagged(s1, s2, Bytes.Value(b[..4]), b[4..]);
    }
  }

  lemma StructsAgree(s1: Schema, s2: Schema, b: ByteString)
    requires s1.Struct? && s2.Struct? && |s1.fields| == |s2.fields| && AgreeUpTo(FieldReader(s1), FieldReader(s2), |b|)
    ensures Decode(s1, b) == Decode(s2, b)
  {
    ManyAgree(FieldReader(s1), FieldReader(s2), 0, |s1.fields|, b, |b|);
  }

  /** Once it is unrolled deep enough, a schema decodes an input as it does one deeper. */
  lemma {:induction false} Stable(env: Env, s: Schema, depth: nat, b: ByteString)
    requires GuardedEnv(env) && DeepEnough(s, depth, |b|)
    ensures Decode(Unroll(env, s, depth), b) == Decode(Unroll(env, s, depth + 1), b)
    decreases depth, s, 2
  {
    match s
    case Ref(name) =>
      if name in env {
        Stable(env, env[name], depth - 1, b);
      }
    case Optional(elem) =>
      if |b| >= 4 {
        Stable(env, elem, depth, b[4..]);
      }
      OptionalsAgree(Unroll(env, elem, depth), Unroll(env, elem, depth + 1), b);
    case Union(variants) =>
      if |b| >= 4 && Bytes.Value(b[..4]) < |variants| {
        Stable(env, variants[Bytes.Value(b[..4])], depth, b[4..]);
      }
      UnionsAgree(Unroll(env, s, depth).variants, Unroll(env, s, depth + 1).variants, b);
    case Array(elem) =>
      if |b| >= 4 {
        StableItems(env, elem, depth, |b| - 4);
      }
      ArraysAgree(Unroll(env, elem, depth), Unroll(env, elem, depth + 1), b);
    case Struct(fields) =>
      StableFields(env, s, depth, |b|);
      StructsAgree(Unroll(env, s, depth), Unroll(env, s, depth + 1), b);
    case _ =>
  }

  lemma {:induction false} StableItems(env: Env, elem: Schema, depth: nat, limit: nat)
    requires GuardedEnv(env) && limit < 4 * depth
    ensures AgreeUpTo(ItemReader(Unroll(env, elem, depth)), ItemReader(Unroll(env, elem, depth + 1)), limit)
    decreases depth, elem, 3
  {
    var r1, r2 := ItemReader(Unroll(env, elem, depth)), ItemReader(Unroll(env, elem, depth + 1));
    forall i: nat, b: ByteString | |b| <= limit
      ensures r1(i, b) == r2(i, b) && (r1(i, b).Some? ==> |r1(i, b).value.rest| <= |b|)
    {
      Stable(env, elem, depth, b);
      Shrinks(Unroll(env, elem, depth), b);
    }
  }

  lemma {:induction false} StableFields(env: Env, s: Schema, depth: nat, limit: nat)
    requires s.Struct? && GuardedEnv(env) && DeepEnough(s, depth, limit)
    ensures AgreeUpTo(FieldReader(Unroll(env, s, depth)), FieldReader(Unroll(env, s, depth + 1)), limit)
    decreases depth, s, 1
  {
    var r1, r2 := FieldReader(Unroll(env, s, depth)), FieldReader(Unroll(env, s, depth + 1));
    forall i: nat, b: ByteString | |b| <= limit
      ensures r1(i, b) == r2(i, b) && (r1(i, b).Some? ==> |r1(i, b).value.rest| <= |b|)
    {
      if i < |s.fields| {
        Stable(env, s.fields[i], depth, b);
        Shrinks(Unroll(env, s.fields[i], depth), b);
      }
    }
  }

  lemma {:induction false} StableUpTo(env: Env, s: Schema, depth: nat, deeper: nat, b: ByteString)
    requires GuardedEnv(env) && DeepEnough(s, depth, |b|) && depth <= deeper
    ensures Decode(Unroll(env, s, depth), b) == Decode(Unroll(env, s, deeper), b)
    decreases deeper
  {
    if depth < deeper {
      StableUpTo(env, s, depth, deeper - 1, b);
      Stable(env, s, deeper - 1, b);
    }
  }

  // ------------------------------------------------------------ the recursive equations

  /** A name decodes as the schema it names. */
  lemma DecodeRef(env: Env, name: string, b: ByteString)
    requires GuardedEnv(env) && name in env
    ensures DecodeIn(env, Ref(name), b) == DecodeIn(env, env[name], b)
  {
    Stable(env, env[name], |b| / 4, b);
  }

  /** An optional reads its flag, and then decodes what is behind it in the same environment. */
  lemma DecodeOptional(env: Env, elem: Schema, b: ByteString)
    requires GuardedEnv(env) && |b| >= 4
    ensures DecodeIn(env, Optional(elem), b) ==
            var flag := Bytes.Value(b[..4]);
            if flag == 0 then Some(Read(Absent, b[4..]))
            else if flag == 1 then Wrapped(DecodeIn(env, elem, b[4..]))
            else None
  {
    StableUpTo(env, elem, |b[4..]| / 4 + 1, |b| / 4 + 1, b[4..]);
    assert GetWord(b) == Some(Read(Bytes.Value(b[..4]), b[4..]));
    var t := Unroll(env, Optional(elem), |b| / 4 + 1);
    assert t == Optional(Unroll(env, elem, |b| / 4 + 1));
    assert Decode(t, b) == DecodeTagged(t, GetWord(b));
  }

  /** A union reads its tag, and then decodes that variant in the same environment. */
  lemma DecodeUnion(env: Env, variants: seq<Schema>, b: ByteString)
    requires GuardedEnv(env) && |b| >= 4
    ensures DecodeIn(env, Union(variants), b) ==
            var tag := Bytes.Value(b[..4]);
            if tag < |variants| then Tagged(tag, DecodeIn(env, variants[tag], b[4..])) else None
  {
    var tag, t := Bytes.Value(b[..4]), Unroll(env, Union(variants), |b| / 4 + 1);
    if tag < |variants| {
      StableUpTo(env, variants[tag], |b[4..]| / 4 + 1, |b| / 4 + 1, b[4..]);
    }
    TaggedIs(t, b);
    assert GetWord(b) == Some(Read(Bytes.Value(b[..4]), b[4..]));
  }

  /** An array reads its count, and then decodes so many elements in the same environment. */
  lemma DecodeArray(env: Env, elem: Schema, b: ByteString)
    requires GuardedEnv(env) && |b| >= 4
    ensures DecodeIn(env, Array(elem), b) ==
            AsItems(ReadMany(ItemReaderIn(env, elem), 0, Bytes.Value(b[..4]), b[4..]))
  {
    var count, item := Bytes.Value(b[..4]), Unroll(env, elem, |b| / 4 + 1);
    ItemsIn(env, elem, |b|);
    ManyAgree(ItemReader(item), ItemReaderIn(env, elem), 0, count, b[4..], |b|);
    TaggedIs(Array(item), b);
    ArrayIs(item, count, b[4..]);
    assert GetWord(b) == Some(Read(Bytes.Value(b[..4]), b[4..]));
  }

  function ItemReaderIn(env: Env, elem: Schema): (nat, ByteString) -> Option<Read<Value>>
  {
    (i: nat, b: ByteString) => DecodeIn(env, elem, b)
  }

  lemma ArrayIs(elem: Schema, count: nat, rest: ByteString)
    ensures DecodeTagged(Array(elem), Some(Read(count, rest))) == AsItems(ReadMany(ItemReader(elem), 0, count, rest))
  {
  }

  lemma ItemsIn(env: Env, elem: Schema, limit: nat)
    requires GuardedEnv(env)
    ensures AgreeUpTo(ItemReader(Unroll(env, elem, limit / 4 + 1)), ItemReaderIn(env, elem), limit)
  {
    var depth := limit / 4 + 1;
    var r1, r2 := ItemReader(Unroll(env, elem, depth)), ItemReaderIn(env, elem);
    forall i: nat, x: ByteString | |x| <= limit
      ensures r1(i, x) == r2(i, x) && (r1(i, x).Some? ==> |r1(i, x).value.rest| <= |x|)
    {
      StableUpTo(env, elem, |x| / 4 + 1, depth, x);
      Shrinks(Unroll(env, elem, depth), x);
    }
  }

  function FieldReaderIn(env: Env, fields: seq<Schema>): (nat, ByteString) -> Option<Read<Value>>
  {
    (i: nat, b: ByteString) => if i < |fields| then DecodeIn(env, fields[i], b) else None
  }

  /** A struct decodes its fields one after the other in the same environment. */
  lemma DecodeStruct(env: Env, fields: seq<Schema>, b: ByteString)
    requires GuardedEnv(env)
    ensures DecodeIn(env, Struct(fields), b) == AsItems(ReadMany(FieldReaderIn(env, fields), 0, |fields|, b))
  {
    var s := Unroll(env, Struct(fields), |b| / 4 + 1);
    FieldsIn(env, fields, |b|);
    ManyAgree(FieldReader(s), FieldReaderIn(env, fields), 0, |fields|, b, |b|);
    StructIs(s, b);
  }

  lemma StructIs(s: Schema, b: ByteString)
    requires s.Struct?
    ensures Decode(s, b) == AsItems(ReadMany(FieldReader(s), 0, |s.fields|, b))
  {
  }

  lemma FieldsIn(env: Env, fields: seq<Schema>, limit: nat)
    requires GuardedEnv(env)
    ensures AgreeUpTo(FieldReader(Unroll(env, Struct(fields), limit / 4 + 1)), FieldReaderIn(env, fields), limit)
  {
    var depth := limit / 4 + 1;
    var r1, r2 := FieldReader(Unroll(env, Struct(fields), depth)), FieldReaderIn(env, fields);
    forall i: nat, x: ByteString | |x| <= limit
      ensures r1(i, x) == r2(i, x) && (r1(i, x).Some? ==> |r1(i, x).value.rest| <= |x|)
    {
      if i < |fields| {
        StableUpTo(env, fields[i], |x| / 4 + 1, depth, x);
        Shrinks(Unroll(env, fields[i], depth), x);
      }
    }
  }

  /** The types that start with a word, once it is read. */
  function AfterWordIn(env: Env, s: Schema, n: nat, rest: ByteString): Option<Read<Value>>
  {
    match s
    case Unsigned(w) => AsNumber(UnsignedFits(n, w), n, rest)
    case Signed(w) => AsNumber(SignedFits(ToSigned(n, WORD_LIMIT), w), ToSigned(n, WORD_LIMIT), rest)
    case Char => AsNumber(IsChar(n), n, rest)
    case Bool => if n > 1 then None else Some(Read(Flag(n == 1), rest))
    case Optional(elem) =>
      if n == 0 then Some(Read(Absent, rest)) else if n == 1 then Wrapped(DecodeIn(env, elem, rest)) else None
    case Array(elem) => AsItems(ReadMany(ItemReaderIn(env, elem), 0, n, rest))
    case Union(variants) => if n < |variants| then Tagged(n, DecodeIn(env, variants[n], rest)) else None
    case _ => None
  }

  lemma TooShort(s: Schema, b: ByteString)
    requires !s.Opaque? && !s.Fixed? && !s.Struct? && !s.Hyper? && !s.SignedHyper? && |b| < 4
    ensures Decode(s, b).None?
  {
    assert GetWord(b).None?;
  }

  lemma DecodeWord(env: Env, s: Schema, b: ByteString)
    requires GuardedEnv(env)
    requires !s.Opaque? && !s.Fixed? && !s.Struct? && !s.Hyper? && !s.SignedHyper? && !s.Ref?
    ensures DecodeIn(env, s, b) == if |b| < 4 then None else AfterWordIn(env, s, Bytes.Value(b[..4]), b[4..])
  {
    if |b| >= 4 {
      assert GetWord(b) == Some(Read(Bytes.Value(b[..4]), b[4..]));
      match s
      case Optional(elem) => DecodeOptional(env, elem, b);
      case Union(variants) => DecodeUnion(env, variants, b);
      case Array(elem) => DecodeArray(env, elem, b);
      case _ =>
    } else {
      TooShort(Unroll(env, s, |b| / 4 + 1), b);
    }
  }

  // ------------------------------------------------------------ encodings at every depth

  ghost predicate WritesAlike(w1: (nat, Value) -> Option<ByteString>, w2: (nat, Value) -> Option<ByteString>)
  {
    forall i, x :: w1(i, x).Some? ==> w2(i, x) == w1(i, x)
  }

  lemma {:induction false} ManyAlike(w1: (nat, Value) -> Option<ByteString>, w2: (nat, Value) -> Option<ByteString>,
                                     i: nat, xs: seq<Value>)
    requires WritesAlike(w1, w2) && WriteMany(w1, i, xs).Some?
    ensures WriteMany(w2, i, xs) == WriteMany(w1, i, xs)
    decreases |xs|
  {
    if xs != [] {
      assert w2(i, xs[0]) == w1(i, xs[0]);
      ManyAlike(w1, w2, i + 1, xs[1..]);
    }
  }

  /** What has an encoding keeps it one unrolling deeper. */
  lemma {:induction false} EncodesDeeper(env: Env, s: Schema, depth: nat, v: Value)
    requires Encode(Unroll(env, s, depth), v).Some?
    ensures Encode(Unroll(env, s, depth + 1), v) == Encode(Unroll(env, s, depth), v)
    decreases depth, s, 2
  {
    match s
    case Ref(name) => EncodesDeeper(env, env[name], depth - 1, v);
    case Optional(elem) =>
      if v.Present? {
        EncodesDeeper(env, elem, depth, v.value);
      }
      OptionalsWrite(Unroll(env, elem, depth), Unroll(env, elem, depth + 1), v);
    case Union(variants) =>
      EncodesDeeper(env, variants[v.index], depth, v.body);
      UnionsWrite(Unroll(env, s, depth).variants, Unroll(env, s, depth + 1).variants, v);
    case Array(elem) =>
      ItemsDeeper(env, elem, depth);
      ArraysWrite(Unroll(env, elem, depth), Unroll(env, elem, depth + 1), v);
    case Struct(fields) =>
      FieldsDeeper(env, s, depth);
      StructsWrite(Unroll(env, s, depth), Unroll(env, s, depth + 1), v);
    case _ =>
  }

  lemma OptionalsWrite(s1: Schema, s2: Schema, v: Value)
    requires Encode(Optional(s1), v).Some? && (v.Present? ==> Encode(s2, v.value) == Encode(s1, v.value))
    ensures Encode(Optional(s2), v) == Encode(Optional(s1), v)
  {
  }

  lemma UnionsWrite(vs1: seq<Schema>, vs2: seq<Schema>, v: Value)
    requires |vs1| == |vs2| && Encode(Union(vs1), v).Some? && v.Variant? && v.index < |vs1|
    requires Encode(vs2[v.index], v.body) == Encode(vs1[v.index], v.body)
    ensures Encode(Union(vs2), v) == Encode(Union(vs1), v)
  {
  }

  lemma ArraysWrite(s1: Schema, s2: Schema, v: Value)
    requires Encode(Array(s1), v).Some? && WritesAlike(ItemWriter(s1), ItemWriter(s2))
    ensures Encode(Array(s2), v) == Encode(Array(s1), v)
  {
    ManyAlike(ItemWriter(s1), ItemWriter(s2), 0, v.items);
  }

  lemma StructsWrite(s1: Schema, s2: Schema, v: Value)
    requires s1.Struct? && s2.Struct? && |s1.fields| == |s2.fields|
    requires Encode(s1, v).Some? && WritesAlike(FieldWriter(s1), FieldWriter(s2))
    ensures Encode(s2, v) == Encode(s1, v)
  {
    ManyAlike(FieldWriter(s1), FieldWriter(s2), 0, v.items);
  }

  lemma {:induction false} ItemsDeeper(env: Env, elem: Schema, depth: nat)
    ensures WritesAlike(ItemWriter(Unroll(env, elem, depth)), ItemWriter(Unroll(env, elem, depth + 1)))
    decreases depth, elem, 3
  {
    var w1, w2 := ItemWriter(Unroll(env, elem, depth)), ItemWriter(Unroll(env, elem, depth + 1));
    forall i: nat, x: Value | w1(i, x).Some? ensures w2(i, x) == w1(i, x) {
      EncodesDeeper(env, elem, depth, x);
    }
  }

  lemma {:induction false} FieldsDeeper(env: Env, s: Schema, depth: nat)
    requires s.Struct?
    ensures WritesAlike(FieldWriter(Unroll(env, s, depth)), FieldWriter(Unroll(env, s, depth + 1)))
    decreases depth, s, 1
  {
    var w1, w2 := FieldWriter(Unroll(env, s, depth)), FieldWriter(Unroll(env, s, depth + 1));
    forall i: nat, x: Value | w1(i, x).Some? ensures w2(i, x) == w1(i, x) {
      EncodesDeeper(env, s.fields[i], depth, x);
    }
  }

  lemma {:induction false} EncodesUpTo(env: Env, s: Schema, depth: nat, deeper: nat, v: Value)
    requires Encode(Unroll(env, s, depth), v).Some? && depth <= deeper
    ensures Encode(Unroll(env, s, deeper), v) == Encode(Unroll(env, s, depth), v)
    decreases deeper
  {
    if depth < deeper {
      EncodesUpTo(env, s, depth, deeper - 1, v);
      EncodesDeeper(env, s, deeper - 1, v);
    }
  }

  // ------------------------------------------------------------ encoding in an environment

  function Height(v: Value): nat
    decreases v, if v.Items? then |v.items| + 1 else 0
  {
    match v
    case Present(x) => 1 + Height(x)
    case Variant(_, x) => 1 + Height(x)
    case Items(xs) => 1 + Tallest(v, |xs|)
    case _ => 0
  }

  /** The height of the tallest of the first `n` items. */
  function Tallest(v: Value, n: nat): nat
    requires v.Items? && n <= |v.items|
    decreases v, n
  {
    if n == 0 then 0
    else
      var before, last := Tallest(v, n - 1), Height(v.items[n - 1]);
      if before < last then last else before
  }

  lemma {:induction false} ItemsAreLower(v: Value, n: nat, i: nat)
    requires v.Items? && i < n <= |v.items|
    ensures Height(v.items[i]) <= Tallest(v, n)
    decreases n
  {
    if i < n - 1 {
      ItemsAreLower(v, n - 1, i);
    }
  }

  lemma ItemIsLower(v: Value, i: nat)
    requires v.Items? && i < |v.items|
    ensures Height(v.items[i]) < Height(v)
  {
    ItemsAreLower(v, |v.items|, i);
  }

  /** Encoding in an environment: one unrolling per level of the value, and one more. */
  function EncodeIn(env: Env, s: Schema, v: Value): Option<ByteString>
  {
    Encode(Unroll(env, s, Height(v) + 1), v)
  }

  /** The second writer writes these values wherever the first does. */
  ghost predicate WritesToo(w1: (nat, Value) -> Option<ByteString>, w2: (nat, Value) -> Option<ByteString>, i: nat,
                            xs: seq<Value>)
  {
    forall k :: 0 <= k < |xs| && w1(i + k, xs[k]).Some? ==> w2(i + k, xs[k]).Some?
  }

  lemma {:induction false} ManyToo(w1: (nat, Value) -> Option<ByteString>, w2: (nat, Value) -> Option<ByteString>,
                                   i: nat, xs: seq<Value>)
    requires WritesToo(w1, w2, i, xs) && WriteMany(w1, i, xs).Some?
    ensures WriteMany(w2, i, xs).Some?
    decreases |xs|
  {
    if xs != [] {
      assert w1(i + 0, xs[0]).Some?;
      forall k | 0 <= k < |xs[1..]| && w1(i + 1 + k, xs[1..][k]).Some? ensures w2(i + 1 + k, xs[1..][k]).Some? {
        assert w1(i + (k + 1), xs[k + 1]).Some?;
      }
      ManyToo(w1, w2, i + 1, xs[1..]);
    }
  }

  /** Deep enough for this value. */
  predicate TallEnough(s: Schema, depth: nat, v: Value)
  {
    Height(v) < depth || (!s.Ref? && Height(v) <= depth)
  }

  /** What has an encoding one unrolling deeper has one here, once it is unrolled as deep as the value is tall. */
  lemma {:induction false} EncodesShallower(env: Env, s: Schema, depth: nat, v: Value)
    requires GuardedEnv(env) && TallEnough(s, depth, v) && Encode(Unroll(env, s, depth + 1), v).Some?
    ensures Encode(Unroll(env, s, depth), v).Some?
    decreases v, if s.Ref? then 1 else 0
  {
    match s
    case Ref(name) => EncodesShallower(env, env[name], depth - 1, v);
    case Optional(elem) =>
      if v.Present? {
        EncodesShallower(env, elem, depth, v.value);
      }
    case Union(variants) => EncodesShallower(env, variants[v.index], depth, v.body);
    case Array(elem) =>
      var w1, w2 := ItemWriter(Unroll(env, elem, depth + 1)), ItemWriter(Unroll(env, elem, depth));
      forall k | 0 <= k < |v.items| && w1(0 + k, v.items[k]).Some? ensures w2(0 + k, v.items[k]).Some? {
        ItemIsLower(v, k);
        EncodesShallower(env, elem, depth, v.items[k]);
      }
      ManyToo(w1, w2, 0, v.items);
    case Struct(fields) =>
      var w1, w2 := FieldWriter(Unroll(env, s, depth + 1)), FieldWriter(Unroll(env, s, depth));
      forall k | 0 <= k < |v.items| && w1(0 + k, v.items[k]).Some? ensures w2(0 + k, v.items[k]).Some? {
        ItemIsLower(v, k);
        EncodesShallower(env, fields[k], depth, v.items[k]);
      }
      ManyToo(w1, w2, 0, v.items);
    case _ =>
  }

  lemma {:induction false} EncodesDownTo(env: Env, s: Schema, depth: nat, deeper: nat, v: Value)
    requires GuardedEnv(env) && TallEnough(s, depth, v) && depth <= deeper
    requires Encode(Unroll(env, s, deeper), v).Some?
    ensures Encode(Unroll(env, s, depth), v).Some?
    decreases deeper
  {
    if depth < deeper {
      EncodesShallower(env, s, deeper - 1, v);
      EncodesDownTo(env, s, depth, deeper - 1, v);
    }
  }

  /** From a certain depth on the encoding is that in the environment. */
  lemma EncodeAt(env: Env, s: Schema, depth: nat, v: Value)
    requires GuardedEnv(env) && TallEnough(s, depth, v)
    ensures Encode(Unroll(env, s, depth), v) == EncodeIn(env, s, v)
  {
    var deep := Height(v) + 1 + depth;
    if Encode(Unroll(env, s, deep), v).Some? {
      EncodesDownTo(env, s, depth, deep, v);
      EncodesDownTo(env, s, Height(v) + 1, deep, v);
    }
    if Encode(Unroll(env, s, depth), v).Some? {
      EncodesUpTo(env, s, depth, deep, v);
    }
    if EncodeIn(env, s, v).Some? {
      EncodesUpTo(env, s, Height(v) + 1, deep, v);
    }
  }

  /** The encoding at some depth is the encoding in the environment. */
  lemma EncodesIff(env: Env, s: Schema, v: Value, e: ByteString)
    requires GuardedEnv(env)
    ensures HasEncoding(env, s, v, e) <==> EncodeIn(env, s, v) == Some(e)
  {
    if HasEncoding(env, s, v, e) {
      var d: nat :| Encode(Unroll(env, s, d), v) == Some(e);
      EncodesUpTo(env, s, d, Height(v) + 1 + d, v);
      EncodeAt(env, s, Height(v) + 1 + d, v);
    }
  }

  /** A name encodes as the schema it names, and an unknown one not at all. */
  lemma EncodeRef(env: Env, name: string, v: Value)
    requires GuardedEnv(env)
    ensures EncodeIn(env, Ref(name), v) == if name in env then EncodeIn(env, env[name], v) else None
  {
    if name in env {
      EncodeAt(env, env[name], Height(v), v);
    }
  }

  lemma EncodePresent(env: Env, elem: Schema, x: Value)
    requires GuardedEnv(env)
    ensures EncodeIn(env, Optional(elem), Present(x)) == Prefixed(PutWord(1), EncodeIn(env, elem, x))
  {
    EncodeAt(env, elem, Height(Present(x)) + 1, x);
  }

  lemma EncodeVariant(env: Env, variants: seq<Schema>, i: nat, x: Value)
    requires GuardedEnv(env) && i < |variants| && i < WORD_LIMIT
    ensures EncodeIn(env, Union(variants), Variant(i, x)) == Prefixed(PutWord(i), EncodeIn(env, variants[i], x))
  {
    EncodeAt(env, variants[i], Height(Variant(i, x)) + 1, x);
  }

  function ItemWriterIn(env: Env, elem: Schema): (nat, Value) -> Option<ByteString>
  {
    (i: nat, x: Value) => EncodeIn(env, elem, x)
  }

  function FieldWriterIn(env: Env, fields: seq<Schema>): (nat, Value) -> Option<ByteString>
  {
    (i: nat, x: Value) => if i < |fields| then EncodeIn(env, fields[i], x) else None
  }

  lemma {:induction false} ManySame(w1: (nat, Value) -> Option<ByteString>, w2: (nat, Value) -> Option<ByteString>,
                                    i: nat, xs: seq<Value>)
    requires forall k :: 0 <= k < |xs| ==> w1(i + k, xs[k]) == w2(i + k, xs[k])
    ensures WriteMany(w1, i, xs) == WriteMany(w2, i, xs)
    decreases |xs|
  {
    if xs != [] {
      assert w1(i + 0, xs[0]) == w2(i + 0, xs[0]);
      forall k | 0 <= k < |xs[1..]| ensures w1(i + 1 + k, xs[1..][k]) == w2(i + 1 + k, xs[1..][k]) {
        assert w1(i + (k + 1), xs[k + 1]) == w2(i + (k + 1), xs[k + 1]);
      }
      ManySame(w1, w2, i + 1, xs[1..]);
    }
  }

  /** An array writes its count, and then its elements in the same environment. */
  lemma EncodeArray(env: Env, elem: Schema, v: Value)
    requires GuardedEnv(env) && v.Items? && |v.items| < WORD_LIMIT
    ensures EncodeIn(env, Array(elem), v) ==
            Prefixed(PutWord(|v.items|), WriteMany(ItemWriterIn(env, elem), 0, v.items))
  {
    ArrayUnrolls(env, elem, Height(v) + 1);
    ArrayWrites(Unroll(env, elem, Height(v) + 1), v);
    ItemsSame(env, elem, v);
  }

  lemma ArrayUnrolls(env: Env, elem: Schema, depth: nat)
    ensures Unroll(env, Array(elem), depth) == Array(Unroll(env, elem, depth))
  {
  }

  lemma ArrayWrites(elem: Schema, v: Value)
    requires v.Items? && |v.items| < WORD_LIMIT
    ensures Encode(Array(elem), v) == Prefixed(PutWord(|v.items|), WriteMany(ItemWriter(elem), 0, v.items))
  {
  }

  lemma ItemsSame(env: Env, elem: Schema, v: Value)
    requires GuardedEnv(env) && v.Items?
    ensures WriteMany(ItemWriter(Unroll(env, elem, Height(v) + 1)), 0, v.items) ==
            WriteMany(ItemWriterIn(env, elem), 0, v.items)
  {
    var w1, w2 := ItemWriter(Unroll(env, elem, Height(v) + 1)), ItemWriterIn(env, elem);
    forall k | 0 <= k < |v.items| ensures w1(0 + k, v.items[k]) == w2(0 + k, v.items[k]) {
      ItemIsLower(v, k);
      EncodeAt(env, elem, Height(v) + 1, v.items[k]);
    }
    ManySame(w1, w2, 0, v.items);
  }

  /** A struct writes its fields one after the other in the same environment. */
  lemma EncodeStruct(env: Env, fields: seq<Schema>, v: Value)
    requires GuardedEnv(env) && v.Items? && |v.items| == |fields|
    ensures EncodeIn(env, Struct(fields), v) == WriteMany(FieldWriterIn(env, fields), 0, v.items)
  {
    var s := Unroll(env, Struct(fields), Height(v) + 1);
    StructWrites(s, v);
    FieldsSame(env, fields, v);
  }

  lemma StructWrites(s: Schema, v: Value)
    requires s.Struct? && v.Items? && |v.items| == |s.fields|
    ensures Encode(s, v) == WriteMany(FieldWriter(s), 0, v.items)
  {
  }

  lemma FieldsSame(env: Env, fields: seq<Schema>, v: Value)
    requires GuardedEnv(env) && v.Items? && |v.items| == |fields|
    ensures WriteMany(FieldWriter(Unroll(env, Struct(fields), Height(v) + 1)), 0, v.items) ==
            WriteMany(FieldWriterIn(env, fields), 0, v.items)
  {
    var w1, w2 := FieldWriter(Unroll(env, Struct(fields), Height(v) + 1)), FieldWriterIn(env, fields);
    forall k | 0 <= k < |v.items| ensures w1(0 + k, v.items[k]) == w2(0 + k, v.items[k]) {
      ItemIsLower(v, k);
      EncodeAt(env, fields[k], Height(v) + 1, v.items[k]);
    }
    ManySame(w1, w2, 0, v.items);
  }

  // ------------------------------------------------------------ the theorems, for recursive types

  /** A depth at which the value has its encoding and the input is decoded as in the environment. */
  lemma CommonDepth(env: Env, s: Schema, v: Value, e: ByteString, b: ByteString) returns (depth: nat)
    requires GuardedEnv(env) && HasEncoding(env, s, v, e)
    ensures Encode(Unroll(env, s, depth), v) == Some(e)
    ensures Decode(Unroll(env, s, depth), b) == DecodeIn(env, s, b)
  {
    var d: nat :| Encode(Unroll(env, s, d), v) == Some(e);
    var needed := |b| / 4 + 1;
    depth := if d < needed then needed else d;
    EncodesUpTo(env, s, d, depth, v);
    StableUpTo(env, s, needed, depth, b);
  }

  /** Decoding an encoding followed by any bytes returns the value and exactly those bytes. */
  lemma RoundTripIn(env: Env, s: Schema, v: Value, e: ByteString, rest: ByteString)
    requires GuardedEnv(env) && HasEncoding(env, s, v, e)
    ensures DecodeIn(env, s, e + rest) == Some(Read(v, rest))
  {
    var depth := CommonDepth(env, s, v, e, e + rest);
    RoundTrip(Unroll(env, s, depth), v, rest);
  }

  /** Every encoding is a multiple of four long. */
  lemma AlignedIn(env: Env, s: Schema, v: Value, e: ByteString)
    requires HasEncoding(env, s, v, e)
    ensures |e| % 4 == 0
  {
    var depth: nat :| Encode(Unroll(env, s, depth), v) == Some(e);
    Aligned(Unroll(env, s, depth), v);
  }

  /** No strict prefix of an encoding decodes. */
  lemma NoPrefixDecodesIn(env: Env, s: Schema, v: Value, e: ByteString, n: nat)
    requires GuardedEnv(env) && HasEncoding(env, s, v, e) && n < |e|
    ensures DecodeIn(env, s, e[..n]).None?
  {
    var depth := CommonDepth(env, s, v, e, e[..n]);
    NoPrefixDecodes(Unroll(env, s, depth), v, n);
  }

  /** Whatever decodes has an encoding of as many bytes as were read. */
  lemma DecodedEncodesIn(env: Env, s: Schema, b: ByteString)
    requires DecodeIn(env, s, b).Some?
    ensures var r := DecodeIn(env, s, b).value;
            exists e :: HasEncoding(env, s, r.got, e) && |e| + |r.rest| == |b|
  {
    var t := Unroll(env, s, |b| / 4 + 1);
    DecodedEncodes(t, b);
    assert HasEncoding(env, s, DecodeIn(env, s, b).value.got, Encode(t, DecodeIn(env, s, b).value.got).value);
  }

  /** A value has one encoding. */
  lemma EncodingIsUnique(env: Env, s: Schema, v: Value, e: ByteString, f: ByteString)
    requires HasEncoding(env, s, v, e) && HasEncoding(env, s, v, f)
    ensures e == f
  {
    var d: nat :| Encode(Unroll(env, s, d), v) == Some(e);
    var g: nat :| Encode(Unroll(env, s, g), v) == Some(f);
    EncodesUpTo(env, s, d, if d < g then g else d, v);
    EncodesUpTo(env, s, g, if d < g then g else d, v);
  }

  // ------------------------------------------------------------ directory listings

  /** A directory entry: cookie, name, attributes and, behind a flag, the next entry. */
  const ENTRY := Struct([Hyper, Opaque, FATTR, Optional(Ref("entry"))])

  function Directory(): Env { map["entry" := ENTRY] }

  /** Cookie, name and attributes of the entries of a listing, as one linked value. */
  function Linked(entries: seq<(Value, Value, Value)>): Value
  {
    if entries == [] then Absent
    else Present(Items([entries[0].0, entries[0].1, entries[0].2, Linked(entries[1..])]))
  }

  predicate EntryFits(e: (Value, Value, Value))
  {
    Encode(Hyper, e.0).Some? && Encode(Opaque, e.1).Some? && Encode(FATTR, e.2).Some?
  }

  lemma DirectoryIsGuarded()
    ensures GuardedEnv(Directory())
  {
    var fields := ENTRY.fields;
    assert Guarded(fields[0]) && Guarded(fields[1]) && Guarded(fields[3]);
    assert Guarded(FATTR.fields[0]) && Guarded(FATTR.fields[1]);
    assert Guarded(fields[2]);
  }

  /** The entry unrolled: its fields as they are, and the next entry one unrolling less. */
  lemma EntryUnrolled(depth: nat)
    ensures Unroll(Directory(), Optional(Ref("entry")), depth + 1) ==
            Optional(Struct([Hyper, Opaque, FATTR, Unroll(Directory(), Optional(Ref("entry")), depth)]))
  {
    var env := Directory();
    PlainUnrolled(env, depth);
    var u := Unroll(env, ENTRY, depth);
    assert u.fields == [Hyper, Opaque, FATTR, Unroll(env, Optional(Ref("entry")), depth)];
  }

  lemma PlainUnrolled(env: Env, depth: nat)
    ensures Unroll(env, Hyper, depth) == Hyper && Unroll(env, Opaque, depth) == Opaque
            && Unroll(env, FATTR, depth) == FATTR
  {
    assert Unroll(env, Unsigned(4), depth) == Unsigned(4);
    assert Unroll(env, Array(Unsigned(4)), depth) == Array(Unsigned(4));
    assert Unroll(env, Opaque, depth) == Opaque;
    var t := Unroll(env, FATTR, depth);
    assert t.fields[0] == Unroll(env, FATTR.fields[0], depth) && t.fields[1] == Unroll(env, FATTR.fields[1], depth);
    assert t.fields == [Array(Unsigned(4)), Opaque];
  }

  lemma FourFieldsEncode(next: Schema, a: Value, b: Value, c: Value, d: Value)
    requires Encode(Hyper, a).Some? && Encode(Opaque, b).Some? && Encode(FATTR, c).Some? && Encode(next, d).Some?
    ensures Encode(Struct([Hyper, Opaque, FATTR, next]), Items([a, b, c, d])).Some?
  {
    var s, xs := Struct([Hyper, Opaque, FATTR, next]), [a, b, c, d];
    var w := FieldWriter(s);
    assert w(0, a) == Encode(Hyper, a) && w(1, b) == Encode(Opaque, b) && w(2, c) == Encode(FATTR, c)
           && w(3, d) == Encode(next, d);
    assert WriteMany(w, 4, []) == Some([]);
    assert [d][1..] == [] && [c, d][1..] == [d] && [b, c, d][1..] == [c, d] && xs[1..] == [b, c, d];
    assert WriteMany(w, 3, [d]).Some?;
    assert WriteMany(w, 2, [c, d]).Some?;
    assert WriteMany(w, 1, [b, c, d]).Some?;
  }

  /** One more entry in front. */
  lemma EntryEncodes(next: Schema, e: (Value, Value, Value), tail: Value)
    requires EntryFits(e) && Encode(next, tail).Some?
    ensures Encode(Optional(Struct([Hyper, Opaque, FATTR, next])), Present(Items([e.0, e.1, e.2, tail]))).Some?
  {
    FourFieldsEncode(next, e.0, e.1, e.2, tail);
  }

  /** Some value of the listing, at some depth, that can be written. */
  ghost predicate Writes(depth: nat, entries: seq<(Value, Value, Value)>)
  {
    Encode(Unroll(Directory(), Optional(Ref("entry")), depth), Linked(entries)).Some?
  }

  lemma WritesOneMore(depth: nat, entries: seq<(Value, Value, Value)>)
    requires entries != [] && EntryFits(entries[0]) && Writes(depth, entries[1..])
    ensures Writes(depth + 1, entries)
  {
    EntryUnrolled(depth);
    EntryEncodes(Unroll(Directory(), Optional(Ref("entry")), depth), entries[0], Linked(entries[1..]));
  }

  lemma WritesNone(entries: seq<(Value, Value, Value)>)
    requires entries == []
    ensures Writes(0, entries)
  {
  }

  ghost predicate AllFit(entries: seq<(Value, Value, Value)>)
  {
    forall i :: 0 <= i < |entries| ==> EntryFits(entries[i])
  }

  lemma FitsCons(entries: seq<(Value, Value, Value)>)
    requires AllFit(entries) && entries != []
    ensures EntryFits(entries[0]) && AllFit(entries[1..])
  {
  }

  lemma {:induction false} ListingEncodes(entries: seq<(Value, Value, Value)>, depth: nat)
    requires AllFit(entries) && depth == |entries|
    ensures Writes(depth, entries)
    decreases depth
  {
    if depth == 0 {
      WritesNone(entries);
    } else {
      FitsCons(entries);
      ListingEncodes(entries[1..], depth - 1);
      WritesOneMore(depth - 1, entries);
    }
  }

  /** A directory listing of any length, whose entries fit their fields, comes back from the wire as it went. */
  lemma ListingRoundTrip(entries: seq<(Value, Value, Value)>, rest: ByteString)
    requires AllFit(entries)
    ensures exists e :: HasEncoding(Directory(), Optional(Ref("entry")), Linked(entries), e)
              && DecodeIn(Directory(), Optional(Ref("entry")), e + rest) == Some(Read(Linked(entries), rest))
  {
    ListingEncodes(entries, |entries|);
    DirectoryIsGuarded();
    var e := Encode(Unroll(Directory(), Optional(Ref("entry")), |entries|), Linked(entries)).value;
    assert HasEncoding(Directory(), Optional(Ref("entry")), Linked(entries), e);
    RoundTripIn(Directory(), Optional(Ref("entry")), Linked(entries), e, rest);
  }
}
