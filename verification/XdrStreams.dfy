/**
  The serializer and the deserializer as the objects they are: one appends to
  a writer, the other advances a reader.  Each method is proved to do what the
  encoding functions say, recursive types included: the schemas a type names
  stand in the object's environment.
 */
module XdrStreams {
  import opened Wrappers
  import opened Bytes
  import opened Xdr
  import opened RecursiveXdr

  /** The method's answer and the reader it leaves are what the function `r` says. */
  ghost predicate Agrees<T(!new)>(answer: Option<T>, reader: ByteString, r: Option<Read<T>>)
  {
    if r.None? then answer.None? else answer == Some(r.value.got) && reader == r.value.rest
  }

  /** A name has to be looked up before anything is read; nothing else has to. */
  function Level(s: Schema): nat { if Guarded(s) then 0 else 1 }

  /** `read` reads elements, and fields, as the environment has it. */
  ghost predicate ReadsItems(read: (nat, ByteString) -> Option<Read<Value>>, env: Env, elem: Schema)
  {
    forall i: nat, b {:trigger read(i, b), DecodeIn(env, elem, b)} :: read(i, b) == DecodeIn(env, elem, b)
  }

  ghost predicate ReadsFields(read: (nat, ByteString) -> Option<Read<Value>>, env: Env, fields: seq<Schema>)
  {
    forall i: nat, b {:trigger read(i, b), DecodeIn(env, fields[i], b)} ::
      i < |fields| ==> read(i, b) == DecodeIn(env, fields[i], b)
  }

  class Deserializer {
    const env: Env
    var reader: ByteString

    constructor (env: Env, bytes: ByteString)
      ensures this.env == env && reader == bytes
    {
      this.env := env;
      reader := bytes;
    }

    /** `read_exact` of `n` bytes */
    method Get(n: nat) returns (bytes: Option<ByteString>)
      modifies this
      ensures Agrees(bytes, reader, if |old(reader)| < n then None else Some(Read(old(reader)[..n], old(reader)[n..])))
      ensures |reader| <= |old(reader)|
    {
      if |reader| < n {
        reader := [];
        return None;
      }
      bytes := Some(reader[..n]);
      reader := reader[n..];
    }

    method GetU32() returns (word: Option<nat>)
      modifies this
      ensures Agrees(word, reader, GetWord(old(reader))) && |reader| <= |old(reader)|
    {
      var bytes := Get(4);
      word := if bytes.None? then None else Some(Bytes.Value(bytes.value));
    }

    method GetOpaqueData() returns (data: Option<ByteString>)
      modifies this
      ensures Agrees(data, reader, GetOpaque(old(reader))) && |reader| <= |old(reader)|
    {
      var len := GetU32();
      if len.None? {
        return None;
      }
      ghost var after := reader;
      data := Get(len.value);
      if data.None? {
        return None;
      }
      var pad := Get(Padding(|data.value|));
      if pad.None? {
        return None;
      }
      assert reader == after[len.value + Padding(len.value)..];
    }

    /** `fixed_length::deserialize`: a word per block of four bytes. */
    method GetFixed(len: nat) returns (data: Option<ByteString>)
      modifies this
      ensures Agrees(data, reader, GetBlocks(len, old(reader))) && |reader| <= |old(reader)|
    {
      var out: ByteString := [];
      var left: nat := len;
      PrependNothing(GetBlocks(len, reader));
      while left > 0
        invariant left <= len && |reader| <= |old(reader)|
        invariant GetBlocks(len, old(reader)) == Prepend(out, GetBlocks(left, reader))
      {
        ghost var before := reader;
        var word := GetU32();
        if word.None? {
          return None;
        }
        var chunk := BigEndian(word.value, 4);
        if left < 4 {
          chunk := chunk[..left];
        }
        BlockStep(GetBlocks(len, old(reader)), out, left, before, word.value, chunk, reader);
        out := out + chunk;
        left := left - |chunk|;
      }
      assert out + [] == out;
      return Some(out);
    }

    /** Reads a value of type `s`; what is named in it is read by the schema of that name. */
    method Deserialize(s: Schema) returns (v: Option<Value>)
      requires GuardedEnv(env)
      modifies this
      ensures Agrees(v, reader, DecodeIn(env, s, old(reader))) && |reader| <= |old(reader)|
      decreases |reader|, Level(s), s, 2
    {
      match s {
        case Opaque =>
          var data := GetOpaqueData();
          v := if data.None? then None else Some(Data(data.value));
        case Fixed(len) =>
          var data := GetFixed(len);
          v := if data.None? then None else Some(Data(data.value));
        case Struct(fields) =>
          DecodeStruct(env, fields, reader);
          var items := Fields(s, FieldReaderIn(env, fields));
          v := if items.None? then None else Some(Items(items.value));
        case Hyper =>
          var bytes := Get(8);
          v := if bytes.None? then None else Some(Number(Bytes.Value(bytes.value)));
        case SignedHyper =>
          var bytes := Get(8);
          v := if bytes.None? then None else Some(Number(ToSigned(Bytes.Value(bytes.value), HYPER_LIMIT)));
        case Ref(name) =>
          if name !in env {
            UnknownName(env, name, reader);
            return None;
          }
          DecodeRef(env, name, reader);
          v := Deserialize(env[name]);
        case _ =>
          DecodeWord(env, s, reader);
          var word := GetU32();
          if word.None? {
            return None;
          }
          v := AfterWord(s, word.value);
      }
    }

    /** The types that start with a word, once it is read. */
    method AfterWord(s: Schema, n: nat) returns (v: Option<Value>)
      requires GuardedEnv(env)
      modifies this
      ensures Agrees(v, reader, AfterWordIn(env, s, n, old(reader))) && |reader| <= |old(reader)|
      decreases |reader| + 2, 0, s, 0
    {
      match s {
        case Unsigned(w) => v := if UnsignedFits(n, w) then Some(Number(n)) else None;
        case Signed(w) =>
          v := if SignedFits(ToSigned(n, WORD_LIMIT), w) then Some(Number(ToSigned(n, WORD_LIMIT))) else None;
        case Char => v := if IsChar(n) then Some(Number(n)) else None;
        case Bool => v := if n > 1 then None else Some(Flag(n == 1));
        case Optional(elem) =>
          if n == 0 {
            return Some(Absent);
          }
          if n != 1 {
            return None;
          }
          var x := Deserialize(elem);
          v := if x.None? then None else Some(Present(x.value));
        case Array(elem) =>
          var items := Elements(elem, n, ItemReaderIn(env, elem));
          v := if items.None? then None else Some(Items(items.value));
        case Union(variants) =>
          if n >= |variants| {
            return None;
          }
          var x := Deserialize(variants[n]);
          v := if x.None? then None else Some(Variant(n, x.value));
        case _ => v := None;
      }
    }

    method NextItem(elem: Schema, ghost i: nat, ghost read: (nat, ByteString) -> Option<Read<Value>>)
      returns (x: Option<Value>)
      requires GuardedEnv(env) && ReadsItems(read, env, elem)
      modifies this
      ensures Agrees(x, reader, read(i, old(reader))) && |reader| <= |old(reader)|
      decreases |reader|, 2, elem, 0
    {
      x := Deserialize(elem);
    }

    method NextField(s: Schema, i: nat, ghost read: (nat, ByteString) -> Option<Read<Value>>) returns (x: Option<Value>)
      requires GuardedEnv(env) && s.Struct? && i < |s.fields| && ReadsFields(read, env, s.fields)
      modifies this
      ensures Agrees(x, reader, read(i, old(reader))) && |reader| <= |old(reader)|
      decreases |reader|, Level(s), s, 0
    {
      x := Deserialize(s.fields[i]);
    }

    /** `Elements` of an array: `count` values, one at a time. */
    method Elements(elem: Schema, count: nat, ghost read: (nat, ByteString) -> Option<Read<Value>>)
      returns (items: Option<seq<Value>>)
      requires GuardedEnv(env) && ReadsItems(read, env, elem)
      modifies this
      ensures Agrees(items, reader, ReadMany(read, 0, count, old(reader))) && |reader| <= |old(reader)|
      decreases |reader| + 1, 0, elem, 0
    {
      var out: seq<Value> := [];
      var left: nat := count;
      ghost var goal := ReadMany(read, 0, count, reader);
      PrependNothing(goal);
      while left > 0
        invariant left <= count && goal == Prepend(out, ReadMany(read, count - left, count, reader))
        invariant |reader| <= |old(reader)|
      {
        ghost var i, before := count - left, reader;
        var x := NextItem(elem, i, read);
        ManyStep(goal, out, read, i, count, before, x, reader);
        if x.None? {
          return None;
        }
        out := out + [x.value];
        left := left - 1;
        assert count - left == i + 1;
      }
      ManyDone(goal, out, read, count, reader);
      return Some(out);
    }

    /** `Elements` of a struct: its fields in order. */
    method Fields(s: Schema, ghost read: (nat, ByteString) -> Option<Read<Value>>) returns (items: Option<seq<Value>>)
      requires GuardedEnv(env) && s.Struct? && ReadsFields(read, env, s.fields)
      modifies this
      ensures Agrees(items, reader, ReadMany(read, 0, |s.fields|, old(reader)))
      ensures |reader| <= |old(reader)|
      decreases |reader|, Level(s), s, 1
    {
      var out: seq<Value> := [];
      var count := |s.fields|;
      var left: nat := count;
      ghost var goal := ReadMany(read, 0, count, reader);
      PrependNothing(goal);
      while left > 0
        invariant left <= count && goal == Prepend(out, ReadMany(read, count - left, count, reader))
        invariant |reader| <= |old(reader)|
      {
        var i := count - left;
        ghost var before := reader;
        var x := NextField(s, i, read);
        ManyStep(goal, out, read, i, count, before, x, reader);
        if x.None? {
          return None;
        }
        out := out + [x.value];
        left := left - 1;
        assert count - left == i + 1;
      }
      ManyDone(goal, out, read, count, reader);
      return Some(out);
    }
  }

  /** One more block read: what is read behind it meets the goal. */
  lemma BlockStep(goal: Option<Read<ByteString>>, out: ByteString, left: nat, before: ByteString, word: nat,
                  chunk: ByteString, after: ByteString)
    requires left > 0 && goal == Prepend(out, GetBlocks(left, before)) && GetWord(before) == Some(Read(word, after))
    requires chunk == if left < 4 then BigEndian(word, 4)[..left] else BigEndian(word, 4)
    ensures goal == Prepend(out + chunk, GetBlocks(left - |chunk|, after))
  {
    var more := GetBlocks(left - |chunk|, after);
    if more.Some? {
      assert GetBlocks(left, before).value.got == chunk + more.value.got;
      assert out + (chunk + more.value.got) == (out + chunk) + more.value.got;
    }
  }

  lemma UnknownName(env: Env, name: string, b: ByteString)
    requires name !in env
    ensures DecodeIn(env, Ref(name), b).None?
  {
    assert Unroll(env, Ref(name), |b| / 4 + 1) == NEVER;
  }

  lemma ManyDone(goal: Option<Read<seq<Value>>>, out: seq<Value>, read: (nat, ByteString) -> Option<Read<Value>>,
                 n: nat, b: ByteString)
    requires goal == Prepend(out, ReadMany(read, n, n, b))
    ensures goal == Some(Read(out, b))
  {
    assert out + [] == out;
  }

  /** One more value read: the goal is met by what is read behind it, or missed. */
  lemma ManyStep(goal: Option<Read<seq<Value>>>, out: seq<Value>, read: (nat, ByteString) -> Option<Read<Value>>,
                 i: nat, n: nat, before: ByteString, x: Option<Value>, after: ByteString)
    requires i < n && goal == Prepend(out, ReadMany(read, i, n, before)) && Agrees(x, after, read(i, before))
    ensures x.None? ==> goal.None?
    ensures x.Some? ==> goal == Prepend(out + [x.value], ReadMany(read, i + 1, n, after))
  {
    if x.Some? {
      PrependCons(out, x.value, ReadMany(read, i + 1, n, after));
    }
  }

  class Serializer {
    const env: Env
    var writer: ByteString

    constructor (env: Env)
      ensures this.env == env && writer == []
    {
      this.env := env;
      writer := [];
    }

    method PutU32(n: nat)
      modifies this
      ensures writer == old(writer) + PutWord(n)
    {
      writer := writer + BigEndian(n, 4);
    }

    method PutOpaqueData(data: ByteString) returns (ok: bool)
      modifies this
      ensures ok <==> PutOpaque(data).Some?
      ensures ok ==> writer == old(writer) + PutOpaque(data).value
    {
      if |data| >= WORD_LIMIT {
        return false;
      }
      PutU32(|data|);
      writer := writer + data;
      writer := writer + Zeros(Padding(|data|));
      return true;
    }

    /** `fixed_length::serialize`: a word per block of four bytes. */
    method PutFixed(data: ByteString)
      modifies this
      ensures writer == old(writer) + PutBlocks(data)
    {
      var left := data;
      while |left| > 0
        invariant writer + PutBlocks(left) == old(writer) + PutBlocks(data)
        decreases |left|
      {
        var n := if |left| < 4 then |left| else 4;
        var block := left[..n] + Zeros(4 - n);
        ghost var start, rest := writer, PutBlocks(left[n..]);
        assert n == 4 ==> block == left[..4];
        assert n < 4 ==> block == left + Zeros(4 - n) && left[n..] == [];
        assert PutBlocks(left) == PutWord(Bytes.Value(block)) + rest;
        PutU32(Bytes.Value(block));
        assert writer + rest == start + (PutWord(Bytes.Value(block)) + rest);
        left := left[n..];
      }
    }

    method PutData(s: Schema, d: ByteString) returns (ok: bool)
      modifies this
      ensures ok <==> Encode(s, Data(d)).Some?
      ensures ok ==> writer == old(writer) + Encode(s, Data(d)).value
    {
      if s.Opaque? {
        ok := PutOpaqueData(d);
      } else {
        ok := s.Fixed? && |d| == s.len;
        if ok {
          PutFixed(d);
        }
      }
    }

    /** Appends the encoding of `v`; what is named in its type is written by the schema of that name. */
    method Serialize(s: Schema, v: Value) returns (ok: bool)
      requires GuardedEnv(env)
      modifies this
      ensures ok <==> EncodeIn(env, s, v).Some?
      ensures ok ==> writer == old(writer) + EncodeIn(env, s, v).value
      decreases v, if s.Ref? then 1 else 0, 2
    {
      if s.Ref? {
        EncodeRef(env, s.name, v);
        if s.name !in env {
          return false;
        }
        ok := Serialize(env[s.name], v);
        return;
      }
      match v {
        case Present(x) =>
          if !s.Optional? {
            return false;
          }
          EncodePresent(env, s.elem, x);
          ok := PutTagged(1, s.elem, x);
        case Items(xs) =>
          if s.Array? && |xs| < WORD_LIMIT {
            EncodeArray(env, s.elem, v);
            ok := PutArray(s.elem, v);
          } else if s.Struct? && |xs| == |s.fields| {
            EncodeStruct(env, s.fields, v);
            ok := PutFields(s, v);
          } else {
            ok := false;
          }
        case Variant(i, x) =>
          if !(s.Union? && i < |s.variants| && i < WORD_LIMIT) {
            return false;
          }
          EncodeVariant(env, s.variants, i, x);
          ok := PutTagged(i, s.variants[i], x);
        case _ =>
          LeafEncodes(env, s, v);
          ok := PutLeaf(s, v);
      }
    }

    /** Flags, numbers, byte strings and absent options. */
    method PutLeaf(s: Schema, v: Value) returns (ok: bool)
      requires v.Flag? || v.Number? || v.Data? || v.Absent?
      modifies this
      ensures ok <==> Encode(s, v).Some?
      ensures ok ==> writer == old(writer) + Encode(s, v).value
    {
      match v {
        case Flag(b) =>
          ok := s.Bool?;
          if ok {
            PutU32(if b then 1 else 0);
          }
        case Number(n) =>
          var bytes := PutNumber(s, n);
          ok := bytes.Some?;
          if ok {
            writer := writer + bytes.value;
          }
        case Data(d) => ok := PutData(s, d);
        case Absent =>
          ok := s.Optional?;
          if ok {
            PutU32(0);
          }
      }
    }

    method PutTagged(n: nat, s: Schema, x: Value) returns (ok: bool)
      requires GuardedEnv(env)
      modifies this
      ensures ok <==> EncodeIn(env, s, x).Some?
      ensures ok ==> writer == old(writer) + (PutWord(n) + EncodeIn(env, s, x).value)
      decreases x, 2, 0
    {
      PutU32(n);
      ok := Serialize(s, x);
    }

    method PutArray(elem: Schema, v: Value) returns (ok: bool)
      requires GuardedEnv(env) && v.Items?
      modifies this
      ensures ok <==> WriteMany(ItemWriterIn(env, elem), 0, v.items).Some?
      ensures ok ==> writer == old(writer) + (PutWord(|v.items|) + WriteMany(ItemWriterIn(env, elem), 0, v.items).value)
      decreases v, 0, 1
    {
      PutU32(|v.items|);
      ok := PutItems(elem, v);
    }

    method PutItems(elem: Schema, v: Value) returns (ok: bool)
      requires GuardedEnv(env) && v.Items?
      modifies this
      ensures ok <==> WriteMany(ItemWriterIn(env, elem), 0, v.items).Some?
      ensures ok ==> writer == old(writer) + WriteMany(ItemWriterIn(env, elem), 0, v.items).value
      decreases v, 0, 0
    {
      ghost var write, start := ItemWriterIn(env, elem), writer;
      ghost var goal := WriteMany(write, 0, v.items);
      var i := 0;
      while i < |v.items|
        invariant i <= |v.items| && Owes(start, writer, goal, WriteMany(write, i, v.items[i..]))
      {
        ghost var before := writer;
        ok := Serialize(elem, v.items[i]);
        OneLess(write, i, v.items, start, before, goal);
        if !ok {
          return false;
        }
        i := i + 1;
      }
      return true;
    }

    method PutFields(s: Schema, v: Value) returns (ok: bool)
      requires GuardedEnv(env) && s.Struct? && v.Items? && |v.items| == |s.fields|
      modifies this
      ensures ok <==> WriteMany(FieldWriterIn(env, s.fields), 0, v.items).Some?
      ensures ok ==> writer == old(writer) + WriteMany(FieldWriterIn(env, s.fields), 0, v.items).value
      decreases v, 0, 1
    {
      ghost var write, start := FieldWriterIn(env, s.fields), writer;
      ghost var goal := WriteMany(write, 0, v.items);
      var i := 0;
      while i < |v.items|
        invariant i <= |v.items| && Owes(start, writer, goal, WriteMany(write, i, v.items[i..]))
      {
        ghost var before := writer;
        ok := Serialize(s.fields[i], v.items[i]);
        OneLess(write, i, v.items, start, before, goal);
        if !ok {
          return false;
        }
        i := i + 1;
      }
      return true;
    }
  }

  lemma LeafEncodes(env: Env, s: Schema, v: Value)
    requires !s.Ref? && (v.Flag? || v.Number? || v.Data? || v.Absent?)
    ensures EncodeIn(env, s, v) == Encode(s, v)
  {
  }

  /** One more value written: less is owed, or nothing can be. */
  lemma OneLess(write: (nat, Value) -> Option<ByteString>, i: nat, xs: seq<Value>, start: ByteString,
                writer: ByteString, goal: Option<ByteString>)
    requires i < |xs| && Owes(start, writer, goal, WriteMany(write, i, xs[i..]))
    ensures write(i, xs[i]).None? ==> goal.None?
    ensures write(i, xs[i]).Some? ==>
            Owes(start, writer + write(i, xs[i]).value, goal, WriteMany(write, i + 1, xs[i + 1..]))
  {
    assert xs[i..][0] == xs[i] && xs[i..][1..] == xs[i + 1..];
    if write(i, xs[i]).Some? {
      OwesLess(start, writer, goal, write(i, xs[i]).value, WriteMany(write, i + 1, xs[i + 1..]));
    }
  }

  /** What was written from `start` on, with `rest` behind it, will be `goal`. */
  predicate Owes(start: ByteString, writer: ByteString, goal: Option<ByteString>, rest: Option<ByteString>)
  {
    && (goal.Some? <==> rest.Some?)
    && (goal.Some? ==> writer + rest.value == start + goal.value)
  }

  lemma OwesLess(start: ByteString, writer: ByteString, goal: Option<ByteString>, head: ByteString,
                 tail: Option<ByteString>)
    requires Owes(start, writer, goal, Prefixed(head, tail))
    ensures Owes(start, writer + head, goal, tail)
  {
    if tail.Some? {
      assert writer + (head + tail.value) == (writer + head) + tail.value;
    }
  }

  /** `from_bytes` after `to_bytes`, with anything behind: the same value comes back. */
  method EncodeThenDecode(env: Env, s: Schema, v: Value, rest: ByteString) returns (back: Option<Value>)
    requires GuardedEnv(env)
    ensures back == if exists e :: HasEncoding(env, s, v, e) then Some(v) else None
  {
    var w := new Serializer(env);
    var ok := w.Serialize(s, v);
    if !ok {
      forall e ensures !HasEncoding(env, s, v, e) {
        EncodesIff(env, s, v, e);
      }
      return None;
    }
    assert w.writer == EncodeIn(env, s, v).value;
    EncodesIff(env, s, v, w.writer);
    RoundTripIn(env, s, v, w.writer, rest);
    var r := new Deserializer(env, w.writer + rest);
    back := r.Deserialize(s);
  }
}
