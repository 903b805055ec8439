/**
  MIT keytab files, format 0x0502: slots of a signed size and a body, a
  negative size marking a deleted slot.  Names are byte strings here.
 */
module Keytab {
  import opened Wrappers
  import opened Bytes
  import opened Xdr

  type I32 = x: int | -0x8000_0000 <= x < 0x8000_0000

  datatype Entry = Entry(
    realm: ByteString,
    components: seq<ByteString>,
    nameType: U32,
    timestamp: U32,
    kvno: U32,
    enctype: I32,
    key: ByteString)

  datatype Error = OldVersion | BadMagic | Truncated

  // ------------------------------------------------------------ reading a body

  function GetBytes(b: ByteString, n: nat): Option<Read<ByteString>>
  {
    if |b| < n then None else Some(Read(b[..n], b[n..]))
  }

  /** A 16-bit length and so many bytes. */
  function GetData(b: ByteString): Option<Read<ByteString>>
  {
    var n := GetNumber(b, 2);
    if n.None? then None else GetBytes(n.value.rest, n.value.got)
  }

  function GetStrings(count: nat, b: ByteString): Option<Read<seq<ByteString>>>
    decreases count
  {
    if count == 0 then Some(Read([], b))
    else
      var head := GetData(b);
      if head.None? then None else Cons(head.value.got, GetStrings(count - 1, head.value.rest))
  }

  /** The realm and the components after their count. */
  function GetNames(b: ByteString): (r: Option<Read<seq<ByteString>>>)
  {
    var n := GetNumber(b, 2);
    if n.None? then None else GetStrings(n.value.got + 1, n.value.rest)
  }

  /** Name type, time stamp, 8-bit key version and enctype. */
  datatype Numbers = Numbers(nameType: nat, timestamp: nat, kvno8: nat, enctype: nat)

  function GetNumbers(b: ByteString): Option<Read<Numbers>>
  {
    if |b| < 11 then None
    else Some(Read(Numbers(Bytes.Value(b[..4]), Bytes.Value(b[4..8]), b[8], Bytes.Value(b[9..11])), b[11..]))
  }

  /** The 32-bit key version, when present and not zero, overrides the 8-bit one. */
  function GetKvno(b: ByteString, kvno8: nat): nat
  {
    if |b| < 4 || Bytes.Value(b[..4]) == 0 then kvno8 else Bytes.Value(b[..4])
  }

  lemma {:induction false} StringsCounted(count: nat, b: ByteString)
    requires GetStrings(count, b).Some?
    ensures |GetStrings(count, b).value.got| == count
    ensures forall i :: 0 <= i < count ==> |GetStrings(count, b).value.got[i]| < 0x1_0000
    decreases count
  {
    if count > 0 {
      Widths();
      ValueBound(b[..2]);
      StringsCounted(count - 1, GetData(b).value.rest);
    }
  }

  lemma NumbersBounded(b: ByteString)
    requires |b| >= 11
    ensures Bytes.Value(b[..4]) < 0x1_0000_0000 && Bytes.Value(b[4..8]) < 0x1_0000_0000
            && Bytes.Value(b[9..11]) < 0x1_0000
  {
    Widths();
    ValueBound(b[..4]);
    ValueBound(b[4..8]);
    ValueBound(b[9..11]);
  }

  lemma KvnoBounded(b: ByteString, kvno8: Byte)
    ensures GetKvno(b, kvno8) < 0x1_0000_0000
  {
    if |b| >= 4 {
      Widths();
      ValueBound(b[..4]);
    }
  }

  /** What follows the names. */
  function ParseTail(realm: ByteString, components: seq<ByteString>, b: ByteString): Option<Entry>
  {
    var numbers := GetNumbers(b);
    if numbers.None? then None
    else
      var key := GetData(numbers.value.rest);
      if key.None? then None
      else
        NumbersBounded(b);
        KvnoBounded(key.value.rest, b[8]);
        var n := numbers.value.got;
        Some(Entry(realm, components, n.nameType, n.timestamp, GetKvno(key.value.rest, n.kvno8), n.enctype,
                   key.value.got))
  }

  function ParseBody(b: ByteString): Option<Entry>
  {
    var names := GetNames(b);
    if names.None? then None
    else
      StringsCounted(GetNumber(b, 2).value.got + 1, GetNumber(b, 2).value.rest);
      ParseTail(names.value.got[0], names.value.got[1..], names.value.rest)
  }

  // ------------------------------------------------------------ slots

  function ConsEntry(e: Entry, r: Result<seq<Entry>, Error>): Result<seq<Entry>, Error>
  {
    if r.Ok? then Ok([e] + r.value) else r
  }

  /** The slots from here on: a zero size or fewer than four bytes end the file. */
  function ParseSlots(b: ByteString): Result<seq<Entry>, Error>
    decreases |b|
  {
    if |b| < 4 then Ok([])
    else
      var size := ToSigned(Bytes.Value(b[..4]), WORD_LIMIT);
      var len := if size < 0 then -size else size;
      if len == 0 then Ok([])
      else if |b| - 4 < len then Err(Truncated)
      else if size < 0 then ParseSlots(b[4 + len..])
      else
        var entry := ParseBody(b[4..4 + len]);
        if entry.None? then Err(Truncated) else ConsEntry(entry.value, ParseSlots(b[4 + len..]))
  }

  function Parse(bytes: ByteString): Result<seq<Entry>, Error>
  {
    if |bytes| < 2 || bytes[0] != 5 then Err(BadMagic)
    else if bytes[1] == 2 then ParseSlots(bytes[2..])
    else if bytes[1] == 1 then Err(OldVersion)
    else Err(BadMagic)
  }

  // ------------------------------------------------------------ writing

  /** `x as u16` and the bytes: lengths are truncated to 16 bits. */
  function PutData(s: ByteString): (b: ByteString)
    ensures |b| == 2 + |s|
  {
    BigEndian(|s|, 2) + s
  }

  function PutStrings(ss: seq<ByteString>): ByteString
  {
    if ss == [] then [] else PutData(ss[0]) + PutStrings(ss[1..])
  }

  function PutNames(e: Entry): ByteString
  {
    BigEndian(|e.components|, 2) + PutStrings([e.realm] + e.components)
  }

  /** `enctype as u16` keeps the low 16 bits of the two's complement. */
  function PutNumbers(e: Entry): (b: ByteString)
    ensures |b| == 11
  {
    BigEndian(e.nameType, 4) + BigEndian(e.timestamp, 4) + [e.kvno % 256] +
      BigEndian(ToUnsigned(e.enctype, WORD_LIMIT), 2)
  }

  function PutTail(e: Entry): ByteString
  {
    PutNumbers(e) + PutData(e.key) + BigEndian(e.kvno, 4)
  }

  function PutBody(e: Entry): ByteString { PutNames(e) + PutTail(e) }

  function Slot(body: ByteString): ByteString { BigEndian(|body|, 4) + body }

  function PutSlots(entries: seq<Entry>): ByteString
  {
    if entries == [] then [] else Slot(PutBody(entries[0])) + PutSlots(entries[1..])
  }

  function ToBytes(entries: seq<Entry>): ByteString { [5, 2] + PutSlots(entries) }

  // ------------------------------------------------------------ round trip

  predicate StringsFit(ss: seq<ByteString>) { forall i :: 0 <= i < |ss| ==> |ss[i]| < 0x1_0000 }

  /** Every field fits the width it is written with. */
  predicate FieldsFit(e: Entry)
  {
    && |e.components| < 0x1_0000 && |e.realm| < 0x1_0000 && StringsFit(e.components)
    && 0 <= e.enctype < 0x1_0000 && |e.key| < 0x1_0000
  }

  predicate BodyFits(e: Entry) { |PutBody(e)| < 0x8000_0000 }

  lemma DataReads(s: ByteString, rest: ByteString)
    requires |s| < 0x1_0000
    ensures GetData(PutData(s) + rest) == Some(Read(s, rest))
  {
    Widths();
    assert PutData(s) + rest == BigEndian(|s|, 2) + (s + rest);
    NumberReads(|s|, 2, s + rest);
    assert (s + rest)[..|s|] == s && (s + rest)[|s|..] == rest;
  }

  lemma {:induction false} StringsRead(ss: seq<ByteString>, rest: ByteString)
    requires StringsFit(ss)
    ensures GetStrings(|ss|, PutStrings(ss) + rest) == Some(Read(ss, rest))
    decreases |ss|
  {
    if ss == [] {
      assert PutStrings(ss) + rest == rest;
    } else {
      assert PutStrings(ss) + rest == PutData(ss[0]) + (PutStrings(ss[1..]) + rest);
      DataReads(ss[0], PutStrings(ss[1..]) + rest);
      StringsRead(ss[1..], rest);
      assert [ss[0]] + ss[1..] == ss;
    }
  }

  lemma NamesRead(e: Entry, rest: ByteString)
    requires FieldsFit(e)
    ensures GetNames(PutNames(e) + rest) == Some(Read([e.realm] + e.components, rest))
  {
    Widths();
    var ss := [e.realm] + e.components;
    assert PutNames(e) + rest == BigEndian(|e.components|, 2) + (PutStrings(ss) + rest);
    NumberReads(|e.components|, 2, PutStrings(ss) + rest);
    StringsRead(ss, rest);
  }

  lemma NumbersRead(e: Entry, rest: ByteString)
    requires FieldsFit(e)
    ensures GetNumbers(PutNumbers(e) + rest) ==
            Some(Read(Numbers(e.nameType, e.timestamp, e.kvno % 256, e.enctype), rest))
  {
    Widths();
    var b := PutNumbers(e) + rest;
    ValueOfBigEndian(e.nameType, 4);
    ValueOfBigEndian(e.timestamp, 4);
    ValueOfBigEndian(e.enctype, 2);
    assert b[..4] == BigEndian(e.nameType, 4);
    assert b[4..8] == BigEndian(e.timestamp, 4);
    assert b[9..11] == BigEndian(e.enctype, 2);
    assert b[11..] == rest;
  }

  lemma KvnoReads(kvno: U32)
    ensures GetKvno(BigEndian(kvno, 4), kvno % 256) == kvno
  {
    Widths();
    ValueOfBigEndian(kvno, 4);
    var b := BigEndian(kvno, 4);
    assert b[..4] == b;
  }

  lemma TailReads(e: Entry)
    requires FieldsFit(e)
    ensures ParseTail(e.realm, e.components, PutTail(e)) == Some(e)
  {
    var kvno := BigEndian(e.kvno, 4);
    assert PutTail(e) == PutNumbers(e) + (PutData(e.key) + kvno);
    NumbersRead(e, PutData(e.key) + kvno);
    DataReads(e.key, kvno);
    KvnoReads(e.kvno);
  }

  lemma BodyReads(e: Entry)
    requires FieldsFit(e)
    ensures ParseBody(PutBody(e)) == Some(e)
  {
    NamesRead(e, PutTail(e));
    var names := [e.realm] + e.components;
    assert names[0] == e.realm && names[1..] == e.components;
    TailReads(e);
  }

  /** A slot holding `body` is parsed, then whatever follows. */
  lemma SlotReads(body: ByteString, rest: ByteString)
    requires 0 < |body| < 0x8000_0000
    ensures ParseSlots(Slot(body) + rest) ==
            var entry := ParseBody(body);
            if entry.None? then Err(Truncated) else ConsEntry(entry.value, ParseSlots(rest))
  {
    var b := Slot(body) + rest;
    Widths();
    ValueOfBigEndian(|body|, 4);
    assert b[..4] == BigEndian(|body|, 4);
    assert b[4..4 + |body|] == body && b[4 + |body|..] == rest;
  }

  lemma {:induction false} SlotsRead(entries: seq<Entry>)
    requires forall i :: 0 <= i < |entries| ==> FieldsFit(entries[i]) && BodyFits(entries[i])
    ensures ParseSlots(PutSlots(entries)) == Ok(entries)
    decreases |entries|
  {
    if entries != [] {
      BodyReads(entries[0]);
      SlotReads(PutBody(entries[0]), PutSlots(entries[1..]));
      SlotsRead(entries[1..]);
      assert [entries[0]] + entries[1..] == entries;
    }
  }

  // ------------------------------------------------------------ what parses fits

  lemma TailFits(realm: ByteString, components: seq<ByteString>, b: ByteString)
    requires ParseTail(realm, components, b).Some?
    requires |components| < 0x1_0000 && |realm| < 0x1_0000 && StringsFit(components)
    ensures FieldsFit(ParseTail(realm, components, b).value)
  {
    NumbersBounded(b);
    Widths();
    ValueBound(b[11..][..2]);
  }

  lemma BodyFitsBack(b: ByteString)
    requires ParseBody(b).Some?
    ensures FieldsFit(ParseBody(b).value)
  {
    var n, names := GetNumber(b, 2).value, GetNames(b).value;
    Widths();
    ValueBound(b[..2]);
    StringsCounted(n.got + 1, n.rest);
    TailFits(names.got[0], names.got[1..], names.rest);
  }

  /** Whatever the file, the entries it yields have fields of the written widths. */
  lemma {:induction false} ParsedFits(b: ByteString, i: nat)
    requires ParseSlots(b).Ok? && i < |ParseSlots(b).value|
    ensures FieldsFit(ParseSlots(b).value[i])
    decreases |b|
  {
    var size := ToSigned(Bytes.Value(b[..4]), WORD_LIMIT);
    var len := if size < 0 then -size else size;
    if size < 0 {
      ParsedFits(b[4 + len..], i);
    } else if i == 0 {
      BodyFitsBack(b[4..4 + len]);
    } else {
      ParsedFits(b[4 + len..], i - 1);
    }
  }

  // ------------------------------------------------------------ what is read was written so

  /** A body without the 32-bit key version at its end. */
  function Core(e: Entry): ByteString { PutNames(e) + (PutNumbers(e) + PutData(e.key)) }

  lemma BodyIsCore(e: Entry)
    ensures PutBody(e) == Core(e) + BigEndian(e.kvno, 4)
  {
  }

  lemma DataBack(b: ByteString)
    requires GetData(b).Some?
    ensures PutData(GetData(b).value.got) + GetData(b).value.rest == b
  {
    BigEndianOfValue(b[..2]);
    var n := Bytes.Value(b[..2]);
    assert b == b[..2] + (b[2..][..n] + b[2..][n..]);
  }

  lemma {:induction false} StringsBack(count: nat, b: ByteString)
    requires GetStrings(count, b).Some?
    ensures PutStrings(GetStrings(count, b).value.got) + GetStrings(count, b).value.rest == b
    decreases count
  {
    if count > 0 {
      var head := GetData(b).value;
      DataBack(b);
      StringsBack(count - 1, head.rest);
      var ss := GetStrings(count, b).value.got;
      assert ss[0] == head.got && ss[1..] == GetStrings(count - 1, head.rest).value.got;
    }
  }

  lemma NamesBack(b: ByteString)
    requires ParseBody(b).Some?
    ensures PutNames(ParseBody(b).value) + GetNames(b).value.rest == b
  {
    var n, rest := Bytes.Value(b[..2]), b[2..];
    StringsCounted(n + 1, rest);
    StringsBack(n + 1, rest);
    var names := GetStrings(n + 1, rest).value;
    CountBack(b, names.got, names.rest);
    assert [names.got[0]] + names.got[1..] == names.got;
  }

  lemma CountBack(b: ByteString, names: seq<ByteString>, rest: ByteString)
    requires |b| >= 2 && PutStrings(names) + rest == b[2..]
    ensures (BigEndian(Bytes.Value(b[..2]), 2) + PutStrings(names)) + rest == b
  {
    BigEndianOfValue(b[..2]);
    assert b == b[..2] + b[2..];
  }

  lemma NumbersBack(e: Entry, b: ByteString)
    requires |b| >= 11 && e.nameType == Bytes.Value(b[..4]) && e.timestamp == Bytes.Value(b[4..8])
    requires e.kvno % 256 == b[8] && e.enctype == Bytes.Value(b[9..11])
    ensures PutNumbers(e) == b[..11]
  {
    BigEndianOfValue(b[..4]);
    BigEndianOfValue(b[4..8]);
    BigEndianOfValue(b[9..11]);
    assert b[..11] == b[..4] + b[4..8] + [b[8]] + b[9..11];
  }

  lemma TailBack(realm: ByteString, components: seq<ByteString>, b: ByteString)
    requires ParseTail(realm, components, b).Some?
    ensures var e := ParseTail(realm, components, b).value;
            var n := 13 + |e.key|;
            n <= |b| && (|b| < n + 4 ==> e.kvno < 256 && PutNumbers(e) + PutData(e.key) == b[..n])
  {
    var e := ParseTail(realm, components, b).value;
    var n := 13 + |e.key|;
    DataBack(b[11..]);
    if |b| < n + 4 {
      NumbersBack(e, b);
      assert b[..n] == b[..11] + b[11..][..2 + |e.key|];
    }
  }

  /**
    A body has room for its entry; one too short for the 32-bit key version starts with
    what its entry is written as.
   */
  lemma BodyBack(b: ByteString)
    requires ParseBody(b).Some?
    ensures var e := ParseBody(b).value;
            |Core(e)| <= |b| && (|b| < |Core(e)| + 4 ==> e.kvno < 256 && Core(e) == b[..|Core(e)|])
  {
    var e, names := ParseBody(b).value, GetNames(b).value;
    NamesBack(b);
    TailBack(names.got[0], names.got[1..], names.rest);
    if |b| < |Core(e)| + 4 {
      assert b[..|Core(e)|] == PutNames(e) + names.rest[..13 + |e.key|];
    }
  }

  lemma SliceOfDrop(b: ByteString, skip: nat, i: nat, j: nat)
    requires i <= j && skip + j <= |b|
    ensures b[skip..][i..j] == b[skip + i..skip + j] && b[skip..][j..] == b[skip + j..]
  {
  }

  lemma LiveSlot(b: ByteString, len: nat)
    requires |b| >= 4 && 0 < len < 0x8000_0000 && Bytes.Value(b[..4]) == len && ParseSlots(b).Ok?
    ensures 4 + len <= |b| && ParseBody(b[4..4 + len]).Some? && ParseSlots(b[4 + len..]).Ok?
    ensures ParseSlots(b).value == [ParseBody(b[4..4 + len]).value] + ParseSlots(b[4 + len..]).value
  {
  }

  lemma SkippedSlot(b: ByteString, len: nat)
    requires |b| >= 4 && 0 < len <= 0x8000_0000 && Bytes.Value(b[..4]) == WORD_LIMIT - len && ParseSlots(b).Ok?
    ensures 4 + len <= |b| && ParseSlots(b) == ParseSlots(b[4 + len..])
  {
  }

  /** A live slot at `at` that is read as the first entry, with the others behind it. */
  ghost predicate LiveAt(b: ByteString, at: nat, len: nat, entries: seq<Entry>)
  {
    && entries != [] && 0 < len < 0x8000_0000 && at + 4 + len <= |b| && Bytes.Value(b[at..at + 4]) == len
    && ParseBody(b[at + 4..at + 4 + len]) == Some(entries[0]) && ParseSlots(b[at + 4 + len..]) == Ok(entries[1..])
  }

  lemma LiveLater(b: ByteString, skip: nat, at: nat, len: nat, entries: seq<Entry>)
    requires skip <= |b| && LiveAt(b[skip..], at, len, entries)
    ensures LiveAt(b, skip + at, len, entries)
  {
    SliceOfDrop(b, skip, at, at + 4);
    SliceOfDrop(b, skip, at + 4, at + 4 + len);
  }

  /** The first live slot of a file: where it stands, and how long it is. */
  lemma {:induction false} FirstLive(b: ByteString, entries: seq<Entry>) returns (at: nat, len: nat)
    requires ParseSlots(b) == Ok(entries) && entries != []
    ensures LiveAt(b, at, len, entries)
    decreases |b|
  {
    Widths();
    ValueBound(b[..4]);
    var value := Bytes.Value(b[..4]);
    if value < 0x8000_0000 {
      LiveSlot(b, value);
      at, len := 0, value;
      assert b[0..4] == b[..4];
    } else {
      var skip := WORD_LIMIT - value;
      SkippedSlot(b, skip);
      at, len := FirstLive(b[4 + skip..], entries);
      LiveLater(b, 4 + skip, at, len, entries);
      at := 4 + skip + at;
    }
  }

  // ------------------------------------------------------------ no slot holds its own entry a few bytes later

  /** What is written of an entry equals itself `lag` bytes further. */
  predicate Shifted(e: Entry, lag: nat)
  {
    var c := PutBody(e);
    |Core(e)| + lag <= |c| && forall j :: 0 <= j < |Core(e)| ==> c[j] == c[j + lag]
  }

  lemma SmallKvno(kvno: Byte)
    ensures BigEndian(kvno, 4) == [0, 0, 0, kvno]
  {
    assert BigEndian(kvno, 1) == [kvno] && BigEndian(0, 3) == BigEndian(0, 2) + [0]
           && BigEndian(0, 2) == BigEndian(0, 1) + [0];
    assert BigEndian(kvno, 4) == BigEndian(0, 3) + [kvno];
  }

  function Pair(high: nat, low: nat): nat { 256 * high + low }

  lemma TwoBytes(b: ByteString)
    requires |b| == 2
    ensures Bytes.Value(b) == Pair(b[0], b[1])
  {
    assert b[..1] == [b[0]] && Bytes.Value([b[0]]) == b[0];
  }

  lemma FourBytes(b: ByteString)
    requires |b| == 4
    ensures Bytes.Value(b) == 0x1_0000 * Pair(b[0], b[1]) + Pair(b[2], b[3])
  {
    TwoBytes(b[..2]);
    assert b[..3][..2] == b[..2];
    assert b[..3] == b[..2] + [b[2]];
  }

  /** By less than four bytes: then it is all zeros. */
  lemma {:induction false} ShiftedIsZero(e: Entry, lag: nat, i: nat)
    requires Shifted(e, lag) && 0 < lag < 4 && e.kvno < 256 && i < |Core(e)| + 3
    ensures PutBody(e)[i] == 0
    decreases |Core(e)| + 3 - i
  {
    BodyIsCore(e);
    SmallKvno(e.kvno);
    if i < |Core(e)| {
      ShiftedIsZero(e, lag, i + lag);
    }
  }

  /** By four bytes: then every fourth byte is the key version and the others are zero. */
  lemma {:induction false} ShiftedByFour(e: Entry, i: nat)
    requires Shifted(e, 4) && e.kvno < 256 && i < |Core(e)| + 4
    ensures PutBody(e)[i] == if (i - |Core(e)|) % 4 == 3 then e.kvno else 0
    decreases |Core(e)| + 4 - i
  {
    BodyIsCore(e);
    SmallKvno(e.kvno);
    if i < |Core(e)| {
      ShiftedByFour(e, i + 4);
      assert (i + 4 - |Core(e)|) % 4 == (i - |Core(e)|) % 4;
    }
  }

  lemma BodyFront(e: Entry) returns (tail: ByteString)
    ensures PutBody(e) == BigEndian(|e.components|, 2) + (BigEndian(|e.realm|, 2) + tail)
  {
    var ss := [e.realm] + e.components;
    tail := e.realm + PutStrings(ss[1..]) + PutTail(e);
    assert PutStrings(ss) == BigEndian(|e.realm|, 2) + e.realm + PutStrings(ss[1..]);
  }

  lemma FrontBytes(a: ByteString, b: ByteString, tail: ByteString)
    requires |a| == 2 && |b| == 2
    ensures var c := a + (b + tail); c[0] == a[0] && c[1] == a[1] && c[2] == b[0] && c[3] == b[1]
  {
  }

  lemma CoreSize(e: Entry)
    ensures |PutBody(e)| == |Core(e)| + 4 && |Core(e)| == 15 + |PutStrings([e.realm] + e.components)| + |e.key|
    ensures |Core(e)| >= 17 + |e.realm|
  {
    assert |PutStrings([e.realm] + e.components)| >= 2 + |e.realm|;
  }

  /** Where the lengths of an entry stand in what is written of it. */
  lemma LengthsAt(e: Entry)
    requires FieldsFit(e)
    ensures var c := PutBody(e);
            |c| >= 4 && |e.components| == Pair(c[0], c[1]) && |e.realm| == Pair(c[2], c[3])
  {
    Widths();
    ValueOfBigEndian(|e.components|, 2);
    ValueOfBigEndian(|e.realm|, 2);
    TwoBytes(BigEndian(|e.components|, 2));
    TwoBytes(BigEndian(|e.realm|, 2));
    var tail := BodyFront(e);
    FrontBytes(BigEndian(|e.components|, 2), BigEndian(|e.realm|, 2), tail);
  }

  lemma KeyLengthAt(e: Entry)
    requires FieldsFit(e)
    ensures var c, k := PutBody(e), |Core(e)| - |e.key| - 2;
            0 <= k && k + 1 < |c| && |e.key| == Pair(c[k], c[k + 1])
  {
    var c, k := PutBody(e), |Core(e)| - |e.key| - 2;
    Widths();
    ValueOfBigEndian(|e.key|, 2);
    TwoBytes(BigEndian(|e.key|, 2));
    BodyIsCore(e);
    assert c[k..k + 2] == BigEndian(|e.key|, 2);
    assert c[k] == c[k..k + 2][0] && c[k + 1] == c[k..k + 2][1];
  }

  /** The first component's length, when the realm is empty. */
  lemma FirstLengthAt(e: Entry)
    requires FieldsFit(e) && e.components != [] && e.realm == []
    ensures var c := PutBody(e); |c| > 6 && |e.components[0]| == Pair(c[4], c[5])
    ensures |PutStrings([e.realm] + e.components)| == 4 + |e.components[0]| + |PutStrings(e.components[1..])|
  {
    var c, ss := PutBody(e), [e.realm] + e.components;
    Widths();
    ValueOfBigEndian(|e.components[0]|, 2);
    TwoBytes(BigEndian(|e.components[0]|, 2));
    assert ss[1..] == e.components;
    assert PutStrings(ss) == PutData([]) + (PutData(e.components[0]) + PutStrings(e.components[1..]));
    assert c[4..6] == BigEndian(|e.components[0]|, 2);
    assert c[4] == c[4..6][0] && c[5] == c[4..6][1];
  }

  /** No two neighbouring bytes spell more than `limit`. */
  predicate Sparse(b: ByteString, limit: nat)
  {
    forall i :: 0 <= i < |b| - 1 ==> Pair(b[i], b[i + 1]) <= limit
  }

  lemma {:induction false} SparseStrings(ss: seq<ByteString>, b: ByteString, from: nat, limit: nat)
    requires StringsFit(ss) && Sparse(b, limit) && from + |PutStrings(ss)| <= |b|
    requires b[from..from + |PutStrings(ss)|] == PutStrings(ss)
    ensures |PutStrings(ss)| <= |ss| * (2 + limit)
    decreases |ss|
  {
    if ss != [] {
      var tail := PutStrings(ss[1..]);
      assert PutStrings(ss) == PutData(ss[0]) + tail;
      SparseData(ss[0], tail, b, from, limit);
      SparseStrings(ss[1..], b, from + 2 + |ss[0]|, limit);
      OneMore(|ss| - 1, 2 + limit);
    }
  }

  lemma SparseData(data: ByteString, tail: ByteString, b: ByteString, from: nat, limit: nat)
    requires |data| < 0x1_0000 && Sparse(b, limit) && from + 2 + |data| + |tail| <= |b|
    requires b[from..from + 2 + |data| + |tail|] == PutData(data) + tail
    ensures |data| <= limit
    ensures var next := from + 2 + |data|; b[next..next + |tail|] == tail
  {
    Widths();
    ValueOfBigEndian(|data|, 2);
    TwoBytes(BigEndian(|data|, 2));
    var all, next := b[from..from + 2 + |data| + |tail|], from + 2 + |data|;
    assert all[..2] == BigEndian(|data|, 2);
    assert b[from] == all[0] && all[0] == all[..2][0] && b[from + 1] == all[1] && all[1] == all[..2][1];
    assert b[next..next + |tail|] == all[2 + |data|..];
  }

  lemma OneMore(n: nat, x: nat)
    ensures (n + 1) * x == n * x + x
  {
  }

  lemma ZeroCore(e: Entry)
    requires FieldsFit(e) && |PutBody(e)| == |Core(e)| + 4
    requires forall i :: 0 <= i < |Core(e)| ==> PutBody(e)[i] == 0
    ensures |Core(e)| == 17
  {
    CoreSize(e);
    LengthsAt(e);
    KeyLengthAt(e);
    assert PutStrings([e.realm] + e.components) == PutData(e.realm) + [];
  }

  /** The size word of a slot that starts `lag` bytes into the slot of `e`. */
  function SizeAt(e: Entry, lag: nat): nat
    requires lag <= 4
  {
    var w := Slot(PutBody(e));
    BodyIsCore(e);
    Bytes.Value(w[lag..lag + 4])
  }

  lemma NoShortShift(e: Entry, lag: nat)
    requires FieldsFit(e) && e.kvno < 256 && 0 < lag < 4 && Shifted(e, lag)
    ensures SizeAt(e, lag) > |Core(e)| + 3
  {
    CoreSize(e);
    forall i | 0 <= i < |Core(e)| ensures PutBody(e)[i] == 0 {
      ShiftedIsZero(e, lag, i);
    }
    ZeroCore(e);
    SmallKvno(21);
    var w := Slot(PutBody(e));
    assert w[..4] == [0, 0, 0, 21];
    FourBytes(w[lag..lag + 4]);
    assert forall i :: 4 <= i < 8 ==> w[i] == PutBody(e)[i - 4] == 0;
  }

  /** Of four bytes in a row at most one is not zero, and then it is the key version. */
  lemma OneInFour(e: Entry, i: nat)
    requires e.kvno < 256 && Shifted(e, 4) && i < |Core(e)| + 4
    ensures var c := PutBody(e);
            && (c[i] == 0 || c[i] == e.kvno)
            && forall k :: i < k < i + 4 && k < |Core(e)| + 4 ==> c[i] == 0 || c[k] == 0
  {
    ShiftedByFour(e, i);
    forall k | i < k < i + 4 && k < |Core(e)| + 4 ensures PutBody(e)[i] == 0 || PutBody(e)[k] == 0 {
      ShiftedByFour(e, k);
      var d := i - |Core(e)|;
      assert d % 4 == 3 ==> (d + (k - i)) % 4 != 3;
    }
  }

  lemma SparseByFour(e: Entry)
    requires e.kvno < 256 && Shifted(e, 4)
    ensures Sparse(PutBody(e), Pair(e.kvno, 0))
  {
    var c := PutBody(e);
    CoreSize(e);
    forall i | 0 <= i < |c| - 1 ensures Pair(c[i], c[i + 1]) <= Pair(e.kvno, 0) {
      OneInFour(e, i);
      OneInFour(e, i + 1);
    }
  }

  lemma KeyIsSmall(e: Entry)
    requires FieldsFit(e) && e.kvno < 256 && Shifted(e, 4)
    ensures |e.key| <= Pair(e.kvno, 0)
  {
    KeyLengthAt(e);
    SparseByFour(e);
  }

  /** The names behind the first component. */
  lemma LaterNames(e: Entry)
    requires FieldsFit(e) && e.realm == [] && e.components != []
    ensures var c, rest, from := PutBody(e), PutStrings(e.components[1..]), 6 + |e.components[0]|;
            from + |rest| <= |c| && c[from..from + |rest|] == rest
  {
    var ss, rest := [e.realm] + e.components, PutStrings(e.components[1..]);
    assert ss[1..] == e.components;
    var front := BigEndian(|e.components|, 2) + PutData([]) + PutData(e.components[0]);
    assert PutStrings(ss) == PutData([]) + (PutData(e.components[0]) + rest);
    assert PutBody(e) == front + (rest + PutTail(e));
  }

  lemma LaterNamesAreSmall(e: Entry)
    requires FieldsFit(e) && e.kvno < 256 && Shifted(e, 4) && e.realm == [] && e.components != []
    ensures |PutStrings(e.components[1..])| <= (|e.components| - 1) * (2 + Pair(e.kvno, 0))
  {
    SparseByFour(e);
    LaterNames(e);
    SparseStrings(e.components[1..], PutBody(e), 6 + |e.components[0]|, Pair(e.kvno, 0));
  }

  /** A body whose lengths are all small is small itself. */
  lemma CoreIsSmall(e: Entry)
    requires FieldsFit(e) && e.kvno < 256 && Shifted(e, 4) && e.realm == [] && e.components != []
    ensures |Core(e)| <= 19 + |e.components[0]| + (|e.components| - 1) * (2 + Pair(e.kvno, 0)) + Pair(e.kvno, 0)
  {
    CoreSize(e);
    KeyIsSmall(e);
    FirstLengthAt(e);
    LaterNamesAreSmall(e);
  }

  lemma ProductGrows(n: nat, a: nat, b: nat)
    requires a <= b
    ensures n * a <= n * b
  {
    assert n * (b - a) >= 0;
  }

  /** With `n` lengths, the first at most `first`, it can not reach 65536 n. */
  lemma TooSmall(n: nat, first: nat, kvno: Byte, size: int)
    requires n > 0 && size <= 22 + first + (n - 1) * (2 + Pair(kvno, 0)) + Pair(kvno, 0)
    requires (n == Pair(0, kvno) && first == kvno) || (n == Pair(kvno, 0) && first <= Pair(kvno, 0))
    ensures size < 0x1_0000 * n
  {
    ProductGrows(n - 1, 2 + Pair(kvno, 0), 65282);
    var product := (n - 1) * (2 + Pair(kvno, 0));
    assert product <= 65282 * n - 65282;
  }

  lemma NoShiftByFour(e: Entry)
    requires FieldsFit(e) && e.kvno < 256 && Shifted(e, 4)
    ensures SizeAt(e, 4) < |Core(e)| || SizeAt(e, 4) > |Core(e)| + 3
  {
    SizeByFour(e);
    CoreSize(e);
    if e.components != [] {
      NamesByFour(e);
      CoreIsSmall(e);
      TooSmall(|e.components|, |e.components[0]|, e.kvno, |Core(e)| + 3);
    }
  }

  lemma SizeByFour(e: Entry)
    requires FieldsFit(e)
    ensures SizeAt(e, 4) == 0x1_0000 * |e.components| + |e.realm|
  {
    var c := PutBody(e);
    LengthsAt(e);
    assert Slot(c)[4..8] == c[..4];
    FourBytes(c[..4]);
  }

  lemma NamesByFour(e: Entry)
    requires FieldsFit(e) && e.kvno < 256 && Shifted(e, 4) && e.components != []
    ensures e.realm == []
    ensures var n, first := |e.components|, |e.components[0]|;
            (n == Pair(0, e.kvno) && first == e.kvno) || (n == Pair(e.kvno, 0) && first <= Pair(e.kvno, 0))
  {
    var c := PutBody(e);
    CoreSize(e);
    LengthsAt(e);
    OneInFour(e, 0);
    OneInFour(e, 1);
    assert c[2] == 0 && c[3] == 0;
    FirstLengthAt(e);
    assert c[4] == c[0] && c[5] == c[1];
  }

  lemma ShiftFollows(size: ByteString, core: ByteString, kvno: ByteString, lag: nat, len: nat)
    requires |size| == 4 && |kvno| == 4 && lag + 4 + len <= |size + (core + kvno)| && |core| <= len
    requires (size + (core + kvno))[lag + 4..lag + 4 + len][..|core|] == core
    ensures forall j :: 0 <= j < |core| ==> (core + kvno)[j] == (core + kvno)[j + lag]
  {
    var w, c := size + (core + kvno), core + kvno;
    forall j | 0 <= j < |core| ensures c[j] == c[j + lag] {
      assert w[lag + 4..lag + 4 + len][..|core|][j] == w[lag + 4 + j];
      assert w[4 + (lag + j)] == c[lag + j];
    }
  }

  /** No slot that starts one to four bytes into the slot of `e` and ends with it at most is read as `e`. */
  lemma NoOverlap(e: Entry, lag: nat, len: nat)
    requires FieldsFit(e) && 0 < lag && lag + 4 + len <= |Slot(PutBody(e))|
    requires SizeAtIs(e, lag, len)
    ensures ParseBody(Slot(PutBody(e))[lag + 4..lag + 4 + len]) != Some(e)
  {
    var w, c := Slot(PutBody(e)), PutBody(e);
    var b := w[lag + 4..lag + 4 + len];
    if ParseBody(b) == Some(e) {
      BodyBack(b);
      BodyIsCore(e);
      ShiftFollows(BigEndian(|c|, 4), Core(e), BigEndian(e.kvno, 4), lag, len);
      if lag < 4 {
        NoShortShift(e, lag);
      } else {
        NoShiftByFour(e);
      }
      assert false;
    }
  }

  predicate SizeAtIs(e: Entry, lag: nat, len: nat)
  {
    lag + 4 <= |Slot(PutBody(e))| && Bytes.Value(Slot(PutBody(e))[lag..lag + 4]) == len
  }

  // ------------------------------------------------------------ a file is not read as itself from behind its start

  /** Read from anywhere behind its first byte, what is written of entries is not read as these entries. */
  lemma {:induction false} NotReadFromBehind(entries: seq<Entry>, lag: nat)
    requires entries != [] && 0 < lag <= |PutSlots(entries)|
    ensures ParseSlots(PutSlots(entries)[lag..]) != Ok(entries)
    decreases |entries|, 1
  {
    var all := PutSlots(entries);
    if ParseSlots(all[lag..]) == Ok(entries) {
      var at, len := FirstLive(all[lag..], entries);
      LiveLater(all, lag, at, len, entries);
      NoLiveBehind(entries, lag + at, len);
      assert false;
    }
  }

  /** No live slot of it but at its start is read as its first entry, with the others behind. */
  lemma {:induction false} NoLiveBehind(entries: seq<Entry>, at: nat, len: nat)
    requires entries != [] && 0 < at
    ensures !LiveAt(PutSlots(entries), at, len, entries)
    decreases |entries|, 0
  {
    var w, rest := Slot(PutBody(entries[0])), PutSlots(entries[1..]);
    if LiveAt(w + rest, at, len, entries) {
      if at + 4 + len <= |w| {
        NoLiveInside(entries[0], rest, at, len, entries);
      } else {
        LiveEndsBehind(w, rest, at, len, entries);
        NotReadFromBehind(entries[1..], at + 4 + len - |w|);
      }
      assert false;
    }
  }

  lemma NoLiveInside(e: Entry, rest: ByteString, at: nat, len: nat, entries: seq<Entry>)
    requires 0 < at && at + 4 + len <= |Slot(PutBody(e))| && entries != [] && entries[0] == e
    ensures !LiveAt(Slot(PutBody(e)) + rest, at, len, entries)
  {
    var w := Slot(PutBody(e));
    if LiveAt(w + rest, at, len, entries) {
      BodyFitsBack((w + rest)[at + 4..at + 4 + len]);
      FrontSlices(w, rest, at, at + 4 + len);
      NoOverlap(e, at, len);
      assert false;
    }
  }

  /** A slot that ends in the slots behind the first leaves the others to be read from behind their start. */
  lemma LiveEndsBehind(w: ByteString, rest: ByteString, at: nat, len: nat, entries: seq<Entry>)
    requires entries != [] && rest == PutSlots(entries[1..])
    requires LiveAt(w + rest, at, len, entries) && at + 4 + len > |w|
    ensures var lag := at + 4 + len - |w|;
            entries[1..] != [] && lag <= |rest| && ParseSlots(rest[lag..]) == Ok(entries[1..])
  {
    assert (w + rest)[at + 4 + len..] == rest[at + 4 + len - |w|..];
  }

  lemma FrontSlices(w: ByteString, rest: ByteString, at: nat, end: nat)
    requires at + 4 <= end <= |w|
    ensures (w + rest)[at..at + 4] == w[at..at + 4] && (w + rest)[at + 4..end] == w[at + 4..end]
  {
  }

  /** A body of two gigabytes or more is not read where it is written, and nowhere else either. */
  lemma OversizedNotRead(entries: seq<Entry>)
    requires entries != [] && !BodyFits(entries[0])
    ensures ParseSlots(PutSlots(entries)) != Ok(entries)
  {
    if ParseSlots(PutSlots(entries)) == Ok(entries) {
      var at, len := FirstLive(PutSlots(entries), entries);
      if at == 0 {
        OversizedNotAtStart(entries, len);
      } else {
        NoLiveBehind(entries, at, len);
      }
      assert false;
    }
  }

  lemma OversizedNotAtStart(entries: seq<Entry>, len: nat)
    requires entries != [] && !BodyFits(entries[0])
    ensures !LiveAt(PutSlots(entries), 0, len, entries)
  {
    var body, all := PutBody(entries[0]), PutSlots(entries);
    if LiveAt(all, 0, len, entries) {
      assert all[0..4] == BigEndian(|body|, 4);
      BodyBack(all[4..4 + len]);
      BodyIsCore(entries[0]);
      Widths();
      ValueOfBigEndian(|body|, 4);
      assert false;
    }
  }

  lemma {:induction false} ReadBodiesFit(entries: seq<Entry>)
    requires ParseSlots(PutSlots(entries)) == Ok(entries)
    ensures forall i :: 0 <= i < |entries| ==> BodyFits(entries[i])
    decreases |entries|
  {
    if entries != [] {
      if !BodyFits(entries[0]) {
        OversizedNotRead(entries);
      }
      ParsedFits(PutSlots(entries), 0);
      BodyReads(entries[0]);
      SlotReads(PutBody(entries[0]), PutSlots(entries[1..]));
      var rest := ParseSlots(PutSlots(entries[1..]));
      assert rest.Ok? && ([entries[0]] + rest.value)[1..] == rest.value;
      ReadBodiesFit(entries[1..]);
      forall i | 0 <= i < |entries| ensures BodyFits(entries[i]) {
        assert i > 0 ==> entries[1..][i - 1] == entries[i];
      }
    }
  }

  /** Writing and parsing returns the keytab exactly when its fields and bodies fit their widths. */
  lemma RoundTripIff(entries: seq<Entry>)
    ensures Parse(ToBytes(entries)) == Ok(entries) <==>
            forall i :: 0 <= i < |entries| ==> FieldsFit(entries[i]) && BodyFits(entries[i])
  {
    assert ToBytes(entries)[2..] == PutSlots(entries);
    if forall i :: 0 <= i < |entries| ==> FieldsFit(entries[i]) && BodyFits(entries[i]) {
      SlotsRead(entries);
    }
    if Parse(ToBytes(entries)) == Ok(entries) {
      ReadBodiesFit(entries);
      forall i | 0 <= i < |entries| ensures FieldsFit(entries[i]) {
        ParsedFits(PutSlots(entries), i);
      }
    }
  }

  // ------------------------------------------------------------ deleted slots

  /** A slot of a file: any body, or deleted bytes. */
  datatype Item = Live(body: ByteString) | Deleted(junk: ByteString)

  predicate ItemFits(item: Item)
  {
    match item
    case Live(body) => 0 < |body| < 0x8000_0000
    case Deleted(junk) => 0 < |junk| <= 0x8000_0000
  }

  /** `-len` as a 32-bit word */
  function NegativeSize(len: nat): nat { (WORD_LIMIT - len % WORD_LIMIT) % WORD_LIMIT }

  lemma NegativeSizeReads(len: nat)
    requires 0 < len <= 0x8000_0000
    ensures NegativeSize(len) == WORD_LIMIT - len && ToSigned(NegativeSize(len), WORD_LIMIT) + len == 0
    ensures Bytes.Value(BigEndian(NegativeSize(len), 4)) == NegativeSize(len)
  {
    Widths();
    ValueOfBigEndian(WORD_LIMIT - len, 4);
  }

  function ItemBytes(item: Item): ByteString
  {
    match item
    case Live(body) => Slot(body)
    case Deleted(junk) => BigEndian(NegativeSize(|junk|), 4) + junk
  }

  function ItemsBytes(items: seq<Item>): ByteString
  {
    if items == [] then [] else ItemBytes(items[0]) + ItemsBytes(items[1..])
  }

  function LiveOnly(items: seq<Item>): seq<Item>
  {
    if items == [] then [] else (if items[0].Live? then [items[0]] else []) + LiveOnly(items[1..])
  }

  lemma DeletedReads(junk: ByteString, rest: ByteString)
    requires 0 < |junk| <= 0x8000_0000
    ensures ParseSlots(ItemBytes(Deleted(junk)) + rest) == ParseSlots(rest)
  {
    var b := ItemBytes(Deleted(junk)) + rest;
    NegativeSizeReads(|junk|);
    assert b[..4] == BigEndian(NegativeSize(|junk|), 4);
    assert b[4 + |junk|..] == rest;
  }

  /** Deleted slots anywhere in a file never change what it yields, entries or error. */
  lemma {:induction false} DeletedSlotsInvisible(items: seq<Item>, rest: ByteString)
    requires forall i :: 0 <= i < |items| ==> ItemFits(items[i])
    ensures ParseSlots(ItemsBytes(items) + rest) == ParseSlots(ItemsBytes(LiveOnly(items)) + rest)
    decreases |items|
  {
    if items != [] {
      var more, kept := ItemsBytes(items[1..]) + rest, ItemsBytes(LiveOnly(items[1..])) + rest;
      DeletedSlotsInvisible(items[1..], rest);
      assert ItemsBytes(items) + rest == ItemBytes(items[0]) + more;
      if items[0].Deleted? {
        DeletedReads(items[0].junk, more);
        assert LiveOnly(items) == LiveOnly(items[1..]);
      } else {
        LiveFirst(items, rest);
        SlotReads(items[0].body, more);
        SlotReads(items[0].body, kept);
      }
    }
  }

  lemma LiveFirst(items: seq<Item>, rest: ByteString)
    requires items != [] && items[0].Live?
    ensures ItemsBytes(LiveOnly(items)) + rest == Slot(items[0].body) + (ItemsBytes(LiveOnly(items[1..])) + rest)
  {
    assert LiveOnly(items)[1..] == LiveOnly(items[1..]);
  }

  // ------------------------------------------------------------ the program's own loops

  class Reader {
    const buf: ByteString
    var pos: nat

    ghost predicate Valid() reads this { pos <= |buf| }

    ghost function Left(): ByteString reads this requires Valid() { buf[pos..] }

    constructor (buf: ByteString)
      ensures Valid() && Left() == buf && this.buf == buf
    {
      this.buf := buf;
      pos := 0;
    }

    method Take(n: nat) returns (r: Option<ByteString>)
      requires Valid()
      modifies this
      ensures Valid()
      ensures GetBytes(old(Left()), n) == if r.None? then None else Some(Read(r.value, Left()))
      ensures r.None? ==> pos == old(pos)
    {
      if pos + n > |buf| {
        return None;
      }
      r := Some(buf[pos..pos + n]);
      assert buf[pos..][..n] == buf[pos..pos + n] && buf[pos..][n..] == buf[pos + n..];
      pos := pos + n;
    }

    method Number(width: nat) returns (r: Option<nat>)
      requires Valid()
      modifies this
      ensures Valid()
      ensures GetNumber(old(Left()), width) == if r.None? then None else Some(Read(r.value, Left()))
      ensures r.None? ==> pos == old(pos)
    {
      var b := Take(width);
      r := if b.None? then None else Some(Bytes.Value(b.value));
    }

    method Field() returns (r: Option<ByteString>)
      requires Valid()
      modifies this
      ensures Valid()
      ensures GetData(old(Left())) == if r.None? then None else Some(Read(r.value, Left()))
    {
      var n := Number(2);
      if n.None? {
        return None;
      }
      r := Take(n.value);
    }

    method Strings(count: nat) returns (r: Option<seq<ByteString>>)
      requires Valid()
      modifies this
      ensures Valid()
      ensures GetStrings(count, old(Left())) == if r.None? then None else Some(Read(r.value, Left()))
    {
      var out: seq<ByteString> := [];
      ghost var goal := GetStrings(count, Left());
      PrependNothing(goal);
      for i := 0 to count
        invariant Valid() && goal == Prepend(out, GetStrings(count - i, Left()))
      {
        ghost var before := Left();
        var s := Field();
        StringsStep(goal, out, count - i, before, s, Left());
        if s.None? {
          return None;
        }
        out := out + [s.value];
      }
      assert out + [] == out;
      return Some(out);
    }
  }

  lemma StringsStep(goal: Option<Read<seq<ByteString>>>, out: seq<ByteString>, count: nat, b: ByteString,
                    s: Option<ByteString>, after: ByteString)
    requires count > 0 && goal == Prepend(out, GetStrings(count, b))
    requires GetData(b) == if s.None? then None else Some(Read(s.value, after))
    ensures s.None? ==> goal.None?
    ensures s.Some? ==> goal == Prepend(out + [s.value], GetStrings(count - 1, after))
  {
    if s.Some? {
      PrependCons(out, s.value, GetStrings(count - 1, after));
    }
  }

  method ReadNumbers(r: Reader) returns (numbers: Option<Numbers>)
    requires r.Valid()
    modifies r
    ensures r.Valid()
    ensures GetNumbers(old(r.Left())) == if numbers.None? then None else Some(Read(numbers.value, r.Left()))
  {
    ghost var b := r.Left();
    var nameType := r.Number(4);
    if nameType.None? {
      return None;
    }
    var timestamp := r.Number(4);
    if timestamp.None? {
      return None;
    }
    assert b[4..][..4] == b[4..8] && r.Left() == b[8..];
    var kvno8 := r.Take(1);
    if kvno8.None? {
      return None;
    }
    assert kvno8.value[0] == b[8] && r.Left() == b[9..];
    var enctype := r.Number(2);
    if enctype.None? {
      return None;
    }
    assert b[9..][..2] == b[9..11] && r.Left() == b[11..];
    numbers := Some(Numbers(nameType.value, timestamp.value, kvno8.value[0], enctype.value));
  }

  method ReadKvno(r: Reader, kvno8: nat) returns (kvno: nat)
    requires r.Valid()
    modifies r
    ensures r.Valid() && kvno == GetKvno(old(r.Left()), kvno8)
  {
    var kvno32 := r.Number(4);
    kvno := if kvno32.Some? && kvno32.value != 0 then kvno32.value else kvno8;
  }

  method ReadTail(r: Reader, realm: ByteString, components: seq<ByteString>) returns (entry: Option<Entry>)
    requires r.Valid()
    modifies r
    ensures r.Valid() && entry == ParseTail(realm, components, old(r.Left()))
  {
    ghost var b := r.Left();
    var numbers := ReadNumbers(r);
    if numbers.None? {
      return None;
    }
    var key := r.Field();
    if key.None? {
      return None;
    }
    NumbersBounded(b);
    KvnoBounded(r.Left(), b[8]);
    var n := numbers.value;
    var kvno := ReadKvno(r, n.kvno8);
    entry := Some(Entry(realm, components, n.nameType, n.timestamp, kvno, n.enctype, key.value));
  }

  method ReadNames(r: Reader) returns (names: Option<seq<ByteString>>)
    requires r.Valid()
    modifies r
    ensures r.Valid()
    ensures GetNames(old(r.Left())) == if names.None? then None else Some(Read(names.value, r.Left()))
    ensures names.Some? ==> |names.value| > 0
  {
    var n := r.Number(2);
    if n.None? {
      return None;
    }
    ghost var after := r.Left();
    names := r.Strings(n.value + 1);
    if names.Some? {
      StringsCounted(n.value + 1, after);
    }
  }

  method ReadBody(body: ByteString) returns (entry: Option<Entry>)
    ensures entry == ParseBody(body)
  {
    var r := new Reader(body);
    var names := ReadNames(r);
    if names.None? {
      return None;
    }
    entry := ReadTail(r, names.value[0], names.value[1..]);
  }

  function PrependEntries(es: seq<Entry>, r: Result<seq<Entry>, Error>): Result<seq<Entry>, Error>
  {
    if r.Ok? then Ok(es + r.value) else r
  }

  lemma NoEntriesYet(r: Result<seq<Entry>, Error>)
    ensures PrependEntries([], r) == r
  {
    if r.Ok? {
      assert [] + r.value == r.value;
    }
  }

  lemma EntriesGrow(es: seq<Entry>, e: Entry, r: Result<seq<Entry>, Error>)
    ensures PrependEntries(es, ConsEntry(e, r)) == PrependEntries(es + [e], r)
  {
    if r.Ok? {
      assert es + ([e] + r.value) == (es + [e]) + r.value;
    }
  }

  /** The slot at `pos`, in terms of the whole file. */
  lemma SlotAt(bytes: ByteString, pos: nat)
    requires pos + 4 <= |bytes|
    ensures var size := ToSigned(Bytes.Value(bytes[pos..pos + 4]), WORD_LIMIT);
            var len := if size < 0 then -size else size;
            ParseSlots(bytes[pos..]) ==
              if len == 0 then Ok([])
              else if pos + 4 + len > |bytes| then Err(Truncated)
              else if size < 0 then ParseSlots(bytes[pos + 4 + len..])
              else
                var entry := ParseBody(bytes[pos + 4..pos + 4 + len]);
                if entry.None? then Err(Truncated) else ConsEntry(entry.value, ParseSlots(bytes[pos + 4 + len..]))
  {
    var b := bytes[pos..];
    assert b[..4] == bytes[pos..pos + 4];
    var size := ToSigned(Bytes.Value(b[..4]), WORD_LIMIT);
    var len := if size < 0 then -size else size;
    if pos + 4 + len <= |bytes| {
      assert b[4..4 + len] == bytes[pos + 4..pos + 4 + len];
      assert b[4 + len..] == bytes[pos + 4 + len..];
    }
  }

  /** `parse`: the position only moves forward, so it ends on every input. */
  method ParseFile(bytes: ByteString) returns (r: Result<seq<Entry>, Error>)
    ensures r == Parse(bytes)
  {
    if |bytes| < 2 || bytes[0] != 5 {
      return Err(BadMagic);
    }
    if bytes[1] == 1 {
      return Err(OldVersion);
    }
    if bytes[1] != 2 {
      return Err(BadMagic);
    }
    var entries: seq<Entry> := [];
    var pos := 2;
    NoEntriesYet(ParseSlots(bytes[2..]));
    while pos + 4 <= |bytes|
      invariant 2 <= pos <= |bytes|
      invariant Parse(bytes) == PrependEntries(entries, ParseSlots(bytes[pos..]))
      decreases |bytes| - pos
    {
      SlotAt(bytes, pos);
      var size := ToSigned(Bytes.Value(bytes[pos..pos + 4]), WORD_LIMIT);
      pos := pos + 4;
      var len := if size < 0 then -size else size;
      if len == 0 {
        break;
      }
      if pos + len > |bytes| {
        return Err(Truncated);
      }
      var body := bytes[pos..pos + len];
      pos := pos + len;
      if size < 0 {
        continue;
      }
      var entry := ReadBody(body);
      if entry.None? {
        return Err(Truncated);
      }
      EntriesGrow(entries, entry.value, ParseSlots(bytes[pos..]));
      entries := entries + [entry.value];
    }
    assert entries + [] == entries;
    return Ok(entries);
  }

  method WriteStrings(body: ByteString, ss: seq<ByteString>) returns (out: ByteString)
    ensures out == body + PutStrings(ss)
  {
    out := body;
    var left := ss;
    assert body + PutStrings(ss) == out + PutStrings(left);
    while left != []
      invariant out + PutStrings(left) == body + PutStrings(ss)
      decreases |left|
    {
      assert out + PutStrings(left) == (out + PutData(left[0])) + PutStrings(left[1..]);
      out := out + BigEndian(|left[0]|, 2) + left[0];
      left := left[1..];
    }
  }

  method WriteBody(e: Entry) returns (body: ByteString)
    ensures body == PutBody(e)
  {
    body := BigEndian(|e.components|, 2);
    body := WriteStrings(body, [e.realm] + e.components);
    body := body + PutNumbers(e);
    body := body + (BigEndian(|e.key|, 2) + e.key);
    body := body + BigEndian(e.kvno, 4);
  }

  /** `to_bytes` */
  method WriteFile(entries: seq<Entry>) returns (out: ByteString)
    ensures out == ToBytes(entries)
  {
    out := [5, 2];
    var left := entries;
    while left != []
      invariant out + PutSlots(left) == ToBytes(entries)
      decreases |left|
    {
      var body := WriteBody(left[0]);
      assert out + PutSlots(left) == ((out + BigEndian(|body|, 4)) + body) + PutSlots(left[1..]);
      out := out + BigEndian(|body|, 4);
      out := out + body;
      left := left[1..];
    }
  }

  // ------------------------------------------------------------ the layout

  /** Where the numbers, the key and the versions of an entry stand behind its names. */
  lemma BodyBytes(e: Entry)
    requires FieldsFit(e)
    ensures var c, p, k := PutBody(e), |PutNames(e)|, |e.key|;
            && |c| == p + k + 17
            && Bytes.Value(c[p..p + 4]) == e.nameType && Bytes.Value(c[p + 4..p + 8]) == e.timestamp
            && c[p + 8] == e.kvno % 256 && Bytes.Value(c[p + 9..p + 11]) == e.enctype
            && Bytes.Value(c[p + 11..p + 13]) == k && c[p + 13..p + 13 + k] == e.key
            && Bytes.Value(c[p + 13 + k..]) == e.kvno
  {
    var c, p, tail := PutBody(e), |PutNames(e)|, PutTail(e);
    TailBytes(e);
    assert c[p..p + 4] == tail[..4] && c[p + 4..p + 8] == tail[4..8] && c[p + 8] == tail[8];
    assert c[p + 9..p + 11] == tail[9..11] && c[p + 11..p + 13] == tail[11..13];
    assert c[p + 13..p + 13 + |e.key|] == tail[13..13 + |e.key|] && c[p + 13 + |e.key|..] == tail[13 + |e.key|..];
  }

  lemma TailBytes(e: Entry)
    requires FieldsFit(e)
    ensures var t, k := PutTail(e), |e.key|;
            && |t| == k + 17 && Bytes.Value(t[..4]) == e.nameType && Bytes.Value(t[4..8]) == e.timestamp
            && t[8] == e.kvno % 256 && Bytes.Value(t[9..11]) == e.enctype
            && Bytes.Value(t[11..13]) == k && t[13..13 + k] == e.key && Bytes.Value(t[13 + k..]) == e.kvno
  {
    var kvno := BigEndian(e.kvno, 4);
    NumbersRead(e, PutData(e.key) + kvno);
    Widths();
    ValueOfBigEndian(|e.key|, 2);
    ValueOfBigEndian(e.kvno, 4);
    var t := PutNumbers(e) + (PutData(e.key) + kvno);
    assert t == PutTail(e);
    assert t[11..13] == BigEndian(|e.key|, 2) && t[13..13 + |e.key|] == e.key && t[13 + |e.key|..] == kvno;
  }

  /** Names: the number of components, then realm and components in order, each behind its length. */
  lemma NamesBytes(e: Entry)
    requires FieldsFit(e)
    ensures var c, r := PutNames(e), |e.realm|;
            && |c| >= 4 + r && Bytes.Value(c[..2]) == |e.components| && Bytes.Value(c[2..4]) == r
            && c[4..4 + r] == e.realm
            && c[4 + r..] == PutStrings(e.components)
  {
    var ss := [e.realm] + e.components;
    Widths();
    ValueOfBigEndian(|e.components|, 2);
    ValueOfBigEndian(|e.realm|, 2);
    assert ss[1..] == e.components;
    var c := BigEndian(|e.components|, 2) + (BigEndian(|e.realm|, 2) + e.realm + PutStrings(e.components));
    assert c == PutNames(e);
    assert c[..2] == BigEndian(|e.components|, 2) && c[2..4] == BigEndian(|e.realm|, 2);
  }

  /** A file: 05 02, and each body behind its length. */
  lemma FileBytes(entries: seq<Entry>)
    requires entries != [] && BodyFits(entries[0])
    ensures var f, n := ToBytes(entries), |PutBody(entries[0])|;
            && |f| >= 6 + n && f[..2] == [5, 2] && Bytes.Value(f[2..6]) == n && f[6..6 + n] == PutBody(entries[0])
            && f[6 + n..] == PutSlots(entries[1..])
  {
    var body, rest := PutBody(entries[0]), PutSlots(entries[1..]);
    Widths();
    ValueOfBigEndian(|body|, 4);
    var f := [5, 2] + (BigEndian(|body|, 4) + body + rest);
    assert f == ToBytes(entries);
    assert f[2..6] == BigEndian(|body|, 4);
  }

  /** Whatever follows the key: a 32-bit version that is not zero is the entry's, and else the 8-bit one is. */
  lemma KvnoOf(e: Entry, rest: ByteString)
    requires FieldsFit(e)
    ensures var r := ParseBody(Core(e) + rest);
            && r.Some? && r.value == e.(kvno := r.value.kvno)
            && r.value.kvno ==
               if |rest| >= 4 && Bytes.Value(rest[..4]) != 0 then Bytes.Value(rest[..4]) else e.kvno % 256
  {
    var tail := PutNumbers(e) + (PutData(e.key) + rest);
    assert Core(e) + rest == PutNames(e) + tail;
    NamesRead(e, tail);
    NumbersRead(e, PutData(e.key) + rest);
    DataReads(e.key, rest);
    var names := [e.realm] + e.components;
    assert names[0] == e.realm && names[1..] == e.components;
  }

  /** What is no keytab of this version. */
  lemma WrongMagic(bytes: ByteString)
    ensures Parse(bytes) == Err(OldVersion) <==> |bytes| >= 2 && bytes[..2] == [5, 1]
    ensures Parse(bytes) == Err(BadMagic) <==> |bytes| < 2 || (bytes[..2] != [5, 1] && bytes[..2] != [5, 2])
  {
    if |bytes| >= 2 && bytes[0] == 5 && bytes[1] == 2 {
      NeverMagic(bytes[2..]);
    }
  }

  lemma {:induction false} NeverMagic(b: ByteString)
    ensures ParseSlots(b) != Err(BadMagic) && ParseSlots(b) != Err(OldVersion)
    decreases |b|
  {
    if |b| >= 4 {
      var size := ToSigned(Bytes.Value(b[..4]), WORD_LIMIT);
      var len := if size < 0 then -size else size;
      if 0 < len <= |b| - 4 {
        NeverMagic(b[4 + len..]);
      }
    }
  }
}
