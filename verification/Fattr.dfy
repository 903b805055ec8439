/**
  File attributes: the value bytes that follow an attribute bitmap.  The
  encoder writes every kind of value; the decoder knows some of the kinds and
  stops at the first attribute it does not know or cannot read in full.
 */
module Fattr {
  import opened Wrappers
  import opened Bytes
  import opened Readers
  import Bitmap
  import Xdr

  datatype Ace = Ace(acetype: nat, flag: nat, mask: nat, who: ByteString)

  datatype Location = Location(server: seq<ByteString>, rootpath: seq<ByteString>)

  datatype Payload =
    | Number(n: nat)                  // u32, the file type among them
    | Large(n: nat)                   // u64
    | Flag(b: bool)
    | Time(seconds: int, nseconds: nat)
    | Text(s: ByteString)
    | Acl(aces: seq<Ace>)
    | FsLocations(root: seq<ByteString>, locations: seq<Location>)
    | Fsid(major: nat, minor: nat)
    | Mask(attrs: seq<Bitmap.Attr>)   // supported_attrs
    | Nothing                         // kinds the encoder leaves out

  datatype AttrValue = AttrValue(attr: Bitmap.Attr, payload: Payload)

  /** How the decoder reads an attribute, by its number. */
  datatype Kind = FileType | AsNumber | AsLarge | AsFlag | AsTime | AsText | AsAcl | AsLocations | Unhandled

  function KindOf(attr: Bitmap.Attr): Kind
  {
    if attr == 1 then FileType                                             // type
    else if attr == 33 || attr == 35 then AsNumber                         // mode, numlinks
    else if attr in {3, 4, 21, 22, 23, 38, 39, 40, 42, 43, 44, 45, 55} then AsLarge
    else if attr == 16 || attr == 17 then AsFlag                           // case handling
    else if attr in {47, 50, 51, 52, 53} then AsTime
    else if attr == 36 || attr == 37 then AsText                           // owner and group
    else if attr == 12 then AsAcl
    else if attr == 24 then AsLocations
    else Unhandled
  }

  // ------------------------------------------------------------ encoding

  function PutText(s: ByteString): (b: ByteString)
    ensures |b| == 4 + |s| + Padding(|s|)
  {
    BigEndian(|s|, 4) + (s + Zeros(Padding(|s|)))
  }

  function TextBlocks(ss: seq<ByteString>): (blocks: seq<ByteString>)
    ensures |blocks| == |ss|
  {
    seq(|ss|, i requires 0 <= i < |ss| => PutText(ss[i]))
  }

  function PutPath(ss: seq<ByteString>): ByteString { BigEndian(|ss|, 4) + Concat(TextBlocks(ss)) }

  function PutAceHead(ace: Ace): (b: ByteString)
    ensures |b| == 12
  {
    BigEndian(ace.acetype, 4) + (BigEndian(ace.flag, 4) + BigEndian(ace.mask, 4))
  }

  function AceBlocks(aces: seq<Ace>): (blocks: seq<ByteString>)
    ensures |blocks| == |aces|
  {
    seq(|aces|, i requires 0 <= i < |aces| => PutAceHead(aces[i]) + PutText(aces[i].who))
  }

  function LocationBlocks(ls: seq<Location>): (blocks: seq<ByteString>)
    ensures |blocks| == |ls|
  {
    seq(|ls|, i requires 0 <= i < |ls| => PutPath(ls[i].server) + PutPath(ls[i].rootpath))
  }

  function WordBlocks(words: seq<nat>): (blocks: seq<ByteString>)
    ensures |blocks| == |words|
  {
    seq(|words|, i requires 0 <= i < |words| => BigEndian(words[i], 4))
  }

  function PutLocations(root: seq<ByteString>, ls: seq<Location>): ByteString
  {
    PutPath(root) + (BigEndian(|ls|, 4) + Concat(LocationBlocks(ls)))
  }

  function PutTime(seconds: int, nseconds: nat): ByteString
  {
    BigEndian(SecondsWord(seconds), 8) + BigEndian(nseconds, 4)
  }

  /** The value bytes of one attribute. */
  function PutPayload(p: Payload): ByteString
  {
    match p
    case Number(n) => BigEndian(n, 4)
    case Large(n) => BigEndian(n, 8)
    case Flag(b) => BigEndian(if b then 1 else 0, 4)
    case Time(seconds, nseconds) => PutTime(seconds, nseconds)
    case Text(s) => PutText(s)
    case Acl(aces) => BigEndian(|aces|, 4) + Concat(AceBlocks(aces))
    case FsLocations(root, ls) => PutLocations(root, ls)
    case Fsid(major, minor) => BigEndian(major, 8) + BigEndian(minor, 8)
    case Mask(attrs) => BigEndian(|Bitmap.Encode(attrs)|, 4) + Concat(WordBlocks(Bitmap.Encode(attrs)))
    case Nothing => []
  }

  /** Two's complement of a 64-bit time; times outside the range do not occur. */
  function SecondsWord(seconds: int): nat
  {
    if 0 <= seconds then seconds else if -HYPER_LIMIT <= seconds then seconds + HYPER_LIMIT else 0
  }

  function ValueBlocks(vs: seq<AttrValue>): (blocks: seq<ByteString>)
    ensures |blocks| == |vs|
  {
    seq(|vs|, i requires 0 <= i < |vs| => PutPayload(vs[i].payload))
  }

  /** `to_bytes` */
  function PutValues(vs: seq<AttrValue>): ByteString { Concat(ValueBlocks(vs)) }

  // ------------------------------------------------------------ decoding

  /** A string whose padding may be missing at the end of the buffer. */
  function TextAt(buf: ByteString, off: nat): Option<Placed<ByteString>>
  {
    if off + 4 > |buf| then None
    else
      var len := NumAt(buf, off, 4);
      if off + 4 + len > |buf| then None
      else Some(Placed(buf[off + 4..off + 4 + len], off + 4 + len + Padding(len)))
  }

  function TextReader(buf: ByteString): Reader<ByteString> { (o: nat) => TextAt(buf, o) }

  /** A path component: its padding has to be there. */
  function ComponentAt(buf: ByteString, off: nat): Option<Placed<ByteString>>
  {
    var t := TextAt(buf, off);
    if t.None? || t.value.next > |buf| then None else t
  }

  function ComponentReader(buf: ByteString): Reader<ByteString> { (o: nat) => ComponentAt(buf, o) }

  function PathReader(buf: ByteString): Reader<seq<ByteString>> { Counted(buf, ComponentReader(buf)) }

  function MakeLocation(p: (seq<ByteString>, seq<ByteString>)): Location { Location(p.0, p.1) }

  /** Server names, then a root path. */
  function LocationReader(buf: ByteString): Reader<Location>
  {
    Map(MakeLocation, Pair(PathReader(buf), PathReader(buf)))
  }

  function MakeLocations(p: (seq<ByteString>, seq<Location>)): Payload { FsLocations(p.0, p.1) }

  function LocationsReader(buf: ByteString): Reader<Payload>
  {
    Map(MakeLocations, Pair(PathReader(buf), Counted(buf, LocationReader(buf))))
  }

  /** One access control entry: three words and a string. */
  function AceAt(buf: ByteString, off: nat): Option<Placed<Ace>>
  {
    if off + 16 > |buf| then None
    else
      var who := TextAt(buf, off + 12);
      if who.None? then None
      else Some(Placed(Ace(NumAt(buf, off, 4), NumAt(buf, off + 4, 4), NumAt(buf, off + 8, 4), who.value.got),
                       who.value.next))
  }

  function AceReader(buf: ByteString): Reader<Ace> { (o: nat) => AceAt(buf, o) }

  /** How far the offset has moved when an entry breaks off. */
  function AceStop(buf: ByteString): nat -> nat
  {
    (o: nat) => if o + 12 > |buf| then o else if o + 16 > |buf| then o + 12 else o + 16
  }

  function MakeAcl(aces: seq<Ace>): Payload { Acl(aces) }

  function AclReader(buf: ByteString): Reader<Payload>
  {
    Map(MakeAcl, Lenient(buf, AceReader(buf), AceStop(buf)))
  }

  function FixedAt(kind: Kind, buf: ByteString, off: nat): Option<Placed<Payload>>
  {
    var size := if kind == AsLarge then 8 else if kind == AsTime then 12 else 4;
    if off + size > |buf| then None
    else if kind == AsLarge then Some(Placed(Large(NumAt(buf, off, 8)), off + 8))
    else if kind == AsTime then
      Some(Placed(Time(Xdr.ToSigned(NumAt(buf, off, 8), HYPER_LIMIT), NumAt(buf, off + 8, 4)), off + 12))
    else if kind == AsFlag then Some(Placed(Flag(NumAt(buf, off, 4) != 0), off + 4))
    else if kind == FileType then
      Some(Placed(Number(if NumAt(buf, off, 4) <= 9 then NumAt(buf, off, 4) else 0), off + 4))
    else Some(Placed(Number(NumAt(buf, off, 4)), off + 4))
  }

  function MakeText(s: ByteString): Payload { Text(s) }

  function PayloadReader(kind: Kind, buf: ByteString): Reader<Payload>
  {
    match kind
    case AsText => Map(MakeText, TextReader(buf))
    case AsAcl => AclReader(buf)
    case AsLocations => LocationsReader(buf)
    case Unhandled => (o: nat) => None
    case _ => (o: nat) => FixedAt(kind, buf, o)
  }

  function ValueReader(attr: Bitmap.Attr, buf: ByteString): Reader<AttrValue>
  {
    Map((p: Payload) => AttrValue(attr, p), PayloadReader(KindOf(attr), buf))
  }

  function ValueReaders(attrs: seq<Bitmap.Attr>, buf: ByteString): (readers: seq<Reader<AttrValue>>)
    ensures |readers| == |attrs|
  {
    seq(|attrs|, i requires 0 <= i < |attrs| => ValueReader(attrs[i], buf))
  }

  /** `attrvalues_from_bytes` */
  function ValuesAt(attrs: seq<Bitmap.Attr>, buf: ByteString, off: nat): seq<AttrValue>
  {
    ChainAt(ValueReaders(attrs, buf), |buf|, off)
  }

  // ------------------------------------------------------------ values that fit their wire form

  predicate TextFits(s: ByteString) { |s| < WORD_LIMIT }

  predicate PathFits(ss: seq<ByteString>) { |ss| < WORD_LIMIT && forall i :: 0 <= i < |ss| ==> TextFits(ss[i]) }

  predicate AceFits(a: Ace) { a.acetype < WORD_LIMIT && a.flag < WORD_LIMIT && a.mask < WORD_LIMIT && TextFits(a.who) }

  predicate LocationFits(l: Location) { PathFits(l.server) && PathFits(l.rootpath) }

  /** A value of the kind, with every number and length in its range. */
  predicate PayloadFits(kind: Kind, p: Payload)
  {
    match kind
    case FileType => p.Number? && p.n <= 9
    case AsNumber => p.Number? && p.n < WORD_LIMIT
    case AsLarge => p.Large? && p.n < HYPER_LIMIT
    case AsFlag => p.Flag?
    case AsTime => p.Time? && -HYPER_LIMIT <= 2 * p.seconds < HYPER_LIMIT && p.nseconds < WORD_LIMIT
    case AsText => p.Text? && TextFits(p.s)
    case AsAcl => p.Acl? && |p.aces| < WORD_LIMIT && forall i :: 0 <= i < |p.aces| ==> AceFits(p.aces[i])
    case AsLocations =>
      && p.FsLocations? && PathFits(p.root) && |p.locations| < WORD_LIMIT
      && forall i :: 0 <= i < |p.locations| ==> LocationFits(p.locations[i])
    case Unhandled => true
  }

  predicate ValueFits(v: AttrValue) { PayloadFits(KindOf(v.attr), v.payload) }

  // ------------------------------------------------------------ reading back

  lemma WordReads(buf: ByteString, off: nat, n: nat)
    requires At(buf, off, BigEndian(n, 4)) && n < WORD_LIMIT
    ensures off + 4 <= |buf| && NumAt(buf, off, 4) == n
  {
    Widths();
    NumReads(buf, off, n, 4);
  }

  lemma TextReads(buf: ByteString, off: nat, s: ByteString)
    requires TextFits(s) && At(buf, off, PutText(s))
    ensures TextAt(buf, off) == Some(Placed(s, off + |PutText(s)|)) == ComponentAt(buf, off)
  {
    var pad := Zeros(Padding(|s|));
    AtBoth(buf, off, BigEndian(|s|, 4), s + pad);
    AtBoth(buf, off + 4, s, pad);
    WordReads(buf, off, |s|);
  }

  lemma TextBlockReads(buf: ByteString, s: ByteString)
    requires TextFits(s)
    ensures Reads(buf, TextReader(buf), PutText(s), s) && Reads(buf, ComponentReader(buf), PutText(s), s)
  {
    forall o: nat | At(buf, o, PutText(s))
      ensures TextReader(buf)(o) == Some(Placed(s, o + |PutText(s)|)) == ComponentReader(buf)(o)
    {
      TextReads(buf, o, s);
    }
  }

  lemma PathBlockReads(buf: ByteString, ss: seq<ByteString>)
    requires PathFits(ss)
    ensures Reads(buf, PathReader(buf), PutPath(ss), ss)
  {
    forall i | 0 <= i < |ss| ensures Reads(buf, ComponentReader(buf), TextBlocks(ss)[i], ss[i]) {
      TextBlockReads(buf, ss[i]);
    }
    CountedReads(buf, ComponentReader(buf), TextBlocks(ss), ss);
  }

  lemma LocationBlockReads(buf: ByteString, l: Location)
    requires LocationFits(l)
    ensures Reads(buf, LocationReader(buf), PutPath(l.server) + PutPath(l.rootpath), l)
  {
    PathBlockReads(buf, l.server);
    PathBlockReads(buf, l.rootpath);
    PairReads(buf, PathReader(buf), PathReader(buf), PutPath(l.server), PutPath(l.rootpath), l.server, l.rootpath);
    MapReads(buf, MakeLocation, Pair(PathReader(buf), PathReader(buf)), PutPath(l.server) + PutPath(l.rootpath),
             (l.server, l.rootpath));
  }

  lemma LocationListReads(buf: ByteString, ls: seq<Location>)
    requires |ls| < WORD_LIMIT && forall i :: 0 <= i < |ls| ==> LocationFits(ls[i])
    ensures Reads(buf, Counted(buf, LocationReader(buf)), BigEndian(|ls|, 4) + Concat(LocationBlocks(ls)), ls)
  {
    forall i | 0 <= i < |ls| ensures Reads(buf, LocationReader(buf), LocationBlocks(ls)[i], ls[i]) {
      LocationBlockReads(buf, ls[i]);
    }
    CountedReads(buf, LocationReader(buf), LocationBlocks(ls), ls);
  }

  lemma LocationsBlockReads(buf: ByteString, root: seq<ByteString>, ls: seq<Location>)
    requires PathFits(root) && |ls| < WORD_LIMIT && forall i :: 0 <= i < |ls| ==> LocationFits(ls[i])
    ensures Reads(buf, LocationsReader(buf), PutLocations(root, ls), FsLocations(root, ls))
  {
    PathBlockReads(buf, root);
    LocationListReads(buf, ls);
    PairReads(buf, PathReader(buf), Counted(buf, LocationReader(buf)),
              PutPath(root), BigEndian(|ls|, 4) + Concat(LocationBlocks(ls)), root, ls);
    MapReads(buf, MakeLocations, Pair(PathReader(buf), Counted(buf, LocationReader(buf))), PutLocations(root, ls),
             (root, ls));
  }

  lemma AceHeadReads(buf: ByteString, off: nat, a: Ace)
    requires AceFits(a) && At(buf, off, PutAceHead(a))
    ensures off + 12 <= |buf|
    ensures NumAt(buf, off, 4) == a.acetype && NumAt(buf, off + 4, 4) == a.flag && NumAt(buf, off + 8, 4) == a.mask
  {
    AtBoth(buf, off, BigEndian(a.acetype, 4), BigEndian(a.flag, 4) + BigEndian(a.mask, 4));
    AtBoth(buf, off + 4, BigEndian(a.flag, 4), BigEndian(a.mask, 4));
    WordReads(buf, off, a.acetype);
    WordReads(buf, off + 4, a.flag);
    WordReads(buf, off + 8, a.mask);
  }

  lemma AceReads(buf: ByteString, off: nat, a: Ace)
    requires AceFits(a) && At(buf, off, PutAceHead(a) + PutText(a.who))
    ensures AceAt(buf, off) == Some(Placed(a, off + 12 + |PutText(a.who)|))
  {
    AtBoth(buf, off, PutAceHead(a), PutText(a.who));
    AceHeadReads(buf, off, a);
    TextReads(buf, off + 12, a.who);
  }

  lemma AceBlockReads(buf: ByteString, a: Ace)
    requires AceFits(a)
    ensures Reads(buf, AceReader(buf), PutAceHead(a) + PutText(a.who), a)
  {
    forall o: nat | At(buf, o, PutAceHead(a) + PutText(a.who))
      ensures AceReader(buf)(o) == Some(Placed(a, o + |PutAceHead(a) + PutText(a.who)|))
    {
      AceReads(buf, o, a);
    }
  }

  lemma AclBlockReads(buf: ByteString, aces: seq<Ace>)
    requires |aces| < WORD_LIMIT && forall i :: 0 <= i < |aces| ==> AceFits(aces[i])
    ensures Reads(buf, AclReader(buf), BigEndian(|aces|, 4) + Concat(AceBlocks(aces)), Acl(aces))
  {
    forall i | 0 <= i < |aces| ensures Reads(buf, AceReader(buf), AceBlocks(aces)[i], aces[i]) {
      AceBlockReads(buf, aces[i]);
    }
    LenientCountedReads(buf, AceReader(buf), AceStop(buf), AceBlocks(aces), aces);
    MapReads(buf, MakeAcl, Lenient(buf, AceReader(buf), AceStop(buf)),
             BigEndian(|aces|, 4) + Concat(AceBlocks(aces)), aces);
  }

  lemma TimeReads(buf: ByteString, off: nat, seconds: int, nseconds: nat)
    requires -HYPER_LIMIT <= 2 * seconds < HYPER_LIMIT && nseconds < WORD_LIMIT
             && At(buf, off, PutTime(seconds, nseconds))
    ensures FixedAt(AsTime, buf, off) == Some(Placed(Time(seconds, nseconds), off + 12))
  {
    Widths();
    AtBoth(buf, off, BigEndian(SecondsWord(seconds), 8), BigEndian(nseconds, 4));
    NumReads(buf, off, SecondsWord(seconds), 8);
    WordReads(buf, off + 8, nseconds);
  }

  lemma FixedReads(kind: Kind, buf: ByteString, off: nat, p: Payload)
    requires kind in {FileType, AsNumber, AsLarge, AsFlag, AsTime} && PayloadFits(kind, p)
             && At(buf, off, PutPayload(p))
    ensures FixedAt(kind, buf, off) == Some(Placed(p, off + |PutPayload(p)|))
  {
    match p
    case Time(seconds, nseconds) => TimeReads(buf, off, seconds, nseconds);
    case Large(n) =>
      Widths();
      NumReads(buf, off, n, 8);
    case Flag(b) => WordReads(buf, off, if b then 1 else 0);
    case Number(n) => WordReads(buf, off, n);
    case _ =>
  }

  lemma FixedBlockReads(kind: Kind, buf: ByteString, p: Payload)
    requires kind in {FileType, AsNumber, AsLarge, AsFlag, AsTime} && PayloadFits(kind, p)
    ensures Reads(buf, PayloadReader(kind, buf), PutPayload(p), p)
  {
    forall o: nat | At(buf, o, PutPayload(p))
      ensures PayloadReader(kind, buf)(o) == Some(Placed(p, o + |PutPayload(p)|))
    {
      FixedReads(kind, buf, o, p);
    }
  }

  /** A value of a known kind is read back wherever its bytes stand. */
  lemma PayloadBlockReads(kind: Kind, buf: ByteString, p: Payload)
    requires kind != Unhandled && PayloadFits(kind, p)
    ensures Reads(buf, PayloadReader(kind, buf), PutPayload(p), p)
  {
    match kind
    case AsText =>
      TextBlockReads(buf, p.s);
      MapReads(buf, MakeText, TextReader(buf), PutText(p.s), p.s);
    case AsAcl => AclBlockReads(buf, p.aces);
    case AsLocations => LocationsBlockReads(buf, p.root, p.locations);
    case _ => FixedBlockReads(kind, buf, p);
  }

  lemma ValueBlockReads(buf: ByteString, v: AttrValue)
    requires ValueFits(v) && KindOf(v.attr) != Unhandled
    ensures Reads(buf, ValueReader(v.attr, buf), PutPayload(v.payload), v)
  {
    PayloadBlockReads(KindOf(v.attr), buf, v.payload);
    MapReads(buf, (p: Payload) => AttrValue(v.attr, p), PayloadReader(KindOf(v.attr), buf), PutPayload(v.payload),
             v.payload);
  }

  // ------------------------------------------------------------ round trip

  function AttrsOf(vs: seq<AttrValue>): (attrs: seq<Bitmap.Attr>)
    ensures |attrs| == |vs|
  {
    seq(|vs|, i requires 0 <= i < |vs| => vs[i].attr)
  }

  /** The number of values before the first of a kind the decoder does not know. */
  function Known(vs: seq<AttrValue>): (n: nat)
    ensures n <= |vs|
    ensures forall i :: 0 <= i < n ==> KindOf(vs[i].attr) != Unhandled
    ensures n < |vs| ==> KindOf(vs[n].attr) == Unhandled
  {
    if vs == [] || KindOf(vs[0].attr) == Unhandled then 0 else 1 + Known(vs[1..])
  }

  lemma ValueReads(buf: ByteString, vs: seq<AttrValue>, i: nat)
    requires i < |vs| && ValueFits(vs[i]) && KindOf(vs[i].attr) != Unhandled
    ensures Reads(buf, ValueReaders(AttrsOf(vs), buf)[i], ValueBlocks(vs)[i], vs[i])
  {
    ValueBlockReads(buf, vs[i]);
  }

  lemma UnknownFails(attr: Bitmap.Attr, buf: ByteString)
    requires KindOf(attr) == Unhandled
    ensures forall o: nat :: ValueReader(attr, buf)(o).None?
  {
    forall o: nat ensures ValueReader(attr, buf)(o).None? {
      assert PayloadReader(Unhandled, buf)(o).None?;
    }
  }

  /** Decoding the encoded values returns them, up to the first unknown kind, whatever bytes surround them. */
  lemma ValuesRead(buf: ByteString, off: nat, vs: seq<AttrValue>)
    requires (forall i :: 0 <= i < |vs| ==> ValueFits(vs[i])) && At(buf, off, PutValues(vs))
    ensures ValuesAt(AttrsOf(vs), buf, off) == vs[..Known(vs)]
  {
    var readers, k := ValueReaders(AttrsOf(vs), buf), Known(vs);
    forall i | 0 <= i < k ensures Reads(buf, readers[i], ValueBlocks(vs)[i], vs[i]) {
      ValueReads(buf, vs, i);
    }
    if k < |vs| {
      UnknownFails(vs[k].attr, buf);
    }
    ChainReads(buf, readers, ValueBlocks(vs), vs, k, off);
  }

  /** The whole list comes back exactly when every kind in it is one the decoder knows. */
  lemma RoundTripIff(vs: seq<AttrValue>, junk: ByteString)
    requires forall i :: 0 <= i < |vs| ==> ValueFits(vs[i])
    ensures ValuesAt(AttrsOf(vs), PutValues(vs) + junk, 0) == vs <==>
            forall i :: 0 <= i < |vs| ==> KindOf(vs[i].attr) != Unhandled
  {
    var buf := PutValues(vs) + junk;
    assert At(buf, 0, PutValues(vs));
    ValuesRead(buf, 0, vs);
    assert vs[..|vs|] == vs;
  }

  // ------------------------------------------------------------ the attribute structure on the wire

  function WordItems(words: seq<nat>): seq<Xdr.Value>
  {
    seq(|words|, i requires 0 <= i < |words| => Xdr.Number(words[i]))
  }

  function Raw(words: seq<nat>, bytes: ByteString): Xdr.Value
  {
    Xdr.Items([Xdr.Items(WordItems(words)), Xdr.Data(bytes)])
  }

  /** What the structure carries: the bitmap and the bytes of a list of values. */
  function Wire(vs: seq<AttrValue>): Option<ByteString>
  {
    Xdr.Encode(Xdr.FATTR, Raw(Bitmap.Encode(AttrsOf(vs)), PutValues(vs)))
  }

  datatype Decoded = Decoded(attrs: seq<Bitmap.Attr>, values: seq<AttrValue>)

  /** The deserializer on what the XDR layer hands it. */
  function Interpret(words: seq<nat>, bytes: ByteString): Decoded
  {
    Decoded(Bitmap.Decode(words), ValuesAt(Bitmap.Decode(words), bytes, 0))
  }

  lemma {:induction false} WordsEncode(words: seq<nat>, i: nat)
    requires forall j :: 0 <= j < |words| ==> words[j] < WORD_LIMIT
    ensures Xdr.WriteMany(Xdr.ItemWriter(Xdr.Unsigned(4)), i, WordItems(words)).Some?
    decreases |words|
  {
    if words != [] {
      WordsEncode(words[1..], i + 1);
      assert WordItems(words)[1..] == WordItems(words[1..]);
      assert Xdr.ItemWriter(Xdr.Unsigned(4))(i, Xdr.Number(words[0])) ==
             Xdr.Encode(Xdr.Unsigned(4), Xdr.Number(words[0]));
    }
  }

  /** Only value bytes too long for their length word keep a list from the wire. */
  lemma WireExistsIff(vs: seq<AttrValue>)
    requires |vs| < WORD_LIMIT - 1
    ensures Wire(vs).Some? <==> |PutValues(vs)| < WORD_LIMIT
  {
    var words, bytes := Bitmap.Encode(AttrsOf(vs)), PutValues(vs);
    Bitmap.WordsFit(AttrsOf(vs));
    WordsEncode(words, 0);
    var items, write := [Xdr.Items(WordItems(words)), Xdr.Data(bytes)], Xdr.FieldWriter(Xdr.FATTR);
    assert write(0, items[0]) == Xdr.Encode(Xdr.FATTR.fields[0], items[0]);
    assert write(1, items[1]) == Xdr.Encode(Xdr.FATTR.fields[1], items[1]);
    assert items[1..] == [Xdr.Data(bytes)] && items[1..][1..] == [];
    assert Xdr.WriteMany(write, 2, items[1..][1..]) == Some([]);
    assert Xdr.WriteMany(write, 1, items[1..]).Some? <==> write(1, items[1]).Some?;
    assert Xdr.WriteMany(write, 0, items).Some? <==> Xdr.WriteMany(write, 1, items[1..]).Some?;
  }

  /**
    The attribute structure round trip: attributes in strictly ascending order,
    of kinds the decoder knows, come back from the wire as the same list and
    the same values, and what follows is left unread.
   */
  lemma FattrRoundTrip(vs: seq<AttrValue>, rest: ByteString)
    requires |PutValues(vs)| < WORD_LIMIT && Bitmap.Ascending(AttrsOf(vs))
    requires forall i :: 0 <= i < |vs| ==> ValueFits(vs[i]) && KindOf(vs[i].attr) != Unhandled
    ensures Wire(vs).Some? && Xdr.Decode(Xdr.FATTR, Wire(vs).value + rest) ==
            Some(Xdr.Read(Raw(Bitmap.Encode(AttrsOf(vs)), PutValues(vs)), rest))
    ensures Interpret(Bitmap.Encode(AttrsOf(vs)), PutValues(vs)) == Decoded(AttrsOf(vs), vs)
  {
    Bitmap.AscendingIsShort(AttrsOf(vs));
    WireExistsIff(vs);
    Xdr.RoundTrip(Xdr.FATTR, Raw(Bitmap.Encode(AttrsOf(vs)), PutValues(vs)), rest);
    Bitmap.RoundTripIff(AttrsOf(vs));
    RoundTripIff(vs, []);
    assert PutValues(vs) + [] == PutValues(vs);
  }

  // ------------------------------------------------------------ the program's own loops

  method ReadComponent(buf: ByteString, off: nat) returns (r: Option<Placed<ByteString>>)
    ensures r == ComponentReader(buf)(off)
  {
    if off + 4 > |buf| {
      return None;
    }
    var len := NumAt(buf, off, 4);
    var padded := len + Padding(len);
    if off + 4 + padded > |buf| {
      return None;
    }
    return Some(Placed(buf[off + 4..off + 4 + len], off + 4 + padded));
  }

  /** `xs` before what was read after them. */
  function After<T>(xs: seq<T>, r: Option<Placed<seq<T>>>): Option<Placed<seq<T>>>
  {
    if r.None? then None else Some(Placed(xs + r.value.got, r.value.next))
  }

  lemma AfterNothing<T>(r: Option<Placed<seq<T>>>)
    ensures After([], r) == r
  {
    if r.Some? {
      assert [] + r.value.got == r.value.got;
    }
  }

  lemma AfterOne<T>(xs: seq<T>, x: T, r: Option<Placed<seq<T>>>)
    ensures After(xs, Before(x, r)) == After(xs + [x], r)
  {
    if r.Some? {
      assert xs + ([x] + r.value.got) == (xs + [x]) + r.value.got;
    }
  }

  /** `read_pathname4` */
  method ReadPath(buf: ByteString, off: nat) returns (path: Option<Placed<seq<ByteString>>>)
    ensures path == PathReader(buf)(off)
  {
    if off + 4 > |buf| {
      return None;
    }
    var count := NumAt(buf, off, 4);
    path := ReadComponents(buf, count, off + 4);
  }

  method ReadComponents(buf: ByteString, count: nat, start: nat) returns (r: Option<Placed<seq<ByteString>>>)
    ensures r == ListAt(ComponentReader(buf), count, start)
  {
    var at: nat := start;
    var components: seq<ByteString> := [];
    AfterNothing(ListAt(ComponentReader(buf), count, start));
    for i := 0 to count
      invariant ListAt(ComponentReader(buf), count, start) ==
                After(components, ListAt(ComponentReader(buf), count - i, at))
    {
      var c := ReadComponent(buf, at);
      if c.None? {
        return None;
      }
      AfterOne(components, c.value.got, ListAt(ComponentReader(buf), count - i - 1, c.value.next));
      components := components + [c.value.got];
      at := c.value.next;
    }
    assert components + [] == components;
    return Some(Placed(components, at));
  }

  method ReadLocationList(buf: ByteString, count: nat, start: nat) returns (r: Option<Placed<seq<Location>>>)
    ensures r == ListAt(LocationReader(buf), count, start)
  {
    var at: nat := start;
    var locations: seq<Location> := [];
    AfterNothing(ListAt(LocationReader(buf), count, start));
    for i := 0 to count
      invariant ListAt(LocationReader(buf), count, start) ==
                After(locations, ListAt(LocationReader(buf), count - i, at))
    {
      var l := ReadLocation(buf, at);
      if l.None? {
        return None;
      }
      AfterOne(locations, l.value.got, ListAt(LocationReader(buf), count - i - 1, l.value.next));
      locations := locations + [l.value.got];
      at := l.value.next;
    }
    assert locations + [] == locations;
    return Some(Placed(locations, at));
  }

  method ReadLocation(buf: ByteString, off: nat) returns (r: Option<Placed<Location>>)
    ensures r == LocationReader(buf)(off)
  {
    var server := ReadPath(buf, off);
    assert LocationReader(buf)(off) == Mapped(MakeLocation, Then(server, PathReader(buf)));
    if server.None? {
      return None;
    }
    var rootpath := ReadPath(buf, server.value.next);
    if rootpath.None? {
      return None;
    }
    return Some(Placed(Location(server.value.got, rootpath.value.got), rootpath.value.next));
  }

  method ReadLocations(buf: ByteString, off: nat) returns (r: Option<Placed<Payload>>)
    ensures r == LocationsReader(buf)(off)
  {
    var root := ReadPath(buf, off);
    assert LocationsReader(buf)(off) == Mapped(MakeLocations, Then(root, Counted(buf, LocationReader(buf))));
    if root.Some? {
      CountedIs(buf, LocationReader(buf), root.value.next);
    }
    if root.None? || root.value.next + 4 > |buf| {
      return None;
    }
    var count := NumAt(buf, root.value.next, 4);
    var list := ReadLocationList(buf, count, root.value.next + 4);
    r := if list.None? then None else Some(Placed(FsLocations(root.value.got, list.value.got), list.value.next));
  }

  method ReadAces(buf: ByteString, count: nat, off: nat) returns (r: Placed<seq<Ace>>)
    ensures r == LenientAt(AceReader(buf), AceStop(buf), count, off)
  {
    var aces: seq<Ace> := [];
    var at: nat := off;
    AfterNothing(Some(LenientAt(AceReader(buf), AceStop(buf), count, off)));
    for i := 0 to count
      invariant Some(LenientAt(AceReader(buf), AceStop(buf), count, off)) ==
                After(aces, Some(LenientAt(AceReader(buf), AceStop(buf), count - i, at)))
    {
      var ace := AceAt(buf, at);
      assert AceReader(buf)(at) == ace && aces + [] == aces;
      if ace.None? {
        return Placed(aces, if at + 12 > |buf| then at else if at + 16 > |buf| then at + 12 else at + 16);
      }
      AfterOne(aces, ace.value.got, Some(LenientAt(AceReader(buf), AceStop(buf), count - i - 1, ace.value.next)));
      aces := aces + [ace.value.got];
      at := ace.value.next;
    }
    assert aces + [] == aces;
    return Placed(aces, at);
  }

  method ReadAcl(buf: ByteString, off: nat) returns (r: Option<Placed<Payload>>)
    ensures r == AclReader(buf)(off)
  {
    LenientIs(buf, AceReader(buf), AceStop(buf), off);
    assert AclReader(buf)(off) == Mapped(MakeAcl, Lenient(buf, AceReader(buf), AceStop(buf))(off));
    if off + 4 > |buf| {
      return None;
    }
    var aces := ReadAces(buf, NumAt(buf, off, 4), off + 4);
    r := Some(Placed(Acl(aces.got), aces.next));
  }

  method ReadPayload(kind: Kind, buf: ByteString, off: nat) returns (r: Option<Placed<Payload>>)
    ensures r == PayloadReader(kind, buf)(off)
  {
    match kind {
      case AsText =>
        var t := TextAt(buf, off);
        assert PayloadReader(kind, buf)(off) == Mapped(MakeText, TextReader(buf)(off));
        r := if t.None? then None else Some(Placed(Text(t.value.got), t.value.next));
      case AsAcl => r := ReadAcl(buf, off);
      case AsLocations => r := ReadLocations(buf, off);
      case Unhandled => r := None;
      case _ => r := FixedAt(kind, buf, off);
    }
  }

  /** `attrvalues_from_bytes` */
  method ReadValues(attrs: seq<Bitmap.Attr>, buf: ByteString) returns (vs: seq<AttrValue>)
    ensures vs == ValuesAt(attrs, buf, 0)
  {
    var readers := ValueReaders(attrs, buf);
    vs := [];
    var off: nat := 0;
    assert readers[0..] == readers && [] + ChainAt(readers, |buf|, 0) == ChainAt(readers, |buf|, 0);
    for i := 0 to |attrs|
      invariant ChainAt(readers, |buf|, 0) == vs + ChainAt(readers[i..], |buf|, off)
    {
      assert readers[i..][1..] == readers[i + 1..];
      assert vs + [] == vs;
      if off > |buf| {
        return;
      }
      var p := ReadPayload(KindOf(attrs[i]), buf, off);
      assert readers[i](off) == Mapped((q: Payload) => AttrValue(attrs[i], q), p);
      if p.None? {
        return;
      }
      var v := AttrValue(attrs[i], p.value.got);
      assert vs + ([v] + ChainAt(readers[i + 1..], |buf|, p.value.next)) ==
             (vs + [v]) + ChainAt(readers[i + 1..], |buf|, p.value.next);
      vs := vs + [v];
      off := p.value.next;
    }
    assert vs + [] == vs;
  }

  /** `to_bytes` */
  method WriteValues(vs: seq<AttrValue>) returns (buffer: ByteString)
    ensures buffer == PutValues(vs)
  {
    var blocks := ValueBlocks(vs);
    buffer := [];
    assert [] + Concat(blocks) == Concat(blocks) && blocks[0..] == blocks;
    for i := 0 to |vs|
      invariant buffer + Concat(blocks[i..]) == PutValues(vs)
    {
      assert blocks[i..][0] == PutPayload(vs[i].payload) && blocks[i..][1..] == blocks[i + 1..];
      assert buffer + (blocks[i] + Concat(blocks[i + 1..])) == (buffer + blocks[i]) + Concat(blocks[i + 1..]);
      buffer := buffer + PutPayload(vs[i].payload);
    }
    assert buffer + [] == buffer;
  }

  // ------------------------------------------------------------ single values

  /** The attributes the decoder knows, by their numbers (section 5.8 of RFC 7530). */
  lemma KnownAttributes(attr: Bitmap.Attr)
    ensures KindOf(attr) == FileType <==> attr == 1
    ensures KindOf(attr) == AsNumber <==> attr == 33 || attr == 35
    ensures KindOf(attr) == AsLarge <==>
              || attr == 3 || attr == 4 || attr == 21 || attr == 22 || attr == 23
              || attr == 38 || attr == 39 || attr == 40
              || attr == 42 || attr == 43 || attr == 44 || attr == 45 || attr == 55
    ensures KindOf(attr) == AsFlag <==> attr == 16 || attr == 17
    ensures KindOf(attr) == AsTime <==> attr == 47 || 50 <= attr <= 53
    ensures KindOf(attr) == AsText <==> attr == 36 || attr == 37
    ensures KindOf(attr) == AsAcl <==> attr == 12
    ensures KindOf(attr) == AsLocations <==> attr == 24
  {
  }

  /** Words the encoder never writes: a file type above 9 reads as 0, and any flag but zero as true. */
  lemma OddWords(buf: ByteString, off: nat, n: nat)
    requires At(buf, off, BigEndian(n, 4)) && n < WORD_LIMIT
    ensures PayloadReader(FileType, buf)(off) == Some(Placed(Number(if n <= 9 then n else 0), off + 4))
    ensures PayloadReader(AsFlag, buf)(off) == Some(Placed(Flag(n != 0), off + 4))
  {
    WordReads(buf, off, n);
  }

  /** The bytes of fixed-size values, most significant first; a negative time in two's complement. */
  lemma FixedBytes(n: nat, b: bool, seconds: int, nseconds: nat, major: nat, minor: nat)
    requires -HYPER_LIMIT <= 2 * seconds < HYPER_LIMIT
    ensures PutPayload(Number(n)) == FourBytes(n)
    ensures n < HYPER_LIMIT ==> PutPayload(Large(n)) == FourBytes(n / WORD_LIMIT) + FourBytes(n)
    ensures PutPayload(Flag(b)) == [0, 0, 0, if b then 1 else 0]
    ensures |PutPayload(Time(seconds, nseconds))| == 12
    ensures Value(PutPayload(Time(seconds, nseconds))[..8]) == if seconds < 0 then seconds + HYPER_LIMIT else seconds
    ensures PutPayload(Time(seconds, nseconds))[8..] == FourBytes(nseconds)
    ensures PutPayload(Fsid(major, minor)) == PutPayload(Large(major)) + PutPayload(Large(minor))
  {
    FourBytesOf(n);
    EightBytesOf(n);
    FourBytesOf(nseconds);
    FourBytesOf(if b then 1 else 0);
    Widths();
    ValueOfBigEndian(SecondsWord(seconds), 8);
    assert PutTime(seconds, nseconds)[..8] == BigEndian(SecondsWord(seconds), 8);
  }

  /** A text: its length, its bytes, and zeros up to a multiple of four. */
  lemma TextBytes(s: ByteString)
    ensures PutPayload(Text(s)) == FourBytes(|s|) + s + Zeros((4 - |s| % 4) % 4)
  {
    FourBytesOf(|s|);
  }

  /** Each access control entry of a list: its type, flags and mask, and whom it is about. */
  lemma AceBytes(aces: seq<Ace>, i: nat)
    requires i < |aces|
    ensures AceBlocks(aces)[i] == (FourBytes(aces[i].acetype) + (FourBytes(aces[i].flag) + FourBytes(aces[i].mask)))
                                  + PutPayload(Text(aces[i].who))
  {
    FourBytesOf(aces[i].acetype);
    FourBytesOf(aces[i].flag);
    FourBytesOf(aces[i].mask);
  }

  /**
    A list of access control entries that breaks off in its first entry reads as
    empty, and the offset stands behind what was read of it: nothing of fewer
    than twelve bytes, three words of fewer than sixteen, or four words when the
    name is cut short.
   */
  lemma BrokenList(buf: ByteString, off: nat)
    requires off + 4 <= |buf| && NumAt(buf, off, 4) > 0
    requires off + 20 > |buf| || off + 20 + NumAt(buf, off + 16, 4) > |buf|
    ensures PayloadReader(AsAcl, buf)(off) ==
            Some(Placed(Acl([]), off + if off + 16 > |buf| then 4 else if off + 20 > |buf| then 16 else 20))
  {
    LenientIs(buf, AceReader(buf), AceStop(buf), off);
    assert AceReader(buf)(off + 4).None?;
  }

  /** The last text of a buffer may lack its padding, a path component may not. */
  lemma PaddingAtTheEnd(buf: ByteString, off: nat, s: ByteString)
    requires TextFits(s) && |s| % 4 != 0 && At(buf, off, BigEndian(|s|, 4) + s) && off + 4 + |s| == |buf|
    ensures PayloadReader(AsText, buf)(off) == Some(Placed(Text(s), off + 4 + |s| + Padding(|s|)))
    ensures ComponentReader(buf)(off).None?
  {
    AtBoth(buf, off, BigEndian(|s|, 4), s);
    WordReads(buf, off, |s|);
    assert buf[off + 4..off + 4 + |s|] == s;
    assert TextAt(buf, off) == Some(Placed(s, off + 4 + |s| + Padding(|s|)));
    assert TextReader(buf)(off) == TextAt(buf, off) && ComponentReader(buf)(off) == ComponentAt(buf, off);
  }
}
