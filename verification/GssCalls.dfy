/**
  What one RPCSEC_GSS call and its reply carry: opaque framing, the three
  services (none, integrity, privacy) in both directions, and the raw results
  that replies are serialised from.
 */
module GssCalls {
  import opened Wrappers
  import opened Bytes
  import opened Crypto
  import opened CipherStealing
  import opened Cfx
  import opened SeqWindow
  import Xdr

  const MAXSEQ: nat := 0x8000_0000
  const SVC_NONE := 1
  const SVC_INTEGRITY := 2
  const SVC_PRIVACY := 3

  // ------------------------------------------------------------ XDR opaque framing

  /** `put_opaque` onto an empty buffer: length word, data, zero padding. */
  function PutOpaque(data: ByteString): (b: ByteString)
    ensures |b| % 4 == 0 && |b| == 4 + |data| + Padding(|data|)
  {
    AddAligned(4, |data| + Padding(|data|));
    BigEndian(|data|, 4) + (data + Zeros(Padding(|data|)))
  }

  /** Two opaques in a row. */
  function PutTwo(first: ByteString, second: ByteString): (b: ByteString)
    ensures |b| % 4 == 0
  {
    AddAligned(|PutOpaque(first)|, |PutOpaque(second)|);
    PutOpaque(first) + PutOpaque(second)
  }

  /** `take_opaque`: the data and what follows; missing padding at the end is tolerated. */
  function TakeOpaque(buf: ByteString): Option<(ByteString, ByteString)>
  {
    if |buf| < 4 then None
    else
      var len := Value(buf[..4]);
      if 4 + len > |buf| then None
      else
        var padded := 4 + len + Padding(len);
        Some((buf[4..4 + len], if padded <= |buf| then buf[padded..] else []))
  }

  lemma TakeUndoesPut(data: ByteString, rest: ByteString)
    requires |data| < WORD_LIMIT
    ensures TakeOpaque(PutOpaque(data) + rest) == Some((data, rest))
  {
    Widths();
    ValueOfBigEndian(|data|, 4);
    var buf := PutOpaque(data) + rest;
    assert buf[..4] == BigEndian(|data|, 4);
    assert buf[4..4 + |data|] == data;
    assert buf[4 + |data| + Padding(|data|)..] == rest;
  }

  // ------------------------------------------------------------ credentials

  datatype Cred = Cred(version: nat, gssProc: nat, seqNum: nat, service: nat, handle: ByteString)

  predicate FitsWords(c: Cred)
  {
    c.version < WORD_LIMIT && c.gssProc < WORD_LIMIT && c.seqNum < WORD_LIMIT && c.service < WORD_LIMIT
    && |c.handle| < WORD_LIMIT
  }

  function Words4(a: nat, b: nat, c: nat, d: nat): (w: ByteString)
    ensures |w| == 16
  {
    (BigEndian(a, 4) + BigEndian(b, 4)) + (BigEndian(c, 4) + BigEndian(d, 4))
  }

  lemma Words4Read(a: nat, b: nat, c: nat, d: nat)
    requires a < WORD_LIMIT && b < WORD_LIMIT && c < WORD_LIMIT && d < WORD_LIMIT
    ensures var w := Words4(a, b, c, d);
            Value(w[..4]) == a && Value(w[4..8]) == b && Value(w[8..12]) == c && Value(w[12..16]) == d
  {
    Widths();
    ValueOfBigEndian(a, 4);
    ValueOfBigEndian(b, 4);
    ValueOfBigEndian(c, 4);
    ValueOfBigEndian(d, 4);
    var w := Words4(a, b, c, d);
    assert w[..4] == BigEndian(a, 4);
    assert w[4..8] == BigEndian(b, 4);
    assert w[8..12] == BigEndian(c, 4);
    assert w[12..16] == BigEndian(d, 4);
  }

  /** The four words of a credential. */
  function CredWords(c: Cred): (b: ByteString)
    ensures |b| == 16
  {
    Words4(c.version, c.gssProc, c.seqNum, c.service)
  }

  /** `RpcSecGssCred::encode` */
  function EncodeCred(c: Cred): (b: ByteString)
    ensures |b| % 4 == 0
  {
    AddAligned(16, |PutOpaque(c.handle)|);
    CredWords(c) + PutOpaque(c.handle)
  }

  /** `RpcSecGssCred::parse` */
  function ParseCred(body: ByteString): Option<Cred>
  {
    if |body| < 20 then None
    else
      var len := Value(body[16..20]);
      if 20 + len > |body| then None
      else Some(Cred(Value(body[..4]), Value(body[4..8]), Value(body[8..12]), Value(body[12..16]), body[20..20 + len]))
  }

  lemma OpaqueHeadReads(words: ByteString, data: ByteString)
    requires |words| == 16 && |data| < WORD_LIMIT
    ensures var b := words + PutOpaque(data);
            && |b| >= 20 + |data| && Value(b[16..20]) == |data| && b[20..20 + |data|] == data && b[..16] == words
  {
    Widths();
    ValueOfBigEndian(|data|, 4);
    var b := words + PutOpaque(data);
    assert b[16..20] == BigEndian(|data|, 4);
  }

  lemma ParseUndoesEncodeCred(c: Cred)
    requires FitsWords(c)
    ensures ParseCred(EncodeCred(c)) == Some(c)
  {
    Words4Read(c.version, c.gssProc, c.seqNum, c.service);
    OpaqueHeadReads(CredWords(c), c.handle);
    var b, w := EncodeCred(c), CredWords(c);
    assert b[..4] == w[..4] && b[4..8] == w[4..8] && b[8..12] == w[8..12] && b[12..16] == w[12..16];
  }

  // ------------------------------------------------------------ the call header

  const RPCSEC_GSS := 6
  const RPCSEC_GSS_VERSION := 1
  const RPCSEC_GSS_DATA := 0
  const RPCSEC_GSS_INIT := 1
  const RPCSEC_GSS_CONTINUE_INIT := 2
  const RPCSEC_GSS_DESTROY := 3
  const GSS_S_NO_CONTEXT := 0x8_0000
  const NFS_PROGRAM := 100003

  /** An RPC call header whose credential is RPCSEC_GSS. */
  datatype Head = Head(xid: nat, rpcvers: nat, prog: nat, vers: nat, proc: nat, cred: Cred)

  predicate HeadFits(h: Head)
  {
    && h.xid < WORD_LIMIT && h.rpcvers < WORD_LIMIT && h.prog < WORD_LIMIT && h.vers < WORD_LIMIT && h.proc < WORD_LIMIT
    && FitsWords(h.cred) && |EncodeCred(h.cred)| < WORD_LIMIT
  }

  /** XID, CALL, versions, program, procedure, and the credential's flavour. */
  function HeadWords(h: Head): (b: ByteString)
    ensures |b| == 28
  {
    Words4(h.xid, 0, h.rpcvers, h.prog) + LastWords(h)
  }

  function LastWords(h: Head): (b: ByteString)
    ensures |b| == 12
  {
    (BigEndian(h.vers, 4) + BigEndian(h.proc, 4)) + BigEndian(RPCSEC_GSS, 4)
  }

  /** What a client signs: the header from the XID to the end of the credential. */
  function PutHead(h: Head): ByteString { HeadWords(h) + PutOpaque(EncodeCred(h.cred)) }

  /** The header at the front of a record, and what follows it. */
  function TakeHead(b: ByteString): Option<Xdr.Read<Head>>
  {
    if |b| < 28 || Value(b[4..8]) != 0 || Value(b[24..28]) != RPCSEC_GSS then None
    else
      var body := Xdr.GetOpaque(b[28..]);
      if body.None? then None
      else
        var cred := ParseCred(body.value.got);
        if cred.None? then None else Some(Xdr.Read(HeadOf(b[..28], cred.value), body.value.rest))
  }

  function HeadOf(words: ByteString, cred: Cred): Head
    requires |words| == 28
  {
    Head(Value(words[..4]), Value(words[8..12]), Value(words[12..16]), Value(words[16..20]), Value(words[20..24]), cred)
  }

  /** The verifier: a MIC token, or something that can not be one. */
  function TakeVerifier(b: ByteString): Option<Xdr.Read<Option<ByteString>>>
  {
    if |b| < 4 then None
    else
      var body := Xdr.GetOpaque(b[4..]);
      if body.None? then None
      else Some(Xdr.Read(if Value(b[..4]) == RPCSEC_GSS then Some(body.value.got) else None, body.value.rest))
  }

  /** A call as it reaches the server: `header` is the signed front of the record, `args` what follows the verifier. */
  datatype DataCall = DataCall(head: Head, verifier: Option<ByteString>, header: ByteString, args: ByteString)
  {
    function SeqNum(): nat { head.cred.seqNum }

    function Service(): nat { head.cred.service }

    predicate Destroys() { head.cred.gssProc == RPCSEC_GSS_DESTROY }

    predicate IsCompound() { head.proc == 1 && head.prog == NFS_PROGRAM }
  }

  /** `from_bytes` for a record with an RPCSEC_GSS credential. */
  function ParseCall(record: ByteString): Option<DataCall>
  {
    var head := TakeHead(record);
    if head.None? then None
    else
      HeadCut(record);
      var verifier := TakeVerifier(head.value.rest);
      if verifier.None? then None
      else Some(DataCall(head.value.got, verifier.value.got, record[..|record| - |head.value.rest|],
                         verifier.value.rest))
  }

  /** Missing padding at the very end is forgiven. */
  lemma PaddingForgiven(data: ByteString)
    requires |data| < WORD_LIMIT
    ensures TakeOpaque(BigEndian(|data|, 4) + data) == Some((data, []))
  {
    Widths();
    ValueOfBigEndian(|data|, 4);
    FourInFront(BigEndian(|data|, 4), data);
    assert (BigEndian(|data|, 4) + data)[4..4 + |data|] == data[..|data|] == data;
  }

  /** Missing data is not. */
  lemma DataNotForgiven(len: nat, data: ByteString)
    requires |data| < len < WORD_LIMIT
    ensures TakeOpaque(BigEndian(len, 4) + data).None?
  {
    Widths();
    ValueOfBigEndian(len, 4);
    FourInFront(BigEndian(len, 4), data);
  }

  /** What is no call of this kind is not taken for one, and what is no MIC token is no verifier. */
  lemma ParsedCalls(record: ByteString)
    requires ParseCall(record).Some?
    ensures var call := ParseCall(record).value;
            && |record| >= 28 && Value(record[4..8]) == 0 && Value(record[24..28]) == 6
            && |call.header| + 4 <= |record| && call.header == record[..|call.header|]
            && (call.verifier.Some? <==> Value(record[|call.header|..][..4]) == 6)
  {
    HeadCut(record);
    var head := TakeHead(record).value;
    RestFollows(record);
    assert record[..|record| - |head.rest|] == ParseCall(record).value.header;
    assert record[|record| - |head.rest|..] == head.rest;
  }

  /** What follows the header is the end of the record. */
  lemma RestFollows(b: ByteString)
    requires TakeHead(b).Some? && |TakeHead(b).value.rest| <= |b|
    ensures TakeHead(b).value.rest == b[|b| - |TakeHead(b).value.rest|..]
  {
    var tail := b[28..];
    var len := Xdr.GetWord(tail).value.got;
    assert TakeHead(b).value.rest == tail[4..][len + Padding(len)..];
  }

  lemma OpaqueReads(data: ByteString, rest: ByteString)
    requires |data| < WORD_LIMIT
    ensures Xdr.GetOpaque(PutOpaque(data) + rest) == Some(Xdr.Read(data, rest))
  {
    Xdr.OpaqueReads(data, rest);
    assert PutOpaque(data) == Xdr.PutOpaque(data).value;
  }

  lemma LastWordsRead(h: Head)
    requires HeadFits(h)
    ensures var w := LastWords(h);
            Value(w[..4]) == h.vers && Value(w[4..8]) == h.proc && Value(w[8..12]) == RPCSEC_GSS
  {
    Widths();
    ValueOfBigEndian(h.vers, 4);
    ValueOfBigEndian(h.proc, 4);
    ValueOfBigEndian(RPCSEC_GSS, 4);
    var w := LastWords(h);
    assert w[..4] == BigEndian(h.vers, 4);
    assert w[4..8] == BigEndian(h.proc, 4);
    assert w[8..12] == BigEndian(RPCSEC_GSS, 4);
  }

  lemma SevenWords(a: ByteString, b: ByteString)
    requires |a| == 16 && |b| == 12
    ensures var w := a + b;
            && w[..4] == a[..4] && w[4..8] == a[4..8] && w[8..12] == a[8..12] && w[12..16] == a[12..16]
            && w[16..20] == b[..4] && w[20..24] == b[4..8] && w[24..28] == b[8..12]
  {
  }

  lemma HeadWordsRead(h: Head)
    requires HeadFits(h)
    ensures var w := HeadWords(h);
            Value(w[4..8]) == 0 && Value(w[24..28]) == RPCSEC_GSS && HeadOf(w, h.cred) == h
  {
    Words4Read(h.xid, 0, h.rpcvers, h.prog);
    LastWordsRead(h);
    SevenWords(Words4(h.xid, 0, h.rpcvers, h.prog), LastWords(h));
  }

  lemma HeadSplits(words: ByteString, tail: ByteString)
    requires |words| == 28
    ensures var b := words + tail;
            b[..28] == words && b[28..] == tail && b[4..8] == words[4..8] && b[24..28] == words[24..28]
  {
  }

  /** The header a client writes is the one the server reads. */
  lemma TakeUndoesPutHead(h: Head, rest: ByteString)
    requires HeadFits(h)
    ensures TakeHead(PutHead(h) + rest) == Some(Xdr.Read(h, rest))
  {
    var w, cred := HeadWords(h), PutOpaque(EncodeCred(h.cred));
    assert PutHead(h) + rest == w + (cred + rest);
    HeadSplits(w, cred + rest);
    HeadWordsRead(h);
    OpaqueReads(EncodeCred(h.cred), rest);
    ParseUndoesEncodeCred(h.cred);
  }

  /** Where the fields of a header stand, and the credential behind them (section 5.3.1 of RFC 2203). */
  lemma HeadBytes(h: Head)
    requires HeadFits(h)
    ensures var b, n := PutHead(h), |EncodeCred(h.cred)|;
            && |b| == 32 + n && b[32..] == EncodeCred(h.cred) && Value(b[28..32]) == n
            && Value(b[..4]) == h.xid && Value(b[4..8]) == 0 && Value(b[8..12]) == h.rpcvers
            && Value(b[12..16]) == h.prog
            && Value(b[16..20]) == h.vers && Value(b[20..24]) == h.proc && Value(b[24..28]) == 6
  {
    var w, body := HeadWords(h), EncodeCred(h.cred);
    HeadWordsRead(h);
    HeadSplits(w, PutOpaque(body));
    WordsSplit(w, PutOpaque(body));
    Widths();
    ValueOfBigEndian(|body|, 4);
    assert PutOpaque(body) == BigEndian(|body|, 4) + body;
  }

  lemma WordsSplit(words: ByteString, tail: ByteString)
    requires |words| == 28
    ensures var b := words + tail;
            && b[..4] == words[..4] && b[8..12] == words[8..12] && b[12..16] == words[12..16]
            && b[16..20] == words[16..20] && b[20..24] == words[20..24]
            && (|tail| >= 4 ==> b[28..32] == tail[..4] && b[32..] == tail[4..])
  {
  }

  /** Where the fields of a credential stand. */
  lemma CredBytes(c: Cred)
    requires FitsWords(c)
    ensures var b := EncodeCred(c);
            && |b| == 20 + |c.handle| + Padding(|c.handle|)
            && Value(b[..4]) == c.version && Value(b[4..8]) == c.gssProc && Value(b[8..12]) == c.seqNum
            && Value(b[12..16]) == c.service && Value(b[16..20]) == |c.handle| && b[20..20 + |c.handle|] == c.handle
  {
    Words4Read(c.version, c.gssProc, c.seqNum, c.service);
    OpaqueHeadReads(CredWords(c), c.handle);
    var b, w := EncodeCred(c), CredWords(c);
    assert b[..4] == w[..4] && b[4..8] == w[4..8] && b[8..12] == w[8..12] && b[12..16] == w[12..16];
  }

  /** Opaque data reads the same when cut off right behind it. */
  lemma OpaqueCut(b: ByteString)
    requires Xdr.GetOpaque(b).Some?
    ensures var r := Xdr.GetOpaque(b).value;
            && |r.rest| <= |b|
            && Xdr.GetOpaque(b[..|b| - |r.rest|]) == Some(Xdr.Read(r.got, []))
  {
    var r := Xdr.GetOpaque(b).value;
    var len := Xdr.GetWord(b).value.got;
    var cut := b[..|b| - |r.rest|];
    assert cut[..4] == b[..4];
    assert |cut| == 4 + len + Padding(len);
    assert cut[4..][..len] == b[4..][..len];
    assert cut[4..][len + Padding(len)..] == [];
  }

  /** What the server takes as the signed header holds exactly the head it acts on, and nothing behind it. */
  lemma HeadCut(b: ByteString)
    requires TakeHead(b).Some?
    ensures var r := TakeHead(b).value;
            && |r.rest| <= |b| - 28
            && TakeHead(b[..|b| - |r.rest|]) == Some(Xdr.Read(r.got, []))
  {
    OpaqueCut(b[28..]);
    var r := TakeHead(b).value;
    var cut := b[..|b| - |r.rest|];
    assert cut[28..] == b[28..][..|b[28..]| - |r.rest|];
    assert cut[..28] == b[..28] && cut[4..8] == b[4..8] && cut[24..28] == b[24..28];
  }

  /** The signed bytes determine number, service, handle and procedure. */
  lemma SignedHeader(record: ByteString)
    requires ParseCall(record).Some?
    ensures var call := ParseCall(record).value;
            TakeHead(call.header) == Some(Xdr.Read(call.head, []))
  {
    HeadCut(record);
  }

  // ------------------------------------------------------------ protection, both directions

  /** The length word of the protected body fits 32 bits: a sealed token adds headers, confounder and MAC. */
  predicate FitsFrame(c: Suite, secret: bool, body: ByteString)
  {
    |body| + (if secret then 48 + c.macLen else 0) < WORD_LIMIT
  }

  /** `GssContext::mic`: an empty token if the key can not be used. */
  function MicOrEmpty(c: Suite, k: ContextKey, sender: Sender, micSeq: nat, data: ByteString): ByteString
  {
    var mic := GetMic(c, k, sender, micSeq, data);
    if mic.Ok? then mic.value else []
  }

  /** Integrity: the body and its MIC; privacy: one sealed token. */
  function Protect(c: Suite, k: ContextKey, sender: Sender, secret: bool, body: ByteString,
                   micSeq: nat, confounder: Block): (r: Result<ByteString, Error>)
    ensures r.Ok? ==> |r.value| % 4 == 0
  {
    if !secret then Ok(PutTwo(body, MicOrEmpty(c, k, sender, micSeq, body)))
    else
      var token := Wrap(c, k, sender, micSeq, true, body, confounder);
      if token.Err? then token else Ok(PutOpaque(token.value))
  }

  /** Integrity sends the body and then its MIC, privacy one sealed token of it, each behind its length. */
  lemma ProtectedIs(c: Suite, k: ContextKey, sender: Sender, body: ByteString, micSeq: nat, confounder: Block)
    requires c.Valid() && c.usable && micSeq < HYPER_LIMIT && |body| + 100 < WORD_LIMIT
    ensures var r := Protect(c, k, sender, false, body, micSeq, confounder);
            && r.Ok? && TakeOpaque(r.value).Some? && TakeOpaque(r.value).value.0 == body
            && TakeOpaque(TakeOpaque(r.value).value.1) == Some((GetMic(c, k, sender, micSeq, body).value, []))
    ensures var r := Protect(c, k, sender, true, body, micSeq, confounder);
            r.Ok? && TakeOpaque(r.value) == Some((Wrap(c, k, sender, micSeq, true, body, confounder).value, []))
  {
    VerifyUndoesGetMic(c, k, sender, micSeq, body);
    TakeTwo(body, GetMic(c, k, sender, micSeq, body).value);
    UnwrapUndoesWrap(c, k, sender, micSeq, true, body, confounder);
    var token := Wrap(c, k, sender, micSeq, true, body, confounder).value;
    TakeUndoesPut(token, []);
    assert PutOpaque(token) + [] == PutOpaque(token);
  }

  function UnprotectIntegrity(c: Suite, k: ContextKey, sender: Sender, raw: ByteString): Option<ByteString>
  {
    var first := TakeOpaque(raw);
    if first.None? then None
    else
      var second := TakeOpaque(first.value.1);
      if second.None? || VerifyMic(c, k, sender, first.value.0, second.value.0).Err? then None
      else Some(first.value.0)
  }

  function UnprotectPrivacy(c: Suite, k: ContextKey, sender: Sender, raw: ByteString): Option<ByteString>
  {
    var token := TakeOpaque(raw);
    if token.None? then None
    else
      var u := Unwrap(c, k, sender, token.value.0);
      if u.Err? || !u.value.secret then None else Some(u.value.message)
  }

  function Unprotect(c: Suite, k: ContextKey, sender: Sender, secret: bool, raw: ByteString): Option<ByteString>
  {
    if secret then UnprotectPrivacy(c, k, sender, raw) else UnprotectIntegrity(c, k, sender, raw)
  }

  lemma IntegrityFrames(c: Suite, k: ContextKey, sender: Sender, body: ByteString, micSeq: nat, confounder: Block)
    requires c.Valid() && c.usable && micSeq < HYPER_LIMIT && |body| < WORD_LIMIT
    ensures var r := Protect(c, k, sender, false, body, micSeq, confounder);
            r.Ok? && UnprotectIntegrity(c, k, sender, r.value) == Some(body)
  {
    var mic := MicOrEmpty(c, k, sender, micSeq, body);
    VerifyUndoesGetMic(c, k, sender, micSeq, body);
    TakeTwo(body, mic);
  }

  lemma TakeTwo(first: ByteString, second: ByteString)
    requires |first| < WORD_LIMIT && |second| < WORD_LIMIT
    ensures var r := TakeOpaque(PutTwo(first, second));
            r.Some? && r.value.0 == first && TakeOpaque(r.value.1) == Some((second, []))
  {
    TakeUndoesPut(first, PutOpaque(second));
    TakeUndoesPut(second, []);
    assert PutOpaque(second) + [] == PutOpaque(second);
  }

  lemma PrivacyFrames(c: Suite, k: ContextKey, sender: Sender, body: ByteString, micSeq: nat, confounder: Block)
    requires c.Valid() && c.usable && micSeq < HYPER_LIMIT && FitsFrame(c, true, body)
    ensures var r := Protect(c, k, sender, true, body, micSeq, confounder);
            r.Ok? && UnprotectPrivacy(c, k, sender, r.value) == Some(body)
  {
    UnwrapUndoesWrap(c, k, sender, micSeq, true, body, confounder);
    var token := Wrap(c, k, sender, micSeq, true, body, confounder).value;
    assert |token| <= |body| + 48 + c.macLen;
    TakeUndoesPut(token, []);
    assert PutOpaque(token) + [] == PutOpaque(token);
  }

  /** Unprotecting undoes protecting, for both services and both senders. */
  lemma UnprotectUndoesProtect(c: Suite, k: ContextKey, sender: Sender, secret: bool, body: ByteString,
                               micSeq: nat, confounder: Block)
    requires c.Valid() && c.usable && micSeq < HYPER_LIMIT && FitsFrame(c, secret, body)
    ensures var r := Protect(c, k, sender, secret, body, micSeq, confounder);
            r.Ok? && Unprotect(c, k, sender, secret, r.value) == Some(body)
  {
    if secret {
      PrivacyFrames(c, k, sender, body, micSeq, confounder);
    } else {
      IntegrityFrames(c, k, sender, body, micSeq, confounder);
    }
  }

  /** Made by a holder of the key for `body`: a MIC over it, or a token that seals it. */
  ghost predicate MadeByHolder(c: Suite, k: ContextKey, sender: Sender, secret: bool, body: ByteString)
  {
    if secret then
      exists token, n, flags, filler, confounder, rrc ::
        IsPeerToken(c, k, sender, token, Unwrapped(body, true, n), flags, filler, confounder, rrc)
    else exists mic, n :: IsMic(c, k, sender, body, mic, n)
  }

  /** Nothing else comes out of `Unprotect`. */
  lemma UnprotectedWasProtected(c: Suite, k: ContextKey, sender: Sender, secret: bool, raw: ByteString,
                                body: ByteString)
    requires c.Valid() && c.usable
    requires Unprotect(c, k, sender, secret, raw) == Some(body)
    ensures MadeByHolder(c, k, sender, secret, body)
  {
    var first := TakeOpaque(raw).value;
    if secret {
      var u := Unwrap(c, k, sender, first.0).value;
      UnwrapsIffPeerToken(c, k, sender, first.0, u);
      var flags, filler, confounder, rrc :| IsPeerToken(c, k, sender, first.0, u, flags, filler, confounder, rrc);
      assert u == Unwrapped(body, true, u.seqNum);
    } else {
      var mic := TakeOpaque(first.1).value.0;
      var n := VerifyMic(c, k, sender, body, mic).value;
      VerifiesIffMic(c, k, sender, body, mic, n);
      assert IsMic(c, k, sender, body, mic, n);
    }
  }

  /** `rpc_gss_data_t`: the sequence number in front of arguments or results. */
  function WithNumber(seqNum: nat, data: ByteString): ByteString
  {
    BigEndian(seqNum, 4) + data
  }

  function StripNumber(seqNum: nat, body: ByteString): Option<ByteString>
  {
    if |body| >= 4 && Value(body[..4]) == seqNum then Some(body[4..]) else None
  }

  lemma StripIffNumbered(seqNum: nat, body: ByteString, data: ByteString)
    requires seqNum < WORD_LIMIT
    ensures StripNumber(seqNum, body) == Some(data) <==> body == WithNumber(seqNum, data)
  {
    Widths();
    ValueOfBigEndian(seqNum, 4);
    if StripNumber(seqNum, body) == Some(data) {
      BigEndianOfValue(body[..4]);
      assert body == body[..4] + body[4..];
    }
    if body == WithNumber(seqNum, data) {
      assert body[..4] == BigEndian(seqNum, 4);
    }
  }

  // ------------------------------------------------------------ calls

  datatype Denial = CredProblem | CtxProblem | BadCred

  datatype Outcome =
    | Denied(why: Denial)
    | Garbage
    | Destroyed
    | Drop
    | Proceed(args: ByteString)
    | InitFailed(major: nat)

  /** Where a call goes: to the acceptor with its token, to `data`, or back at once. */
  datatype Route = ToInit(token: ByteString) | ToData | Answer(outcome: Outcome)

  /** `handle`, and what `init` settles before it asks the acceptor. */
  function RouteOf(call: DataCall): Route
  {
    var cred := call.head.cred;
    if cred.version != RPCSEC_GSS_VERSION then Answer(Denied(BadCred))
    else if cred.gssProc == RPCSEC_GSS_DATA || cred.gssProc == RPCSEC_GSS_DESTROY then ToData
    else if cred.gssProc != RPCSEC_GSS_INIT && cred.gssProc != RPCSEC_GSS_CONTINUE_INIT then Answer(Denied(BadCred))
    else if call.head.proc != 0 then Answer(Denied(BadCred))
    else if cred.gssProc == RPCSEC_GSS_CONTINUE_INIT then Answer(InitFailed(GSS_S_NO_CONTEXT))
    else
      var token := TakeOpaque(call.args);
      if token.None? then Answer(Garbage) else ToInit(token.value.0)
  }

  /** Exactly when a call goes to `data` or to the acceptor, and what the others are answered. */
  lemma Routes(call: DataCall)
    ensures var cred, route := call.head.cred, RouteOf(call);
            && (route == ToData <==> cred.version == 1 && (cred.gssProc == 0 || cred.gssProc == 3))
            && (route == Answer(Denied(BadCred)) <==>
                  cred.version != 1 || cred.gssProc > 3 || (1 <= cred.gssProc <= 2 && call.head.proc != 0))
            && (route == Answer(InitFailed(0x8_0000)) <==>
                  cred.version == 1 && cred.gssProc == 2 && call.head.proc == 0)
            && (route == Answer(Garbage) <==>
                  cred.version == 1 && cred.gssProc == 1 && call.head.proc == 0 && TakeOpaque(call.args).None?)
            && (cred.version == 1 && cred.gssProc == 1 && call.head.proc == 0 && TakeOpaque(call.args).Some? ==>
                  route == ToInit(TakeOpaque(call.args).value.0))
  {
  }

  /** `data`: the verifier has to be a MIC of the header, and the number below the end of the space. */
  function HeaderVerdict(c: Suite, k: ContextKey, call: DataCall): Option<Denial>
  {
    if call.verifier.None? || VerifyMic(c, k, Initiator, call.header, call.verifier.value).Err? then Some(CredProblem)
    else if call.SeqNum() >= MAXSEQ then Some(CtxProblem)
    else None
  }

  /** The argument bytes under the call's service. */
  function PlainArgs(c: Suite, k: ContextKey, call: DataCall): Option<ByteString>
  {
    if call.Service() == SVC_NONE then Some(call.args)
    else
      var body := Unprotect(c, k, Initiator, call.Service() == SVC_PRIVACY, call.args);
      if body.None? then None else StripNumber(call.SeqNum(), body.value)
  }

  /** The end of `data`, once the number was accepted. */
  function Arguments(c: Suite, k: ContextKey, call: DataCall, decodes: ByteString -> bool): Outcome
  {
    if call.Destroys() then Destroyed
    else if !(1 <= call.Service() <= 3) then Denied(BadCred)
    else
      var args := PlainArgs(c, k, call);
      if args.None? || (call.IsCompound() && !decodes(args.value)) then Garbage else Proceed(args.value)
  }

  /** The order of `data`: expiry, header, number, arguments; `end` is the outcome once the number is accepted. */
  function DataBy(verdict: Option<Denial>, end: Outcome, expires: int, window: Window, now: int,
                  seqNum: nat): (Outcome, Window)
  {
    if expires < now then (Denied(CtxProblem), window)
    else if verdict.Some? then (Denied(verdict.value), window)
    else (if window.Accept(seqNum).1 then end else Drop, window.Accept(seqNum).0)
  }

  /** `data` for a context found in the table, all in one: the outcome and the window afterwards. */
  function Data(c: Suite, k: ContextKey, expires: int, window: Window, now: int, call: DataCall,
                decodes: ByteString -> bool)
    : (Outcome, Window)
  {
    DataBy(HeaderVerdict(c, k, call), Arguments(c, k, call, decodes), expires, window, now, call.SeqNum())
  }

  /** Alive when looked at, signed with the key, and with a number below 2^31 that the history admits. */
  ghost predicate Passes(c: Suite, k: ContextKey, expires: int, now: int, h: set<int>, call: DataCall)
  {
    now <= expires && HeaderSigned(c, k, call) && call.head.cred.seqNum < 0x8000_0000
    && Admissible(h, call.head.cred.seqNum)
  }

  /** Exactly when a call is denied, and why, and when it gets no answer; only one that passes changes the window. */
  lemma DataRefuses(c: Suite, k: ContextKey, expires: int, window: Window, now: int, h: set<int>, call: DataCall,
                    decodes: ByteString -> bool)
    requires window.Represents(h) && TakeHead(call.header) == Some(Xdr.Read(call.head, []))
    ensures var outcome, seqNum := Data(c, k, expires, window, now, call, decodes).0, call.head.cred.seqNum;
            && (outcome == Denied(CtxProblem) <==>
                  expires < now || (HeaderSigned(c, k, call) && seqNum >= 0x8000_0000))
            && (outcome == Denied(CredProblem) <==> now <= expires && !HeaderSigned(c, k, call))
            && (outcome == Drop <==>
                  now <= expires && HeaderSigned(c, k, call) && seqNum < 0x8000_0000 && !Admissible(h, seqNum))
    ensures var left := Data(c, k, expires, window, now, call, decodes).1;
            if Passes(c, k, expires, now, h, call) then left.Represents(h + {call.head.cred.seqNum as int})
            else left == window
  {
    VerdictIffSigned(c, k, call);
    VerdictOfUnsigned(c, k, call);
    AcceptRefinesHistory(window, h, call.head.cred.seqNum);
  }

  lemma VerdictOfUnsigned(c: Suite, k: ContextKey, call: DataCall)
    requires TakeHead(call.header) == Some(Xdr.Read(call.head, []))
    ensures HeaderVerdict(c, k, call) == Some(CredProblem) <==> !HeaderSigned(c, k, call)
    ensures HeaderVerdict(c, k, call) != Some(BadCred)
  {
    VerdictIffSigned(c, k, call);
    if HeaderVerdict(c, k, call) == Some(CredProblem) && HeaderSigned(c, k, call) {
      var n :| IsMic(c, k, Initiator, call.header, call.verifier.value, n);
      VerifiesIffMic(c, k, Initiator, call.header, call.verifier.value, n);
    }
    if HeaderVerdict(c, k, call) == Some(CtxProblem) {
      HeaderWasSigned(c, k, call.header, call.verifier.value);
    }
  }

  /** What becomes of a call that passes: destroyed, of no known service, or its arguments, if they open and decode. */
  lemma DataAnswers(c: Suite, k: ContextKey, expires: int, window: Window, now: int, h: set<int>, call: DataCall,
                    decodes: ByteString -> bool, args: ByteString)
    requires window.Represents(h) && TakeHead(call.header) == Some(Xdr.Read(call.head, []))
    ensures var outcome, cred := Data(c, k, expires, window, now, call, decodes).0, call.head.cred;
            && (outcome == Destroyed <==> Passes(c, k, expires, now, h, call) && cred.gssProc == 3)
            && (outcome == Denied(BadCred) <==>
                  Passes(c, k, expires, now, h, call) && cred.gssProc != 3 && cred.service !in {1, 2, 3})
            && (outcome == Proceed(args) <==>
                  && Passes(c, k, expires, now, h, call) && cred.gssProc != 3 && cred.service in {1, 2, 3}
                  && (call.head.proc == 1 && call.head.prog == 100003 ==> decodes(args))
                  && (cred.service == 1 ==> args == call.args)
                  && (cred.service != 1 ==>
                        Unprotect(c, k, Initiator, cred.service == 3, call.args) ==
                        Some(BigEndian(cred.seqNum, 4) + args)))
  {
    VerdictIffSigned(c, k, call);
    VerdictOfUnsigned(c, k, call);
    AcceptRefinesHistory(window, h, call.head.cred.seqNum);
    if call.head.cred.seqNum < 0x8000_0000 {
      ArgumentsAre(c, k, call, decodes, args);
    }
  }

  lemma PlainArgsAre(c: Suite, k: ContextKey, call: DataCall, args: ByteString)
    requires call.head.cred.seqNum < 0x8000_0000 && call.head.cred.service in {1, 2, 3}
    ensures var cred := call.head.cred;
            PlainArgs(c, k, call) == Some(args) <==>
            && (cred.service == 1 ==> args == call.args)
            && (cred.service != 1 ==>
                  Unprotect(c, k, Initiator, cred.service == 3, call.args) == Some(BigEndian(cred.seqNum, 4) + args))
  {
    var cred := call.head.cred;
    if cred.service != 1 {
      var body := Unprotect(c, k, Initiator, cred.service == 3, call.args);
      if body.Some? {
        StripIffNumbered(cred.seqNum, body.value, args);
      }
    }
  }

  lemma ArgumentsAre(c: Suite, k: ContextKey, call: DataCall, decodes: ByteString -> bool, args: ByteString)
    requires call.head.cred.seqNum < 0x8000_0000
    ensures var outcome, cred := Arguments(c, k, call, decodes), call.head.cred;
            && (outcome == Destroyed <==> cred.gssProc == 3)
            && (outcome == Denied(BadCred) <==> cred.gssProc != 3 && cred.service !in {1, 2, 3})
            && outcome != Denied(CtxProblem) && outcome != Denied(CredProblem) && outcome != Drop
            && (outcome == Proceed(args) <==>
                  && cred.gssProc != 3 && cred.service in {1, 2, 3}
                  && (call.head.proc == 1 && call.head.prog == 100003 ==> decodes(args))
                  && (cred.service == 1 ==> args == call.args)
                  && (cred.service != 1 ==>
                        Unprotect(c, k, Initiator, cred.service == 3, call.args) ==
                        Some(BigEndian(cred.seqNum, 4) + args)))
  {
    if call.head.cred.service in {1, 2, 3} {
      PlainArgsAre(c, k, call, args);
    }
  }

  // ------------------------------------------------------------ a client's call, end to end

  function ProtectArgs(c: Suite, k: ContextKey, head: Head, args: ByteString, micSeq: nat,
                       confounder: Block): Result<ByteString, Error>
  {
    if head.cred.service == SVC_NONE then Ok(args)
    else Protect(c, k, Initiator, head.cred.service == SVC_PRIVACY, WithNumber(head.cred.seqNum, args), micSeq,
                 confounder)
  }

  /** The record a client following the protocol sends for `args`. */
  function ClientRecord(c: Suite, k: ContextKey, head: Head, args: ByteString, headerSeq: nat, micSeq: nat,
                        confounder: Block)
    : Result<ByteString, Error>
  {
    var mic := GetMic(c, k, Initiator, headerSeq, PutHead(head));
    if mic.Err? then mic
    else
      var body := ProtectArgs(c, k, head, args, micSeq, confounder);
      if body.Err? then body else Ok(PutHead(head) + (BigEndian(RPCSEC_GSS, 4) + PutOpaque(mic.value) + body.value))
  }

  /** A DATA call of version 1 for one of the three services whose parts fit their length words. */
  predicate Sendable(c: Suite, head: Head, args: ByteString)
  {
    && HeadFits(head) && head.cred.version == RPCSEC_GSS_VERSION && head.cred.gssProc == RPCSEC_GSS_DATA
    && 1 <= head.cred.service <= 3 && head.cred.seqNum < MAXSEQ
    && (head.cred.service != SVC_NONE ==>
        FitsFrame(c, head.cred.service == SVC_PRIVACY, WithNumber(head.cred.seqNum, args)))
  }

  lemma VerifierReads(mic: ByteString, rest: ByteString)
    requires |mic| < WORD_LIMIT
    ensures TakeVerifier(BigEndian(RPCSEC_GSS, 4) + PutOpaque(mic) + rest) == Some(Xdr.Read(Some(mic), rest))
  {
    Widths();
    ValueOfBigEndian(RPCSEC_GSS, 4);
    FourInFront(BigEndian(RPCSEC_GSS, 4), PutOpaque(mic) + rest);
    assert BigEndian(RPCSEC_GSS, 4) + PutOpaque(mic) + rest == BigEndian(RPCSEC_GSS, 4) + (PutOpaque(mic) + rest);
    OpaqueReads(mic, rest);
  }

  /** The server takes the record apart into what the client put together. */
  lemma ClientRecordParses(head: Head, mic: ByteString, body: ByteString)
    requires HeadFits(head) && |mic| < WORD_LIMIT
    ensures ParseCall(PutHead(head) + (BigEndian(RPCSEC_GSS, 4) + PutOpaque(mic) + body)) ==
            Some(DataCall(head, Some(mic), PutHead(head), body))
  {
    var tail := BigEndian(RPCSEC_GSS, 4) + PutOpaque(mic) + body;
    TakeUndoesPutHead(head, tail);
    VerifierReads(mic, body);
    assert (PutHead(head) + tail)[..|PutHead(head)|] == PutHead(head);
  }

  lemma ClientArgsRecovered(c: Suite, k: ContextKey, call: DataCall, args: ByteString, micSeq: nat, confounder: Block)
    requires c.Valid() && c.usable && Sendable(c, call.head, args) && micSeq < HYPER_LIMIT
    requires ProtectArgs(c, k, call.head, args, micSeq, confounder) == Ok(call.args)
    ensures PlainArgs(c, k, call) == Some(args)
  {
    if call.Service() != SVC_NONE {
      UnprotectUndoesProtect(c, k, Initiator, call.Service() == SVC_PRIVACY, WithNumber(call.SeqNum(), args), micSeq,
                             confounder);
      StripIffNumbered(call.SeqNum(), WithNumber(call.SeqNum(), args), args);
    }
  }

  lemma ArgsAreProtected(c: Suite, k: ContextKey, head: Head, args: ByteString, micSeq: nat, confounder: Block)
    requires c.Valid() && c.usable && Sendable(c, head, args) && micSeq < HYPER_LIMIT
    ensures ProtectArgs(c, k, head, args, micSeq, confounder).Ok?
  {
    if head.cred.service != SVC_NONE {
      UnprotectUndoesProtect(c, k, Initiator, head.cred.service == SVC_PRIVACY, WithNumber(head.cred.seqNum, args),
                             micSeq, confounder);
    }
  }

  lemma MicIsShort(c: Suite, k: ContextKey, seqNum: nat, message: ByteString)
    requires c.Valid() && c.usable
    ensures GetMic(c, k, Initiator, seqNum, message).Ok?
            && |GetMic(c, k, Initiator, seqNum, message).value| < WORD_LIMIT
  {
  }

  /** There is such a record, and the server reads head, verifier and protected arguments out of it. */
  lemma ClientRecordExists(c: Suite, k: ContextKey, head: Head, args: ByteString, headerSeq: nat, micSeq: nat,
                           confounder: Block)
    requires c.Valid() && c.usable && Sendable(c, head, args) && headerSeq < HYPER_LIMIT && micSeq < HYPER_LIMIT
    ensures GetMic(c, k, Initiator, headerSeq, PutHead(head)).Ok?
            && ProtectArgs(c, k, head, args, micSeq, confounder).Ok?
    ensures var record := ClientRecord(c, k, head, args, headerSeq, micSeq, confounder);
            && record.Ok?
            && ParseCall(record.value) == Some(DataCall(
                 head, Some(GetMic(c, k, Initiator, headerSeq, PutHead(head)).value), PutHead(head),
                 ProtectArgs(c, k, head, args, micSeq, confounder).value))
  {
    MicIsShort(c, k, headerSeq, PutHead(head));
    ArgsAreProtected(c, k, head, args, micSeq, confounder);
    ClientRecordParses(head, GetMic(c, k, Initiator, headerSeq, PutHead(head)).value,
                       ProtectArgs(c, k, head, args, micSeq, confounder).value);
  }

  /**
    End to end: the record of a call made by the client's rules, with a number the
    window's history admits, proceeds with exactly the client's argument bytes.
   */
  lemma ClientCallProceeds(c: Suite, k: ContextKey, expires: int, window: Window, now: int, h: set<int>, head: Head,
                           args: ByteString, headerSeq: nat, micSeq: nat, confounder: Block,
                           decodes: ByteString -> bool)
    requires c.Valid() && c.usable && Sendable(c, head, args) && headerSeq < HYPER_LIMIT && micSeq < HYPER_LIMIT
    requires now <= expires && window.Represents(h) && Admissible(h, head.cred.seqNum)
    requires head.proc == 1 && head.prog == NFS_PROGRAM ==> decodes(args)
    ensures var record := ClientRecord(c, k, head, args, headerSeq, micSeq, confounder);
            && record.Ok? && ParseCall(record.value).Some? && RouteOf(ParseCall(record.value).value) == ToData
            && Data(c, k, expires, window, now, ParseCall(record.value).value, decodes).0 == Proceed(args)
            && Data(c, k, expires, window, now, ParseCall(record.value).value, decodes).1
               .Represents(h + {head.cred.seqNum as int})
  {
    ClientRecordExists(c, k, head, args, headerSeq, micSeq, confounder);
    var call := ParseCall(ClientRecord(c, k, head, args, headerSeq, micSeq, confounder).value).value;
    AcceptRefinesHistory(window, h, head.cred.seqNum);
    ClientVerdict(c, k, call, headerSeq);
    ClientArgsRecovered(c, k, call, args, micSeq, confounder);
    DataProceeds(c, k, expires, window, now, call, decodes, args);
  }

  lemma ClientVerdict(c: Suite, k: ContextKey, call: DataCall, headerSeq: nat)
    requires c.Valid() && c.usable && headerSeq < HYPER_LIMIT && call.SeqNum() < MAXSEQ
    requires GetMic(c, k, Initiator, headerSeq, call.header).Ok?
    requires call.verifier == Some(GetMic(c, k, Initiator, headerSeq, call.header).value)
    ensures HeaderVerdict(c, k, call).None?
  {
    VerifyUndoesGetMic(c, k, Initiator, headerSeq, call.header);
  }

  /** The steps of `data`, one by one. */
  lemma DataProceeds(c: Suite, k: ContextKey, expires: int, window: Window, now: int, call: DataCall,
                     decodes: ByteString -> bool, args: ByteString)
    requires now <= expires && HeaderVerdict(c, k, call).None? && window.Accept(call.SeqNum()).1
    requires !call.Destroys() && 1 <= call.Service() <= 3 && PlainArgs(c, k, call) == Some(args)
    requires call.IsCompound() ==> decodes(args)
    ensures Data(c, k, expires, window, now, call, decodes) == (Proceed(args), window.Accept(call.SeqNum()).0)
  {
  }

  /** Signed with the key: the header as received, which holds this number, service, handle and procedure. */
  ghost predicate HeaderSigned(c: Suite, k: ContextKey, call: DataCall)
  {
    && call.verifier.Some?
    && (exists n :: IsMic(c, k, Initiator, call.header, call.verifier.value, n))
    && TakeHead(call.header) == Some(Xdr.Read(call.head, []))
  }

  /** A call passes the header check exactly when its header is signed with the key and its number is in range. */
  lemma VerdictIffSigned(c: Suite, k: ContextKey, call: DataCall)
    requires TakeHead(call.header) == Some(Xdr.Read(call.head, []))
    ensures HeaderVerdict(c, k, call).None? <==> HeaderSigned(c, k, call) && call.SeqNum() < MAXSEQ
  {
    if HeaderVerdict(c, k, call).None? {
      HeaderWasSigned(c, k, call.header, call.verifier.value);
    }
    if HeaderSigned(c, k, call) {
      var n :| IsMic(c, k, Initiator, call.header, call.verifier.value, n);
      VerifiesIffMic(c, k, Initiator, call.header, call.verifier.value, n);
    }
  }

  /**
    Whatever proceeds had a header signed with the context's key that holds its
    number and service and, under integrity or privacy, a body made with that
    key for this very number.
   */
  lemma ProceedsOnlyProtected(c: Suite, k: ContextKey, expires: int, window: Window, now: int, call: DataCall,
                              decodes: ByteString -> bool, args: ByteString)
    requires c.Valid() && c.usable && TakeHead(call.header) == Some(Xdr.Read(call.head, []))
    requires Data(c, k, expires, window, now, call, decodes).0 == Proceed(args)
    ensures now <= expires && call.SeqNum() < MAXSEQ && 1 <= call.Service() <= 3 && HeaderSigned(c, k, call)
    ensures call.Service() != SVC_NONE ==>
              MadeByHolder(c, k, Initiator, call.Service() == SVC_PRIVACY, WithNumber(call.SeqNum(), args))
  {
    VerdictIffSigned(c, k, call);
    if call.Service() != SVC_NONE {
      ArgsWereProtected(c, k, call, args);
    }
  }

  lemma HeaderWasSigned(c: Suite, k: ContextKey, header: ByteString, verifier: ByteString)
    requires VerifyMic(c, k, Initiator, header, verifier).Ok?
    ensures exists n :: IsMic(c, k, Initiator, header, verifier, n)
  {
    var n := VerifyMic(c, k, Initiator, header, verifier).value;
    VerifiesIffMic(c, k, Initiator, header, verifier, n);
    assert IsMic(c, k, Initiator, header, verifier, n);
  }

  lemma ArgsWereProtected(c: Suite, k: ContextKey, call: DataCall, args: ByteString)
    requires c.Valid() && c.usable && call.SeqNum() < MAXSEQ
    requires call.Service() != SVC_NONE && PlainArgs(c, k, call) == Some(args)
    ensures MadeByHolder(c, k, Initiator, call.Service() == SVC_PRIVACY, WithNumber(call.SeqNum(), args))
  {
    var body := Unprotect(c, k, Initiator, call.Service() == SVC_PRIVACY, call.args).value;
    StripIffNumbered(call.SeqNum(), body, args);
    UnprotectedWasProtected(c, k, Initiator, call.Service() == SVC_PRIVACY, call.args, body);
  }

  // ------------------------------------------------------------ replies

  /** The arm of an accepted reply; `Success` holds the COMPOUND results if they encode. */
  datatype AcceptBody =
    | Success(encoded: Option<ByteString>)
    | SuccessRaw(bytes: ByteString)
    | GarbageArgs
    | OtherStat(code: nat)

  datatype ReplyInfo = ReplyInfo(seqNum: nat, service: nat, isNull: bool)

  datatype WrappedReply = WrappedReply(verifier: ByteString, body: AcceptBody)

  /** `send_seq.fetch_add(1)` on a 64-bit counter. */
  function Next(sendSeq: nat): nat
  {
    (sendSeq + 1) % HYPER_LIMIT
  }

  /** The results `wrap_reply` has to protect, if the reply carries any. */
  function ResultsOf(info: ReplyInfo, body: AcceptBody): Option<ByteString>
  {
    match body
    case Success(encoded) => if info.isNull then Some([]) else encoded
    case SuccessRaw(bytes) => Some(bytes)
    case _ => None
  }

  /** The reply's arm under integrity or privacy. */
  function ProtectedBody(c: Suite, k: ContextKey, sendSeq: nat, info: ReplyInfo, body: AcceptBody, confounder: Block)
    : (r: AcceptBody)
    ensures r.SuccessRaw? ==> |r.bytes| % 4 == 0
  {
    var results := ResultsOf(info, body);
    if results.None? then if body.Success? then GarbageArgs else body
    else if info.service != SVC_INTEGRITY && info.service != SVC_PRIVACY then SuccessRaw([])
    else
      var out := Protect(c, k, Acceptor, info.service == SVC_PRIVACY, WithNumber(info.seqNum, results.value),
                         sendSeq, confounder);
      if out.Ok? then SuccessRaw(out.value) else GarbageArgs
  }

  /** `wrap_reply`: the verifier takes one send number and the protection a later one. */
  function WrapReply(c: Suite, k: ContextKey, micSeq: nat, bodySeq: nat, info: ReplyInfo, body: AcceptBody,
                     confounder: Block): WrappedReply
  {
    WrappedReply(
      MicOrEmpty(c, k, Acceptor, micSeq, BigEndian(info.seqNum, 4)),
      if info.service == SVC_NONE then body else ProtectedBody(c, k, bodySeq, info, body, confounder))
  }

  /** A client's reading of protected results. */
  function ClientResults(c: Suite, k: ContextKey, service: nat, seqNum: nat, raw: ByteString): Option<ByteString>
  {
    var body := Unprotect(c, k, Acceptor, service == SVC_PRIVACY, raw);
    if body.None? then None else StripNumber(seqNum, body.value)
  }

  /** The protected body gives the client the results. */
  lemma BodyUnwraps(c: Suite, k: ContextKey, sendSeq: nat, info: ReplyInfo, body: AcceptBody, confounder: Block)
    requires c.Valid() && c.usable
    requires sendSeq < HYPER_LIMIT && info.seqNum < WORD_LIMIT
    requires info.service == SVC_INTEGRITY || info.service == SVC_PRIVACY
    requires ResultsOf(info, body).Some?
    requires FitsFrame(c, info.service == SVC_PRIVACY, WithNumber(info.seqNum, ResultsOf(info, body).value))
    ensures var r := ProtectedBody(c, k, sendSeq, info, body, confounder);
            r.SuccessRaw? && ClientResults(c, k, info.service, info.seqNum, r.bytes) == ResultsOf(info, body)
  {
    var results := ResultsOf(info, body).value;
    UnprotectUndoesProtect(c, k, Acceptor, info.service == SVC_PRIVACY, WithNumber(info.seqNum, results), sendSeq,
                           confounder);
    StripIffNumbered(info.seqNum, WithNumber(info.seqNum, results), results);
  }

  /**
    Under every service the verifier signs the call's number; without protection
    the reply is as it was, and else the client reads back the results.
   */
  lemma ReplyUnwraps(c: Suite, k: ContextKey, micSeq: nat, bodySeq: nat, info: ReplyInfo, body: AcceptBody,
                     confounder: Block)
    requires c.Valid() && c.usable && micSeq < HYPER_LIMIT && bodySeq < HYPER_LIMIT
    requires info.seqNum < WORD_LIMIT && 1 <= info.service <= 3
    requires info.service != SVC_NONE ==>
               && ResultsOf(info, body).Some?
               && FitsFrame(c, info.service == SVC_PRIVACY, WithNumber(info.seqNum, ResultsOf(info, body).value))
    ensures var r := WrapReply(c, k, micSeq, bodySeq, info, body, confounder);
            && VerifyMic(c, k, Acceptor, BigEndian(info.seqNum, 4), r.verifier) == Ok(micSeq)
            && (info.service == SVC_NONE ==> r.body == body)
            && (info.service != SVC_NONE ==>
                  && r.body.SuccessRaw?
                  && ClientResults(c, k, info.service, info.seqNum, r.body.bytes) == ResultsOf(info, body))
  {
    VerifyUndoesGetMic(c, k, Acceptor, micSeq, BigEndian(info.seqNum, 4));
    if info.service != SVC_NONE {
      BodyUnwraps(c, k, bodySeq, info, body, confounder);
    }
  }

  /**
    Arm by arm, what a client reads back of a protected reply: the encoded
    results, none for a NULL reply, or the raw bytes.
   */
  lemma ReplyArms(c: Suite, k: ContextKey, micSeq: nat, bodySeq: nat, info: ReplyInfo, body: AcceptBody,
                  confounder: Block, results: ByteString)
    requires c.Valid() && c.usable && bodySeq < HYPER_LIMIT && info.seqNum < WORD_LIMIT && 2 <= info.service <= 3
    requires |results| + 100 < WORD_LIMIT
    requires || (body == Success(Some(results)) && !info.isNull)
             || (body.Success? && info.isNull && results == [])
             || body == SuccessRaw(results)
    ensures var r := WrapReply(c, k, micSeq, bodySeq, info, body, confounder).body;
            && r.SuccessRaw?
            && Unprotect(c, k, Acceptor, info.service == 3, r.bytes) == Some(BigEndian(info.seqNum, 4) + results)
  {
    UnprotectUndoesProtect(c, k, Acceptor, info.service == SVC_PRIVACY, WithNumber(info.seqNum, results), bodySeq,
                           confounder);
  }

  /**
    Results that do not encode give GARBAGE_ARGS; every other arm, and every reply without
    protection, stays as it is.
   */
  lemma OtherArms(c: Suite, k: ContextKey, micSeq: nat, bodySeq: nat, info: ReplyInfo, body: AcceptBody,
                  confounder: Block)
    requires 1 <= info.service <= 3
    ensures var r := WrapReply(c, k, micSeq, bodySeq, info, body, confounder).body;
            && (info.service == 1 ==> r == body)
            && (info.service != 1 && body == Success(None) && !info.isNull ==> r == GarbageArgs)
            && (body.GarbageArgs? || body.OtherStat? ==> r == body)
  {
  }

  /** Major and minor status and the window size of an INIT result. */
  function InitWords(major: nat, window: nat): (b: ByteString)
    ensures |b| == 12
  {
    BigEndian(major, 4) + (BigEndian(0, 4) + BigEndian(window, 4))
  }

  /** `rpc_gss_init_res`: handle, major and minor status, window, token. */
  function InitResult(handle: ByteString, major: nat, window: nat, token: ByteString): (b: ByteString)
    ensures |b| % 4 == 0
  {
    AddAligned(12, |PutOpaque(token)|);
    AddAligned(|PutOpaque(handle)|, 12 + |PutOpaque(token)|);
    PutOpaque(handle) + (InitWords(major, window) + PutOpaque(token))
  }

  /** The result of INIT reads back: handle, major and minor status, window and token, and nothing behind them. */
  lemma InitResultReads(handle: ByteString, major: nat, window: nat, token: ByteString)
    requires |handle| < WORD_LIMIT && |token| < WORD_LIMIT && major < WORD_LIMIT && window < WORD_LIMIT
    ensures var r := TakeOpaque(InitResult(handle, major, window, token));
            && r.Some? && r.value.0 == handle && |r.value.1| >= 12
            && Value(r.value.1[..4]) == major && Value(r.value.1[4..8]) == 0 && Value(r.value.1[8..12]) == window
            && TakeOpaque(r.value.1[12..]) == Some((token, []))
  {
    TakeUndoesPut(handle, InitWords(major, window) + PutOpaque(token));
    TakeUndoesPut(token, []);
    assert PutOpaque(token) + [] == PutOpaque(token);
    InitWordsRead(major, window, PutOpaque(token));
  }

  lemma InitWordsRead(major: nat, window: nat, last: ByteString)
    requires major < WORD_LIMIT && window < WORD_LIMIT
    ensures var b := InitWords(major, window) + last;
            Value(b[..4]) == major && Value(b[4..8]) == 0 && Value(b[8..12]) == window && b[12..] == last
  {
    Widths();
    ValueOfBigEndian(major, 4);
    ValueOfBigEndian(0, 4);
    ValueOfBigEndian(window, 4);
    ThreeInFront(BigEndian(major, 4), BigEndian(0, 4), BigEndian(window, 4), last);
  }

  lemma ThreeInFront(a: ByteString, b: ByteString, c: ByteString, last: ByteString)
    requires |a| == 4 && |b| == 4 && |c| == 4
    ensures var w := (a + (b + c)) + last; w[..4] == a && w[4..8] == b && w[8..12] == c && w[12..] == last
  {
    var w := (a + (b + c)) + last;
    assert forall i :: 0 <= i < 4 ==> w[4 + i] == b[i] && w[8 + i] == c[i];
    assert |w| == 12 + |last| && w[8..12] == c;
  }

  /** `AcceptBody::serialize` of raw results: SUCCESS, then one word per four bytes. */
  function SerializeRaw(bytes: ByteString): Result<ByteString, ()>
  {
    if |bytes| % 4 != 0 then Err(()) else Ok(BigEndian(0, 4) + Words(bytes))
  }

  function Words(bytes: ByteString): ByteString
    requires |bytes| % 4 == 0
  {
    if bytes == [] then [] else BigEndian(Value(bytes[..4]), 4) + Words(bytes[4..])
  }

  lemma {:induction false} WordsAreBytes(bytes: ByteString)
    requires |bytes| % 4 == 0
    ensures Words(bytes) == bytes
  {
    if bytes != [] {
      BigEndianOfValue(bytes[..4]);
      WordsAreBytes(bytes[4..]);
      assert bytes == bytes[..4] + bytes[4..];
    }
  }

  /** Raw results go out as they are exactly when they are a multiple of four long. */
  lemma RawGoesOutIffAligned(bytes: ByteString)
    ensures SerializeRaw(bytes) == Ok(BigEndian(0, 4) + bytes) <==> |bytes| % 4 == 0
  {
    if |bytes| % 4 == 0 {
      WordsAreBytes(bytes);
    }
  }

  /** The raw results of INIT go out as they are. */
  lemma InitResultSerializes(handle: ByteString, major: nat, window: nat, token: ByteString)
    ensures SerializeRaw(InitResult(handle, major, window, token)) ==
            Ok(BigEndian(0, 4) + InitResult(handle, major, window, token))
  {
    RawGoesOutIffAligned(InitResult(handle, major, window, token));
  }

  /** So does every raw result `wrap_reply` makes, whatever it was given: a reply's serialisation can not fail on it. */
  lemma WrappedResultSerializes(c: Suite, k: ContextKey, micSeq: nat, bodySeq: nat, info: ReplyInfo, body: AcceptBody,
                                confounder: Block)
    requires info.service != SVC_NONE
    ensures var r := WrapReply(c, k, micSeq, bodySeq, info, body, confounder).body;
            r.SuccessRaw? ==> SerializeRaw(r.bytes) == Ok(BigEndian(0, 4) + r.bytes)
  {
    var r := WrapReply(c, k, micSeq, bodySeq, info, body, confounder).body;
    if r.SuccessRaw? {
      RawGoesOutIffAligned(r.bytes);
    }
  }

  // ------------------------------------------------------------ under the program's own encryption

  /** The end-to-end theorem for every AES permutation, HMAC and key. */
  lemma KerberosCallProceeds(p: Primitives, k: ContextKey, expires: int, window: Window, now: int, h: set<int>,
                             head: Head, args: ByteString, headerSeq: nat, micSeq: nat, confounder: Block,
                             decodes: ByteString -> bool)
    requires p.Valid() && |k.key| == k.enctype.KeyLen()
    requires Sendable(k.UnderKey(p), head, args) && headerSeq < HYPER_LIMIT && micSeq < HYPER_LIMIT
    requires now <= expires && window.Represents(h) && Admissible(h, head.cred.seqNum)
    requires head.proc == 1 && head.prog == NFS_PROGRAM ==> decodes(args)
    ensures var c := k.UnderKey(p);
            var record := ClientRecord(c, k, head, args, headerSeq, micSeq, confounder);
            && record.Ok? && ParseCall(record.value).Some? && RouteOf(ParseCall(record.value).value) == ToData
            && Data(c, k, expires, window, now, ParseCall(record.value).value, decodes).0 == Proceed(args)
  {
    SuiteOfValid(p, k.enctype, k.key);
    ClientCallProceeds(k.UnderKey(p), k, expires, window, now, h, head, args, headerSeq, micSeq, confounder, decodes);
  }
}
