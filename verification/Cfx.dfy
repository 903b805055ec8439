/**
  Per-message tokens of section 4.2 of RFC 4121: MIC and Wrap, integrity-only
  or sealed, for both directions.  Peers may send Wrap tokens rotated right by
  any RRC and, when sealed, with EC filler bytes; `PeerToken` is every token
  they may send, and the theorems say those are exactly the accepted ones.
 */
module Cfx {
  import opened Wrappers
  import opened Bytes
  import opened Crypto
  import opened CipherStealing

  const USAGE_ACCEPTOR_SEAL := 22
  const USAGE_ACCEPTOR_SIGN := 23
  const USAGE_INITIATOR_SEAL := 24
  const USAGE_INITIATOR_SIGN := 25

  datatype Sender = Initiator | Acceptor
  {
    function Flag(): Byte { if Acceptor? then 1 else 0 }

    function SignUsage(): nat { if Acceptor? then USAGE_ACCEPTOR_SIGN else USAGE_INITIATOR_SIGN }

    function SealUsage(): nat { if Acceptor? then USAGE_ACCEPTOR_SEAL else USAGE_INITIATOR_SEAL }
  }

  /** The per-message key of an established context. */
  datatype ContextKey = ContextKey(enctype: Enctype, key: ByteString, acceptorSubkey: bool)
  {
    /** The encryption and checksums under this key; the theorems hold for every valid suite. */
    function UnderKey(p: Primitives): Suite
      requires p.HashLengths()
    {
      SuiteOf(p, enctype, key)
    }

    /** SentByAcceptor is bit 0, AcceptorSubkey bit 2. */
    function Flags(sender: Sender): Byte {
      sender.Flag() + if acceptorSubkey then 4 else 0
    }

    /** `check_flags`; the bits it does not name are free. */
    predicate FlagsMatch(flags: Byte, sender: Sender) {
      flags % 2 == sender.Flag() && (flags / 4 % 2 == 1) == acceptorSubkey
    }
  }

  /** The Sealed bit. */
  predicate IsSealed(flags: Byte) {
    flags / 2 % 2 == 1
  }

  // ------------------------------------------------------------ MIC tokens

  function MicHeader(flags: Byte, seqNum: nat): (h: ByteString)
    ensures |h| == 16
  {
    [4, 4, flags, 0xff, 0xff, 0xff, 0xff, 0xff] + BigEndian(seqNum, 8)
  }

  /** A MIC token over `message` with any flag byte. */
  function MicToken(c: Suite, sender: Sender, flags: Byte, seqNum: nat, message: ByteString)
    : Result<ByteString, Error>
  {
    var header := MicHeader(flags, seqNum);
    var cksum := c.checksum(sender.SignUsage(), message + header);
    if cksum.Err? then cksum else Ok(header + cksum.value)
  }

  /** `get_mic` */
  function GetMic(c: Suite, k: ContextKey, sender: Sender, seqNum: nat, message: ByteString)
    : Result<ByteString, Error>
  {
    MicToken(c, sender, k.Flags(sender), seqNum, message)
  }

  /** `verify_mic`: the token's sequence number. */
  function VerifyMic(c: Suite, k: ContextKey, sender: Sender, message: ByteString, token: ByteString)
    : Result<nat, Error>
  {
    if |token| < 16 || token[..2] != [4, 4] || token[3..8] != [0xff, 0xff, 0xff, 0xff, 0xff] then Err(Token)
    else if !k.FlagsMatch(token[2], sender) then Err(Token)
    else
      var header, cksum := token[..16], token[16..];
      var want := c.checksum(sender.SignUsage(), message + header);
      if want.Err? then Err(want.error)
      else if !CtEq(want.value, cksum) then Err(Integrity)
      else Ok(Value(header[8..]))
  }

  lemma MicHeaderFields(flags: Byte, seqNum: nat)
    requires seqNum < HYPER_LIMIT
    ensures var h := MicHeader(flags, seqNum);
            && h[..2] == [4, 4] && h[2] == flags
            && h[3..8] == [0xff, 0xff, 0xff, 0xff, 0xff]
            && Value(h[8..]) == seqNum
  {
    Widths();
    ValueOfBigEndian(seqNum, 8);
    assert MicHeader(flags, seqNum)[8..] == BigEndian(seqNum, 8);
  }

  lemma MicHeaderRebuilt(h: ByteString)
    requires |h| == 16 && h[..2] == [4, 4] && h[3..8] == [0xff, 0xff, 0xff, 0xff, 0xff]
    ensures h == MicHeader(h[2], Value(h[8..])) && Value(h[8..]) < HYPER_LIMIT
  {
    Widths();
    ValueBound(h[8..]);
    BigEndianOfValue(h[8..]);
    assert h == h[..2] + [h[2]] + h[3..8] + h[8..];
  }

  /** Made with the key by `sender` over `message`. */
  ghost predicate IsMic(c: Suite, k: ContextKey, sender: Sender, message: ByteString, token: ByteString, seqNum: nat)
  {
    && seqNum < HYPER_LIMIT && |token| >= 16 && k.FlagsMatch(token[2], sender)
    && MicToken(c, sender, token[2], seqNum, message) == Ok(token)
  }

  lemma VerifiedIsMic(c: Suite, k: ContextKey, sender: Sender, message: ByteString, token: ByteString, seqNum: nat)
    requires VerifyMic(c, k, sender, message, token) == Ok(seqNum)
    ensures IsMic(c, k, sender, message, token, seqNum)
  {
    MicHeaderRebuilt(token[..16]);
    assert token[..16][3..8] == token[3..8] && token[..16][..2] == token[..2];
    assert token == token[..16] + token[16..];
  }

  lemma MicVerifies(c: Suite, k: ContextKey, sender: Sender, message: ByteString, token: ByteString, seqNum: nat)
    requires IsMic(c, k, sender, message, token, seqNum)
    ensures VerifyMic(c, k, sender, message, token) == Ok(seqNum)
  {
    MicHeaderFields(token[2], seqNum);
    var h := MicHeader(token[2], seqNum);
    assert token[..16] == h;
    assert token[3..8] == h[3..8] && token[..2] == h[..2];
  }

  /** A MIC is accepted, with its own number, if and only if it is the MIC of that message. */
  lemma VerifiesIffMic(c: Suite, k: ContextKey, sender: Sender, message: ByteString, token: ByteString, seqNum: nat)
    ensures VerifyMic(c, k, sender, message, token) == Ok(seqNum) <==> IsMic(c, k, sender, message, token, seqNum)
  {
    if VerifyMic(c, k, sender, message, token) == Ok(seqNum) {
      VerifiedIsMic(c, k, sender, message, token, seqNum);
    }
    if IsMic(c, k, sender, message, token, seqNum) {
      MicVerifies(c, k, sender, message, token, seqNum);
    }
  }

  /** `verify_mic` accepts what `get_mic` makes. */
  lemma VerifyUndoesGetMic(c: Suite, k: ContextKey, sender: Sender, seqNum: nat, message: ByteString)
    requires c.Valid()
    requires c.usable && seqNum < HYPER_LIMIT
    ensures GetMic(c, k, sender, seqNum, message).Ok?
    ensures VerifyMic(c, k, sender, message, GetMic(c, k, sender, seqNum, message).value) == Ok(seqNum)
  {
    var token := GetMic(c, k, sender, seqNum, message).value;
    assert token[2] == MicHeader(k.Flags(sender), seqNum)[2];
    VerifiesIffMic(c, k, sender, message, token, seqNum);
  }

  /**
    A MIC token byte by byte: 04 04, the flags, five bytes FF, the number, and the
    checksum of message and header under usage 23 for the acceptor, 25 for the
    initiator.
   */
  lemma MicBytes(c: Suite, k: ContextKey, sender: Sender, seqNum: nat, message: ByteString)
    requires c.Valid() && c.usable && seqNum < HYPER_LIMIT
    ensures var t := GetMic(c, k, sender, seqNum, message);
            && t.Ok? && |t.value| == 16 + c.macLen
            && t.value[..2] == [4, 4] && t.value[3..8] == [255, 255, 255, 255, 255] && Value(t.value[8..16]) == seqNum
            && t.value[2] == (if sender == Acceptor then 1 else 0) + (if k.acceptorSubkey then 4 else 0)
            && c.checksum(if sender == Acceptor then 23 else 25, message + t.value[..16]) == Ok(t.value[16..])
  {
    var t, h := GetMic(c, k, sender, seqNum, message).value, MicHeader(k.Flags(sender), seqNum);
    MicHeaderFields(k.Flags(sender), seqNum);
    assert t[..16] == h && t[8..16] == h[8..] && t[3..8] == h[3..8] && t[..2] == h[..2];
  }

  // ------------------------------------------------------------ Wrap tokens

  function WrapHeader(flags: Byte, ec: nat, rrc: nat, seqNum: nat): (h: ByteString)
    ensures |h| == 16
  {
    [5, 4, flags, 0xff] + BigEndian(ec, 2) + BigEndian(rrc, 2) + BigEndian(seqNum, 8)
  }

  function RotateRight(body: ByteString, rrc: nat): (s: ByteString)
    ensures |s| == |body|
  {
    if body == [] then []
    else
      var cut := |body| - rrc % |body|;
      body[cut..] + body[..cut]
  }

  /** What `unwrap` does to undo the rotation. */
  function Unrotate(rest: ByteString, rrc: nat): (s: ByteString)
    ensures |s| == |rest|
  {
    if rest == [] then []
    else
      var r := rrc % |rest|;
      rest[r..] + rest[..r]
  }

  /** `wrap`; the confounder of a sealed token is fresh random data in the program. */
  function Wrap(c: Suite, k: ContextKey, sender: Sender, seqNum: nat, secret: bool,
                message: ByteString, confounder: Block): Result<ByteString, Error>
  {
    var flags := WrapFlags(k, sender, secret);
    var header := WrapHeader(flags, 0, 0, seqNum);
    if secret then
      var body := c.seal(sender.SealUsage(), message + header, confounder);
      if body.Err? then body else Ok(header + body.value)
    else
      var cksum := c.checksum(sender.SealUsage(), message + header);
      if cksum.Err? then cksum
      else Ok(WrapHeader(flags, |cksum.value|, 0, seqNum) + (message + cksum.value))
  }

  /** The part after the header, before rotation: sealed with `filler`, or with its checksum. */
  function PeerBody(c: Suite, sender: Sender, flags: Byte, seqNum: nat,
                    message: ByteString, filler: ByteString, confounder: Block): Result<ByteString, Error>
  {
    if IsSealed(flags) then
      c.seal(sender.SealUsage(),
                            message + filler + WrapHeader(flags, |filler|, 0, seqNum), confounder)
    else
      var cksum := c.checksum(sender.SealUsage(), message + WrapHeader(flags, 0, 0, seqNum));
      if cksum.Err? then cksum else Ok(message + cksum.value)
  }

  /** Any Wrap token a peer may send for `message`. */
  function PeerToken(c: Suite, sender: Sender, flags: Byte, seqNum: nat,
                     message: ByteString, filler: ByteString, confounder: Block, rrc: nat): Result<ByteString, Error>
  {
    var body := PeerBody(c, sender, flags, seqNum, message, filler, confounder);
    if body.Err? then body
    else
      var ec := if IsSealed(flags) then |filler| else c.macLen;
      Ok(WrapHeader(flags, ec, rrc, seqNum) + RotateRight(body.value, rrc))
  }

  datatype Unwrapped = Unwrapped(message: ByteString, secret: bool, seqNum: nat)

  /** The body of `unwrap` once the rotation is undone; `header` has its RRC zeroed. */
  function OpenBody(c: Suite, sender: Sender, flags: Byte, ec: nat, seqNum: nat,
                    data: ByteString): Result<ByteString, Error>
  {
    if IsSealed(flags) then
      var plain := c.open(sender.SealUsage(), data);
      if plain.Err? then plain
      else if |plain.value| < 16 + ec then Err(Token)
      else
        var end := |plain.value| - 16;
        if !CtEq(plain.value[end..], WrapHeader(flags, ec, 0, seqNum)) then Err(Integrity)
        else Ok(plain.value[..end - ec])
    else
      var h := c.macLen;
      if ec != h || |data| < h then Err(Token)
      else
        var message, cksum := data[..|data| - h], data[|data| - h..];
        var want := c.checksum(sender.SealUsage(), message + WrapHeader(flags, 0, 0, seqNum));
        if want.Err? then want
        else if !CtEq(want.value, cksum) then Err(Integrity)
        else Ok(message)
  }

  /** `unwrap` */
  function Unwrap(c: Suite, k: ContextKey, sender: Sender, token: ByteString): Result<Unwrapped, Error>
  {
    if |token| < 16 || token[..2] != [5, 4] || token[3] != 0xff then Err(Token)
    else
      var flags := token[2];
      if !k.FlagsMatch(flags, sender) then Err(Token)
      else
        var ec, rrc, seqNum := Value(token[4..6]), Value(token[6..8]), Value(token[8..16]);
        var message := OpenBody(c, sender, flags, ec, seqNum, Unrotate(token[16..], rrc));
        if message.Err? then Err(message.error)
        else Ok(Unwrapped(message.value, IsSealed(flags), seqNum))
  }

  lemma RotationsCancel(body: ByteString, rrc: nat)
    ensures Unrotate(RotateRight(body, rrc), rrc) == body
    ensures RotateRight(Unrotate(body, rrc), rrc) == body
  {
    if body != [] {
      var n := |body|;
      var r := rrc % n;
      assert 0 <= r < n;
      var right, left := body[n - r..] + body[..n - r], body[r..] + body[..r];
      assert RotateRight(body, rrc) == right && Unrotate(body, rrc) == left;
      assert right[r..] + right[..r] == body;
      assert left[n - r..] + left[..n - r] == body;
    }
  }

  /** Rotation puts every byte `rrc` places on, round the end. */
  lemma RotatedAt(body: ByteString, rrc: nat, i: nat)
    requires i < |body|
    ensures var at := i + rrc % |body|;
            RotateRight(body, rrc)[if at < |body| then at else at - |body|] == body[i]
  {
  }

  lemma WrapHeaderFields(flags: Byte, ec: nat, rrc: nat, seqNum: nat, rest: ByteString)
    requires ec < 0x1_0000 && rrc < 0x1_0000 && seqNum < HYPER_LIMIT
    ensures var t := WrapHeader(flags, ec, rrc, seqNum) + rest;
            && t[..2] == [5, 4] && t[2] == flags && t[3] == 0xff && t[16..] == rest
            && Value(t[4..6]) == ec && Value(t[6..8]) == rrc && Value(t[8..16]) == seqNum
  {
    Widths();
    ValueOfBigEndian(ec, 2);
    ValueOfBigEndian(rrc, 2);
    ValueOfBigEndian(seqNum, 8);
    var t := WrapHeader(flags, ec, rrc, seqNum) + rest;
    assert t[4..6] == BigEndian(ec, 2);
    assert t[6..8] == BigEndian(rrc, 2);
    assert t[8..16] == BigEndian(seqNum, 8);
  }

  lemma WrapHeaderRebuilt(t: ByteString)
    requires |t| >= 16 && t[..2] == [5, 4] && t[3] == 0xff
    ensures var ec, rrc, seqNum := Value(t[4..6]), Value(t[6..8]), Value(t[8..16]);
            && t == WrapHeader(t[2], ec, rrc, seqNum) + t[16..]
            && ec < 0x1_0000 && rrc < 0x1_0000 && seqNum < HYPER_LIMIT
  {
    Widths();
    ValueBound(t[4..6]);
    ValueBound(t[6..8]);
    ValueBound(t[8..16]);
    BigEndianOfValue(t[4..6]);
    BigEndianOfValue(t[6..8]);
    BigEndianOfValue(t[8..16]);
    assert t == t[..2] + [t[2]] + [t[3]] + t[4..6] + t[6..8] + t[8..16] + t[16..];
  }

  /** The number the EC field must carry. */
  function EcOf(c: Suite, flags: Byte, filler: ByteString): nat {
    if IsSealed(flags) then |filler| else c.macLen
  }

  /** Opening undoes the peer's body, with any filler and confounder. */
  lemma OpenUndoesPeerBody(c: Suite, sender: Sender, flags: Byte, seqNum: nat,
                           message: ByteString, filler: ByteString, confounder: Block)
    requires c.Valid()
    requires c.usable
    ensures var body := PeerBody(c, sender, flags, seqNum, message, filler, confounder);
            body.Ok? && OpenBody(c, sender, flags, EcOf(c, flags, filler), seqNum, body.value) == Ok(message)
  {
    var body := PeerBody(c, sender, flags, seqNum, message, filler, confounder);
    if IsSealed(flags) {
      var plain := message + filler + WrapHeader(flags, |filler|, 0, seqNum);
      assert c.open(sender.SealUsage(), body.value) == Ok(plain);
      assert plain[|plain| - 16..] == WrapHeader(flags, |filler|, 0, seqNum);
      assert plain[..|plain| - 16 - |filler|] == message;
    } else {
      var h := c.macLen;
      assert body.value[..|body.value| - h] == message;
    }
  }

  lemma FillerOfOpened(flags: Byte, ec: nat, seqNum: nat, plain: ByteString) returns (filler: ByteString)
    requires |plain| >= 16 + ec && plain[|plain| - 16..] == WrapHeader(flags, ec, 0, seqNum)
    ensures |filler| == ec && plain == plain[..|plain| - 16 - ec] + filler + WrapHeader(flags, ec, 0, seqNum)
  {
    var end := |plain| - 16;
    filler := plain[end - ec..end];
    assert plain == plain[..end - ec] + plain[end - ec..end] + plain[end..];
  }

  /** A body that opens was made for that message, with some filler and confounder. */
  lemma PeerBodyOfOpened(c: Suite, sender: Sender, flags: Byte, ec: nat, seqNum: nat,
                         data: ByteString, message: ByteString) returns (filler: ByteString, confounder: Block)
    requires c.Valid()
    requires OpenBody(c, sender, flags, ec, seqNum, data) == Ok(message)
    ensures PeerBody(c, sender, flags, seqNum, message, filler, confounder) == Ok(data)
    ensures ec == EcOf(c, flags, filler) && |filler| <= ec
  {
    if IsSealed(flags) {
      var plain := c.open(sender.SealUsage(), data).value;
      filler := FillerOfOpened(flags, ec, seqNum, plain);
      confounder :| c.seal(sender.SealUsage(), plain, confounder) == Ok(data);
    } else {
      filler, confounder := [], ZERO_BLOCK;
      assert data == message + data[|message|..];
    }
  }

  /** Every token a peer may send unwraps to its message, seal and number. */
  lemma UnwrapUndoesPeerToken(c: Suite, k: ContextKey, sender: Sender, flags: Byte, seqNum: nat,
                              message: ByteString, filler: ByteString, confounder: Block, rrc: nat)
    requires c.Valid()
    requires c.usable && k.FlagsMatch(flags, sender)
    requires seqNum < HYPER_LIMIT && |filler| < 0x1_0000 && rrc < 0x1_0000
    ensures var token := PeerToken(c, sender, flags, seqNum, message, filler, confounder, rrc);
            token.Ok? && Unwrap(c, k, sender, token.value) == Ok(Unwrapped(message, IsSealed(flags), seqNum))
  {
    OpenUndoesPeerBody(c, sender, flags, seqNum, message, filler, confounder);
    var body := PeerBody(c, sender, flags, seqNum, message, filler, confounder).value;
    WrapHeaderFields(flags, EcOf(c, flags, filler), rrc, seqNum, RotateRight(body, rrc));
    RotationsCancel(body, rrc);
  }

  /** A token that unwraps, taken apart. */
  lemma PeerTokenOfUnwrapped(c: Suite, k: ContextKey, sender: Sender, token: ByteString, u: Unwrapped)
    returns (flags: Byte, filler: ByteString, confounder: Block, rrc: nat)
    requires c.Valid()
    requires Unwrap(c, k, sender, token) == Ok(u)
    ensures u.seqNum < HYPER_LIMIT && k.FlagsMatch(flags, sender) && IsSealed(flags) == u.secret
    ensures |filler| < 0x1_0000 && rrc < 0x1_0000
    ensures PeerToken(c, sender, flags, u.seqNum, u.message, filler, confounder, rrc) == Ok(token)
  {
    UnwrapOpens(c, k, sender, token, u);
    WrapHeaderRebuilt(token);
    flags, rrc := token[2], Value(token[6..8]);
    var ec, data := Value(token[4..6]), Unrotate(token[16..], rrc);
    filler, confounder := PeerBodyOfOpened(c, sender, flags, ec, u.seqNum, data, u.message);
    RotationsCancel(token[16..], rrc);
    TokenOfBody(c, sender, flags, u.seqNum, u.message, filler, confounder, rrc, data);
  }

  /** What unwrapping has found of a token. */
  lemma UnwrapOpens(c: Suite, k: ContextKey, sender: Sender, token: ByteString, u: Unwrapped)
    requires Unwrap(c, k, sender, token) == Ok(u)
    ensures |token| >= 16 && token[..2] == [5, 4] && token[3] == 0xff && k.FlagsMatch(token[2], sender)
    ensures u.seqNum == Value(token[8..16]) && IsSealed(token[2]) == u.secret
    ensures OpenBody(c, sender, token[2], Value(token[4..6]), u.seqNum, Unrotate(token[16..], Value(token[6..8]))) ==
            Ok(u.message)
  {
  }

  lemma TokenOfBody(c: Suite, sender: Sender, flags: Byte, seqNum: nat,
                    message: ByteString, filler: ByteString, confounder: Block, rrc: nat, body: ByteString)
    requires PeerBody(c, sender, flags, seqNum, message, filler, confounder) == Ok(body)
    ensures PeerToken(c, sender, flags, seqNum, message, filler, confounder, rrc) ==
            Ok(WrapHeader(flags, EcOf(c, flags, filler), rrc, seqNum) + RotateRight(body, rrc))
  {
  }

  /** A token of `u` that a peer with this key may send. */
  ghost predicate IsPeerToken(c: Suite, k: ContextKey, sender: Sender, token: ByteString, u: Unwrapped,
                              flags: Byte, filler: ByteString, confounder: Block, rrc: nat)
  {
    && u.seqNum < HYPER_LIMIT && k.FlagsMatch(flags, sender) && IsSealed(flags) == u.secret
    && |filler| < 0x1_0000 && rrc < 0x1_0000
    && PeerToken(c, sender, flags, u.seqNum, u.message, filler, confounder, rrc) == Ok(token)
  }

  /** The tokens that unwrap are exactly those a peer may send. */
  lemma UnwrapsIffPeerToken(c: Suite, k: ContextKey, sender: Sender, token: ByteString, u: Unwrapped)
    requires c.Valid() && c.usable
    ensures Unwrap(c, k, sender, token) == Ok(u)
       <==> exists flags, filler, confounder, rrc :: IsPeerToken(c, k, sender, token, u, flags, filler, confounder, rrc)
  {
    if Unwrap(c, k, sender, token) == Ok(u) {
      var flags, filler, confounder, rrc := PeerTokenOfUnwrapped(c, k, sender, token, u);
      assert IsPeerToken(c, k, sender, token, u, flags, filler, confounder, rrc);
    }
    if flags, filler, confounder, rrc :| IsPeerToken(c, k, sender, token, u, flags, filler, confounder, rrc) {
      UnwrapUndoesPeerToken(c, k, sender, flags, u.seqNum, u.message, filler, confounder, rrc);
    }
  }

  /** The flag byte `wrap` writes. */
  function WrapFlags(k: ContextKey, sender: Sender, secret: bool): (flags: Byte)
    ensures k.FlagsMatch(flags, sender) && IsSealed(flags) == secret
  {
    k.Flags(sender) + if secret then 2 else 0
  }

  lemma NoRotation(body: ByteString)
    ensures RotateRight(body, 0) == body
  {
    if body != [] {
      assert 0 % |body| == 0;
    }
  }

  /** The server's own tokens are the unrotated ones without filler. */
  lemma WrapIsPeerToken(c: Suite, k: ContextKey, sender: Sender, seqNum: nat, secret: bool,
                        message: ByteString, confounder: Block)
    requires c.Valid()
    ensures Wrap(c, k, sender, seqNum, secret, message, confounder)
         == PeerToken(c, sender, WrapFlags(k, sender, secret), seqNum, message, [], confounder, 0)
  {
    var body := PeerBody(c, sender, WrapFlags(k, sender, secret), seqNum, message, [], confounder);
    assert message + [] == message;
    if body.Ok? {
      NoRotation(body.value);
    }
  }

  /** `unwrap` undoes `wrap`. */
  lemma UnwrapUndoesWrap(c: Suite, k: ContextKey, sender: Sender, seqNum: nat, secret: bool,
                         message: ByteString, confounder: Block)
    requires c.Valid()
    requires c.usable && seqNum < HYPER_LIMIT
    ensures var token := Wrap(c, k, sender, seqNum, secret, message, confounder);
            token.Ok? && Unwrap(c, k, sender, token.value) == Ok(Unwrapped(message, secret, seqNum))
  {
    WrapIsPeerToken(c, k, sender, seqNum, secret, message, confounder);
    UnwrapUndoesPeerToken(c, k, sender, WrapFlags(k, sender, secret), seqNum, message, [], confounder, 0);
  }

  // ------------------------------------------------------------ under the program's own encryption

  /** For every AES permutation, HMAC and key: any token a peer may send unwraps, rotated and filled as it likes. */
  lemma KerberosTokenUnwraps(p: Primitives, k: ContextKey, sender: Sender, flags: Byte, seqNum: nat,
                             message: ByteString, filler: ByteString, confounder: Block, rrc: nat)
    requires p.Valid() && |k.key| == k.enctype.KeyLen() && k.FlagsMatch(flags, sender)
    requires seqNum < HYPER_LIMIT && |filler| < 0x1_0000 && rrc < 0x1_0000
    ensures var c := k.UnderKey(p);
            var token := PeerToken(c, sender, flags, seqNum, message, filler, confounder, rrc);
            token.Ok? && Unwrap(c, k, sender, token.value) == Ok(Unwrapped(message, IsSealed(flags), seqNum))
  {
    SuiteOfValid(p, k.enctype, k.key);
    UnwrapUndoesPeerToken(k.UnderKey(p), k, sender, flags, seqNum, message, filler, confounder, rrc);
  }

  // ------------------------------------------------------------ Wrap tokens byte by byte

  /** 05 04, the flags with 2 for sealed, FF, extra count, rotation, number. */
  ghost predicate WrapFront(k: ContextKey, sender: Sender, secret: bool, ec: nat, seqNum: nat, header: ByteString)
  {
    && |header| == 16 && header[..2] == [5, 4] && header[3] == 255
    && header[2] ==
       (if sender == Acceptor then 1 else 0) + (if secret then 2 else 0) + (if k.acceptorSubkey then 4 else 0)
    && Value(header[4..6]) == ec && header[6..8] == [0, 0] && Value(header[8..]) == seqNum
  }

  lemma WrapHeaderIsFront(k: ContextKey, sender: Sender, secret: bool, ec: nat, seqNum: nat)
    requires ec < 0x1_0000 && seqNum < HYPER_LIMIT
    ensures WrapFront(k, sender, secret, ec, seqNum, WrapHeader(WrapFlags(k, sender, secret), ec, 0, seqNum))
  {
    var h := WrapHeader(WrapFlags(k, sender, secret), ec, 0, seqNum);
    WrapHeaderFields(WrapFlags(k, sender, secret), ec, 0, seqNum, []);
    assert h + [] == h;
    BigEndianOfValue(h[6..8]);
    assert BigEndian(0, 1) == [0] && BigEndian(0, 2) == BigEndian(0, 1) + [0];
  }

  /**
    A sealed token: a front with extra count zero, and the encryption of message and that
    front under usage 22 or 24.
   */
  lemma SealedBytes(c: Suite, k: ContextKey, sender: Sender, seqNum: nat, message: ByteString, confounder: Block)
    requires c.Valid() && c.usable && seqNum < HYPER_LIMIT
    ensures var t := Wrap(c, k, sender, seqNum, true, message, confounder);
            && t.Ok? && |t.value| >= 16 && WrapFront(k, sender, true, 0, seqNum, t.value[..16])
            && c.seal(if sender == Acceptor then 22 else 24, message + t.value[..16], confounder) == Ok(t.value[16..])
  {
    WrapHeaderIsFront(k, sender, true, 0, seqNum);
    var t := Wrap(c, k, sender, seqNum, true, message, confounder).value;
    assert t[..16] == WrapHeader(WrapFlags(k, sender, true), 0, 0, seqNum);
  }

  /**
    A signed token: a front whose extra count is the checksum's length, the
    message, and the checksum of message and front with extra count zero, under
    usage 22 or 24.
   */
  lemma SignedBytes(c: Suite, k: ContextKey, sender: Sender, seqNum: nat, message: ByteString, confounder: Block,
                    bare: ByteString)
    requires c.Valid() && c.usable && seqNum < HYPER_LIMIT && WrapFront(k, sender, false, 0, seqNum, bare)
    ensures var t := Wrap(c, k, sender, seqNum, false, message, confounder);
            && t.Ok? && |t.value| == 16 + |message| + c.macLen
            && WrapFront(k, sender, false, c.macLen, seqNum, t.value[..16])
            && t.value[16..16 + |message|] == message
            && c.checksum(if sender == Acceptor then 22 else 24, message + bare) == Ok(t.value[16 + |message|..])
  {
    WrapHeaderIsFront(k, sender, false, 0, seqNum);
    WrapHeaderIsFront(k, sender, false, c.macLen, seqNum);
    FrontIsUnique(k, sender, false, 0, seqNum, bare, WrapHeader(WrapFlags(k, sender, false), 0, 0, seqNum));
    var t := Wrap(c, k, sender, seqNum, false, message, confounder).value;
    assert t[..16] == WrapHeader(WrapFlags(k, sender, false), c.macLen, 0, seqNum);
    assert t[16 + |message|..] == c.checksum(sender.SealUsage(), message + bare).value;
  }

  lemma FrontIsUnique(k: ContextKey, sender: Sender, secret: bool, ec: nat, seqNum: nat, a: ByteString, b: ByteString)
    requires WrapFront(k, sender, secret, ec, seqNum, a) && WrapFront(k, sender, secret, ec, seqNum, b)
    ensures a == b
  {
    BigEndianOfValue(a[4..6]);
    BigEndianOfValue(b[4..6]);
    BigEndianOfValue(a[8..]);
    BigEndianOfValue(b[8..]);
    assert a == a[..2] + [a[2]] + [a[3]] + a[4..6] + a[6..8] + a[8..];
    assert b == b[..2] + [b[2]] + [b[3]] + b[4..6] + b[6..8] + b[8..];
  }
}
