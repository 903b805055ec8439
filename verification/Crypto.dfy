/**
  The AES Kerberos encryption types: key derivation, authenticated encryption
  in the two MAC orders (over the plaintext for RFC 3962, over the initial
  vector and ciphertext for section 5 of RFC 8009) and keyed checksums.
  AES is an arbitrary permutation per key and HMAC an arbitrary function with
  outputs of the hash's length.
 */
module Crypto {
  import opened Wrappers
  import opened Bytes
  import opened CipherStealing
  import NFold

  datatype Error = Crypto | Integrity | Token

  datatype Enctype =
    | Aes128CtsHmacSha1_96
    | Aes256CtsHmacSha1_96
    | Aes128CtsHmacSha256_128
    | Aes256CtsHmacSha384_192
  {
    function KeyLen(): nat {
      if Aes128CtsHmacSha1_96? || Aes128CtsHmacSha256_128? then 16 else 32
    }

    /** Length of the truncated HMAC: the encryption trailer and the checksum. */
    function HmacLen(): nat {
      match this
      case Aes128CtsHmacSha256_128 => 16
      case Aes256CtsHmacSha384_192 => 24
      case _ => 12
    }

    /** Output length of the hash behind the HMAC. */
    function HashLen(): nat {
      match this
      case Aes128CtsHmacSha256_128 => 32
      case Aes256CtsHmacSha384_192 => 48
      case _ => 20
    }

    predicate IsRfc8009() {
      Aes128CtsHmacSha256_128? || Aes256CtsHmacSha384_192?
    }

    function Rfc8009MacBits(): nat {
      if Aes256CtsHmacSha384_192? then 192 else 128
    }
  }

  /** AES for a key, and HMAC of an encryption type's hash for a key and a message. */
  datatype Primitives = Primitives(
    aes: ByteString -> BlockCipher,
    hmac: (Enctype, ByteString, ByteString) -> ByteString)
  {
    ghost predicate HashLengths() {
      forall e, k, m :: |hmac(e, k, m)| == e.HashLen()
    }

    ghost predicate Valid() {
      HashLengths() && forall k :: Permutation(aes(k))
    }
  }

  const TAG_ENCRYPT: Byte := 0xAA
  const TAG_INTEGRITY: Byte := 0x55
  const TAG_CHECKSUM: Byte := 0x99

  // ------------------------------------------------------------ key derivation

  function Iterate(c: BlockCipher, block: Block, n: nat): Block
  {
    if n == 0 then block else c.enc(Iterate(c, block, n - 1))
  }

  /** `n` successive encryptions of `block`, concatenated. */
  function Chain(c: BlockCipher, block: Block, n: nat): (s: ByteString)
    ensures |s| == 16 * n
  {
    if n == 0 then [] else Chain(c, block, n - 1) + Iterate(c, block, n)
  }

  /** Every block of `out` is the encryption of the one before it, the first that of `start`. */
  ghost predicate Encrypts(c: BlockCipher, start: Block, out: ByteString)
  {
    && |out| % 16 == 0
    && forall i {:trigger out[16 * i..16 * i + 16]} :: 0 <= i < |out| / 16 ==>
         out[16 * i..16 * i + 16] == c.enc(if i == 0 then start else out[16 * i - 16..16 * i])
  }

  lemma {:induction false} ChainEncrypts(c: BlockCipher, block: Block, n: nat)
    ensures Encrypts(c, block, Chain(c, block, n))
    ensures n > 0 ==> Chain(c, block, n)[16 * n - 16..] == Iterate(c, block, n)
  {
    if n > 0 {
      var before, out := Chain(c, block, n - 1), Chain(c, block, n);
      ChainEncrypts(c, block, n - 1);
      forall i | 0 <= i < n
        ensures out[16 * i..16 * i + 16] == c.enc(if i == 0 then block else out[16 * i - 16..16 * i])
      {
        if i < n - 1 {
          assert out[16 * i..16 * i + 16] == before[16 * i..16 * i + 16];
          assert i > 0 ==> out[16 * i - 16..16 * i] == before[16 * i - 16..16 * i];
        } else {
          assert out[16 * i..16 * i + 16] == Iterate(c, block, n);
          assert i > 0 ==> out[16 * i - 16..16 * i] == before[16 * i - 16..];
        }
      }
    }
  }

  /** RFC 3961 `DK`: the chain from the folded constant, cut to the key's length. */
  function DkOf(p: Primitives, key: ByteString, constant: ByteString): (r: Result<ByteString, Error>)
    requires constant != []
    ensures r.Ok? <==> |key| == 16 || |key| == 32
    ensures r.Ok? ==> |r.value| == |key|
  {
    if |key| != 16 && |key| != 32 then Err(Crypto)
    else Ok(Chain(p.aes(key), NFold.NFoldOf(constant, 16), |key| / 16))
  }

  /** The loop of `dk`: encrypt the block in place and append until the buffer covers the key. */
  method ExpandKey(c: BlockCipher, start: Block, keyLen: nat) returns (out: ByteString)
    requires keyLen % 16 == 0
    ensures out == Chain(c, start, keyLen / 16)
    ensures |out| == keyLen && Encrypts(c, start, out)
  {
    var block := start;
    out := [];
    ghost var n := 0;
    while |out| < keyLen
      invariant |out| == 16 * n && n <= keyLen / 16
      invariant out == Chain(c, start, n) && block == Iterate(c, start, n)
    {
      block := c.enc(block);
      out := out + block;
      n := n + 1;
    }
    out := out[..keyLen];
    ChainEncrypts(c, start, keyLen / 16);
  }

  /** `dk` */
  method Dk(p: Primitives, key: ByteString, constant: ByteString) returns (r: Result<ByteString, Error>)
    requires 0 < |constant| < 0x100_0000
    ensures r == DkOf(p, key, constant)
    ensures r.Ok? ==> |r.value| == |key| && Encrypts(p.aes(key), NFold.NFoldOf(constant, 16), r.value)
  {
    if |key| != 16 && |key| != 32 {
      return Err(Crypto);
    }
    var folded := NFold.Fold(constant, 16);
    var out := ExpandKey(p.aes(key), folded, |key|);
    return Ok(out);
  }

  /** RFC 8009 KDF-HMAC-SHA2, `bits` of it. */
  function KdfHmacSha2(p: Primitives, e: Enctype, key: ByteString, info: ByteString, bits: nat): ByteString
    requires p.HashLengths() && bits <= 8 * e.HashLen()
  {
    p.hmac(e, key, BigEndian(1, 4) + info + [0] + BigEndian(bits, 4))[..bits / 8]
  }

  /** The key for `usage` and `tag` under a base key of the right length. */
  function Derive(p: Primitives, e: Enctype, base: ByteString, usage: nat, tag: Byte): (r: Result<ByteString, Error>)
    requires p.HashLengths()
    ensures r.Ok? <==> |base| == e.KeyLen()
    ensures r.Ok? && tag == TAG_ENCRYPT ==> |r.value| == e.KeyLen()
  {
    if |base| != e.KeyLen() then Err(Crypto)
    else
      var info := BigEndian(usage, 4) + [tag];
      if e.IsRfc8009() then
        var bits := if tag == TAG_ENCRYPT then 8 * e.KeyLen() else e.Rfc8009MacBits();
        Ok(KdfHmacSha2(p, e, base, info, bits))
      else DkOf(p, base, info)
  }

  // ------------------------------------------------------------ what the derived keys are

  /** Usage, most significant byte first, and tag. */
  function Label(usage: nat, tag: Byte): ByteString
  {
    FourBytes(usage) + [tag]
  }

  /** `f` is the n-fold of `constant`: the bytes its two clauses determine. */
  ghost predicate IsFold(f: ByteString, constant: ByteString)
    requires constant != [] && f != []
  {
    && Bytes.Value(f) % NFold.Modulus(|f|) == Bytes.Value(NFold.AllCopies(constant, |f|)) % NFold.Modulus(|f|)
    && (Bytes.Value(f) == 0 <==> Bytes.Value(NFold.AllCopies(constant, |f|)) == 0)
  }

  lemma LabelBytes(usage: nat, tag: Byte)
    ensures BigEndian(usage, 4) + [tag] == Label(usage, tag)
  {
    FourBytesOf(usage);
  }

  /** RFC 3962: the first block of a key decrypts to the folded label, and a second block to the first. */
  lemma DerivedByChain(p: Primitives, e: Enctype, base: ByteString, usage: nat, tag: Byte)
    requires p.Valid()
    requires (e.Aes128CtsHmacSha1_96? && |base| == 16) || (e.Aes256CtsHmacSha1_96? && |base| == 32)
    ensures var key, c := Derive(p, e, base, usage, tag).value, p.aes(base);
            && |key| == |base|
            && IsFold(c.dec(key[..16]), Label(usage, tag))
            && (|key| == 32 ==> c.dec(key[16..]) == key[..16])
  {
    var key, c, f := Derive(p, e, base, usage, tag).value, p.aes(base), NFold.NFoldOf(Label(usage, tag), 16);
    LabelBytes(usage, tag);
    assert key == Chain(c, f, |base| / 16);
    ChainEncrypts(c, f, |base| / 16);
    ChainDecrypts(c, f, key);
    NFold.NFoldCongruent(Label(usage, tag), 16);
  }

  lemma ChainDecrypts(c: BlockCipher, start: Block, out: ByteString)
    requires Permutation(c) && Encrypts(c, start, out) && (|out| == 16 || |out| == 32)
    ensures c.dec(out[..16]) == start && (|out| == 32 ==> c.dec(out[16..]) == out[..16])
  {
    assert out[16 * 0..16 * 0 + 16] == out[..16];
    if |out| == 32 {
      assert out[16 * 1..16 * 1 + 16] == out[16..];
      assert out[16 * 1 - 16..16 * 1] == out[..16];
    }
  }

  /** RFC 8009: one HMAC of counter, label, zero byte and length in bits, cut to that length. */
  lemma DerivedByHmac(p: Primitives, base: ByteString, usage: nat, tag: Byte)
    requires p.Valid()
    ensures |base| == 16 ==>
              Derive(p, Aes128CtsHmacSha256_128, base, usage, tag) ==
              Ok(p.hmac(Aes128CtsHmacSha256_128, base, [0, 0, 0, 1] + Label(usage, tag) + [0] + [0, 0, 0, 128])[..16])
    ensures |base| == 32 && tag == 0xAA ==>
              Derive(p, Aes256CtsHmacSha384_192, base, usage, tag) ==
              Ok(p.hmac(Aes256CtsHmacSha384_192, base, [0, 0, 0, 1] + Label(usage, tag) + [0] + [0, 0, 1, 0])[..32])
    ensures |base| == 32 && tag != 0xAA ==>
              Derive(p, Aes256CtsHmacSha384_192, base, usage, tag) ==
              Ok(p.hmac(Aes256CtsHmacSha384_192, base, [0, 0, 0, 1] + Label(usage, tag) + [0] + [0, 0, 0, 192])[..24])
  {
    LabelBytes(usage, tag);
    FourBytesOf(1);
    FourBytesOf(128);
    FourBytesOf(192);
    FourBytesOf(256);
  }

  // ------------------------------------------------------------ encryption

  function CtsEncryptWith(p: Primitives, key: ByteString, data: ByteString): (r: Result<ByteString, Error>)
    ensures r.Ok? ==> 16 <= |data| == |r.value|
  {
    if |data| < 16 || (|key| != 16 && |key| != 32) then Err(Crypto)
    else Ok(Encrypt(p.aes(key), ZERO_BLOCK, data))
  }

  function CtsDecryptWith(p: Primitives, key: ByteString, data: ByteString): (r: Result<ByteString, Error>)
    ensures r.Ok? ==> 16 <= |data| == |r.value|
  {
    if |data| < 16 || (|key| != 16 && |key| != 32) then Err(Crypto)
    else Ok(Decrypt(p.aes(key), ZERO_BLOCK, data))
  }

  /** The ciphertext of `data` followed by the MAC of the one or the other. */
  function Seal(p: Primitives, e: Enctype, ke: ByteString, ki: ByteString, data: ByteString)
    : (r: Result<ByteString, Error>)
    requires p.HashLengths()
    ensures r.Ok? ==> |r.value| == |data| + e.HmacLen()
  {
    var c := CtsEncryptWith(p, ke, data);
    if c.Err? then c else
    var mac := if e.IsRfc8009() then p.hmac(e, ki, ZERO_BLOCK + c.value) else p.hmac(e, ki, data);
    Ok(c.value + mac[..e.HmacLen()])
  }

  /** RFC 8009 checks the MAC before it decrypts, RFC 3962 after. */
  function Open(p: Primitives, e: Enctype, ke: ByteString, ki: ByteString, c: ByteString, mac: ByteString)
    : (r: Result<ByteString, Error>)
    requires p.HashLengths()
    ensures r.Ok? ==> 16 <= |r.value| == |c|
  {
    if e.IsRfc8009() then
      if !CtEq(p.hmac(e, ki, ZERO_BLOCK + c)[..e.HmacLen()], mac) then Err(Integrity)
      else CtsDecryptWith(p, ke, c)
    else
      var data := CtsDecryptWith(p, ke, c);
      if data.Err? then data
      else if !CtEq(p.hmac(e, ki, data.value)[..e.HmacLen()], mac) then Err(Integrity)
      else data
  }

  /** `encrypt_with_confounder`; the confounder is fresh random data in the program. */
  function EncryptWithConfounder(p: Primitives, e: Enctype, base: ByteString, usage: nat,
                                 plaintext: ByteString, confounder: Block): (r: Result<ByteString, Error>)
    requires p.HashLengths()
    ensures r.Ok? <==> |base| == e.KeyLen()
    ensures r.Ok? ==> |r.value| == 16 + |plaintext| + e.HmacLen()
  {
    var ke := Derive(p, e, base, usage, TAG_ENCRYPT);
    if ke.Err? then ke else
    var ki := Derive(p, e, base, usage, TAG_INTEGRITY);
    if ki.Err? then ki else
    Seal(p, e, ke.value, ki.value, confounder + plaintext)
  }

  /** The ciphertext split at its MAC, opened, and the confounder dropped. */
  function DecryptWith(p: Primitives, e: Enctype, ke: ByteString, ki: ByteString, ciphertext: ByteString)
    : Result<ByteString, Error>
    requires p.HashLengths()
    requires |ciphertext| >= 16 + e.HmacLen()
  {
    var split := |ciphertext| - e.HmacLen();
    var data := Open(p, e, ke, ki, ciphertext[..split], ciphertext[split..]);
    if data.Err? then data else Ok(data.value[16..])
  }

  /** `decrypt` */
  function DecryptAndVerify(p: Primitives, e: Enctype, base: ByteString, usage: nat, ciphertext: ByteString)
    : Result<ByteString, Error>
    requires p.HashLengths()
  {
    if |ciphertext| < 16 + e.HmacLen() then Err(Integrity) else
    var ke := Derive(p, e, base, usage, TAG_ENCRYPT);
    if ke.Err? then ke else
    var ki := Derive(p, e, base, usage, TAG_INTEGRITY);
    if ki.Err? then ki else
    DecryptWith(p, e, ke.value, ki.value, ciphertext)
  }

  /** `checksum`: the truncated HMAC of the message parts under the checksum key. */
  function Checksum(p: Primitives, e: Enctype, base: ByteString, usage: nat, message: ByteString)
    : (r: Result<ByteString, Error>)
    requires p.HashLengths()
    ensures r.Ok? <==> |base| == e.KeyLen()
    ensures r.Ok? ==> |r.value| == e.HmacLen()
  {
    var kc := Derive(p, e, base, usage, TAG_CHECKSUM);
    if kc.Err? then kc else Ok(p.hmac(e, kc.value, message)[..e.HmacLen()])
  }

  // ------------------------------------------------------------ theorems

  /** What opens is exactly what was sealed, under both MAC orders. */
  lemma OpensIffSealed(p: Primitives, e: Enctype, ke: ByteString, ki: ByteString,
                       c: ByteString, mac: ByteString, data: ByteString)
    requires p.Valid() && |mac| == e.HmacLen()
    ensures Open(p, e, ke, ki, c, mac) == Ok(data) <==> Seal(p, e, ke, ki, data) == Ok(c + mac)
  {
    if Open(p, e, ke, ki, c, mac) == Ok(data) {
      EncryptUndoesDecrypt(p.aes(ke), ZERO_BLOCK, c);
    }
    if Seal(p, e, ke, ki, data) == Ok(c + mac) {
      DecryptUndoesEncrypt(p.aes(ke), ZERO_BLOCK, data);
      assert (c + mac)[..|data|] == c && (c + mac)[|data|..] == mac;
    }
  }

  lemma DecryptWithSealed(p: Primitives, e: Enctype, ke: ByteString, ki: ByteString,
                          plaintext: ByteString, confounder: Block, ciphertext: ByteString)
    requires p.Valid()
    requires Seal(p, e, ke, ki, confounder + plaintext) == Ok(ciphertext)
    ensures DecryptWith(p, e, ke, ki, ciphertext) == Ok(plaintext)
  {
    var split := |ciphertext| - e.HmacLen();
    assert ciphertext == ciphertext[..split] + ciphertext[split..];
    OpensIffSealed(p, e, ke, ki, ciphertext[..split], ciphertext[split..], confounder + plaintext);
    assert (confounder + plaintext)[16..] == plaintext;
  }

  lemma SealedWithConfounder(p: Primitives, e: Enctype, ke: ByteString, ki: ByteString,
                             plaintext: ByteString, ciphertext: ByteString) returns (confounder: Block)
    requires p.Valid()
    requires |ciphertext| >= 16 + e.HmacLen()
    requires DecryptWith(p, e, ke, ki, ciphertext) == Ok(plaintext)
    ensures Seal(p, e, ke, ki, confounder + plaintext) == Ok(ciphertext)
  {
    var split := |ciphertext| - e.HmacLen();
    var data := Open(p, e, ke, ki, ciphertext[..split], ciphertext[split..]).value;
    OpensIffSealed(p, e, ke, ki, ciphertext[..split], ciphertext[split..], data);
    confounder := data[..16];
    assert confounder + plaintext == data;
    assert ciphertext[..split] + ciphertext[split..] == ciphertext;
  }

  /** Decryption undoes encryption for every key, usage, plaintext and confounder. */
  lemma DecryptUndoesEncryption(p: Primitives, e: Enctype, base: ByteString, usage: nat,
                                plaintext: ByteString, confounder: Block)
    requires p.Valid()
    requires |base| == e.KeyLen()
    ensures var r := EncryptWithConfounder(p, e, base, usage, plaintext, confounder);
            DecryptAndVerify(p, e, base, usage, r.value) == Ok(plaintext)
  {
    var ke, ki := Derive(p, e, base, usage, TAG_ENCRYPT).value, Derive(p, e, base, usage, TAG_INTEGRITY).value;
    var r := EncryptWithConfounder(p, e, base, usage, plaintext, confounder).value;
    DecryptWithSealed(p, e, ke, ki, plaintext, confounder, r);
  }

  /** The confounder of a ciphertext that decrypts. */
  lemma ConfounderOf(p: Primitives, e: Enctype, base: ByteString, usage: nat,
                     ciphertext: ByteString, plaintext: ByteString) returns (confounder: Block)
    requires p.Valid()
    requires DecryptAndVerify(p, e, base, usage, ciphertext) == Ok(plaintext)
    ensures EncryptWithConfounder(p, e, base, usage, plaintext, confounder) == Ok(ciphertext)
  {
    var ke, ki := Derive(p, e, base, usage, TAG_ENCRYPT).value, Derive(p, e, base, usage, TAG_INTEGRITY).value;
    confounder := SealedWithConfounder(p, e, ke, ki, plaintext, ciphertext);
  }

  /** The ciphertexts that decrypt are exactly the encryptions: nothing else passes. */
  lemma DecryptsIffEncrypted(p: Primitives, e: Enctype, base: ByteString, usage: nat,
                             ciphertext: ByteString, plaintext: ByteString)
    requires p.Valid()
    ensures DecryptAndVerify(p, e, base, usage, ciphertext) == Ok(plaintext)
       <==> exists confounder: Block ::
              EncryptWithConfounder(p, e, base, usage, plaintext, confounder) == Ok(ciphertext)
  {
    if DecryptAndVerify(p, e, base, usage, ciphertext) == Ok(plaintext) {
      var confounder := ConfounderOf(p, e, base, usage, ciphertext, plaintext);
    }
    if confounder: Block :| EncryptWithConfounder(p, e, base, usage, plaintext, confounder) == Ok(ciphertext) {
      DecryptUndoesEncryption(p, e, base, usage, plaintext, confounder);
    }
  }

  /** The length a MAC is cut to. */
  predicate MacLength(e: Enctype, h: nat)
  {
    match e
    case Aes128CtsHmacSha256_128 => h == 16
    case Aes256CtsHmacSha384_192 => h == 24
    case _ => h == 12
  }

  /**
    A ciphertext is the stealing encryption of confounder and plaintext under the
    key with tag 0xAA, and an HMAC under the key with tag 0x55: of zeros and that
    encryption for RFC 8009, of confounder and plaintext for RFC 3962.
   */
  lemma CiphertextIs(p: Primitives, e: Enctype, base: ByteString, usage: nat, plaintext: ByteString,
                     confounder: Block, h: nat)
    requires p.Valid() && |base| == e.KeyLen() && MacLength(e, h)
    ensures var ke, ki := Derive(p, e, base, usage, 0xAA).value, Derive(p, e, base, usage, 0x55).value;
            var body := Encrypt(p.aes(ke), Zeros(16), confounder + plaintext);
            EncryptWithConfounder(p, e, base, usage, plaintext, confounder) ==
            Ok(body + p.hmac(e, ki, if e.Aes128CtsHmacSha256_128? || e.Aes256CtsHmacSha384_192? then Zeros(16) + body
                                    else confounder + plaintext)[..h])
  {
    assert Zeros(16) == ZERO_BLOCK;
  }

  /** A checksum is the HMAC of the message under the key with tag 0x99, cut. */
  lemma ChecksumIs(p: Primitives, e: Enctype, base: ByteString, usage: nat, message: ByteString, h: nat)
    requires p.Valid() && |base| == e.KeyLen() && MacLength(e, h)
    ensures Checksum(p, e, base, usage, message) == Ok(p.hmac(e, Derive(p, e, base, usage, 0x99).value, message)[..h])
  {
  }

  // ------------------------------------------------------------ what the layers above rely on

  /** Encryption, decryption and checksums under one key, by key usage. */
  datatype Suite = Suite(
    usable: bool,
    macLen: nat,
    seal: (nat, ByteString, Block) -> Result<ByteString, Error>,
    open: (nat, ByteString) -> Result<ByteString, Error>,
    checksum: (nat, ByteString) -> Result<ByteString, Error>)
  {
    /** The laws: only a usable key works, and exactly what is sealed opens, to what was sealed. */
    ghost predicate Valid() {
      && macLen <= 24
      && (forall u, m :: checksum(u, m).Ok? <==> usable)
      && (forall u, m :: usable ==> |checksum(u, m).value| == macLen)
      && (forall u, m, c :: seal(u, m, c).Ok? <==> usable)
      && (forall u, m, c :: usable ==>
            |seal(u, m, c).value| == 16 + |m| + macLen && open(u, seal(u, m, c).value) == Ok(m))
      && (forall u, d :: open(u, d).Ok? ==> exists c: Block :: seal(u, open(u, d).value, c) == Ok(d))
    }
  }

  /** The program's suite for an encryption type and key. */
  function SuiteOf(p: Primitives, e: Enctype, key: ByteString): Suite
    requires p.HashLengths()
  {
    Suite(|key| == e.KeyLen(), e.HmacLen(),
          (u: nat, m: ByteString, c: Block) => EncryptWithConfounder(p, e, key, u, m, c),
          (u: nat, d: ByteString) => DecryptAndVerify(p, e, key, u, d),
          (u: nat, m: ByteString) => Checksum(p, e, key, u, m))
  }

  /** It obeys the laws, whatever AES permutation and HMAC function are behind it. */
  lemma SuiteOfValid(p: Primitives, e: Enctype, key: ByteString)
    requires p.Valid()
    ensures SuiteOf(p, e, key).Valid()
  {
    var s := SuiteOf(p, e, key);
    forall u: nat, m: ByteString, c: Block | s.usable
      ensures |s.seal(u, m, c).value| == 16 + |m| + s.macLen && s.open(u, s.seal(u, m, c).value) == Ok(m)
    {
      SealOpens(p, e, key, u, m, c);
    }
    forall u: nat, d: ByteString | s.open(u, d).Ok?
      ensures exists c: Block :: s.seal(u, s.open(u, d).value, c) == Ok(d)
    {
      OpenedWasSealed(p, e, key, u, d);
    }
    forall u: nat, m: ByteString
      ensures (s.checksum(u, m).Ok? <==> s.usable) && (s.usable ==> |s.checksum(u, m).value| == s.macLen)
    {
      ChecksumLaws(p, e, key, u, m);
    }
    forall u: nat, m: ByteString, c: Block ensures s.seal(u, m, c).Ok? <==> s.usable {
      SealLaws(p, e, key, u, m, c);
    }
  }

  lemma ChecksumLaws(p: Primitives, e: Enctype, key: ByteString, u: nat, m: ByteString)
    requires p.Valid()
    ensures var s := SuiteOf(p, e, key);
            (s.checksum(u, m).Ok? <==> s.usable) && (s.usable ==> |s.checksum(u, m).value| == s.macLen)
  {
    assert SuiteOf(p, e, key).checksum(u, m) == Checksum(p, e, key, u, m);
  }

  lemma SealLaws(p: Primitives, e: Enctype, key: ByteString, u: nat, m: ByteString, c: Block)
    requires p.Valid()
    ensures SuiteOf(p, e, key).seal(u, m, c).Ok? <==> SuiteOf(p, e, key).usable
  {
    assert SuiteOf(p, e, key).seal(u, m, c) == EncryptWithConfounder(p, e, key, u, m, c);
  }

  lemma SealOpens(p: Primitives, e: Enctype, key: ByteString, u: nat, m: ByteString, c: Block)
    requires p.Valid() && |key| == e.KeyLen()
    ensures var s := SuiteOf(p, e, key);
            |s.seal(u, m, c).value| == 16 + |m| + s.macLen && s.open(u, s.seal(u, m, c).value) == Ok(m)
  {
    var s, r := SuiteOf(p, e, key), EncryptWithConfounder(p, e, key, u, m, c);
    assert s.seal(u, m, c) == r;
    assert s.open(u, r.value) == DecryptAndVerify(p, e, key, u, r.value);
    DecryptUndoesEncryption(p, e, key, u, m, c);
  }

  lemma OpenedWasSealed(p: Primitives, e: Enctype, key: ByteString, u: nat, d: ByteString)
    requires p.Valid() && SuiteOf(p, e, key).open(u, d).Ok?
    ensures exists c: Block :: SuiteOf(p, e, key).seal(u, SuiteOf(p, e, key).open(u, d).value, c) == Ok(d)
  {
    var s := SuiteOf(p, e, key);
    assert s.open(u, d) == DecryptAndVerify(p, e, key, u, d);
    var c := ConfounderOf(p, e, key, u, d, s.open(u, d).value);
    assert s.seal(u, s.open(u, d).value, c) == Ok(d);
  }
}
