# nextnfs, modelled and proved in Dafny

nextnfs is an NFSv4 server with Kerberos security.  This project models the
parts of it where the logic is hardest to get right and proves, for all inputs
or over all runs, what they are for:

- **Kerberos cryptography** (`CipherStealing`, `NFold`, `Crypto`, `Cfx`):
  ciphertext stealing, n-fold, key derivation, authenticated encryption in both
  MAC orders, MIC and Wrap tokens.  AES is an arbitrary permutation of blocks
  per key and HMAC an arbitrary function of fixed output length, so nothing
  rests on a property of either.  `Cfx` and `GssCalls` are proved for every
  cipher suite with the laws of `Crypto.Suite.Valid`; `Crypto.SuiteOfValid`
  proves these laws of the program's own suite.
- **The Kerberos replay cache** (`ReplayCache`).
- **The RPCSEC_GSS server** (`SeqWindow`, `GssTable`, `GssCalls`): the sliding
  window, calls and replies from the bytes of the record on under each service,
  and the shared context table as a machine of interleaved atomic steps, where
  the verifier of a call is checked with the key of the context it finds.
- **Client records and leases** (`ClientTable`, `ClientManager`): the table as a
  value with its steps and runs, and the object whose loops are proved to take
  exactly these steps, whatever order the index yields the records in.
- **The rate limiter** (`RateLimiter`), with times and tokens as real numbers.
- **The COMPOUND dispatcher** (`Request`, `Compound`), with operations that may
  do anything.
- **Wire formats** (`Xdr`, `RecursiveXdr`, `XdrStreams`, `Bitmap`, `Readers`,
  `Fattr`, `RecordMarking`, `Keytab`), recursive types included.

`Wrappers`, `Bytes` and `Arithmetic` hold what the others share.  Fixed-width
integers are explicit: a cast to a narrower type keeps the low bytes
(`BigEndian(v, width)`), two's complement is written out, and 32-bit sums carry
their modulus.

Where the code does less than its comments or the protocol suggest, the model
follows the code and says exactly when the expected property holds:

- A SETCLIENTID_CONFIRM that fails can still remove the confirmed record
  (`FailingConfirmRemovesIff`, `FailingConfirmCanRemove`).
- A renewal reads the clock once per record, in the order in which the index
  yields the records.  An unconfirmed record stays renewed no earlier than the
  confirmed one, whatever the clock shows, exactly when the confirmed record
  comes first (`RenewOrdersIff`); `RenewalCanDisorder` is a run from the empty
  table that breaks the order, given an index that yields records by their
  places and reuses the place vacated last (`PlacesOfTheRun`).
- The courtesy mark goes by the confirmed record of a client alone
  (`SweepMarksIff`).  A record that no sweep found idle is a courtesy client all
  the same exactly when a sweep found it unconfirmed beside a confirmed record
  that lapsed, and nothing has renewed it since (`CourtesyInheritedIff`).
- A client id above those a restarted server restores is handed out again
  exactly when it lies more than one above all of them
  (`ReissuedAfterRestartIff`).
- Restoring a snapshot keeps the table invariant exactly when the snapshot fits
  the table (`RestoreKeepsIff`).
- A record of several fragments that arrives in pieces loses the fragments
  completed before its last piece, wherever in a stream it stands
  (`StreamDelivers`, `StreamDeliversWholeIff`, `SplitRecordLosesData`).
- An encoded reply decodes to its message exactly when the message is within
  the size limit of a fragment (`ReplyDecodesIff`).
- An attribute bitmap decodes to its list exactly when the list is strictly
  ascending (`Bitmap.RoundTripIff`, `OutOfOrderChangesAttrs`), and attribute
  values come back exactly when the decoder knows every kind in the list
  (`Fattr.RoundTripIff`).
- A keytab is read back exactly when its fields and the bodies of its entries
  fit their widths (`Keytab.RoundTripIff`).
- The pseudo-root accepts only AUTH_SYS once it is the current export, although
  the comment above `sec_allowed` says every flavour (`PseudoRootAllowsOnlySys`).
- One authenticator can be accepted twice: exactly when an attempt in the very
  last second of the clock-skew window repeats, at least twice the skew later,
  the first one, made in the very first second (`RepetitionAcceptedIff`,
  `AcceptedTwiceIff`, `BothEndsAccepted`).
- Applying a QoS configuration restarts the limiter's clock without a refill, so
  an operation waits all over again for every bucket whose limit is kept;
  `UpdateDelaysNothingIff` says exactly when that delays nothing, and applying the
  same configuration again and again starves it (`ReapplyingStarves`).
- The numbers of a context's tokens repeat exactly after 2^64 of them
  (`SendNumbersRepeatIff`).
- `try_consume_bytes`, unlike `try_consume`, refuses what exceeds the bucket for
  ever (`BytesOnlyStarvesIffOversized`).

## Model

| member | source | states |
|---|---|---|
| CipherStealing.DecryptUndoesEncrypt | krb5/src/crypto.rs:117-189 | for every block permutation, initial vector and input of at least 16 bytes, decryption returns the plaintext, with a short last block and with a single block |
| CipherStealing.EncryptUndoesDecrypt | krb5/src/crypto.rs:117-189 | the other direction, so ciphertext stealing is a length-preserving bijection |
| CipherStealing.EncryptIsSwappedCbc | krb5/src/crypto.rs:117-145 | the ciphertext is the CBC chain of the zero-padded input with its last two blocks swapped and cut to length (section 5 of RFC 3962) |
| CipherStealing.StolenBlocks | krb5/src/crypto.rs:117-145 | where every CBC block stands in the ciphertext: all but two in order, then the last, then the last but one cut short |
| CipherStealing.CbcBlockIs | krb5/src/crypto.rs:117-145 | byte by byte, a CBC block decrypts to its input exclusive-ored with the block before it |
| CipherStealing.CbcEncrypt | krb5/src/crypto.rs:117-145 | the chunk loop computes the CBC blocks of the padded input |
| CipherStealing.CtsEncrypt | krb5/src/crypto.rs:117-145 | the loop with the swap computes the recursive encryption that the bijection is proved of |
| CipherStealing.CtsDecrypt | krb5/src/crypto.rs:149-189 | the decryption loop computes the recursive decryption |
| NFold.LcmIsMultiple | krb5/src/crypto.rs:232-240 | the length the accumulation runs to is a common multiple of input and output length |
| NFold.LcmIsLeast | krb5/src/crypto.rs:232-240 | it divides every common multiple |
| NFold.RepeatedIsCopies | krb5/src/crypto.rs:241-253 | the bytes picked bit by bit spell the input's copies, the k-th rotated right by 13k bits |
| NFold.CopyBits | krb5/src/crypto.rs:241-253 | bit b of the input is bit b + 13k of copy k, counted round its end |
| NFold.NFoldCongruent | krb5/src/crypto.rs:231-273 | the folded bytes equal the lcm-long string of rotated copies modulo 256^n - 1, and are zero only if it is |
| NFold.NFoldUnique | krb5/src/crypto.rs:231-273 | no other output bytes satisfy the two clauses of NFoldCongruent |
| NFold.Accumulate | krb5/src/crypto.rs:254-257 | the accumulation loop fills the columns with their sums and stays inside 32 bits for inputs under 2^24 bytes |
| NFold.CarryPass | krb5/src/crypto.rs:261-266 | one pass splits the value into bytes and a carry out of the top |
| NFold.Propagate | krb5/src/crypto.rs:258-271 | the carry loop terminates, because the value shrinks, and leaves the end-around sum as bytes |
| NFold.Fold | krb5/src/crypto.rs:231-273 | n_fold returns exactly the fold characterised by NFoldCongruent and NFoldUnique, for the empty input too |
| Crypto.ExpandKey | krb5/src/crypto.rs:278-288 | the loop of dk fills the key with blocks each of which is the encryption of the one before, the first that of the folded constant |
| Crypto.Dk | krb5/src/crypto.rs:278-288 | the key is as long as the base key, its first block is the encrypted n-fold of the constant and every other the encryption of the one before; a key of the wrong length fails |
| Crypto.Derive | krb5/src/crypto.rs:291-313 | a key is derived exactly for base keys of the enctype's length, and encryption keys have that length |
| Crypto.DerivedByChain | krb5/src/crypto.rs:278-313 | under RFC 3962 the first block of a key decrypts under the base key to the bytes the two n-fold clauses determine for usage and tag, and a second block decrypts to the first |
| Crypto.DerivedByHmac | krb5/src/crypto.rs:291-313 | under RFC 8009 a key is the HMAC of 00 00 00 01, usage, tag, a zero byte and the length in bits, cut to that length |
| Crypto.CiphertextIs | krb5/src/crypto.rs:359-382 | a ciphertext is the encryption of confounder and plaintext under the key with tag 0xAA, and the cut HMAC under the key with tag 0x55 over what the enctype says |
| Crypto.ChecksumIs | krb5/src/crypto.rs:408-416 | a checksum is the cut HMAC of the message under the key with tag 0x99 |
| Crypto.OpensIffSealed | krb5/src/crypto.rs:359-406 | under both MAC orders a ciphertext and MAC open to data exactly when they are what sealing that data makes |
| Crypto.DecryptUndoesEncryption | krb5/src/crypto.rs:359-406 | decrypt returns the plaintext for every enctype, key, usage, plaintext and confounder |
| Crypto.DecryptsIffEncrypted | krb5/src/crypto.rs:359-406 | a ciphertext decrypts to a plaintext exactly when some confounder encrypts the plaintext to it |
| Crypto.SuiteOfValid | krb5/src/crypto.rs:354-416 | the program's encryption and checksums obey the laws the token layer relies on, for every AES permutation and HMAC |
| Bytes.CtEq | krb5/src/crypto.rs:224-226 | the comparison that looks at every byte decides equality |
| Cfx.VerifiesIffMic | krb5/src/cfx.rs:88-112 | verify_mic accepts a token with a number exactly when it is the MIC of that message, sender and number |
| Cfx.VerifyUndoesGetMic | krb5/src/cfx.rs:88-112 | verify_mic accepts what get_mic makes and returns its number |
| Cfx.MicBytes | krb5/src/cfx.rs:72-98 | a MIC token byte by byte: 04 04, direction and subkey flags, five FF, the number, and the checksum of message and header under usage 23 or 25 |
| Cfx.RotationsCancel | krb5/src/cfx.rs:154-161 | undoing the rotation restores the body for every RRC, and the other way round |
| Cfx.RotatedAt | krb5/src/cfx.rs:154-161 | a rotation by RRC puts every byte that many places on, round the end |
| Cfx.UnwrapUndoesPeerToken | krb5/src/cfx.rs:144-189 | every token a peer may send, rotated by any 16-bit RRC and sealed with any filler, unwraps to its message, seal and number |
| Cfx.UnwrapsIffPeerToken | krb5/src/cfx.rs:144-189 | the tokens that unwrap are exactly those a holder of the key may send |
| Cfx.WrapIsPeerToken | krb5/src/cfx.rs:115-141 | the server's own tokens are the unrotated ones without filler |
| Cfx.UnwrapUndoesWrap | krb5/src/cfx.rs:115-189 | unwrap returns message, sealed flag and number of wrap |
| Cfx.SealedBytes | krb5/src/cfx.rs:115-131 | a sealed token byte by byte: 05 04, flags, FF, zero counts, the number, and the encryption of message and header under usage 22 or 24 |
| Cfx.SignedBytes | krb5/src/cfx.rs:115-141 | a signed token byte by byte: the header with the checksum's length, the message, and the checksum of message and the header without it |
| Cfx.KerberosTokenUnwraps | krb5/src/cfx.rs:115-189 | the same under the program's own encryption, for every AES permutation, HMAC and key |
| ReplayCache.Cache.CheckAndInsert | krb5/src/acceptor.rs:89-102 | eviction, lookup and insertion as the step that the run theorems are about |
| ReplayCache.CacheRefinesKeepAll | krb5/src/acceptor.rs:88-103 | over every run in time order the cache answers like one that keeps every acceptance for ever |
| ReplayCache.RefusedIffRecent | krb5/src/acceptor.rs:88-103 | an attempt that reaches the cache is refused exactly when the same authenticator was accepted less than twice the clock skew before |
| ReplayCache.AcceptancesApart | krb5/src/acceptor.rs:88-103 | two acceptances of one authenticator are at least twice the clock skew apart |
| ReplayCache.OnlyTheEndsRemain | krb5/src/acceptor.rs:173-192 | with the skew check they fall into the first and the last second of its window |
| ReplayCache.NextAcceptanceIff | krb5/src/acceptor.rs:173-192 | after an acceptance and none since, a repetition is accepted exactly when the two are genuine, in the first and the last second of the skew window, and at least twice the skew apart |
| ReplayCache.RepetitionAcceptedIff | krb5/src/acceptor.rs:173-192 | said of the attempts alone: after the first one that reaches the cache, a later one is accepted exactly when the two are at both ends and none in between is |
| ReplayCache.AcceptedTwiceIff | krb5/src/acceptor.rs:173-192 | an authenticator is accepted twice in a run exactly when some attempt repeats the first that reaches the cache at both ends |
| ReplayCache.NeverThreeTimes | krb5/src/acceptor.rs:173-192 | no authenticator is accepted three times |
| ReplayCache.BothEndsAccepted | krb5/src/acceptor.rs:173-192 | the two ends do happen |
| ReplayCache.StepTrims | krb5/src/acceptor.rs:89-94 | after each step the cache is small or holds nothing expired |
| SeqWindow.AcceptRefinesHistory | nfs/src/server/gss.rs:138-159 | a window that represents a history accepts exactly the admissible numbers (nothing before, above the maximum, or within 128 of it and new) and represents the new history |
| SeqWindow.AdmissibleIs | nfs/src/server/gss.rs:138-159 | admissible means above all accepted numbers, or new and fewer than 128 below each of them |
| SeqWindow.WindowRefinesHistory | nfs/src/server/gss.rs:127-159 | over every run of requests the window answers like the plain set of accepted numbers (section 5.3.3.1 of RFC 2203) |
| SeqWindow.NeverTwice | nfs/src/server/gss.rs:138-159 | a number accepted once in a run is refused every later time |
| SeqWindow.SequenceWindow.Accept | nfs/src/server/gss.rs:138-159 | the object answers by its history and keeps bit i set exactly when max - i was accepted |
| GssTable.ContextTable.Insert | nfs/src/server/gss.rs:354-368 | a full table drops what expired and then the oldest, no more than needed, and ends below the limit; the loop terminates |
| GssTable.RoomIs | nfs/src/server/gss.rs:354-368 | what a table of 16384 contexts keeps: nothing expired, everything else if that makes room, and if not all but the one too many and the older |
| GssTable.RunKeeps | nfs/src/server/gss.rs:295-471 | every interleaving of INIT, answers at once, lookup, expiry, header check under the found context's key, acceptance, DESTROY, signing and eviction keeps the invariant of table, windows, threads and passages |
| GssTable.NumbersPassAtMostOnce | nfs/src/server/gss.rs:373-471 | no context lets a number through twice, in any interleaving |
| GssTable.TableStaysBounded | nfs/src/server/gss.rs:354-368 | the table never exceeds 16384 contexts |
| GssTable.OnlyGenuineCallsPass | nfs/src/server/gss.rs:373-401 | whatever passed had a header, with that number in it, whose verifier is a MIC under the key of the very context that let it through, and a number below MAXSEQ |
| GssTable.UnsignedIsDenied | nfs/src/server/gss.rs:373-393 | a call not signed with the key of the context it found never reaches a window and ends denied, if it ends |
| GssTable.BadHeaderChangesNoWindow | nfs/src/server/gss.rs:373-393 | the steps of a call whose verifier is no MIC under the key of the context it found change no window and let nothing through |
| GssTable.WindowsRepresentPassages | nfs/src/server/gss.rs:373-471 | at every moment a window represents the set of all numbers its context let through |
| GssTable.StepsComposeToData | nfs/src/server/gss.rs:373-471 | however its steps interleave with others, a finished call ends as data in one piece ends on the window it met, which represents what its context had let through by then |
| GssTable.AcceptLeavesDatasWindow | nfs/src/server/gss.rs:373-471 | the step that meets the window leaves it as data in one piece does |
| GssTable.ClientCallProceedsInRun | nfs/src/server/gss.rs:373-471 | a call of version 1 made by the client's rules for the context it finds, with a number admitted by what passed before it, proceeds with exactly the client's argument bytes in every interleaving |
| GssTable.ProceedsOnlyProtectedInRun | nfs/src/server/gss.rs:373-471 | whatever proceeds in any interleaving was signed, and under integrity or privacy protected for this very number, with the key of the context it found |
| GssTable.OnlyDataIsLookedUp | nfs/src/server/gss.rs:274-293 | whoever gets as far as a context sent version 1 and the procedure DATA or DESTROY |
| GssTable.BadCredIsDenied | nfs/src/server/gss.rs:274-293 | for a record of another version or an unknown procedure nothing can happen but the denial, which leaves table, windows and counters as they are |
| GssTable.TableChanges | nfs/src/server/gss.rs:354-404 | in every reachable state INIT puts its context behind its handle; the look at an expired context, a signed header with a number of 2^31 or more and the end of a DESTROY call drop theirs; no other step touches the table |
| GssTable.DroppedIsGone | nfs/src/server/gss.rs:373-404 | over every run: once dropped, by DESTROY or otherwise, a handle stays out of the table until an INIT with it, and all that can happen to a DATA or DESTROY record for it is the answer CREDPROBLEM |
| GssTable.LookupFinds | nfs/src/server/gss.rs:373-380 | a call works with the context the table holds for the handle in its record |
| GssTable.SendNumbersRepeatIff | nfs/src/server/gss.rs:169-175 | in every interleaving of the replies of a context two of its tokens carry the same number exactly when a multiple of 2^64 lies between them, so fewer tokens all differ |
| GssTable.SignEnabledIff | nfs/src/server/gss.rs:399-507 | a finished call takes one number for its verifier and, if it proceeded under integrity or privacy, one more |
| GssTable.NoThreadIsStuck | nfs/src/server/gss.rs:373-516 | every thread of a reachable state has an enabled next step until its call is decided and its reply signed |
| GssCalls.TakeUndoesPut | nfs/src/server/gss.rs:219-231 | take_opaque returns the data and exactly the bytes that follow |
| GssCalls.PaddingForgiven | nfs/src/server/gss.rs:226-231 | missing padding at the very end is forgiven |
| GssCalls.DataNotForgiven | nfs/src/server/gss.rs:226-231 | missing data is not |
| GssCalls.ParseUndoesEncodeCred | proto/src/rpc_proto.rs:48-67 | parsing an encoded credential returns it, for all fields that fit their words |
| GssCalls.CredBytes | proto/src/rpc_proto.rs:48-67 | where version, procedure, number, service and handle stand in a credential |
| GssCalls.TakeUndoesPutHead | proto/src/lib.rs:139-234 | the header a client writes, XID through credential, is the one the server reads, with exactly what follows left over |
| GssCalls.HeadBytes | proto/src/lib.rs:139-234 | where XID, message type, versions, program, procedure, flavour and credential stand in a header |
| GssCalls.ParsedCalls | proto/src/lib.rs:139-234 | what parses is a call with an RPCSEC_GSS credential, the signed bytes are its front, and it has a verifier token exactly if that has the flavour |
| GssCalls.SignedHeader | proto/src/lib.rs:139-234 | the bytes the verifier signs read back as the call's header, so they determine its number, service, handle and procedure |
| GssCalls.UnprotectUndoesProtect | nfs/src/server/gss.rs:415-516 | unprotecting undoes protecting for integrity and privacy, in both directions |
| GssCalls.UnprotectedWasProtected | nfs/src/server/gss.rs:415-438 | whatever comes out of integrity or privacy was made for it by a holder of the key |
| GssCalls.ProtectedIs | nfs/src/server/gss.rs:489-507 | integrity sends the body and then its MIC, privacy one sealed token of it, each behind its length |
| GssCalls.StripIffNumbered | nfs/src/server/gss.rs:439-446 | the number is stripped exactly from a body that starts with it |
| GssCalls.ClientCallProceeds | nfs/src/server/gss.rs:274-471 | the record a client makes by the rules with an admissible number parses, goes to data and proceeds with exactly the client's argument bytes, under each service, and the window represents the number too |
| GssCalls.ClientRecordExists | proto/src/lib.rs:139-234 | there is such a record, and head, verifier and protected arguments are read out of it |
| GssCalls.VerdictIffSigned | nfs/src/server/gss.rs:385-397 | a call passes the header check exactly when its verifier is a MIC under the key of its header, and the number in that header is below MAXSEQ |
| GssCalls.Routes | nfs/src/server/gss.rs:274-321 | exactly which calls go to data or to the acceptor, and what the others are answered |
| GssCalls.DataRefuses | nfs/src/server/gss.rs:373-401 | CTXPROBLEM exactly for an expired context or a signed number of 2^31 or more, CREDPROBLEM exactly for an unsigned call, no answer exactly for an inadmissible number; only a call that passes changes the window |
| GssCalls.DataAnswers | nfs/src/server/gss.rs:404-471 | a call that passes is destroyed, of no known service, or proceeds with exactly the argument bytes protected for its number, if they decode |
| GssCalls.ProceedsOnlyProtected | nfs/src/server/gss.rs:373-471 | whatever proceeds had a header signed with the key that holds this number and service and, under integrity or privacy, a body made with the key for this very number |
| GssCalls.ReplyUnwraps | nfs/src/server/gss.rs:475-516 | under every service, and whatever two send numbers the reply got, the client verifies its verifier; it unwraps the same number and results, or without protection the body is unchanged |
| GssCalls.ReplyArms | nfs/src/server/gss.rs:475-507 | arm by arm the client reads back the number and the encoded results, nothing for NULL, or the raw bytes |
| GssCalls.OtherArms | nfs/src/server/gss.rs:475-507 | results that do not encode become GARBAGE_ARGS; every other arm, and every reply without protection, is unchanged |
| GssCalls.KerberosCallProceeds | nfs/src/server/gss.rs:373-471 | ClientCallProceeds from the bytes of the record under the program's own encryption, for every AES permutation, HMAC and key |
| GssCalls.RawGoesOutIffAligned | proto/src/rpc_proto.rs:165-203 | raw results are serialised as they are exactly when they are a multiple of four long |
| GssCalls.InitResultSerializes | nfs/src/server/gss.rs:295-371 | the raw results of INIT are aligned, so their serialisation can not fail |
| GssCalls.InitResultReads | nfs/src/server/gss.rs:295-306 | handle, status words, window and token read back from the results of INIT |
| GssCalls.WrappedResultSerializes | nfs/src/server/gss.rs:475-516 | so are those of wrap_reply under integrity and privacy, whatever the body |
| ClientTable.RunKeeps | nfs/src/server/clientmanager.rs:181-433 | at every moment of every run: per id string at most one confirmed and one unconfirmed record, sharing client id and principal; different id strings never share a client id |
| ClientTable.UpsertKeeps | nfs/src/server/clientmanager.rs:190-255 | a registration keeps that invariant (section 16.33.5 of RFC 7530) |
| ClientTable.UpsertIs | nfs/src/server/clientmanager.rs:190-255 | SETCLIENTID is refused exactly for another principal's confirmed record; else the new record, with all its fields, replaces the unconfirmed one and nothing else changes |
| ClientTable.ConfirmKeeps | nfs/src/server/clientmanager.rs:257-316 | so does a confirmation, failing or not (section 16.34.5 of RFC 7530) |
| ClientTable.ConfirmAnswers | nfs/src/server/clientmanager.rs:257-316 | CLID_INUSE exactly for a differing principal, success exactly for a token of the client, STALE_CLIENTID exactly otherwise |
| ClientTable.RenewKeeps | nfs/src/server/clientmanager.rs:318-364 | so does a renewal, for every order of the records and all clock readings |
| ClientTable.SweepKeeps | nfs/src/server/clientmanager.rs:368-416 | so does a sweep |
| ClientTable.ClientidNeverReissued | nfs/src/server/clientmanager.rs:181-255 | a client id once handed out never belongs to another id string later in the run, not even after a purge |
| ClientTable.RunOrders | nfs/src/server/clientmanager.rs:190-364 | an unconfirmed record is renewed no earlier than the confirmed one, over every run at whose renewals the index yields the confirmed record first, whatever the clock shows |
| ClientTable.RenewOrdersIff | nfs/src/server/clientmanager.rs:351-361 | all clock readings of a renewal keep that order exactly when the index yields the confirmed record before the unconfirmed one |
| ClientTable.RenewalCanDisorder | nfs/src/server/clientmanager.rs:318-364 | a run of six requests from the empty table after which the unconfirmed record is renewed earlier than the confirmed one |
| ClientTable.RenewAnswers | nfs/src/server/clientmanager.rs:318-364 | RENEW answers STALE_CLIENTID exactly for an unknown client id and EXPIRED exactly when a confirmed marked record is more than two lease times idle; a failure changes nothing |
| ClientTable.CourtesyWindow | nfs/src/server/clientmanager.rs:318-364 | over every run a client whose confirmed record was renewed at most two lease times before its RENEW is renewed by it, marked or not, and loses the mark |
| ClientTable.PlacesOfTheRun | nfs/src/server/clientmanager.rs:238-312 | in storage that reuses the place vacated last, that run leaves the unconfirmed record in the place before the confirmed one |
| ClientTable.FailingConfirmRemovesIff | nfs/src/server/clientmanager.rs:266-315 | a failing confirmation changes the table exactly when the client id exists, all principals match, no record has the token and a confirmed record exists |
| ClientTable.FailingConfirmCanRemove | nfs/src/server/clientmanager.rs:294-315 | the concrete case: a stale token costs a confirmed client its record |
| ClientTable.ConfirmReplaces | nfs/src/server/clientmanager.rs:257-316 | a confirmation leaves the client that one record, confirmed; repeating it changes nothing; other clients are untouched |
| ClientTable.SweepRemovesIff | nfs/src/server/clientmanager.rs:380-416 | a sweep removes a record exactly when its client's confirmed record is a courtesy client idle for two lease times |
| ClientTable.SweepIs | nfs/src/server/clientmanager.rs:368-416 | record by record, with the lease time of 90 seconds: removed, marked or as it was |
| ClientTable.PurgedWasMarkedAndIdle | nfs/src/server/clientmanager.rs:368-416 | over every run a purged client's confirmed record was marked by an earlier sweep, not renewed since, and is at least two lease times idle |
| ClientTable.IdleClientIsPurged | nfs/src/server/clientmanager.rs:368-416 | a confirmed client idle for one lease time at a sweep and two at a later one is gone after it, unless renewed or confirmed in between |
| ClientTable.ConfirmedInheritsMark | nfs/src/server/clientmanager.rs:393-405 | a registration unconfirmed at the sweep is a courtesy client from the moment it is confirmed |
| ClientTable.SweepMarksIff | nfs/src/server/clientmanager.rs:380-405 | a sweep marks a record exactly when a confirmed record of its client lapses, whatever its own stamp |
| ClientTable.CourtesyIff | nfs/src/server/clientmanager.rs:318-416 | over every run a record is a courtesy client exactly when an earlier sweep found its client's lease lapsed and it has stayed unrenewed since |
| ClientTable.MarkOrigin | nfs/src/server/clientmanager.rs:380-405 | the sweep a mark comes from found the record idle for a lease time if it was confirmed, and beside a confirmed record that lapsed if it was not |
| ClientTable.CourtesyInheritedIff | nfs/src/server/clientmanager.rs:318-416 | over every run a record that no sweep found idle for a lease time is a courtesy client exactly when a sweep found it unconfirmed beside a confirmed record of its client that lapsed, and nothing has renewed it since |
| ClientTable.RestoreKeepsIff | nfs/src/server/clientmanager.rs:436-475 | restoring keeps the invariant exactly when the snapshot fits the table |
| ClientTable.SnapshotRestores | nfs/src/server/clientmanager.rs:166-177 | a server started on the confirmed records of a valid table starts from a valid, ordered table without courtesy clients and without a stamp in the future, so the theorems about runs apply |
| ClientTable.ReissuedAfterRestartIff | nfs/src/server/clientmanager.rs:166-255 | a client id that no restored client holds can be handed out after a restart exactly when it lies more than one above every restored id |
| ClientTable.RestoreIsComplete | nfs/src/server/clientmanager.rs:436-475 | every confirmed client of the snapshot is back with its id, client id, principal and callback |
| ClientTable.RestoreAddsOnly | nfs/src/server/clientmanager.rs:436-475 | nothing else is there but what was in the table |
| ClientTable.RevokeIs | nfs/src/server/clientmanager.rs:428-432 | a revocation removes the records of that client and no other |
| ClientManager.Manager.UpsertClient | nfs/src/server/clientmanager.rs:190-255 | the loop over the records of an id, in any order, performs the registration step and keeps the invariant |
| ClientManager.Manager.ConfirmClient | nfs/src/server/clientmanager.rs:257-316 | the loop and the removals perform the confirmation step with its answer |
| ClientManager.Manager.RenewLeases | nfs/src/server/clientmanager.rs:318-364 | the two loops, the second in the order of the index with a clock reading per record, perform the renewal step, answer EXPIRED exactly beyond the courtesy window, and keep the order of renewals when the confirmed record comes first |
| ClientManager.Manager.SweepLeases | nfs/src/server/clientmanager.rs:368-416 | the three loops perform the sweep and list exactly the purged clients, each once |
| ClientManager.Manager.RevokeCourtesyClient | nfs/src/server/clientmanager.rs:428-432 | all records of the client go, the others stay |
| ClientManager.Manager.RestoreClients | nfs/src/server/clientmanager.rs:436-475 | the loop performs the restoration and counts the confirmed snapshots |
| ClientManager.Manager.IsCourtesyClient | nfs/src/server/clientmanager.rs:421-425 | the loop over the records of a client, in any order and up to the first marked one, finds whether one is marked |
| ClientManager.ScanForUpsert | nfs/src/server/clientmanager.rs:196-222 | the first loop finds the conflict, the records to remove and the client id to reuse, whatever order it runs in |
| ClientManager.ScanForConfirm | nfs/src/server/clientmanager.rs:265-292 | the loop finds a differing principal, the one superseded record and whether the token is there |
| ClientManager.ScanForRenewal | nfs/src/server/clientmanager.rs:328-346 | true exactly when a confirmed courtesy record is more than 180 seconds idle |
| ClientManager.ScanLeases | nfs/src/server/clientmanager.rs:377-391 | the loop lists the clients whose lease lapses and those past the courtesy window, each once |
| RateLimiter.BytesRateBound | nfs/src/server/export_manager.rs:36-143 | over any stretch of T seconds, from any reachable state, debt included, admitted bytes are at most rate (1 + T) plus the excess of the largest admitted operation over one bucket |
| RateLimiter.OpsRateBound | nfs/src/server/export_manager.rs:36-143 | admitted operations are at most rate (1 + T) |
| RateLimiter.BytesBudget | nfs/src/server/export_manager.rs:47-123 | what a run admits is paid for by the level it starts from and the refill |
| RateLimiter.DebtBounded | nfs/src/server/export_manager.rs:95-123 | after an admission the debt is at most the excess of the largest admitted operation |
| RateLimiter.AdmittedIffReady | nfs/src/server/export_manager.rs:95-123 | an operation of any size is admitted exactly from a finite, computed moment on |
| RateLimiter.PollingNeverDelays | nfs/src/server/export_manager.rs:47-123 | any number of refused attempts in between leaves that moment where it was |
| RateLimiter.RefusedTakesNothing | nfs/src/server/export_manager.rs:67-123 | a refused attempt takes nothing from either bucket |
| RateLimiter.FillsCompose | nfs/src/server/export_manager.rs:47-64 | refilling in two steps is refilling once |
| RateLimiter.BytesOnlyStarvesIffOversized | nfs/src/server/export_manager.rs:81-93 | try_consume_bytes ever admits a size exactly when it fits the bucket |
| RateLimiter.UpdateKeepsBounds | nfs/src/server/export_manager.rs:128-137 | a new configuration keeps the bounds and never raises an unchanged bucket |
| RateLimiter.UpdateRestartsWait | nfs/src/server/export_manager.rs:128-137 | after a new configuration an operation is ready exactly when the buckets of kept limits have filled from their level at the last refill |
| RateLimiter.SameConfigDelays | nfs/src/server/export_manager.rs:128-137 | with both limits kept, admission moves by the whole time since the last refill |
| RateLimiter.UpdateDelaysNothingIff | nfs/src/server/export_manager.rs:128-137 | a new configuration delays no admission exactly when no kept bucket is short, or the buckets it fills anew were the longer wait by at least that time |
| RateLimiter.ReapplyingStarves | nfs/src/server/export_manager.rs:128-137 | however often the same configuration is applied, the operation is ready its whole wait after the last time |
| RateLimiter.TokenBuckets.DoRefill | nfs/src/server/export_manager.rs:47-64 | the in-place refill is the refill the theorems are about |
| RateLimiter.TokenBuckets.Consume | nfs/src/server/export_manager.rs:101-123 | the new state and answer are those of the step, and the answer is yes exactly from the ready moment on |
| RateLimiter.TokenBuckets.ConsumeOp | nfs/src/server/export_manager.rs:67-78 | likewise for an operation alone: yes exactly from the moment its bucket holds one token |
| RateLimiter.TokenBuckets.ConsumeBytes | nfs/src/server/export_manager.rs:81-93 | likewise for bytes alone: yes exactly from the moment its bucket holds so many, and never if it can not |
| RateLimiter.TokenBuckets.Reconfigure | nfs/src/server/export_manager.rs:128-137 | a changed limit starts with a full bucket, and the next admission is the wait for the kept buckets away |
| Request.SwitchesKeepCached | nfs/src/server/request.rs:145-165 | however often exports are switched, what is cached for an export of the table is the table's |
| Request.RestoreUndoesMoves | nfs/src/server/request.rs:373-390 | restoring the saved handle brings back handle, export and cached export, whatever exports were visited |
| Request.PseudoRootAllowsOnlySys | nfs/src/server/request.rs:247-252 | at the pseudo-root only AUTH_SYS is allowed once it is the current export |
| Request.UnknownExportKeepsGuards | nfs/src/server/request.rs:145-165 | a switch to an unknown id keeps the guards of the previous export |
| Request.WhoIsAllowed | nfs/src/server/request.rs:247-252 | a list of flavours admits those on it and an empty one AUTH_SYS |
| Request.SwitchBrings | nfs/src/server/request.rs:145-165 | a switch brings the guards and the limiter of an export of the table, none at the pseudo-root, and keeps everything else |
| Request.LiveRequest.SwitchExport | nfs/src/server/request.rs:145-165 | set_export on the object |
| Request.LiveRequest.RestoreFilehandle | nfs/src/server/request.rs:379-390 | restore_filehandle on the object |
| Compound.RunsPrefix | nfs/src/server/nfs40.rs:522-868 | whatever the operations do, a prefix is executed; the reply's request, status and results are those of how and where the loop ended |
| Compound.OkMeansAllRan | nfs/src/server/nfs40.rs:822-868 | the reply is OK exactly when all operations ran and succeeded, or the last executed one succeeded without a result |
| Compound.ExecutionsGuarded | nfs/src/server/nfs40.rs:560-792 | no operation but the exempt ones runs under a refused flavour, none that mutates runs on a read-only export, none denied in grace runs in grace, none runs without its permission or above the rate of a limited export, and after an export change only a client the cached export admits goes on |
| Compound.RefusalReported | nfs/src/server/nfs40.rs:522-683 | a run that stops early was stopped by the first guard that failed, in the order limiter, grace, flavour, read-only, permission: nothing after it ran, and the reply has that guard's status, the results so far and, but in grace, the error |
| Compound.ExecutedNotStopped | nfs/src/server/nfs40.rs:522-683 | no guard stops an operation that was executed, so one the loop comes to runs exactly when none does |
| Compound.OperationNumbers | nfs/src/server/nfs40.rs:14-56 | by their numbers: the operations that mutate, those denied in grace and those exempt from the flavour check |
| Compound.ExecutionsFollow | nfs/src/server/nfs40.rs:685-868 | every operation meets the request the one before it left |
| Compound.AnswersChecked | nfs/src/server/nfs40.rs:755-821 | the answer is ACCESS on another export that does not admit the client, WRONGSEC after a move onto a refused flavour that is not deferred, and else the operation's own |
| Compound.ResultsStand | nfs/src/server/nfs40.rs:822-868 | the result of the k-th operation is the k-th of the reply |
| Compound.RefusedFlavorOnlyDeferred | nfs/src/server/nfs40.rs:793-821 | after a move onto a refused flavour the next operation runs only if the move was PUTFH-like and the next one asks for flavours or looks up (section 2.6.3.1 of RFC 5661) |
| Compound.ExecutionsEntitled | nfs/src/server/nfs40.rs:522-868 | over a fixed export table every operation executed on one of its exports runs for a client it admits, in a flavour it accepts or as an exempt operation, and does not mutate a read-only one |
| Compound.RestoreUndoesRun | nfs/src/server/nfs40.rs:327-370 | in every run RESTOREFH returns to handle, export and cached export of the matching SAVEFH, and fails only for a flavour that export refuses |
| Compound.SaveOperation | nfs/src/server/nfs40.rs:327-348 | SAVEFH on the request object succeeds exactly when there is a current handle, and then a RESTOREFH at once succeeds |
| Compound.RestoreOperation | nfs/src/server/nfs40.rs:350-370 | RESTOREFH on the request object succeeds exactly with a saved handle, which becomes the current one with its export, and what is cached stays the table's |
| Compound.RunLoop | nfs/src/server/nfs40.rs:522-868 | the dispatch loop computes the reply the theorems are about |
| Compound.HandleCompound | nfs/src/server/nfs40.rs:487-885 | the reply echoes the tag; missing arguments or a minor version above 1 execute nothing; otherwise a prefix is executed and the reply says how it ended, and an error the dispatcher reports is the last result and the status |
| Compound.Execute | nfs/src/server/nfs40.rs:685-821 | the checks after an operation turn its answer into the refusal and nothing else |
| Xdr.RoundTrip | proto/src/xdr.rs:96-532 | for every schema without names and every value, decoding the encoding followed by any bytes returns the value and exactly those bytes |
| Xdr.Aligned | proto/src/xdr.rs:96-251 | every encoding is a multiple of four long |
| Xdr.NoPrefixDecodes | proto/src/xdr.rs:270-480 | no strict prefix of an encoding decodes |
| Xdr.EncodingsAreDistinct | proto/src/xdr.rs:96-251 | no encoding is the start of that of another value |
| Xdr.Extends | proto/src/xdr.rs:270-480 | what decodes, decodes the same when more bytes follow |
| Xdr.DecodedEncodes | proto/src/xdr.rs:270-480 | whatever the decoder accepts is a value the encoder accepts, of as many bytes as were read |
| Xdr.BlocksArePadded | proto/src/xdr.rs:496-506 | fixed-length opaque data written word by word is the data and its padding |
| Xdr.BlocksAreSplit | proto/src/xdr.rs:508-531 | reading it word by word cuts data and padding off the front |
| Xdr.NumbersOnWire | proto/src/xdr.rs:120-155 | the bytes of every number that fits its type, most significant first and negative ones in two's complement, and that no other encodes |
| Xdr.DataOnWire | proto/src/xdr.rs:120-161 | the bytes of flags and byte strings |
| Xdr.OptionOnWire | proto/src/xdr.rs:162-168 | a flag stands in front of an option |
| Xdr.VariantOnWire | proto/src/xdr.rs:175-190 | the position stands in front of a variant |
| Xdr.ArrayOnWire | proto/src/xdr.rs:191-195 | the number of elements stands in front of an array |
| Xdr.StrictWords | proto/src/xdr.rs:311-376 | flags above 1, positions without a variant, numbers outside their type and surrogates are refused |
| Xdr.PaddingIsIgnored | proto/src/xdr.rs:285-297 | padding may hold anything when it is read |
| RecursiveXdr.DecodeRef | proto/src/xdr.rs:270-480 | the decoder in an environment of named schemas decodes a name as the schema it names |
| RecursiveXdr.DecodeOptional | proto/src/xdr.rs:370-376 | it reads a flag and then what is behind it in the same environment |
| RecursiveXdr.DecodeUnion | proto/src/xdr.rs:407-480 | it reads a tag and then that variant in the same environment |
| RecursiveXdr.DecodeArray | proto/src/xdr.rs:386-452 | it reads a count and then so many elements in the same environment |
| RecursiveXdr.DecodeStruct | proto/src/xdr.rs:389-452 | it reads the fields one after the other in the same environment |
| RecursiveXdr.EncodesIff | proto/src/xdr.rs:96-251 | the encoder in the environment gives exactly the encoding a value has at some depth of unrolling |
| RecursiveXdr.EncodeRef | proto/src/xdr.rs:96-251 | it encodes a name as the schema it names |
| RecursiveXdr.EncodeArray | proto/src/xdr.rs:191-195 | it writes a count and then the elements in the same environment |
| RecursiveXdr.EncodeStruct | proto/src/xdr.rs:215-217 | it writes the fields one after the other in the same environment |
| RecursiveXdr.RoundTripIn | proto/src/xdr.rs:96-532 | for every environment of guarded recursive schemas, decoding an encoding followed by any bytes returns the value and exactly those bytes |
| RecursiveXdr.AlignedIn | proto/src/xdr.rs:96-251 | every encoding of a recursive type is a multiple of four long |
| RecursiveXdr.NoPrefixDecodesIn | proto/src/xdr.rs:270-480 | no strict prefix of an encoding of a recursive type decodes |
| RecursiveXdr.DecodedEncodesIn | proto/src/xdr.rs:270-480 | whatever the decoder accepts for a recursive type has an encoding of as many bytes as were read |
| RecursiveXdr.EncodingIsUnique | proto/src/xdr.rs:96-251 | a value of a recursive type has one encoding |
| RecursiveXdr.ListingRoundTrip | proto/src/nfs4_proto.rs:1267-1274 | a linked directory listing of any length has an encoding and comes back from the wire as it went |
| XdrStreams.Deserializer.Deserialize | proto/src/xdr.rs:305-425 | the deserializer's value and remaining input are those of the decoding function, for recursive types too, and it ends on every input |
| XdrStreams.Deserializer.GetOpaqueData | proto/src/xdr.rs:285-297 | reads the announced bytes and the padding, and fails when either is missing |
| XdrStreams.Deserializer.GetFixed | proto/src/xdr.rs:508-531 | the block loop reads fixed-length opaque data |
| XdrStreams.Deserializer.Elements | proto/src/xdr.rs:386-452 | counts down and reads the elements of an array in order |
| XdrStreams.Deserializer.Fields | proto/src/xdr.rs:389-452 | counts down and reads the fields of a struct in order |
| XdrStreams.Serializer.Serialize | proto/src/xdr.rs:96-251 | appends exactly the encoding, for recursive types too, or fails when there is none |
| XdrStreams.Serializer.PutFixed | proto/src/xdr.rs:496-506 | the block loop appends fixed-length opaque data |
| XdrStreams.EncodeThenDecode | proto/src/xdr.rs:79-263 | from_bytes after to_bytes returns the value of any type, recursive ones included, with anything behind it |
| Bitmap.RoundTripIff | proto/src/utils.rs:585-620 | the bitmap decodes to the list exactly when the list is strictly ascending |
| Bitmap.EncodeFills | proto/src/utils.rs:585-604 | of an ascending list exactly the listed bits are set |
| Bitmap.ListedMeans | proto/src/utils.rs:606-620 | a decoded list is ascending and lists exactly the set bits that are attributes |
| Bitmap.OutOfOrderChangesAttrs | proto/src/utils.rs:585-604 | the concrete case: MODE then TYPE decodes to NO_TRUNC |
| Bitmap.EncodeBitmap | proto/src/utils.rs:585-604 | the loop computes the bitmap |
| Bitmap.DecodeBitmap | proto/src/utils.rs:606-620 | the nested loops compute the list |
| Fattr.RoundTripIff | proto/src/utils.rs:283-537 | the value bytes, whatever follows, decode to the values exactly when the decoder knows every kind among them |
| Fattr.ValuesRead | proto/src/utils.rs:283-537 | otherwise to the values before the first unknown kind |
| Fattr.AclBlockReads | proto/src/utils.rs:507-528 | access control lists with padded names read back wherever they stand |
| Fattr.LocationsBlockReads | proto/src/utils.rs:401-441 | nested file system locations with padded components read back wherever they stand |
| Fattr.KnownAttributes | proto/src/utils.rs:283-537 | by their numbers: how the decoder reads each attribute |
| Fattr.FixedBytes | proto/src/utils.rs:631-828 | the bytes of fixed-size values |
| Fattr.TextBytes | proto/src/utils.rs:631-828 | the bytes of a text |
| Fattr.AceBytes | proto/src/utils.rs:631-828 | the bytes of an access control entry |
| Fattr.OddWords | proto/src/utils.rs:283-400 | a file type above 9 reads as 0 and any flag but zero as true |
| Fattr.BrokenList | proto/src/utils.rs:507-528 | a list that breaks off in its first entry reads as empty, and where the offset then stands |
| Fattr.PaddingAtTheEnd | proto/src/utils.rs:401-419 | the last text may lack its padding, a path component may not |
| Fattr.FattrRoundTrip | proto/src/utils.rs:540-553 | bitmap and values together come back from the wire, and what follows is left unread |
| Fattr.WireExistsIff | proto/src/utils.rs:831-866 | a list has a wire form exactly when its value bytes fit their length word |
| Fattr.ReadValues | proto/src/utils.rs:283-537 | the decoding loop with its offset computes the values |
| Fattr.ReadAces | proto/src/utils.rs:507-528 | the loop over the entries, which keeps what it has when the list breaks off |
| Fattr.ReadPath | proto/src/utils.rs:404-419 | read_pathname4 |
| Fattr.ReadLocations | proto/src/utils.rs:401-441 | the loops over locations |
| Fattr.WriteValues | proto/src/utils.rs:631-828 | the encoding loop |
| RecordMarking.ChunkingIndependent | proto/src/lib.rs:35-88 | any split of a stream of one-fragment records into chunks delivers exactly the records, in order |
| RecordMarking.WholeDecodes | proto/src/lib.rs:35-67 | a fully buffered record is the concatenation of its fragments, and exactly its bytes are consumed |
| RecordMarking.FrameBytes | proto/src/lib.rs:35-67 | a frame is a word of length and last bit, and the data |
| RecordMarking.LargeIsRefused | proto/src/lib.rs:45-60 | a fragment announced with more than eight megabytes ends the stream |
| RecordMarking.StreamDelivers | proto/src/lib.rs:35-88 | however a stream of records of several fragments is cut into chunks, as many records are delivered, in order, each what is left of it after the fragments complete before the chunk that completed it |
| RecordMarking.StreamDeliversWholeIff | proto/src/lib.rs:35-88 | record i of a stream is delivered whole exactly when the fragments complete before its last chunk held no data |
| RecordMarking.SplitRecordLosesData | proto/src/lib.rs:36-67 | the concrete case of two fragments in two chunks |
| RecordMarking.DecodeBuffer | proto/src/lib.rs:35-67 | the fragment loop computes the outcome and what it leaves in the buffer |
| RecordMarking.EncodeReply | proto/src/lib.rs:118-132 | an encoded reply of any length is a header of 32 bits and the message, and decodes to the message exactly when that is within the size limit |
| RecordMarking.ReplyDecodesIff | proto/src/lib.rs:118-131 | the same of the encoded bytes, header wrap-around included |
| Keytab.RoundTripIff | krb5/src/keytab.rs:89-148 | parsing the written keytab, of any number of entries, returns it exactly when its fields and the bodies of its entries fit their widths |
| Keytab.NotReadFromBehind | krb5/src/keytab.rs:89-148 | read from anywhere behind its first byte, what is written of entries is not read as these entries |
| Keytab.BodyBack | krb5/src/keytab.rs:107-122 | a body has room for the entry read from it, and one too short for the 32-bit key version starts with what that entry is written as |
| Keytab.FileBytes | krb5/src/keytab.rs:128-148 | 05 02, and each body behind its length |
| Keytab.NamesBytes | krb5/src/keytab.rs:131-136 | the number of components, and realm and components each behind its length |
| Keytab.BodyBytes | krb5/src/keytab.rs:137-143 | where name type, time stamp, both versions, enctype and key stand behind the names |
| Keytab.KvnoOf | krb5/src/keytab.rs:116-121 | whatever follows the key, a 32-bit version that is not zero is the entry's, and else the 8-bit one is |
| Keytab.WrongMagic | krb5/src/keytab.rs:90-94 | which files are refused as an old version and which as no keytab |
| Keytab.ParsedFits | krb5/src/keytab.rs:89-125 | whatever the file, the entries it yields fit the widths |
| Keytab.KvnoReads | krb5/src/keytab.rs:116-121 | the 32-bit key version overrides the 8-bit one and every version survives |
| Keytab.DeletedSlotsInvisible | krb5/src/keytab.rs:97-108 | deleted slots anywhere never change what a file yields, entries or error |
| Keytab.ParseFile | krb5/src/keytab.rs:89-125 | the loop over positions computes the parse and ends on every input |
| Keytab.WriteFile | krb5/src/keytab.rs:128-148 | the writing loops compute the file |
| Keytab.Reader.Take | krb5/src/keytab.rs:59-64 | takes exactly n bytes or fails and stays |
| Keytab.Reader.Strings | krb5/src/keytab.rs:110-112 | reads the announced number of names |

## Left out

- AES, HMAC, PBKDF2 and the random generator: arbitrary functions, and parameters for every random value (confounders, handles, confirmation tokens).
- Clocks: every reading is a parameter; the acceptor's two readings, a wall clock for the skew check and a monotonic one for the cache, are one reading of one clock.
- Floating point: limiter tokens and times are real numbers, so rounding is not modelled.
- Random tokens that collide: the source's unique index panics on one, so a fresh token is required not to be in the table.
- Client ids at the end of their 64-bit range: the counter is unbounded, where the source would overflow.
- The index of the client table: the order in which it yields the records of a client is a parameter, any listing without repetition.
- ClientTable.RenewalCanDisorder: the index comes from a crate whose source is not part of this model, so that it yields records by place and reuses the place vacated last is an assumption.
- What the acceptor makes of an INIT token: it succeeds with any new context or fails with any status.
- ASN.1, ticket contents and the other checks of `accept_at`: one flag says whether an attempt passes what comes before the cache.
- The bodies of NFS operations, permission checks and the grace flag: arbitrary functions of position and request; giving a new object its owner is part of its operation.
- Compound.ExecutionsEntitled: assumes a fixed export table during one COMPOUND and operations that change the cached export only by switching exports, as those of the source do.
- IP network matching: whether an export's client list admits the client is a given of the export.
- GssCalls.ClientCallProceeds: the protected body has to fit the 32-bit length word that frames it.
- Text: strings are byte strings, so UTF-8 validity and lossy conversion are not modelled.
- Floats in XDR, maps and self-describing decoding: the former encode as words and hypers, the latter always fail.
- Overflow checks: 32-bit sums wrap around as in a release build, where a debug build would stop.
- GssCalls.SignedHeader: calls with an RPCSEC_GSS credential; a verifier under AUTH_SYS is read like any other that is not a MIC, where the source rejects the call when the parameters in it are malformed.
- Parsing of RPC calls with other credentials, NFSv4.1 sessions, quotas, identity mapping, file managers, locks, caches, snapshot files, sockets, the REST interface and the command line.
