# Keycard verification model

This project models the host side of keycard-go, the Go library that talks to Keycard smart cards, and proves
what its secure messaging and its codecs promise. Each module follows one source file or component.

| file | what it models |
|---|---|
| `Bytes.dfy` | machine integers, exclusive or, big-endian numbers |
| `Ccm.dfy` | AES-CCM (`crypto/ccm.go`) and a reference reading of RFC 3610 |
| `Apdu.dfy`, `Channel.dfy` | command and response APDUs, the transport |
| `SecureChannelV2.dfy`, `V2Runs.dfy` | the V2 client object; runs, nonces, and a card with the same keys |
| `CbcCrypto.dfy` | CBC, ISO 7816-4 padding, the two MACs (`crypto/crypto.go`) |
| `SecureChannelV1.dfy`, `V1Runs.dfy` | the V1 client object; runs against a card that checks and chains MACs |
| `Tlv.dfy`, `Bip32KeyPair.dfy`, `DerSignature.dfy` | BER-TLV reader and writer and two formats built on them |
| `Metadata.dfy` | the wallet list, its ranges and its bytes |
| `Mnemonic.dfy` | the BIP-39 checksum |
| `PathText.dfy`, `PathDecoder.dfy`, `KeyPaths.dfy` | the two BIP32 path parsers and the two printers |
| `Ndef.dfy`, `LoadStream.dfy` | the two chunkers |

The block cipher, the hash, key agreement and signature verification are arbitrary function parameters. Only
CBC needs an inverse; `CbcCrypto.InversesExist` shows that the assumption can be met. Classes carry the
original's mutable state, and each method is proved against a function of the old state; the lemmas are about
those functions. A transport is an arbitrary function from the command it is given to its answer, and it may be
a different one in every call, so it can lose, alter, replay or invent replies. The two theorems about whole runs
against a card assume one thing of it: it does not make a MAC (V1) or a sealed reply (V2) that the card never made
with that key (and, for V2, that counter).

## Where the code is narrower than its intent

Each bound below is proved as an if-and-only-if, or with an input that shows the failure.

* A V2 request of 243 to 255 bytes is accepted, but its ciphertext does not fit the one-byte Lc
  (`V2Runs.ProtectedFitsIff`).
* V2 `ProtectedCommand` does not move the counter, although the comment at `secure_channel_v2.go:257-258` says
  it does; only `Transmit` does. Two calls without a `Transmit` between them encrypt under one nonce
  (`V2Runs.ProtectTwiceReusesTheNonce`), and this is the only way to reuse one (`V2Runs.FreshIffDisciplined`).
* The comment at `secure_channel_v2.go:240-242` promises an error once an established channel has closed. The
  code answers every command on a closed channel with the command itself (`V2Runs.PlainIffClosed`), so after one
  lost reply the next request goes out unprotected (`V2Runs.LostReplyThenPlain`). V1 does so exactly before its
  first full `AutoOpen` (`V1Runs.PlainIffNeverEstablished`) and never again without a `Reset`
  (`V1Runs.EstablishedNeverPlain`).
* The V1 reply MAC covers the length and the ciphertext, not the chaining value (`secure_channel.go:431-449`,
  `crypto/crypto.go:221-228`). A reply is therefore accepted whatever the chaining value (`V1Runs.StaysOpenIff`),
  an earlier one included (`V1Runs.ReplayIsAccepted`); only the first 16 bytes of it are then misread
  (`V1Runs.ReplayedAnswer`). V2 refuses earlier replies (`V2Runs.UnreachedCloses`).
* The comment at `crypto/ccm.go:17-18` calls the flags byte non-standard. It is the value RFC 3610 prescribes
  for M = 8 and L = 2, so the code refines that standard (`Ccm.SealRefinesRfc3610`).
* `DecryptAndAuthenticate` has no length cap, `EncryptAndAuthenticate` has one
  (`Ccm.AcceptsExactlyWhatItProduces`).
* `Decode` drops a hardened component at the very end of a path, without looking at its value
  (`KeyPaths.DecodeEncode`, `KeyPaths.ParsersAgreeIff`). It also accepts the empty string.
* STORE DATA offsets are divided by four into one byte, so the sixth NDEF chunk lands at the wrong place
  (`Ndef.SixthChunkWraps`, `Ndef.ReplayIff`).
* The load command index is one byte (`LoadStream.NumberedIff`), and the load file length three
  (`LoadStream.HeaderLengthIff`); lengths 255 and 65535 take one byte more than they need (`LoadStream.EncodeLengthIff`).
* `ParseMetadata` accepts ranges in any order, and then the list is no longer a sorted set
  (`WalletMetadata.ParsedIsSetIff`, `WalletMetadata.OutOfOrderDuplicates`).
* Wallet ranges are written with a 32-bit start and read with a cap on the total (`WalletMetadata.RoundTripIff`).
* A command without data but with Le is read back with Le taken for Lc (`Apdus.WireRoundTripIff`).

## Model

| member | source | states |
|---|---|---|
| Ccm.CcmMode.AbsorbBlock | crypto/ccm.go:68-86 | exclusive-ors a block or a short last block into the buffer and encrypts it in place |
| Ccm.CcmMode.ComputeCbcMac | crypto/ccm.go:62-89 | the loop computes the truncated CBC-MAC of B0 and the zero-padded data |
| Ccm.CcmMode.CtrCryptInPlace | crypto/ccm.go:95-99 | rewrites the buffer with the keystream of successive counter blocks |
| Ccm.CcmMode.EncryptAndAuthenticate | crypto/ccm.go:104-132 | ciphertext then tag for 13-byte nonces and at most 65534 bytes, an error otherwise |
| Ccm.CcmMode.DecryptAndAuthenticate | crypto/ccm.go:136-172 | the plaintext when the recomputed tag matches, and an error for a bad nonce, a short input or a wrong tag |
| Ccm.AesCcmEncrypt | crypto/ccm.go:181-196 | encryption with the key length checked first |
| Ccm.AesCcmDecrypt | crypto/ccm.go:201-216 | decryption with the key length checked first |
| Ccm.OpenIffSealed | crypto/ccm.go:104-172 | for every block function, nonce and message: c opens to p if and only if p seals to c |
| Ccm.AcceptsExactlyWhatItProduces | crypto/ccm.go:104-172 | the same for the checked operations; they differ only in the encryption length cap |
| Ccm.CtrCryptTwice | crypto/ccm.go:95-99 | counter mode is its own inverse |
| Ccm.OnePass | crypto/ccm.go:117-131 | one counter pass over tag, eight zeros and payload encrypts the tag with block 0 and the payload from block 1 |
| Ccm.B0IsRfcB0 | crypto/ccm.go:41-48 | B0 is the one of RFC 3610 section 2.2, flags included |
| Ccm.NextCounterBlock | crypto/ccm.go:91-99 | the 128-bit increment of a counter block is the next counter block as long as the 16-bit counter does not wrap |
| Ccm.CtrCryptAt | crypto/ccm.go:91-99 | byte j is encrypted with byte j mod 16 of keystream block j div 16, the nonce never touched by a carry |
| Ccm.MacRefinesRfc | crypto/ccm.go:62-89 | the in-place MAC is X_n of RFC 3610 section 2.2 over the padded blocks |
| Ccm.BodyRefinesRfc | crypto/ccm.go:95-99 | the encrypted payload is that of RFC 3610 section 2.3 |
| Ccm.SealRefinesRfc3610 | crypto/ccm.go:104-132 | every accepted message is sealed as RFC 3610 prescribes for M = 8, L = 2 and no additional data |
| Ccm.EncryptsIff | crypto/ccm.go:104-196 | a ciphertext is returned exactly for a 16-byte key, a 13-byte nonce and at most 65534 bytes, and is the one of RFC 3610 |
| Ccm.DecryptsIff | crypto/ccm.go:136-216 | a plaintext is returned exactly when the input is its sealed form under the same key and nonce |
| Ccm.CipherInputsDistinct | crypto/ccm.go:41-58 | no B0 is a counter block, and counter blocks of different nonces or counters differ |
| Apdus.Command.Serialize | apdu/command.go:47-82 | the written bytes are the wire form, Lc modulo 256 |
| Apdus.Command.Deserialize | apdu/command.go:84-125 | reads a raw command into the fields; a short body leaves the data empty |
| Apdus.ResponseReader.Deserialize | apdu/response.go:51-74 | splits data and status word; fewer than two bytes is an error that changes nothing |
| Apdus.WireRoundTripIff | apdu/command.go:47-125 | parsing undoes serialising exactly for at most 255 data bytes and no Le without data |
| Apdus.WireLayout | apdu/command.go:47-82 | four header bytes, then before any data their length modulo 256, then Le if set |
| Apdus.ParsedLayout | apdu/command.go:84-125 | any four bytes and more are a command; a body shorter than its Lc is dropped, one byte behind it is Le |
| Apdus.ResponseRoundTrip | apdu/response.go:46-74 | a response is parsed to (data, sw1, sw2) exactly when the bytes are data, sw1, sw2 |
| SecureChannelV2.Client.constructor | secure_channel_v2.go:55-60 | a new channel is closed, without keys, its counter zero |
| SecureChannelV2.Client.Reset | secure_channel_v2.go:125-131 | back to the state of a new channel |
| SecureChannelV2.Client.AutoOpen | secure_channel_v2.go:165-201 | closes first and sends salt and ephemeral key; opens only through a completed handshake |
| SecureChannelV2.Client.ProcessHandshakeResponse | secure_channel_v2.go:299-340 | installs both keys and a zero counter if the signature verifies, wipes the keys if it does not |
| SecureChannelV2.Client.OpenSecureChannel | secure_channel_v2.go:219-223 | closes the session, sends the opening command and hands back the reply |
| SecureChannelV2.Client.ProtectedCommand | secure_channel_v2.go:243-265 | the sealed inner APDU, or the plain command when closed; no effect on the session |
| SecureChannelV2.Client.Transmit | secure_channel_v2.go:268-294 | sends the command; opens the reply and advances the counter, or closes the session |
| SecureChannelV2.Client.SendProtected | command_set.go:133-139 | only the protected command goes out, and only if wrapping succeeded |
| SecureChannelV2.Client.IncrementNonce | secure_channel_v2.go:504-513 | the carry loop adds one to the big-endian counter, and closes the session when it wraps |
| V2Runs.AcceptedAdvancesByOne | secure_channel_v2.go:284-293 | an accepted reply moves the counter up by exactly one, and closes the session exactly at 2^104 - 1 |
| V2Runs.PlainIffClosed | secure_channel_v2.go:240-265 | a request is answered by itself, unprotected, exactly when the session is closed |
| V2Runs.WrapsIff | secure_channel_v2.go:248-264 | an open session wraps exactly up to 255 bytes under a 16-byte key: class 80, instruction 18, and the inner APDU sealed as RFC 3610 prescribes under the counter |
| V2Runs.LostReplyThenPlain | command_set.go:133-139 | after one lost reply the next sendProtected puts the plain request on the channel |
| V2Runs.RefusalComesBack | secure_channel_v2.go:269-278 | no answer, or a status other than 9000, reaches the caller as it came, and closes the session |
| V2Runs.NotTaken | secure_channel_v2.go:284-289 | a 9000 answer that does not authenticate closes the session and gives the caller an error |
| V2Runs.RepliesAreSealed | secure_channel_v2.go:284-293 | what a caller gets from an open session was sealed under the current counter with the card's key |
| V2Runs.StepBounded | secure_channel_v2.go:125-340 | every operation keeps all nonces used in this key epoch below the counter, one waiting for its reply excepted |
| V2Runs.FreshIffDisciplined | secure_channel_v2.go:243-294 | over every run and whatever the channel answers, nonces never repeat in an epoch if and only if no encryption precedes the transmission of an earlier one |
| V2Runs.SendsNeverReuseANonce | command_set.go:133-139 | every run of sendProtected, transmissions, handshakes and resets from a new channel is free of nonce reuse |
| V2Runs.ProtectTwiceReusesTheNonce | secure_channel_v2.go:243-265 | two successive ProtectedCommand calls in an open session use one nonce |
| V2Runs.OpensIffVerified | secure_channel_v2.go:165-340 | AutoOpen succeeds exactly on status 9000 with a public key that key agreement takes and a signature behind it that parses and verifies; a refused signature leaves no keys, any other refusal the keys as they were |
| V2Runs.OpenedInLockStepOrClosed | secure_channel_v2.go:165-201 | AutoOpen succeeds exactly when it ends open, and then in lock-step with a card of the same key material |
| V2Runs.HonestHandshakeOpens | secure_channel_v2.go:299-340 | a public key followed by the DER form of a signature that verifies is let in |
| V2Runs.ProtectedFitsIff | secure_channel_v2.go:248-264 | a protected command survives the wire exactly when its payload has at most 242 bytes |
| V2Runs.CardDecodes | secure_channel_v2.go:252-264 | a card with the same keys and counter recovers exactly the requested class, instruction, parameters and data |
| V2Runs.DeliveredExchange | command_set.go:133-139 | a delivered exchange hands the request to the card and its answer, even one too short to parse, to the caller, and keeps the counters equal |
| V2Runs.OpenIsAnswered | secure_channel_v2.go:268-294 | if nobody forges a sealed reply, a session that stays open after an exchange took the answer of that very exchange |
| V2Runs.UnreachedCloses | secure_channel_v2.go:268-294 | and so any reply to a command the card never got, an earlier reply included, closes it |
| V2Runs.DeliveryOverRuns | command_set.go:133-139 | over every run with losses, alterations and replays, nobody forging a sealed reply: each exchange that starts open ends in lock-step with the exact answer, or closed with the refusal as it came or an error, or is refused for its size without effect; each that starts closed sends the request as it is |
| CbcCrypto.CbcInverts | crypto/crypto.go:95-131 | CBC decryption undoes CBC encryption, given an inverse of the block cipher |
| CbcCrypto.CbcBlock | crypto/crypto.go:95-111 | every ciphertext block encrypts its plaintext block masked by the ciphertext block before it, the first one by the initial value |
| CbcCrypto.InversesExist | crypto/crypto.go:95-131 | that assumption is consistent |
| CbcCrypto.CbcConcat | crypto/crypto.go:133-148 | two successive calls on one encrypter encrypt the concatenation |
| CbcCrypto.AppendPadding | crypto/crypto.go:150-157 | fills a fresh buffer with data, 0x80 and zeros to the next whole block |
| CbcCrypto.RemovePadding | crypto/crypto.go:159-168 | scans the last block backwards for the marker |
| CbcCrypto.UnpadCuts | crypto/crypto.go:159-168 | what is left ends before the last 0x80 of the final block, or before that block if it has none |
| CbcCrypto.UnpadPad | crypto/crypto.go:150-168 | removing the padding of any data gives the data back |
| CbcCrypto.EncryptData | crypto/crypto.go:95-111 | pads and encrypts, or reports a bad key or chaining value |
| CbcCrypto.DecryptData | crypto/crypto.go:113-131 | decrypts and unpads, or reports a bad key, chaining value or length |
| CbcCrypto.EncryptsIff | crypto/crypto.go:95-111 | any data are encrypted, exactly under an AES key and a 16-byte chaining value |
| CbcCrypto.DecryptsIff | crypto/crypto.go:113-131 | under such, exactly one or more whole blocks are decrypted |
| CbcCrypto.DecryptsEncrypted | crypto/crypto.go:95-131 | decryption under the same key and chaining value undoes encryption of any data |
| CbcCrypto.DecryptsUnderOtherIv | crypto/crypto.go:113-131 | decryption under another chaining value succeeds, with only the first block masked by both values |
| CbcCrypto.MisreadFirstBlock | crypto/crypto.go:113-168 | of 16 bytes and more, all but the first 16 are then read exactly |
| CbcCrypto.CalculateMAC | crypto/crypto.go:202-234 | the block loop computes the CBC-MAC of meta and data and changes neither |
| CbcCrypto.MacsIff | crypto/crypto.go:202-234 | a MAC is returned exactly under an AES key for at least 16 bytes in all |
| CbcCrypto.CalculateMac | crypto/crypto.go:133-148 | the legacy MAC is the second-to-last block of the two-call stream, and meta is overwritten |
| CbcCrypto.MacRefinesLegacy | crypto/crypto.go:133-234 | the two MACs agree for whole-block meta and at least 16 bytes of data, errors included |
| SecureChannelV1.Client.Init | secure_channel.go:139-145 | installs keys and chaining value and marks the session open and established |
| SecureChannelV1.Client.Reset | secure_channel.go:465-477 | clears everything |
| SecureChannelV1.Client.UpdateIV | secure_channel.go:524-531 | the MAC becomes the chaining value; a MAC that fails closes the session |
| SecureChannelV1.Client.ProtectedCommand | secure_channel.go:365-403 | encrypts under the chaining value, prefixes the MAC and chains it, with every error case |
| SecureChannelV1.Client.Transmit | secure_channel.go:406-452 | decrypts, chains and compares the reply's MAC; anything else closes the session |
| SecureChannelV1.Client.Send | secure_channel.go:487-493 | only the protected command goes out, and only if wrapping succeeded |
| SecureChannelV1.Client.ProcessOpenResponse | secure_channel.go:503-521 | derives keys and first chaining value from a 48-byte answer |
| SecureChannelV1.Client.MutuallyAuthenticate | secure_channel.go:219-240 | one protected exchange whose answer must have 32 bytes |
| SecureChannelV1.Client.OpenSecureChannel | secure_channel.go:212-216 | closes the session, sends the opening command and hands back the reply |
| SecureChannelV1.Client.AutoOpen | secure_channel.go:181-209 | sends index and public key; established only after both steps succeed |
| V1Runs.RefusedIffTooLarge | secure_channel.go:378-391 | a request in an open session is refused, without effect, exactly when it has more than 223 bytes |
| V1Runs.ProtectsIff | secure_channel.go:365-403 | an open session protects exactly up to 223 bytes under a usable key and chaining value, with the MAC of header, length and ciphertext in front; otherwise it stays as it was |
| V1Runs.CardDecodes | secure_channel.go:377-402 | a card with the same keys accepts the MAC whatever its chaining value and reads the request, exactly if the chaining values agree |
| V1Runs.RefusalComesBack | secure_channel.go:407-420 | no answer, or status 6982, reaches the caller as it came, and closes the session |
| V1Runs.ClosedHandsBack | secure_channel.go:418-420 | a closed session hands every answer back as it came |
| V1Runs.ClosingIsAnError | secure_channel.go:422-449 | an open session with usable keys that closes on any other answer gives the caller an error |
| V1Runs.StaysOpenIff | secure_channel.go:406-452 | any reply leaves an open session open exactly if its status is not 6982 and its data are whole blocks under the MAC of length byte, fifteen zeros and ciphertext |
| V1Runs.AcceptedUnderEveryIv | secure_channel.go:431-449 | so acceptance does not depend on the chaining value |
| V1Runs.GenuineAccepted | secure_channel.go:427-451 | a reply of the card, whenever made, is accepted; what is read depends on the chaining values then and now |
| V1Runs.DeliveredExchange | secure_channel.go:365-452 | a delivered exchange gives the caller the exact answer and makes the chaining values agree, even if they did not; if they did, the card sees the exact request |
| V1Runs.ReplayIsAccepted | secure_channel.go:406-452 | the reply of a delivered exchange also answers the next request, which the card never sees: the session stays open and the caller reads the old answer under the new chaining value |
| V1Runs.ReplayedAnswer | secure_channel.go:427-451 | of a replayed answer of at least 18 bytes the status word and all but the first 16 bytes are the old ones, and those are masked by both chaining values |
| V1Runs.OpensIffAuthenticated | secure_channel.go:181-240 | AutoOpen succeeds, and establishes the session, exactly if the first answer has status 9000 and 48 bytes and the protected MUTUALLY AUTHENTICATE under what it installs is answered by 9000 and 32 bytes |
| V1Runs.AutoOpenEndsInLockStep | secure_channel.go:181-240 | opening against a card with the same derived keys succeeds and ends in lock-step |
| V1Runs.AccountedOverRuns | secure_channel.go:365-452 | over every run with losses, alterations and replays, nobody forging a MAC: each exchange that starts open is refused for its size without effect, closes the session with the refusal as it came or an error, delivers its exact answer in lock-step, or delivers an earlier reply read under the present chaining value |
| V1Runs.DeliveryOverRuns | secure_channel.go:365-452 | and if no earlier reply is put in, each exchange that starts open is exactly delivered in lock-step, refused for its size without effect, or leaves the session closed |
| V1Runs.PlainIffNeverEstablished | secure_channel.go:365-371 | a request is answered by itself, unprotected, exactly when the session is closed and was never established |
| V1Runs.EstablishedNeverPlain | secure_channel.go:365-371 | once established, over every run of commands, transmissions and openings without a reset, no request is answered by itself |
| Tlv.EncodedForm | tlv/tlv.go:76-87 | short form below 128, otherwise a count and the big-endian number |
| Tlv.DecodeBerLength | tlv/tlv.go:92-123 | the accumulating loop reads the length and the offset after it, with every error case |
| Tlv.BerLengthIff | tlv/tlv.go:92-123 | a length is read exactly from one byte below 128 or from one to four counted big-endian bytes that are all there |
| Tlv.BerLengthRoundTrip | tlv/tlv.go:76-123 | decoding undoes encoding of every 32-bit length, with anything before and after |
| Tlv.EncodeBerLengthShortest | tlv/tlv.go:76-123 | no accepted encoding of a length is shorter than the written one |
| Tlv.BerTlvReader.ReadTag | tlv/tlv.go:141-148 | one byte, or an error at the end |
| Tlv.BerTlvReader.ReadLength | tlv/tlv.go:161-168 | the cursor moves past the length only if it decodes |
| Tlv.BerTlvReader.EnterConstructed | tlv/tlv.go:171-180 | the expected tag and its length, the cursor left at the content |
| Tlv.BerTlvReader.ReadPrimitive | tlv/tlv.go:183-201 | the value under the expected tag, with where each error leaves the cursor |
| Tlv.BerTlvReader.Skip | tlv/tlv.go:214-220 | moves the cursor by the length if that much is left |
| Tlv.BerTlvReader.SkipPrimitive | tlv/tlv.go:229-239 | passes over one TLV of any tag |
| Tlv.BerTlvWriter.WritePrimitive | tlv/tlv.go:331-335 | appends tag, length and value |
| Tlv.BerTlvWriter.WriteConstructed | tlv/tlv.go:339-349 | appends the content writer's bytes as one TLV |
| Tlv.ReadPrimitiveIff | tlv/tlv.go:183-201 | a value is read exactly where a whole TLV of the expected tag stands |
| Tlv.SkipPrimitiveIff | tlv/tlv.go:229-239 | a TLV is skipped exactly where a whole one of any tag stands |
| Tlv.EnterConstructedIff | tlv/tlv.go:171-180 | content is entered exactly behind the expected tag and a length |
| Tlv.CursorAfterError | tlv/tlv.go:141-239 | a failed read has passed the tag, and the length if tag and length were right |
| Tlv.NextItem | tlv/tlv.go:183-239 | with written TLVs ahead, reading or skipping the first returns its value and leaves exactly the rest |
| Tlv.SkipsLandOnBoundaries | tlv/tlv.go:229-239 | after k skips the cursor is exactly where written TLV k begins |
| Tlv.ForestRoundTrip | tlv/tlv.go:171-349 | every nested structure that was written is read back, to the last byte |
| DerSignature.ScalarFromDerInteger | secure_channel_v2.go:472-481 | drops one sign octet and pads to 32 bytes, or refuses empty and long integers |
| DerSignature.ParseDerSignature | secure_channel_v2.go:434-468 | the strict reader's cursor steps compute both scalars or the right refusal |
| DerSignature.DerSignatureToRs | types/signature.go:66-110 | the lenient reader's cursor steps, the 64-byte Schnorr form included |
| DerSignature.IntegerContentIsDer | secure_channel_v2.go:472-481 | the INTEGER contents used below are those of section 8.3 of X.690: positive, minimal, of the right value |
| DerSignature.DerRoundTrip | secure_channel_v2.go:434-481 | the DER form of any r and s in 1..2^256-1 is read as their 32-byte big-endian forms |
| DerSignature.ReadersAgree | secure_channel_v2.go:434-481 | whatever the strict reader accepts, the lenient one accepts, and padding its answer to 32 bytes gives the strict one |
| DerSignature.ScalarOfIff | secure_channel_v2.go:472-481 | an INTEGER is a scalar exactly with 1 to 32 bytes not counting one leading zero, and keeps its value |
| DerSignature.RawScalarsIff | secure_channel_v2.go:434-468 | the two INTEGERs are those that begin a whole SEQUENCE at the start, r first |
| DerSignature.ParsedDerIff | secure_channel_v2.go:434-468 | the strict reader accepts exactly such a SEQUENCE of two scalars |
| DerSignature.LenientIff | types/signature.go:66-94 | of a SEQUENCE the lenient reader takes exactly its two INTEGERs, cut to their last 32 bytes |
| DerSignature.SchnorrIff | types/signature.go:96-110 | otherwise it takes exactly 64 bytes under tag 88, r first |
| Bip32KeyPairs.ToTlv | types/bip32.go:103-117 | the writer's steps give the key template with the parts that are present |
| Bip32KeyPairs.KeyPairFromTlv | types/bip32.go:40-92 | the reader's optional steps, and the public key derived when only a private one is given |
| Bip32KeyPairs.KeyLayout | types/bip32.go:103-117 | the template holds public key, private key and chain code under tags 80, 81 and 82, in this order |
| Bip32KeyPairs.FromTlvIff | types/bip32.go:40-92 | exactly a template with the optional parts in this order is read; a missing public key is derived from the private one without its leading zero |
| Bip32KeyPairs.FromTlvReads | types/bip32.go:40-117 | reading a written pair, with or without its public key, gives it back with the private key stripped and the public key filled in |
| Bip32KeyPairs.StripsOneZero | types/bip32.go:95-100 | one leading zero is taken off, only in front of 32 bytes and more |
| Bip32KeyPairs.KeyPairRoundTripIff | types/bip32.go:40-117 | the pair itself comes back exactly when the private key needs no stripping, comes with a public key, and that one is not empty |
| WalletMetadata.LowerBoundSeparates | types/metadata.go:156-180 | binary search on an increasing list separates the smaller IDs from the others |
| WalletMetadata.Metadata.SortInsertPos | types/metadata.go:156-180 | the loop finds that position |
| WalletMetadata.Metadata.SetName | types/metadata.go:100-107 | accepts names of at most 20 bytes and changes nothing otherwise |
| WalletMetadata.Metadata.AddWallet | types/metadata.go:125-134 | append and shift insert the ID at its position unless it is there |
| WalletMetadata.Metadata.RemoveWallet | types/metadata.go:143-148 | closes the gap at the ID's position if it is there |
| WalletMetadata.AddedInserts | types/metadata.go:125-134 | the list stays strictly increasing and its set gains exactly the ID |
| WalletMetadata.RemovedDeletes | types/metadata.go:143-148 | the list stays strictly increasing and its set loses exactly the ID |
| WalletMetadata.ListFollowsSet | types/metadata.go:125-148 | after any changes the list is strictly increasing and is the set of the same changes |
| WalletMetadata.BytesDependOnTheSetOnly | types/metadata.go:125-219 | from empty metadata, the bytes depend on the final set and not on the order of changes |
| WalletMetadata.Metadata.CompressedRanges | types/metadata.go:191-210 | the loop computes the ranges |
| WalletMetadata.Metadata.Serialize | types/metadata.go:182-219 | header, name and the ranges with 32-bit BER lengths |
| WalletMetadata.RangesExpand | types/metadata.go:191-210 | the ranges stand for exactly the list |
| WalletMetadata.RangesAreMinimal | types/metadata.go:191-210 | no list of ranges that stands for the same IDs is shorter |
| WalletMetadata.ParseMetadata | types/metadata.go:41-94 | the loop reads name and IDs, with every cap and error |
| WalletMetadata.ParsesRanges | types/metadata.go:66-91 | written ranges are read back narrowed to 32 bits, or refused exactly when they stand for too many IDs |
| WalletMetadata.ParsedIff | types/metadata.go:41-94 | exactly version 1, a whole name and whole pairs of lengths to the end, for at most 100000 IDs in all, are read, as the IDs they stand for |
| WalletMetadata.RoundTripIff | types/metadata.go:41-219 | an increasing list comes back exactly when it has at most 100000 IDs and every run starts below 2^32 |
| WalletMetadata.ParsedIsSetIff | types/metadata.go:41-148 | a parsed list is increasing, and adding and removing act on it as on a set, exactly when each range in the data starts after the one before it ends |
| WalletMetadata.OutOfOrderDuplicates | types/metadata.go:66-134 | two ranges the wrong way round are accepted, and adding an ID that is there then makes it appear twice |
| Mnemonic.PackBit | types/mnemonic.go:2223-2226 | setting a bit of the buffer appends one bit to the packed stream |
| Mnemonic.PackWords | types/mnemonic.go:2220-2228 | the nested loops pack the low 11 bits of each index, most significant first, zero-filled |
| Mnemonic.CompareBits | types/mnemonic.go:2240-2248 | the comparison loop decides equality of the checksum bits |
| Mnemonic.ValidateChecksum | types/mnemonic.go:2212-2251 | the packed bits after the entropy equal the first bits of the entropy's hash |
| Mnemonic.WordsAreValid | types/mnemonic.go:2212-2251 | the words BIP-39 assigns to entropy pass the check and pack back to that entropy |
| Mnemonic.ValidIffWords | types/mnemonic.go:2212-2251 | 3k indices below 2048 pass exactly when they are the words of some 4k bytes of entropy, which then are what they pack to |
| PathText.Decimal | derivationpath/encoder.go:21-21 | digits only, at least one, of the right value |
| PathText.ComponentRoundTrip | derivationpath/keypath.go:119-147 | parsing a printed component gives back every 32-bit index, hardened or not |
| PathText.ComponentIff | derivationpath/keypath.go:119-147 | a component is exactly digits of a value below 2^31 with at most one quote behind, which adds 2^31 |
| PathText.SplitJoin | derivationpath/keypath.go:23-33 | splitting what was joined with slashes gives the parts back |
| PathDecoder.Decoder.ReadByte | derivationpath/decoder.go:78-88 | the next character, or end of input |
| PathDecoder.Decoder.ParseStartStep | derivationpath/decoder.go:100-132 | a start step keeps the machine's answer and lowers its measure, or ends with that answer |
| PathDecoder.Decoder.SaveSegment | derivationpath/decoder.go:134-157 | appends the component that token and quote spell, refuses one from 2^31 on, and does nothing for an empty token |
| PathDecoder.Decoder.ParseSeparatorStep | derivationpath/decoder.go:159-170 | a separator step does the same; at the end of input the saved token is lost |
| PathDecoder.Decoder.ParseSegmentStep | derivationpath/decoder.go:172-207 | a segment step does the same |
| PathDecoder.Decoder.Parse | derivationpath/decoder.go:63-76 | the loop ends on every string, and its answer is that of the split-based grammar |
| PathDecoder.Decode | derivationpath/decoder.go:209-212 | the same from a new decoder |
| KeyPaths.KeyPathFromString | derivationpath/keypath.go:22-63 | the loop computes source and data, or refuses empty, overlong and malformed paths |
| KeyPaths.ParsedIff | derivationpath/keypath.go:22-63 | exactly an optional source and at most ten components are read, four bytes each; a first part that is no source is a component |
| KeyPaths.AllComponentsIff | derivationpath/keypath.go:54-60 | the components are read part by part, in order |
| KeyPaths.SourceNames | derivationpath/keypath.go:36-47 | m, .. and . are 00, 40 and 80 for both parsers and the printer |
| KeyPaths.SpacesIgnored | derivationpath/keypath.go:28-28 | spaces around the first part make no difference |
| KeyPaths.KeyPathString | derivationpath/keypath.go:88-117 | the loop prints the source and every whole four-byte chunk |
| KeyPaths.Encode | derivationpath/encoder.go:10-25 | the loop prints every index, hardened ones with a quote |
| KeyPaths.EncodeFromBytes | derivationpath/encoder.go:27-36 | prints the whole big-endian words, an incomplete one ignored |
| KeyPaths.ComponentsAreKept | derivationpath/decoder.go:134-207 | the machine's components are the split ones read one by one, a hardened last one left out |
| KeyPaths.DecodeEncode | derivationpath/decoder.go:159-212 | Decode of every printed path is Master with the path, without its last component when that is hardened |
| KeyPaths.DecodeEncodeIff | derivationpath/encoder.go:10-25 | so it undoes Encode exactly on paths that are empty or end unhardened |
| KeyPaths.KeyPathRoundTripIff | derivationpath/keypath.go:22-117 | parsing undoes printing exactly for whole words, at most ten, and a known source |
| KeyPaths.ParsedIsStable | derivationpath/keypath.go:22-117 | every accepted string is accepted again after printing, with the same result |
| KeyPaths.ParsersAgreeIff | derivationpath/keypath.go:22-147 | a string that either parser accepts is read alike by both exactly if it is not empty, has no final quote, no spaces around its first part, and at most ten components |
| KeyPaths.ParsersAgree | derivationpath/keypath.go:22-147 | on every such string the parsers give the same answer, refusals included |
| KeyPaths.LastHardenedIsDropped | derivationpath/decoder.go:159-163 | where both accept a string ending in a quote, Decode has exactly one component less |
| Ndef.SetNdef | command_set.go:817-863 | prefixes and sends STORE DATA requests in chunks, or the legacy request, and stops at the first that does not succeed |
| Ndef.SendChunks | command_set.go:843-856 | the chunk loop sends exactly the requests up to the first that does not succeed |
| Ndef.StoreDataWithOffset | command_set.go:808-811 | P2 names the four-byte word of the offset modulo 1024; four times P2 is the offset exactly for multiples of four below 1024 |
| Ndef.NormalisedIff | command_set.go:822-841 | the prefix is the remaining length, and a second normalisation changes nothing, exactly below 65536 bytes or when it was there |
| Ndef.ChunksCover | command_set.go:843-856 | the chunks concatenate to the data |
| Ndef.ChunksFitBothChannels | command_set.go:845-848 | every chunk is non-empty and fits both secure channels |
| Ndef.ReplayIff | command_set.go:808-856 | replaying the chunks as writes at 4*P2 rebuilds the data exactly up to 1100 bytes |
| Ndef.StoredIff | command_set.go:817-857 | on versions above 2 the card ends with the message behind its length, added unless it was there, exactly for at most 1100 bytes with it |
| Ndef.LegacyIsOneRequest | command_set.go:860-862 | on older versions one request F3 carries the message as it is |
| Ndef.SentUpToFailure | command_set.go:840-862 | requests go out in order up to the first that is not answered by 9000; success means that all were |
| Ndef.SixthChunkWraps | command_set.go:810-810 | with a sixth chunk the rebuilt memory is shorter than the data |
| LoadStream.LoadCommandStream.Next | globalplatform/load.go:56-75 | takes the next block, counts it modulo 256 and marks the last one |
| LoadStream.AllCommands | globalplatform/load.go:56-85 | the driving loop yields the commands of the stream |
| LoadStream.CommandsCount | globalplatform/load.go:42-52 | there are exactly BlocksCount commands |
| LoadStream.CommandAt | globalplatform/load.go:56-85 | command k carries block k and its number modulo 256, and only the last one is marked last |
| LoadStream.PayloadsAreTheFile | globalplatform/load.go:56-85 | the payloads concatenate to the file |
| LoadStream.NumberedIff | globalplatform/load.go:78-85 | P2 counts 0, 1, 2 and so on exactly for files of at most 256 blocks |
| LoadStream.EncodeFilesData | globalplatform/load.go:118-136 | tag, length and the present files in their fixed order |
| LoadStream.HeaderLengthIff | globalplatform/load.go:118-164 | the length header decodes to the file length exactly below 2^24 bytes |
| LoadStream.EncodeLengthIff | globalplatform/load.go:138-164 | it is the shortest form exactly below 2^24 except for 255 and 65535, which take one byte more |
| LoadStream.FilesInOrder | globalplatform/load.go:118-127 | each present file stands behind those before it in the list and before those behind it |
| LoadStream.EncodedFilesDecode | globalplatform/load.go:118-136 | the encoded file is tag C4, the length of the contents, and the ten files in their order |

## Left out

- AES, SHA-256, HKDF, ECDH, ECDSA, signature recovery and random numbers are function parameters; the constant-time and
  memory-scrubbing claims about them are not functional properties.
- The card behind the NDEF and load commands is only what the lemmas say about writes and order.
- Texts of error messages, and the position counter that only `derivationpath/decoder.go` error texts show.
- Strings of paths are sequences of code points; byte strings that are not UTF-8 are not modelled.
- Slices of the wallet list and of the writer buffer are sequence-valued fields; spare capacity and aliasing are not modelled.
- V2Runs.DeliveryOverRuns: assumes that data which authenticate under a key and counter were sealed by the card under them. That is the security of CCM, a property of the block cipher. A request of 243 to 255 bytes is covered except for what the card makes of it.
- V1Runs.AccountedOverRuns: assumes that reply data under the right MAC were made by the card with that key at some time. That is the unforgeability of the MAC, a property of the block cipher; replays are covered.
- V1Runs.DeliveryOverRuns: assumes in addition that no earlier reply is put in the place of another, which the code does not prevent (V1Runs.ReplayIsAccepted).
- Tlv.BerTlvWriter.WriteConstructed: takes a filled writer instead of a callback that fills one.
- Ndef.SetNdef: each protected exchange is a function of the request and its number instead of a secure channel object.
- Mnemonic.ValidIffWords: at most 256 checksum bits, since the original indexes past a 32-byte hash beyond that; the caller's word-count check allows at most 8.
- Bip32KeyPairs.KeyPairRoundTripIff: parts whose lengths fit the 32-bit BER length field.
- WalletMetadata.RoundTripIff: names of at most 31 bytes, what the header can hold; SetName allows 20.
- `NewMetadata`, which is SetName followed by AddWallet calls, and the deprecated path accessors.
- Certificates, whitelists, pairing commands and V1 unpairing; the V2 handshake's transcript and key derivation are parameters.
- `ReadBoolean`, `ReadInteger`, `WriteBoolean`, `WriteInteger` and the other small readers in `tlv/tlv.go`.
- The word list, phrase parsing, seeds, addresses, application information, card status and SCP02.
- Command builders, most `CommandSet` methods, PC/SC and zip reading: one-line wrappers or input and output.
