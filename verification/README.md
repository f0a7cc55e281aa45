# An SM-DP+'s secure channel, Bound Profile Package and ES9+ session, verified

This project models the part of an SM-DP+ library (GSMA SGP.22 v2.6) that turns a plain
profile into a package only one card can open, and proves what that part is for. Run
`dafny verify dfyconfig.toml` to check it with Dafny 4.11.

Three layers make one theorem:

1. **The segment layer** (`src/rsp_crypto.c`): the SCP03t channel. A segment is padded with
   `80 00 .. 00`, encrypted in CBC under an initial value taken from a 16-octet counter, and
   MACed over chaining value, tag, length octets and data. Each accepted segment moves two
   separate pieces of state, the chaining value and the counter. The session keys come out of
   an ECDH secret through the X9.63 KDF.
2. **The package layer** (`src/rsp_bpp.c`, `src/rsp_internal.h`): a printer and a reader for
   the Bound Profile Package over a growable buffer, with 1007-octet segmentation and one
   session carried through the tags '87', '88' and '86' in wire order. A reader's answer is
   one of three: 0, -1 (the question was asked and the answer is no) or -2 (the question was
   never reached).
3. **The session layer** (`src/rsp_es9.c`): initiate, authenticate and bind as a state machine
   with chained signatures, and the TLV walkers that cut fields and signed data out of
   received octets.

The main theorem is `EndToEnd.RunOpens`. Take any run of calls after an accepted initiation,
ending in an accepted bind. The card whose response the session accepted last, holding the
secret of the one-time key it sent, reads the server's key out of the package, derives the
session, and recovers exactly the profile and the metadata, ending in the very state the
server stored. It assumes that decryption undoes encryption and that the key agreement
commutes, and nothing else about the primitives.

## How it is put together

| file | what it holds |
|---|---|
| `Octets.dfy` | octet strings, big-endian numbers, exclusive or |
| `DerLength.dfy`, `Tlv.dfy` | the length rule, the X.690 header reader, the printer, `parse_tlv` |
| `GrowBuf.dfy` | the growable buffer, as a class over an array |
| `Cipher.dfy`, `Channel.dfy` | CBC and padding; one segment protected and unprotected, on values |
| `Kdf.dfy` | the X9.63 loop and the session it starts |
| `Scp03t.dfy` | the session object whose methods protect and unprotect in place |
| `Package.dfy`, `Recovery.dfy`, `Framing.dfy` | what a reader finds in a package, what its answers mean, and the grammar it accepts |
| `Signing.dfy` | the signing keys, as an object that keeps a record of every use |
| `Binding.dfy`, `RoundTrip.dfy`, `Tampering.dfy` | what a builder makes, what holds of it, and what else a receiver could accept |
| `Bpp.dfy` | `rsp_bpp_build` and `rsp_bpp_recover` as they run, over buffers and a session object |
| `Wire.dfy` | segments, sessions, request and package written out in the primitives and in octets alone |
| `Es9.dfy`, `Es9Exact.dfy`, `Es9Runs.dfy` | the ES9+ session object, each call written out in the answers of codec and crypto library, and what every run of it keeps |
| `Fields.dfy`, `Notifications.dfy` | the field accessors and the verification of signed reports |
| `EndToEnd.dfy` | the main theorem |

Code that updates state in the source is imperative here: buffers are arrays, the channel's
session, the growable buffer and the ES9+ session are classes, loops are loops. Each such
method is proved equal to a function on values (`Protect`, `Unprotect`, `Recover`, `Build`,
`Authenticate`, `Bind`, ...), and the properties are proved of those functions. The
primitives are function-valued fields of `Cipher.Suite`, `Kdf.Agreement` and `Es9.Pki`;
signing is an effect, a call on a `Signing.Signer` that puts the message on record, and the
functions on values take the key's answer as a parameter. The two laws assumed of the
primitives are the predicates `Cipher.Lawful` and `Kdf.Commutes`, and
`EndToEnd.AcceptedRunExists` exhibits an environment and a run that satisfy every assumption
of the main theorem together.

## Results that say "not always"

- The capacity-doubling loop ends if and only if the content wanted, as a size_t, is at most
  2^63 octets
  (`GrowBuf.DoublingTerminatesIff`).
- The KDF's counter octets are exact if and only if at most 32 * (2^32 - 1) octets are asked
  for (`Kdf.CountersExactIff`).
- Recovery can succeed with an empty profile and a NULL buffer, on a package the builder never
  makes (`RoundTrip.EmptyRecoveryExists`). `Recovery.RecoversNothingIff` says exactly when, and
  `Recovery.LongElementsCarry` what can be seen on the octets beforehand.
- The stored channel keys need not belong to the EID the session now holds: authenticating
  another card leaves them in place (`EndToEnd.KeysCanOutliveTheirEid`).
  `Es9Runs.KeysMatchEidIff` says exactly when they do belong to it.
- Acceptance is not proof of the whole profile: a package without the last '86' elements is
  recovered, to the full blocks before them (`Tampering.LeadingElementsAreRecovered`,
  `Tampering.LeadingPartIsRecovered`). The whole profile comes out if and only if the number of
  elements is the built one, short of a forged MAC or a broken chain
  (`Tampering.WholeProfileIff`). A package cut at an octet is always noticed
  (`Recovery.TruncationIsNoticed`).
- Recovery does not look at the secure channel request's content or at a second '87' group
  (`Framing.IgnoresRequestAndSecondGroup`), so acceptance is stated about the elements of the
  groups [0], [1] and [3].

Where code and comments disagree, the model follows the code: the counter is separate from
the chaining value (against `src/rsp_crypto.c:323`), the server challenge is a parameter
(against `src/rsp_es9.c:153`), and an empty sequenceOf86 is -2 (`src/rsp_bpp.c:922`).

## Model

| member | source | states |
|---|---|---|
| EndToEnd.RunOpens | src/rsp_es9.c:1040-1212 | Over every run from an accepted initiation: an accepted bind's package, opened by the last accepted card with its matching secret and EID, recovers exactly the profile and that card's metadata, and ends in the state the server stored |
| EndToEnd.BoundPackageOpens | src/rsp_es9.c:1040-1212 | The same for one bind from any session state: the card needs only the package, its secret and its EID |
| EndToEnd.AcceptedRunExists | src/rsp_es9.c:1040-1212 | The assumptions of RunOpens hold together for some environment, run and card |
| EndToEnd.PackageCarriesOtpk | src/rsp_bpp.c:384-448 | Reading the request of any built package gives the one-time key it was built with |
| RoundTrip.BuiltIsRecovered | src/rsp_bpp.c:735-938 | Every package build makes is recovered from an equal session to the profile octet for octet, and both sessions end alike |
| RoundTrip.MetadataIsCarried | src/rsp_bpp.c:574-593 | The '88' element of every built package replays to the caller's metadata, octet for octet |
| RoundTrip.BuildSucceedsIff | src/rsp_bpp.c:459-666 | Build succeeds if and only if both inputs are non-empty, metadata fits one segment, every length fits four octets and the key answers; the package's length is then a closed formula of the two lengths |
| Wire.PackageOnWire | src/rsp_bpp.c:535-657 | A built package, octet for octet: BF36 around BF23 81 AF and the request, A0 1A 87 18 and the protected ConfigureISDP, A1 around 88 and the value that starts with the caller's metadata, A3 around the 86 TLVs of the protected blocks |
| Wire.StatesInTurn | src/rsp_bpp.c:535-625 | Each element is protected in the session the one before it left, the first in the session given |
| Wire.RequestOnWire | src/rsp_bpp.c:384-448 | The request sent, octet for octet: operation, transaction, template of AES, sixteen octets and "euicc-rsp", own key, signature |
| Wire.SignedOnWire | src/rsp_bpp.c:333-368 | The octets signed, likewise, ending in the card's key instead |
| Wire.UsesOfKey | src/rsp_bpp.c:459-533 | Those octets are signed once, or not at all when an input is missing |
| Wire.SessionAfterBuild | src/rsp_bpp.c:459-666 | How far the session moves, whatever the answer: not at all without an input or a signature, by the '87' alone for metadata past one segment, by every element otherwise |
| RoundTrip.PinnedLength | tests/test_bpp.c:390-391 | The formula gives 2331 for the pinned input of 2015 octets |
| RoundTrip.MacedIsSent | src/rsp_crypto.c:389-406 | For every element of every package, the CMAC input after the chaining value is the wire TLV without its last eight octets, and those eight are that CMAC's front |
| RoundTrip.CounterCounts | src/rsp_crypto.c:437-446 | m elements on any mix of tags move the counter by exactly m modulo 2^128 |
| RoundTrip.PackageNeverReusesIcv | src/rsp_crypto.c:418-431 | No two elements of one built package are encrypted under the same ICV |
| RoundTrip.CounterAfterBind | src/rsp_crypto.c:194-195 | After a fresh bind of n octets the counter is 3 plus n/1007 rounded up |
| RoundTrip.ScanBuilt | src/rsp_bpp.c:637-657 | A reader finds in an assembled package exactly the protected values, in wire order, and nothing amiss |
| RoundTrip.EmptyRecoveryExists | src/rsp_bpp.c:850-925 | From any session, some package is recovered to the empty profile |
| Recovery.RecoversExactlyProtections | src/rsp_bpp.c:735-938 | A byte string is recovered to a profile if and only if it is completely framed and some plaintexts, protected in wire order from the same session, give exactly its elements; the profile is the '86' plaintexts in order |
| Recovery.FailureMeans | src/rsp_bpp.c:697-733 | -1 if and only if the element after the verified ones was framed and its own MAC or padding is wrong; every other failure is -2; either way the session is advanced by exactly the verified elements |
| Recovery.TruncationIsNoticed | src/rsp_bpp.c:753-770 | A complete package cut at any octet is -2, with the session as it was |
| Recovery.RecoversNothingIff | include/rsp.h:386-409 | Success with an empty profile if and only if the package is complete and its elements are the protection, from the same session, of plaintexts whose '86' ones are all empty |
| Recovery.LongElementsCarry | src/rsp_crypto.c:624-740 | In an accepted package an '86' element of n octets carries n - 24 to n - 9, so an '86' element of any length but 24 rules the empty profile out |
| Recovery.CompleteHasProfile | src/rsp_bpp.c:850-925 | A complete package has an '86' element, and every element the mode its tag calls for |
| Recovery.ReplayChain | src/rsp_crypto.c:624-740 | An accepted run of elements ends in the chaining value that its tags and MACed octets determine |
| Recovery.ChainFixesThePackage | src/rsp_bpp.c:735-938 | Two accepted packages of equally many elements that end in one chaining value carry the same elements and profile, or a CMAC collision is produced |
| Tampering.AcceptedIsBuiltOrForged | src/rsp_bpp.c:735-938 | Whatever is accepted from the session a package was built in carries a leading part of the built elements, or a MAC over an input the builder never MACed, or the builder's own chain holds a CMAC collision or comes back to its start |
| Tampering.LeadingElementsAreRecovered | src/rsp_bpp.c:735-938 | Any complete byte string whose elements are a leading part of the built ones is recovered: its plaintexts are a leading part of the built ones, its profile the whole one if no element is missing, else exactly the full blocks before the first that is |
| Tampering.WholeProfileIff | src/rsp_bpp.c:735-938 | An accepted package yields the built profile if and only if it carries 2 plus n/1007 rounded up elements, or a MAC is forged, or the builder's chain is broken |
| Tampering.RepeatBreaks | src/rsp_crypto.c:378-415 | A chaining value comes twice only with a CMAC collision or an input whose CMAC is the starting value |
| Tampering.LeadingPartIsRecovered | src/rsp_bpp.c:850-925 | Every such cut has a package: what is built for the first m full blocks carries the built package's first 2 + m elements, fewer than all when a block is left, and is recovered to those blocks |
| Framing.CompleteIff | src/rsp_bpp.c:735-870 | Recovery finds a string complete with certain elements if and only if it follows the package grammar, spelled out as tags, definite length fields and contents: one [54] TLV of a request, three groups and at most one second '87' group, nothing left over |
| Framing.IgnoresRequestAndSecondGroup | src/rsp_bpp.c:771-841 | Two packages, their wrappers in any form the reader takes, that differ only in their requests and in whether and what a second '87' group holds, get one answer and leave one session |
| Package.ScanLayout | src/rsp_bpp.c:753-870 | What a reader finds in a laid-out package is what it finds in its three verified groups, up to the first fault |
| Package.ScanWrapped | src/rsp_bpp.c:697-733 | A printed group is read back to its values, element for element |
| Package.ReplayAppend | src/rsp_bpp.c:735-938 | One session runs through the groups: replaying two lists in a row is replaying the second from where the first ended, and stops where the first stops |
| Binding.SignedRequestDetermines | src/rsp_bpp.c:333-368 | What smdpSign covers determines transaction, host and both one-time keys, although the keys share a tag |
| Binding.SignedIsSent | src/rsp_bpp.c:384-448 | The request sent and the octets signed share one front; one goes on with the signature, the other with the card's key |
| Binding.SegmentFitsIff | src/rsp_bpp.c:139-144 | A protected TLV of k octets fits 1020 if and only if k is at most 1007, and 1007 gives exactly 1020 |
| Binding.Chunks | src/rsp_bpp.c:606-625 | The blocks put together are the profile, there is at least one, and none is above 1007 octets |
| Binding.ChunksFillSegments | src/rsp_bpp.c:606-625 | All blocks but the last are full, the last is not empty, and there are n/1007 rounded up |
| Binding.ChunksAreFewest | src/rsp_bpp.c:606-625 | No way of cutting the profile into segments within the limit uses fewer |
| Bpp.BuildPackage | src/rsp_bpp.c:459-666 | As it runs, build returns what Build says, in a buffer of its own, leaves the session Build says, hands out nothing on failure, and uses the key once, for the request's signed octets, or not at all when an input is missing |
| Bpp.SignRequest | src/rsp_bpp.c:384-448 | The one message the key is handed is the concatenation of section 5.5.1 of SGP.22 |
| Bpp.BuildSegments | src/rsp_bpp.c:606-625 | The segmentation loop appends the TLVs of all protected blocks in order and advances the session by all of them |
| Bpp.BuildIscTbs | src/rsp_bpp.c:333-368 | Five data objects are written in the order of section 5.5.1 of SGP.22 |
| Bpp.PutTlv | src/rsp_bpp.c:252-271 | One TLV is appended, or, exactly when its length does not fit, nothing |
| Bpp.PutConfigure | src/rsp_bpp.c:535-562 | The '87' group is appended: ConfigureISDP protected in the session as it stands |
| Bpp.PutMetadata | src/rsp_bpp.c:574-593 | The '88' group is appended: the caller's metadata MACed in the session as it stands |
| Bpp.RecoverPackage | src/rsp_bpp.c:735-938 | As it runs, recovery answers what Recover says and leaves the session it says; the buffer is NULL exactly on failure or for an empty profile |
| Bpp.VerifyAndAdvance | src/rsp_bpp.c:697-733 | The cursor loop over one group ends with the group's answer and session, whatever its octets |
| Bpp.RecoverSegments | src/rsp_bpp.c:850-925 | The '86' loop collects the plaintexts of a wholly verified group in order, and refuses an empty group |
| Bpp.GroupThenRest | src/rsp_bpp.c:795-848 | Verifying groups one after the other, stopping at the first failure, comes to the package's answer; '87' and '88' add nothing to the profile |
| Bpp.ChunkRunStep | src/rsp_bpp.c:606-625 | One turn of the segmentation loop, followed by the run over what remains, is the whole run |
| Channel.UnprotectUndoesProtect | src/rsp_crypto.c:471-564 | Unprotecting a protected segment in the same session gives the plaintext, and both ends the same next session |
| Channel.AcceptsExactlyTheImage | src/rsp_crypto.c:624-740 | A segment is accepted if and only if it is the protection of the plaintext it yields, with the same next session |
| Channel.RefusalMeans | src/rsp_crypto.c:654-717 | -1 if and only if the segment is well sized and its MAC differs, or nothing pads to what it decrypts to |
| Wire.EncryptedOnWire | src/rsp_crypto.c:471-564 | For every suite, session, tag and plaintext under '86' and '87': the first block is the plaintext padded with 80 00 .. 00, xored with the encryption of the counter and encrypted, each later one is chained to the ciphertext before it, and the last eight octets are the CMAC of chaining value, tag, length and ciphertext; that CMAC is the next chaining value, the keys stay, the counter goes up by one |
| Wire.MacOnlyOnWire | src/rsp_crypto.c:581-622 | Under '88' the plaintext goes unchanged, with eight octets of the CMAC of chaining value, tag, length and plaintext behind it, and the same next session |
| Wire.UnreachedIff | src/rsp_crypto.c:624-655 | A segment is -2 if and only if it is longer than 0xFFFFFFFF, shorter than 24 octets or not whole blocks when encrypted, or shorter than 8 when MACed only |
| Wire.XorOctet | src/rsp_crypto.c:525-541 | The exclusive or of the chaining is that of each of the eight bits |
| Channel.IncrementAddsOne | src/rsp_crypto.c:437-446 | The carry is a big-endian plus one, wrapping at the string's own width |
| Channel.MacInputInjective | src/rsp_crypto.c:389-406 | The MAC input determines chaining value, tag and data |
| Channel.ChainCommits | src/rsp_crypto.c:378-415 | Two equally long histories that end in one chaining value are the same history, or a CMAC collision is produced |
| Cipher.CbcBlock | src/rsp_crypto.c:525-541 | Each ciphertext block is the encryption of its plaintext block xored with the block before it |
| Cipher.CbcDecryptsEncrypted | src/rsp_crypto.c:685-698 | CBC decryption undoes encryption under one key and initial value |
| Cipher.CbcEncryptsDecrypted | src/rsp_crypto.c:525-541 | And encryption undoes decryption, so every ciphertext has one plaintext |
| Cipher.PadInjective | src/rsp_crypto.c:496-518 | Padding loses nothing |
| Cipher.ScanPadding | src/rsp_crypto.c:700-717 | The backward scan finds the plaintext's length exactly when some plaintext pads to these octets |
| Scp03t.Session.ProtectSegment | src/rsp_crypto.c:471-564 | In place: the segment and the next session, or a refusal exactly when it does not fit, leaving the session alone |
| Scp03t.Session.ProtectMacOnly | src/rsp_crypto.c:581-622 | The same for MAC-only segments, with the caller's buffer untouched on refusal |
| Scp03t.Session.UnprotectSegment | src/rsp_crypto.c:624-740 | In place: the channel's own answer, with a plaintext too long for the caller being -2; only acceptance touches session or buffer |
| Scp03t.Session.UnprotectMacOnly | src/rsp_crypto.c:757-800 | The same for MAC-only segments |
| Scp03t.Session.Init | src/rsp_crypto.c:166-218 | The derived session, or all zeros and -1 when the agreement refuses |
| Scp03t.AdvanceCounter | src/rsp_crypto.c:437-446 | The byte-carry loop leaves the incremented counter |
| Scp03t.ComputeMac | src/rsp_crypto.c:378-415 | The CMAC of the assembled input, refused exactly past the four-octet length form |
| Kdf.KdfX963 | src/rsp_crypto.c:80-164 | The loop's output, for any length, is the prefix of the concatenated hash blocks |
| Kdf.DeriveBlock | src/rsp_crypto.c:108-146 | Block i of any output is the hash of secret, four-octet number i counted from 1, and shared information |
| Kdf.DerivePrefix | src/rsp_crypto.c:80-164 | A shorter request is a prefix of a longer one |
| Kdf.CountersExactIff | src/rsp_crypto.c:80-164 | The counter octets name every block's number if and only if at most 32 * (2^32 - 1) octets are asked for |
| Kdf.SessionKeysAre | src/rsp_crypto.c:187-195 | Chaining value, S-ENC and S-MAC are, in that order, the three halves of the first two digests, and the counter starts at 1 |
| Wire.KeyBlock | src/rsp_crypto.c:108-146 | Every whole block of key material is the hash of the secret, the block's number as four octets, most significant first, and the shared information |
| DerLength.LengthOctetsMinimal | src/rsp_internal.h:182-215 | The encoder's octets are the one shortest definite form of the length |
| DerLength.LengthOctetsInjective | src/rsp_internal.h:182-215 | Whatever follows them, equal strings start with equal lengths |
| DerLength.DefiniteFormsPrefixFree | src/rsp_internal.h:182-215 | No definite form, minimal or not, is a proper prefix of another |
| DerLength.EncodeLength | src/rsp_internal.h:182-215 | The octets written and their count, refused exactly above 0xFFFFFFFF with the array untouched |
| DerLength.FetchLengthReadsDefiniteForms | src/rsp_bpp.c:288-314 | The reader accepts exactly the definite forms, each at its own size |
| Wire.LongLength | src/rsp_bpp.c:288-314 | 80 plus a count, then that many octets, reads as their big-endian value |
| Wire.TwoOctetTagNumber | src/rsp_bpp.c:288-314 | A tag number of two octets reads as seven bits each |
| Tlv.ReadEncoded | src/rsp_bpp.c:288-314 | What the printer writes under any complete tag, the reader reads back, whatever follows |
| Tlv.ReadTlvTruncated | src/rsp_bpp.c:288-314 | Cutting a buffer changes nothing while the first TLV is whole, and makes the reader refuse once it is not |
| Tlv.SpelledIsRead | src/rsp_bpp.c:288-314 | Any TLV spelled out as complete tag, definite length field, minimal or not, and content is read back, whatever follows |
| Tlv.ReadIsSpelled | src/rsp_bpp.c:288-314 | What the reader finds is spelled out at the front of the buffer |
| Tlv.ParseTlv | src/rsp_es9.c:1388-1423 | The hand-written walker answers exactly as the X.690 reader does, for length fields counting up to eight octets |
| Tlv.ParseTruncated | src/rsp_es9.c:1388-1423 | A cut that ends at e is the same for every bound from e up and refused for every bound below |
| Tlv.ParseSpelled | src/rsp_es9.c:1388-1423 | At any offset a TLV spelled out, its length field in any form, is cut exactly if that field counts at most eight octets and refused if more |
| Tlv.ParseEncoded | src/rsp_es9.c:1388-1423 | The walker inverts the printer at any offset, for short, high and multi-octet tags |
| Fields.GetInitiateFields | src/rsp_es9.c:1439-1469 | Five slices by position, written to the caller's structure only on success |
| Fields.GetAuthenticateFields | src/rsp_es9.c:1471-1504 | The same after a step into the CHOICE |
| Fields.CutsAreContiguous | src/rsp_es9.c:1427-1437 | The slices lie end to end inside the enclosing value, each exactly one TLV, and put together are the octets they were cut from |
| Fields.TruncatedIsRefused | src/rsp_es9.c:1439-1504 | Every strict prefix of a response filled by one outer TLV is refused by both accessors |
| Fields.InitiateCutsPrinted | src/rsp_es9.c:1439-1469 | Cutting a printed response gives back each printed member, under any outer tag and with anything after it |
| Fields.AuthenticateCutsPrinted | src/rsp_es9.c:1471-1504 | The same through the CHOICE |
| GrowBuf.GrowBuf.Append | src/rsp_internal.h:231-251 | Contents grow by exactly the data; capacity is 512 times a power of two, 512 or below twice the length at its last growth; all reallocations so far moved at most twice the octets held |
| GrowBuf.NextCapacity | src/rsp_internal.h:234-238 | The doubling loop ends without wrapping, on a capacity that fits and is less than twice what is needed |
| GrowBuf.DoublingTerminatesIff | src/rsp_internal.h:234-238 | Wrapping doublings of a capacity reach the content wanted, a sum that itself wraps, if and only if that sum is at most 2^63 |
| GrowBuf.GrowBuf.Free | src/rsp_internal.h:259-268 | The buffer is empty again, as newly made |
| Es9.InitiateAuthentication | src/rsp_es9.c:303-476 | Answer and fresh session are what Initiate says, a session comes out exactly on 0, and the key's record grows by exactly what Initiate lists |
| Es9.DpSession.AuthenticateClient | src/rsp_es9.c:514-912 | In place: answer and next session are what Authenticate says, and the key's record grows by exactly what it lists |
| Es9.DpSession.GetBoundProfilePackage | src/rsp_es9.c:1040-1212 | In place: answer, package and next session are what Bind says, and the key's record, kept where BuildPackage signs, grows by exactly what it lists |
| Es9.DpSession.AgreeKeys | src/rsp_es9.c:1064-1171 | The checks and key agreement answer what Agree says, and leave the keys in a session object of their own |
| Es9Exact.InitiatesIff | src/rsp_es9.c:303-476 | When initiation accepts, and that it answers serverSigned1, its signature, the CI's key identifier and DPauth's certificate |
| Es9Exact.VerifiesIff | src/rsp_es9.c:514-728 | A card is accepted if and only if metadata and response decode, the metadata is in bounds, transaction and challenge are this session's, both certificates parse and chain, the signature verifies and the certificate carries an EID; and what is learned is that certificate, EID and signature |
| Es9Exact.AuthenticatesIff | src/rsp_es9.c:730-890 | When AuthenticateClient accepts, that it answers the metadata, smdpSigned2, its signature and DPpb's certificate, and every field it leaves |
| Es9Exact.AgreesIff | src/rsp_es9.c:1064-1172 | A download is agreed if and only if a card is known, the transaction is this one, the signature verifies over euiccSigned2, 5F 37 40 and this session's smdpSignature2, and both keys and the EID are usable |
| Es9Exact.BindsIff | src/rsp_es9.c:1174-1196 | A package comes out if and only if a download is agreed, metadata and profile fit and DPpb signs, and then DPpb has signed exactly its request |
| Es9.AsciiEqual | src/rsp_es9.c:195-204 | Equality but for the case of ASCII letters |
| Es9Exact.SameAddressIff | src/rsp_es9.c:195-204 | Addresses pass for one if and only if octet by octet they are equal or the two cases of one ASCII letter |
| Es9.EidDigitsToOctets | src/rsp_es9.c:1003-1019 | Exactly 32 decimal digits are packed two to an octet; anything else is refused |
| Es9.BuildSharedInfo | src/rsp_es9.c:1021-1038 | Key type, key length, host and EID are laid out, refused exactly when a length or the buffer does not allow it |
| Es9.SharedInfoDetermines | src/rsp_es9.c:1021-1038 | Equal shared information means equal hosts and equal 32-digit EIDs |
| Es9.PackEidInjective | src/rsp_es9.c:1003-1019 | Different EIDs are packed differently |
| Es9Exact.PackEidIff | src/rsp_es9.c:1003-1019 | An EID packs if and only if it is 32 decimal digits, to sixteen octets with the first digit of each two in the high half |
| Es9Exact.AgreedKeysAre | src/rsp_es9.c:1150-1172 | The keys of an accepted download, in SHA-256 and octets: over the agreed secret, 88 10 09 "euicc-rsp" 10 and the packed EID |
| Es9.KeysDetermineTheCard | src/rsp_crypto.c:166-218 | Sessions that share their chaining value and S-ENC came from one secret, one host and one 32-digit EID, or a SHA-256 collision is produced |
| Es9.ChainedDetermines | src/rsp_es9.c:1124-1138 | The message with a chained signature determines both parts, and the suffix is the signature's own TLV |
| Es9Runs.RunKeeps | src/rsp_es9.c:213-268 | Over every run the three identifiers never change, authentication is never lost, and calls that fail change nothing |
| Es9Runs.StepKeeps | src/rsp_es9.c:514-912 | What one call may change: a failing call nothing, a bind only the stored keys, an authentication anything but identifiers and keys |
| Es9Runs.KnowledgeIsFromOneResponse | src/rsp_es9.c:851-890 | Over every run, certificate, EID, metadata and smdpSignature2 all come from the last accepted response, which names this transaction and challenge, chains to the CI and is signed by that certificate's key; and the session is authenticated if and only if there was one |
| Es9Runs.RefusedIff | src/rsp_es9.c:514-1212 | Over every run a call answers -1 if and only if what it was given is wrong for the transaction and challenge the session was opened with -- another transaction or challenge, a broken chain, a signature that does not verify -- or, for a download, for the card and smdpSignature2 the session then held |
| Es9Runs.InitiationSigns | src/rsp_es9.c:303-476 | Initiation uses DPauth at most once, for serverSigned1, and answers -1 if and only if a received address differs |
| Es9Runs.EveryUseIsDue | src/rsp_es9.c:514-912 | Over every run, each use of a key on record is DPpb's, by one of the run's calls, for smdpSigned2, 5F 37 40 and the euiccSignature1 of a response it verified, or for the request of a download it verified, octet for octet |
| Es9Runs.KeysAreKeptApart | src/rsp_es9.c:303-476 | From an accepted initiation on, whatever calls follow, DPauth is handed serverSigned1 only and DPpb only what one of the calls may sign |
| Signing.Signer.Sign | include/rsp.h:104-116 | One use of a key: the answer, with the message put on record with it; one key and one message never get two different signatures |
| Es9Runs.PackageNeedsVerifiedCard | src/rsp_es9.c:1069-1145 | Over every run, no package without an accepted card before it and a signature, under that card's certificate, over euiccSigned2 and the smdpSignature2 of that very acceptance |
| Es9Runs.KeysAreFromLastBind | src/rsp_es9.c:1189-1196 | Stored keys exist if and only if a bind was accepted, and are those of the last one, derived over the EID known then |
| Es9Runs.KeysMatchEidIff | src/rsp_es9.c:851-890 | With the last accepted bind and the last accepted response, the session's EID is the one its stored keys were derived over if and only if the response came first or its certificate carries that same EID |
| EndToEnd.KeysCanOutliveTheirEid | src/rsp_es9.c:851-890 | A run where it is not: one card authenticated, a bind, another card authenticated, and the first card's keys stand beside the second card's EID |
| Notifications.SignedDataIsReceived | src/rsp_es9.c:1220-1241 | The signed message is a contiguous stretch of the received octets if and only if that stretch is a BF27 TLV, its length minimal or not, right after the BF37 header |
| Notifications.VerifyInstallationResult | src/rsp_es9.c:1257-1373 | As it runs: what Installation says; of the two error codes, one past a long is not written and the answer is 0 all the same |
| Notifications.BelievedIff | src/rsp_es9.c:1257-1373 | Believed if and only if this session's card signed, for this transaction, the received data; -1 if and only if the transaction is another's or the signature does not verify |
| Notifications.MembersIff | src/rsp_es9.c:1697-1714 | The positional walk gives four members if and only if they stand side by side, each exactly one TLV, at the front of the outer TLV's content, although two share a tag |
| Notifications.OtherIff | src/rsp_es9.c:1674-1801 | Believed if and only if the octets carry, in place, a signed member and two certificates that match any stored one, chain to the CI and verify that member as received; -1 if and only if the certificate is another's, does not chain or does not verify it |
| Notifications.VerifyOtherNotification | src/rsp_es9.c:1674-1801 | As it runs: what Other says, with the report |
| Notifications.FourMembers | src/rsp_es9.c:1697-1714 | The four steps of the walk, or a refusal when any fails |
| Notifications.DescribeMetadata | src/rsp_es9.c:1525-1560 | The reported fields, refused exactly for a sequence number past a long or an ICCID that is not ten octets |
| Notifications.EventBit | src/rsp_es9.c:1525-1560 | The bit scan finds the one used bit that is set, or -1 when none or several are |
| Notifications.OperationIff | src/rsp_es9.c:1525-1560 | The operation is i if and only if bit i, counted from 80 of the first octet, is set and no other bit not declared unused is |

## Left out

- The primitives: AES, CMAC, SHA-256, ECDH, ECDSA and X.509 chaining are parameters; only the
  two laws named above are assumed of them. Their own failures (allocation, seeding) are left
  out, except that agreement, public-key derivation, signing and verification may refuse.
- The generated ASN.1 codec: decoders and encoders are parameters (`Es9.Codec`,
  `Notifications.Decoders`). In the two download calls the source decodes euiccSigned1,
  euiccSigned2 and the certificates and encodes them again; those two steps are one parameter,
  so nothing is said of how the encodings compare with the octets received. The
  InitialiseSecureChannelRequest and ConfigureISDP encodings are written out from
  `rsp-2.5.asn`.
- The header reader functions ber_fetch_tag and ber_fetch_length are not part of this model as
  code; they are modelled as the reader of sections 8.1.2 and 8.1.3 of X.690, definite lengths
  only, with tag numbers not bounded by a machine word.
- The session struct is allocated with only three fields set (`src/rsp_es9.c:452-461`); the
  model starts it as its comments intend, not authenticated and with nothing learned.
- Allocation failure throughout, and output pointers set to NULL when the last allocation
  fails; wiping, constant-time comparison, threads and random numbers. Identifiers drawn at
  random are parameters.
- NULL arguments; input buffers are values, so an input that overlaps an output is not modelled.
  The stored channel session is copied as a value.
- Scp03t.Session.ProtectSegment: says nothing of the caller's buffer on refusal, because the code
  may by then have written ciphertext to it.
- Bpp.BuildPackage: is for profiles up to 2^62 - 4096 octets, and Bpp.RecoverPackage, Bpp.PutTlv
  and GrowBuf.GrowBuf.Append for buffers up to 2^63 octets, because beyond that no C object
  exists and the doubling loop would not end; the theorems on values have no such bound.
- Channel.ChainCommits: is about histories of equal length, because a chaining value that comes
  back to an earlier one is a cycle and need not be a collision.
- RoundTrip.MetadataIsCarried: is about the '88' group alone, because profileMetaData in the
  AuthenticateClient response is decoded and encoded again by the codec.
- Fields.InitiateCutsPrinted: allows any outer tag and trailing octets, because the accessor
  checks neither.
- Notifications outside a session for an installation result
  (`src/rsp_es9.c:1565-1634`), the dispatch between the two kinds, and the plain accessors:
  they repeat what is proved here of the in-session check.
- Random-key mode, metadata in several '88' segments, HandleNotification transport and
  CancelSession are not implemented in the library; its tools and its tests are not modelled.
