# Verified model of the attestation verifier

This project models an offline verifier of GitHub artifact attestations and proves properties of it in
Dafny 4.11. The verifier takes a digest, a bundle (certificate, transparency-log entry, signed envelope), a
trust store and two policies, and runs a fixed chain of checks. The model covers the algorithms of that
chain that are the repository's own: the Merkle walk, the ref glob, calendar and RFC 3339 time, the byte
strings that signatures are taken over, the SCT list, the signed-note checkpoint, the strict JSON visitor,
certificate path search, identity matching, the origin-policy builder, and the chain as a whole.

Run `dafny verify dfyconfig.toml` to check every file.

## Conventions

* Byte strings and UTF-8 text are `Bytes` (`seq<byte>`); 64-bit counters are `u64`.
* SHA-256, ECDSA verification, SPKI, DER and JSON decoding are fields of the `Foreign` parameter
  (`Primitives.dfy`). Nothing is assumed of them beyond their types, with two exceptions: the order of rejections
  needs decoders that do not return the signer's errors (`DecodersKeepToTheirErrors`), and printing a checkpoint
  and parsing it again (`ParseOfPrint`, and `SignedTreeHeadVerifies` and `HonestlyLoggedIsAccepted`, which use
  it) needs text decoders that read back what was written (`ReadsBack`). The modelled decoders do
  (`StandardReadsBack`, `StandardParseOfPrint`). Every other theorem holds for all of them.
  Where security rests on the hash, the theorem names an explicit pair of distinct inputs with equal hashes
  as the only other outcome. Where it rests on a key holder, honesty is a stated hypothesis (`HonestLog`,
  `HonestSigner`).
* Code that the source writes as loops over changing variables is a method with that loop; code that changes
  an object is a class (`Cursor`, `Visitor`, `Builder`, `VerifierBuilder`). Each such method is proved equal
  to a function of its inputs, and the lemmas say what that function means. Code made of expressions is a
  function.
* Errors keep their variants and their order; message texts are dropped.

| file | models |
|---|---|
| `Merkle.dfy` | tree hash, audit path, `recompute_root`, `verify_inclusion_proof` |
| `Glob.dfy` | `glob_match` |
| `Calendar.dfy`, `Rfc3339.dfy`, `Windows.dfy` | civil dates, the timestamp parser, validity windows |
| `TextCodecs.dfy`, `CompactJson.dfy` | decimal, hex, base64 and JSON strings; compact JSON documents |
| `SignedMessages.dfy` | PAE, SET bytes, envelope JSON |
| `SctCodec.dfy`, `Sct.dfy` | the SCT list codec, the `digitally-signed` struct, embedded SCT verification |
| `Checkpoint.dfy`, `CheckpointForm.dfy` | the signed-note parser and printer; what a checkpoint is, without the parser |
| `CheckpointSearch.dfy` | the two-pass signature search |
| `StrictJson.dfy` | duplicate keys and the node budget |
| `X509.dfy` | extension lookup, certificate profiles, chain validation |
| `Identity.dfy` | URI parsers and policy matching |
| `OriginPolicy.dfy` | the checkpoint-origin policy and its builder |
| `Rekor.dfy` | entry binding, SET, log selection, time windows, the composed log step |
| `Verifier.dfy` | `verify_digest` and the verifier's builder |
| `Basics.dfy`, `Digits.dfy`, `Primitives.dfy` | shared types, sequence facts, digit strings, the foreign parameter |

## Results

* **The log.** The bottom-up walk is the RFC 6962 tree: it accepts every audit path (`AuditPathVerifies`), only
  paths of the right length (`RootIffAuditPathLength`), agrees with the reference verifier of section 2.1.3.2
  of RFC 9162, and a proof for a wrong leaf yields a collision (`InclusionSound`). Two accepted bundles at one
  log position carry one content (`LogPositionBindsContent`). Against a log whose key signs only its promises
  and its tree heads, an accepted entry is a leaf of that log and was promised at the reported time
  (`AcceptedIsLogged`); conversely whatever such a log hands out for any of its leaves is accepted
  (`HonestlyLoggedIsAccepted`). The entry's own index and the proof's index are never related.
* **The whole chain.** A report is returned exactly when there are grounds for it: content, log evidence, the
  first authority of the store that vouches for the leaf at the integrated time, a signed envelope, a valid SCT
  and claims that satisfy each requirement of the policy; and it is the report they support (`DigestExact`).
  One time lies in every window involved (`OneTimeForAll`).
* **Formats.** Every text the verifier reads or signs over is described twice, and the two are proved to agree: the
  envelope encoding by a reader (`PaeExact`), the signed-entry-timestamp and envelope texts as compact JSON
  (`SetIsCompactJson`, `EnvelopeIsCompactJson`), the SCT and its signed struct by position (`DecodeSctExact`,
  `SignedStructExact`), the checkpoint by the form of its lines (`ParseExact`), local times by the clock in UTC
  (`OffsetDenotesUtc`); published examples anchor them (`PaeExample`, `Base64Vectors`, `OffsetExamples`,
  `ThreeLeaves`).
* **Order of rejections.** Which error is reported is a function of the input too: it is that of the first fault, where
  the faults are declared without the code (`EntryFault`, `WalkFault`, `VerdictFault`, `LeafProfileFault`,
  `OneSctFault`, `PolicyFault`, `StepsFailInOrder`). A rejection that blames the time comes from an authenticated entry
  (`TimeErrorIsAuthenticated`); one that blames the signer's signature or identity comes only after all log evidence
  held and a first authority had vouched for the leaf (`SignerErrorComesAfterEvidence`), and one by the policy only
  after envelope signature and SCT as well (`PolicyErrorComesLast`).
* **One property is false of the code.** SCT timestamps are cut to whole seconds and compared with bounds that
  were rounded up. `SctWindowExactIff` says for which windows the check is exact: both bounds are at or before
  the epoch, carry no nonzero fraction digit, or carry a fraction beyond 999 thousandths (or no whole
  millisecond lies between the bounds). A start that does not qualify shuts out the window's own first
  millisecond (`FirstMillisecondRejected`), and an end that does not qualify lets in the first millisecond after
  it (`EndMillisecondAccepted`). This is not hypothetical: the trust root in
  `assets/trusted_root_public_good.json` has a log whose window ends at `2022-10-31T23:59:59.999Z`, and a signed
  SCT of that very millisecond passes although the window has closed (`SctInexactExample`, `LateSctPasses`).
* **Code against comment.** `src/parse_util.rs:35-41` says that signs and odd leading zeros are rejected, but
  the standard library's parse accepts a leading `+` and leading zeros. The model follows the code:
  `ParseU64Exact` says which texts of a number are accepted, and `ParseU64CanonicalIff` says that an accepted text is
  the number's own numeral if and only if it starts neither with a plus nor with a zero before another digit.
  `ParseU64AcceptsPlusAndZeros` has `+5` and `05` as the two counterexamples.

## Model

| member | source | states |
|---|---|---|
| Merkle.RecomputeRoot | src/rekor.rs:367-397 | The loop over index bits and hashes computes the recursive climb, whose meaning the next rows give. |
| Merkle.AuditPathVerifies | src/rekor.rs:367-397 | For every non-empty leaf list and every index the audit path of section 2.1.1 of RFC 6962 leads to the root of section 2.1. |
| Merkle.ClimbInLeftSubtree | src/rekor.rs:376-390 | Below a split at a power of two the walk stays in the perfect left subtree until its last hash. |
| Merkle.ClimbInRightSubtree | src/rekor.rs:376-390 | Right of the split the walk is the walk inside the right subtree, then promotions, then the left subtree's hash. |
| Merkle.RootExactlyForPathLength | src/rekor.rs:376-396 | A root is produced for exactly one number of hashes per position. |
| Merkle.RootIffAuditPathLength | src/rekor.rs:367-397 | A result exists if and only if the index is in the tree and the list has the audit path's length. |
| Merkle.AcceptedPathAtMost64 | src/rekor.rs:367-397 | For 64-bit sizes every accepted list has at most 64 hashes. |
| Merkle.SameRootSameWalk | src/rekor.rs:376-396 | Two walks from one position to one root agree in every node, or the extracted pair is a collision. |
| Merkle.PositionBindsBody | src/rekor.rs:342-397 | One position under one root holds one body with one path, or the extracted pair is a collision. |
| Merkle.InclusionSound | src/rekor.rs:342-397 | A proof that reaches the RFC 6962 root of a leaf list proves the leaf really at that index, by its real audit path, or the extracted pair is a collision. |
| Merkle.AgreesWithRfc9162 | src/rekor.rs:376-396 | The loop gives the result of the verifier of section 2.1.3.2 of RFC 9162 for every position and list. |
| Merkle.ThreeLeaves | src/rekor.rs:342-397 | The tree of three leaves written out in hashes of prefixed bytes, and the accepted proof of its middle leaf. |
| Merkle.LeafIsNoNode | src/rekor.rs:342-363 | A leaf is never hashed as a node above two others; the prefixes are 0x00 and 0x01. |
| Merkle.AsDigests | src/rekor.rs:416-426 | Conversion succeeds if and only if every hash has 32 bytes, and changes nothing. |
| Merkle.VerifyInclusionProof | src/rekor.rs:410-437 | A proof is accepted exactly when all hashes have 32 bytes and the walk from the body's leaf hash ends in the stated root. |
| Glob.GlobMatch | src/policy_match.rs:381-409 | The two-cursor loop answers the declarative question (star: any byte sequence, other bytes literal) for every pattern and text, in at most (text + 2) * (pattern + 1) turns, the rejecting one included, by a lexicographic measure. |
| Glob.MatchesIffAt | src/policy_match.rs:371-381 | The declarative meaning by pieces and the recursive one agree, in both directions. |
| Glob.StarFreeIsExact | src/policy_match.rs:371-381 | A pattern without a star matches itself only. |
| Calendar.NextDayIsNextNumber | src/time.rs:161-201 | The successor of any valid date, over all integer years, is valid and has the next day number. |
| Calendar.EpochIsDayZero | src/time.rs:182-201 | 1970-01-01 is day 0. |
| Calendar.StrictlyIncreasing | src/time.rs:161-201 | Later dates have larger numbers. |
| Calendar.Injective | src/time.rs:161-201 | Different valid dates have different numbers. |
| Calendar.FormulaInvertsCounting | src/time.rs:182-201 | Counting n days from the epoch gives the valid date numbered n. |
| Calendar.CountingReachesDate | src/time.rs:182-201 | Every date from 1970 on is reached by counting as many days as its number. |
| Rfc3339.ScanSound | src/time.rs:26-131 | Whatever is accepted is the printed form of the valid timestamp that was read (section 5.6 of RFC 3339, seconds up to 59). |
| Rfc3339.ScanComplete | src/time.rs:26-131 | Printing any valid timestamp and reading it back returns it. |
| Rfc3339.ReadDigits | src/time.rs:148-159 | Exactly n digits in range are read, to their value; otherwise nothing, without an index error. |
| Rfc3339.ParseRfc3339 | src/time.rs:26-131 | Accepts exactly the printed forms of valid timestamps and returns the rounded unix time of the one printed. |
| Rfc3339.RoundedIsCeiling | src/time.rs:14-24 | The returned second is the ceiling of the real instant, for any number of fraction digits. |
| Rfc3339.CeilingBoundExact | src/time.rs:18-22 | For whole-second evidence a bound and its ceiling decide both comparisons alike. |
| Rfc3339.OffsetDenotesUtc | src/time.rs:111-126 | A local time ahead of UTC denotes the UTC instant that many minutes earlier on the clock, one behind UTC the instant that many minutes later. |
| Rfc3339.TickIsOneSecond | src/time.rs:111-126 | One second on the written clock is one second of the instant, across minutes, hours, days, months and years. |
| Rfc3339.OffsetExamples | src/time.rs:304-318 | The two offset examples have the unix times 1609426800 and 1609477200. |
| Windows.WindowDecidesInstants | src/x509.rs:234-240 | The half-open check on rounded bounds decides the real-valued window that the bounds were written as. |
| Windows.FirstMillisecondIsCeiling | src/time.rs:14-24 | The first whole millisecond at or after a bound is read off its digits. |
| Windows.SctWindowExactIff | src/sct.rs:353-359 | The check on truncated seconds decides the written window for every 64-bit SCT timestamp if and only if both bounds qualify by their own digits, or the window holds no whole millisecond. |
| Windows.FirstMillisecondRejected | src/sct.rs:355-359 | A start that does not qualify shuts out the window's first millisecond, which fits the 64-bit field. |
| Windows.EndMillisecondAccepted | src/sct.rs:355-359 | An end that does not qualify lets in the first millisecond after the window, which fits the 64-bit field. |
| Windows.SctExactForWholeSeconds | src/sct.rs:353-359 | A window whose bounds carry no nonzero fraction digit is decided exactly. |
| Windows.CtLogTexts | assets/trusted_root_public_good.json:81-82 | The example's bounds are what the parser reads from the two texts of the crate's trust root. |
| Windows.SctInexactExample | assets/trusted_root_public_good.json:76-84 | With those bounds an SCT of 1667260799999 ms passes the window check although the written window has ended. |
| TextCodecs.ParseU64OfDecimal | src/parse_util.rs:39-44 | Printing a 64-bit number and parsing it returns it. |
| TextCodecs.ParseU64Exact | src/parse_util.rs:39-44 | The accepted texts of a number are exactly an optional plus, any number of zeros and its decimal numeral, and the number is below 2^64. |
| TextCodecs.ParseU64CanonicalIff | src/parse_util.rs:35-44 | The documented strictness holds exactly for accepted texts that start neither with a plus nor with a zero before another digit: only those are the number's own numeral. |
| TextCodecs.ReadNumeralExact | src/dsse.rs:47-52 | Digits without a zero in front are read to a number exactly when they are its written numeral. |
| TextCodecs.ParseBase64OfBase64 | src/parse_util.rs:10-19 | Decoding inverts encoding. |
| TextCodecs.Base64OfParseBase64 | src/parse_util.rs:10-19 | Every accepted text is the canonical padded encoding of its decoding: no stray bits, no missing padding. |
| TextCodecs.Base64Vectors | src/parse_util.rs:10-19 | Vectors of section 10 of RFC 4648 for each kind of last group, and the two non-alphanumeric characters. |
| TextCodecs.HexExact | src/rekor.rs:260-265 | The hexadecimal text is the only one with two lowercase digits per byte, high half first, that are read back to the bytes. |
| TextCodecs.ReadBackJsonString | src/rekor.rs:189-194 | A reader of RFC 8259 strings reads every written string back, in front of any text and whatever bytes it holds. |
| TextCodecs.EscapesAsWritten | src/rekor.rs:189-194 | Which escapes are written: the short ones, and lowercase hexadecimal otherwise. |
| TextCodecs.JsonStringPrefix | src/rekor.rs:192-194 | A JSON string at the front of a text determines its content and the rest. |
| TextCodecs.StandardReadsBack | src/parse_util.rs:10-44 | The modelled decoders satisfy what the checkpoint round trip asks of its decoders. |
| SignedMessages.Pae | src/dsse.rs:44-56 | The buffer built piece by piece is read back to type and payload by the reader of the pre-authentication encoding. |
| SignedMessages.PaeExact | src/dsse.rs:40-56 | A reader (protocol name, numeral, that many bytes as type, space, numeral, that many bytes as payload, end) reads a byte string as type and payload if and only if it is their encoding. |
| SignedMessages.PaeExample | src/dsse.rs:40-56 | The example of the protocol's specification. |
| SignedMessages.PaeInjective | src/dsse.rs:40-56 | The encoding determines payload type and payload, whatever bytes they hold. |
| SignedMessages.SetInjective | src/rekor.rs:252-266 | The signed-entry-timestamp text determines body, time, key id and index. |
| SignedMessages.SetIsCompactJson | src/rekor.rs:244-266 | The text is the compact JSON of body, integratedTime, logID and logIndex, in that order. |
| SignedMessages.SetEndsWithBrace | src/rekor.rs:260-265 | That text always ends with a brace. |
| SignedMessages.ComputeEnvelopeHash | src/rekor.rs:164-187 | The appended text that is hashed is the envelope JSON, key id left out when empty or absent. |
| SignedMessages.EnvelopeJsonInjective | src/rekor.rs:164-187 | The JSON determines payload, type, signature and key id, with an absent key id counted as empty. |
| SignedMessages.EnvelopeIsCompactJson | src/rekor.rs:164-187 | The text is the compact JSON of payload, payload type and one signature, whose key id is left out when empty or absent. |
| SignedMessages.AbsentKeyIdIsEmpty | src/rekor.rs:172-181 | The JSON does not tell an absent key id from an empty one. |
| SctCodec.Cursor.Take | src/sct.rs:210-217 | Takes n bytes off the front, or fails and leaves the cursor. |
| SctCodec.ParseSingleSct | src/sct.rs:181-204 | The cursor reads compute the decoding of one SCT, trailing bytes refused. |
| SctCodec.ParseSctList | src/sct.rs:162-175 | The loop, on a shrinking cursor, computes the decoding of the list. |
| SctCodec.DecodeListOfEncode | src/sct.rs:162-204 | Encoding any encodable list (sections 3.2 and 3.3 of RFC 6962) and parsing returns it. |
| SctCodec.EncodeListOfDecode | src/sct.rs:162-204 | Every accepted byte string is the encoding of its parse result: no slack and no trailing bytes. |
| SctCodec.DecodeListInverts | src/sct.rs:162-204 | The result is the one encodable list with that encoding, or there is none. |
| SctCodec.DecodeSctExact | src/sct.rs:181-204 | Bytes decode to exactly the SCT whose fields stand at their positions. |
| SctCodec.MostSignificantFirst | src/sct.rs:218-240 | The first byte of an integer weighs most. |
| SctCodec.DigitallySignedBytes | src/sct.rs:301-325 | Succeeds exactly when both lengths fit their fields, and the buffer is the struct of section 3.2 of RFC 6962. |
| SctCodec.SignedStructExact | src/sct.rs:301-325 | The signed bytes are the one string with version, type, timestamp, entry type, key hash and both length-prefixed blocks at their positions. |
| SctCodec.SignedStructInjective | src/sct.rs:301-325 | The struct determines timestamp, issuer key hash, precertificate and extensions. |
| Sct.TimestampAlwaysFits | src/sct.rs:353-355 | The conversion of the timestamp's second to a signed 64-bit number never fails. |
| Sct.FindCtLogExact | src/sct.rs:341-352 | The selected log is the first trusted one whose key's digest is the SCT's log id, and none only when no digest is. |
| Sct.OneSctFault | src/sct.rs:341-380 | A rejected SCT is rejected for its first fault: unknown log, window, version and algorithms, lengths, log key, signature. |
| Sct.CheckSct | src/sct.rs:341-380 | The checks in source order pass exactly when the first trusted log with that id, valid at the SCT's second, has signed this precertificate under version 1, SHA-256 and ECDSA; otherwise the first error is reported. |
| Sct.PassedSctInWrittenWindow | src/sct.rs:353-380 | Under a log whose bounds qualify, an SCT that passes was issued inside the window the trust root states. |
| Sct.LateSctPasses | src/sct.rs:353-380 | Under the trust root's log of the example a signed SCT of the closing millisecond passes. |
| Sct.VerifyEmbeddedScts | src/sct.rs:103-132 | Extraction, parsing and the loop with its first error compute the embedded verdict. |
| Sct.FirstSuccessExact | src/sct.rs:116-131 | The loop passes exactly when some SCT does; otherwise the first SCT's error is reported. |
| Sct.EmbedsExact | src/sct.rs:103-156 | The list is extracted exactly when the extension occurs once and holds the encoding of that list. |
| Sct.EmbeddedSctExact | src/sct.rs:103-132 | Acceptance is exactly the presence, in the once-occurring extension, of an SCT that holds for the precertificate and the direct issuer's key. |
| Sct.NoListFault | src/sct.rs:103-156 | Without a readable list the error tells a repeated, an absent, a malformed extension and a malformed list apart. |
| Sct.ListFault | src/sct.rs:103-132 | With a list the first SCT's fault is reported, when no SCT holds and the precertificate can be rebuilt. |
| Checkpoint.CollectSignatures | src/rekor.rs:528-556 | The pushing loop over lines collects the signatures of the non-empty lines, or the first failure. |
| Checkpoint.ParseCheckpoint | src/rekor.rs:480-568 | The line-by-line parse computes the parsed checkpoint or its first error. |
| Checkpoint.SignedBodyFixesFields | src/rekor.rs:483-509 | Origin, size and root are a function of the signed body alone, the origin is its first line byte for byte, and there are 1 to 32 signatures. |
| Checkpoint.ParseOfPrint | src/rekor.rs:480-568 | Printing any well-formed note, extensions included, and parsing returns its fields and signatures, for decoders that read back what was written. |
| Checkpoint.StandardParseOfPrint | src/rekor.rs:480-568 | The same, unconditionally, with the modelled decoders. |
| CheckpointForm.ParseExact | src/rekor.rs:480-568 | An envelope is parsed to a checkpoint if and only if it is a body cut at the first blank line, whose lines state origin, size and root, and a block whose non-empty lines are its 1 to 32 signature lines, in order. |
| CheckpointForm.LinesExact | src/rekor.rs:500-556 | The lines are the only texts that, each with a line feed or with carriage return and line feed, make up the text, the last one possibly without. |
| CheckpointForm.SignatureLineExact | src/rekor.rs:533-556 | A signature line is exactly em dash, space, a name without space, space, and the base64 of a four-byte hint and a non-empty signature. |
| CheckpointForm.TooManyExact | src/rekor.rs:509-526 | The count is the reported reason exactly when the body can be read and more than 32 lines are not empty, whatever those lines hold. |
| Checkpoint.ParseErrors | src/rekor.rs:480-568 | A failed parse reports a format, base64 or signature-count error and nothing else. |
| CheckpointSearch.KeyHintExact | src/rekor.rs:570-583 | The hint is the first four bytes of the log's own checkpoint id, or of its key's digest without one; a shorter id has no hint. |
| CheckpointSearch.NameMatchesExact | src/rekor.rs:595-598 | A name has priority exactly when it is the base URL, with or without one leading scheme. |
| CheckpointSearch.VerifyCheckpoint | src/rekor.rs:627-670 | Anchor comparisons and the search, in order, compute the checkpoint verdict, with at most 32 counted signature checks. |
| CheckpointSearch.TwoPassSearch | src/rekor.rs:650-662 | The second pass runs only after the first found nothing, and the counted checks are those of both passes. |
| CheckpointSearch.SearchPass | src/rekor.rs:650-655 | One pass stops at the first line that verifies; every check made is counted. |
| CheckpointSearch.TwoPassIsSimple | src/rekor.rs:650-662 | The two passes accept exactly when some line with the key's hint verifies. |
| CheckpointSearch.VerdictIgnoresNamesAndOrder | src/rekor.rs:650-662 | Renaming and reordering lines never changes the verdict. |
| CheckpointSearch.WorkIsBounded | src/rekor.rs:650-662 | Signature checks never exceed the lines with the hint, and a line whose name does not match is tried only after all matching ones failed. |
| CheckpointSearch.AtMost32Checks | src/rekor.rs:515-527 | No envelope costs more than 32 signature checks. |
| CheckpointSearch.VerifiedExact | src/rekor.rs:627-670 | A checkpoint is verified exactly when the envelope is a note for this size and root and some line with the key's hint verifies over its body. |
| CheckpointSearch.VerifiedMeans | src/rekor.rs:627-670 | A verified checkpoint's signed body states the proof's size and root, and a line with the key's hint verifies over it. |
| CheckpointSearch.VerifiedFault | src/rekor.rs:627-670 | A parsed checkpoint is rejected for its size, then its root, then the want of a hinted line that verifies. |
| StrictJson.Visitor.Charge | src/strict_json.rs:83-97 | The counter grows by one and the charge fails exactly above the limit. |
| StrictJson.Visitor.Visit | src/strict_json.rs:110-181 | Reading a value moves the shared counter by its nodes, or stops it at the first fault or the first node over the limit. |
| StrictJson.Visitor.VisitSeq | src/strict_json.rs:183-193 | The growing vector holds the items read, and the counter accounts for all of them. |
| StrictJson.Visitor.VisitMap | src/strict_json.rs:195-211 | The growing map holds the members read; a repeated key is a fault before its value is read. |
| StrictJson.ParseStrict | src/strict_json.rs:44-65 | Succeeds exactly for documents within the limit whose objects at every depth repeat no key and that nothing follows; the counter is then the node count; a failure blames the budget exactly when the nodes before the first fault exceed the limit. |
| StrictJson.EventsOfJson | src/strict_json.rs:110-211 | Reading meets a fault exactly when some object repeats a key or a number is not finite, and otherwise one event per node. |
| StrictJson.NoMemberLost | src/strict_json.rs:195-211 | Without repeats every member is in the rebuilt object with its value, and there are no others. |
| StrictJson.ValueDenotes | src/strict_json.rs:44-218 | The rebuilt value of a clean document stands for it: scalars themselves, items in number and order, each key with its value. |
| StrictJson.DenotesOne | src/strict_json.rs:44-218 | A document stands for one value only. |
| X509.FindExtensionExact | src/x509.rs:399-410 | Found exactly when it is the only one with its identifier, absent exactly when there is none. |
| X509.RejectUnknownCritical | src/x509.rs:374-387 | The scan passes exactly when every critical extension is known. |
| X509.SaturationExact | src/dsse.rs:183-185 | For every 64-bit time the saturated window is the certificate's own, except at the last representable second, which also passes for a later notBefore. |
| X509.VerifyLeafProfile | src/x509.rs:291-326 | Passes exactly for a non-authority leaf with digitalSignature and code signing and no unknown critical extension; otherwise the first error in source order. |
| X509.VerifyCaProfile | src/x509.rs:336-363 | Passes exactly for CA:TRUE, a path length not below the position, keyCertSign and no unknown critical extension (section 4.2.1.9 of RFC 5280); otherwise the first error in source order. |
| X509.LinkCheckExact | src/x509.rs:195-209 | One link passes exactly when it is name-chained, in time, an authority, and has signed the previous certificate with its curve's algorithm. |
| X509.WalkChain | src/x509.rs:195-209 | The loop with its changing signee reports the first failing link in order. |
| X509.WalkExact | src/x509.rs:195-209 | The walk passes exactly when every link is valid. |
| X509.DecodeChainExact | src/x509.rs:171-180 | A chain decodes exactly when each of its certificates does, to those certificates in their places. |
| X509.VerdictExact | src/x509.rs:171-221 | An authority validates a leaf exactly when its decoded chain is a valid path inside its window, and returns the leaf's and the direct issuer's keys. |
| X509.ValidateChain | src/x509.rs:140-161 | The loop with its first error computes the search result. |
| X509.AcceptedIffVouched | src/x509.rs:140-161 | A leaf is accepted exactly when some authority of the store vouches for it in full (section 6.1 of RFC 5280 in this profile). |
| X509.AcceptanceMonotone | src/x509.rs:140-161 | Adding authorities never turns an acceptance into a rejection. |
| X509.AcceptanceIgnoresOrder | src/x509.rs:140-161 | The order of authorities does not matter for acceptance. |
| X509.ResultIsFirst | src/x509.rs:148-161 | The result is the first validating authority's; a rejection reports the first error in order, else untrusted. |
| X509.FirstVoucherDecides | src/x509.rs:140-221 | The first authority that vouches for the leaf decides the result: the leaf's key and that chain's direct issuer's. |
| X509.AcceptedHasChain | src/x509.rs:140-221 | Every accepted leaf has such a first authority in the store. |
| X509.UntrustedExact | src/x509.rs:140-185 | The leaf is called untrusted exactly when it and every chain decode and no chain starts with a certificate of the leaf's issuer name. |
| X509.LeafProfileFault | src/x509.rs:291-326 | The reported error is that of the leaf profile's first fault, repeated and undecodable extensions included. |
| X509.CaProfileFault | src/x509.rs:336-363 | The same for an authority at its position. |
| X509.WalkFault | src/x509.rs:195-209 | A failed walk reports the first fault of its first link that is not valid. |
| X509.VerdictFault | src/x509.rs:171-221 | An authority with the leaf's issuer name fails it for its window, the leaf's window, the profile or the walk, in this order. |
| Identity.RepoUriExact | src/policy_match.rs:175-197 | Accepts exactly prefix/owner/name with non-empty, slash-free parts, and returns that reading. |
| Identity.SignerUriExact | src/policy_match.rs:216-259 | Accepts exactly prefix/owner/name/path@ref under the stated conditions, and returns that reading. |
| Identity.SignerUriUnique | src/policy_match.rs:216-259 | A signer URI has at most one decomposition. |
| Identity.EqIgnoreCaseExact | src/policy_match.rs:271 | The comparison accepts exactly texts that differ in the case of ASCII letters. |
| Identity.CheckRefPolicy | src/policy_match.rs:305-318 | Exact refs byte for byte, patterns by the glob's declarative meaning. |
| Identity.MatchSource | src/policy_match.rs:90-134 | The source checks, in order, compute the source verdict with its first error. |
| Identity.MatchPolicy | src/policy_match.rs:78-157 | All checks, in order, compute the policy verdict with its first error. |
| Identity.SourceExact | src/policy_match.rs:90-134 | The source half accepts exactly the claims that satisfy each stated requirement. |
| Identity.SignerExact | src/policy_match.rs:135-148 | The signer half accepts exactly the claims that satisfy each stated requirement. |
| Identity.PolicyExact | src/policy_match.rs:78-157 | The policy accepts exactly when issuer, source half and signer half are satisfied, and reports the owner, name, ref and workflow path that were read. |
| Identity.PolicyFault | src/policy_match.rs:78-157 | A rejection names the first fault: issuer, then source URI, repository, ids, ref and commit, then signer URI, repository, path and revision. |
| Identity.PolicyErrors | src/policy_match.rs:78-157 | The policy step reports errors of identity only. |
| Identity.VerdictIgnoresCase | src/policy_match.rs:265-279 | Neither acceptance nor the reported error depends on the ASCII case of owners and names, in the claims or in the policy. |
| Identity.StarFreePatternIsExact | src/policy_match.rs:305-318 | A star-free glob gives the same verdict and errors as the exact ref. |
| OriginPolicy.NewBinding | src/policy.rs:54-65 | A binding is made exactly from a non-empty list of valid origins, for the digest of the log's key. |
| OriginPolicy.Builder.AddBinding | src/policy.rs:153-156 | The binding is appended and exactly its pairs become allowed. |
| OriginPolicy.Builder.AllowOrigin | src/policy.rs:165-184 | A valid origin is merged into the key's first binding or starts a new one; an invalid one changes nothing. |
| OriginPolicy.Builder.AllowOrigins | src/policy.rs:191-200 | Succeeds exactly when every origin is valid, and then has allowed each of them in turn. |
| OriginPolicy.Builder.Build | src/policy.rs:208-210 | For the bindings a run can produce, a policy is built exactly when some pair of key and origin is allowed, and it is the one assembled. |
| OriginPolicy.WithOriginAddsPair | src/policy.rs:165-184 | Merging an origin adds exactly one pair of key and origin. |
| OriginPolicy.Assemble | src/policy.rs:124-210 | A new builder object put through a run of calls succeeds exactly when every call is valid, and then holds the bindings of the run. |
| OriginPolicy.RunAllowsWhatWasAdded | src/policy.rs:136-210 | In the bindings of a run exactly the pairs that some call added are allowed. |
| OriginPolicy.RunIgnoresOrderAndRepetition | src/policy.rs:136-210 | Neither order nor repetition of the calls matters. |
| OriginPolicy.RunStoresValidOrigins | src/policy.rs:153-250 | Every stored and every allowed origin is non-empty and free of carriage returns and line feeds. |
| OriginPolicy.MakePolicy | src/policy.rs:124-210 | From a new builder through any run of calls to `build`: a policy results exactly when every call is valid and some call added a pair, and it allows exactly the pairs that were added. |
| OriginPolicy.CheckKnownKeys | src/verifier.rs:293-303 | The loop passes exactly when every bound key is a log key of the store, and then only such keys are ever allowed. |
| Primitives.FirstByKey | src/rekor.rs:324-329 | Selects the first log whose key material hashes to the id, never by a label, and none only when no key matches; CT logs are selected the same way. |
| Rekor.FindLogExact | src/rekor.rs:324-329 | The selected log is the one at the first position whose key's digest is the entry's log id. |
| Rekor.CheckEntryBinding | src/rekor.rs:205-238 | The checks in source order, with the appended envelope JSON, pass exactly when the body records the bundle's kind, signature, certificate, payload hash and envelope hash; otherwise the first error. |
| Rekor.VerifySet | src/rekor.rs:286-305 | Passes exactly when the log has signed body, time, key id and index; a missing promise is an error. |
| Rekor.CheckLogEvidence | src/rekor.rs:804-831 | Inclusion, then checkpoint, then origin, in this order. |
| Rekor.OriginMismatchExact | src/rekor.rs:823-831 | An origin mismatch is reported exactly for an authenticated checkpoint whose origin is not allowed. |
| Rekor.CheckTimeWindow | src/rekor.rs:712-738 | Passes exactly inside both windows; the certificate error is reported exactly when the log-key window holds. |
| Rekor.VerifyTlogEntry | src/rekor.rs:776-847 | The steps in source order compute the entry's verdict with its first error. |
| Rekor.EntryExact | src/rekor.rs:776-847 | An entry is accepted exactly when its body's JSON states the bundle's content field by field, and trusted key, promise, inclusion, endorsed checkpoint, origin and both windows hold; it reports its own time and index. |
| Rekor.AcceptedHasEvidence | src/rekor.rs:776-847 | Every accepted entry comes with all of that evidence. |
| Rekor.LogStepsFault | src/rekor.rs:776-847 | The log's steps fail with the first fault of promise, inclusion, checkpoint and origin, and else of the times. |
| Rekor.EntryFault | src/rekor.rs:776-847 | A bundle's entry fails for the number of entries, its body, the unknown log, the log's key, and then that log's first fault, in this order. |
| Rekor.TimeErrorIsAuthenticated | src/rekor.rs:833-841 | The windows are consulted only for a promised time of a recorded, included entry under an allowed checkpoint. |
| Rekor.SamePositionSameBody | src/rekor.rs:410-437 | Two accepted proofs with one root, size and index prove one body, or break the hash by an explicit pair. |
| Rekor.BodyRecordsOneContent | src/rekor.rs:205-238 | One entry body records one certificate, signature, payload and envelope, or two of them collide. |
| Rekor.LogPositionBindsContent | src/rekor.rs:776-847 | Two accepted bundles at one log position have the same body, signature, certificate, payload hash and envelope hash, and the same content unless envelopes collide, or an explicit pair breaks the hash. |
| Rekor.PromiseIsNoTreeHead | src/rekor.rs:603-607 | What one key signs as a promise can never be read as a checkpoint. |
| Rekor.VerifiedPromiseWasMade | src/rekor.rs:286-305 | Under an honest log a verified promise is one the log made, for that body, time and index. |
| Rekor.VerifiedRootIsTreeHash | src/rekor.rs:627-670 | Under an honest log a verified checkpoint states the tree hash of a prefix of the log. |
| Rekor.AcceptedIsLogged | src/rekor.rs:776-847 | Under an honest log an accepted entry is the log's leaf at the proof's index, below the proof's size, promised at the reported time and index, or an explicit pair breaks the hash. |
| Rekor.SignedTreeHeadVerifies | src/rekor.rs:627-670 | A well-formed printed note over the log's tree, signed under the key's hint, verifies against the tree's size and root. |
| Rekor.HonestlyLoggedIsAccepted | src/rekor.rs:776-847 | Completeness: for every log and leaf, an entry with the leaf, the promise, its audit path and a signed tree head is accepted with its time and index as the result, when it records the bundle, key and origin are trusted and the time fits. |
| Verifier.FindSubject | src/statement.rs:111-116 | The first subject with the digest, or none exists. |
| Verifier.VerifyEnvelope | src/dsse.rs:200-212 | Passes exactly when the key verifies the signature over the one message that is read as type and payload. |
| Verifier.VerifyDigest | src/verifier.rs:123-214 | The steps in source order compute the report or the first error. |
| Verifier.VerifySigner | src/verifier.rs:173-188 | Envelope signature, SCTs, claims and policy, in this order. |
| Verifier.LogStepSettlesLeafWindow | src/verifier.rs:155-171 | Once the log step passes, the saturating conversion is exact and the leaf's decoding and own window check cannot fail in the chain step. |
| Verifier.DigestExact | src/verifier.rs:123-214 | A report is returned exactly when there are grounds for it (typed content naming the subject, log evidence, the first vouching authority at the integrated time, envelope signature, a valid SCT, each policy requirement), and it is the one they support. |
| Verifier.ReportMeans | src/verifier.rs:123-214 | Every report comes with all its grounds and states what they state. |
| Verifier.GroundsSuffice | src/verifier.rs:123-214 | Any such grounds lead to the report they support; nothing else is asked for. |
| Verifier.SignerErrorComesAfterEvidence | src/verifier.rs:123-188 | A rejection that blames the signer's signature or identity implies that the content fits, the log evidence held in full and a first authority vouched for the leaf at the log's time; the last step alone reported it. |
| Verifier.PolicyErrorComesLast | src/verifier.rs:173-188 | A rejection by the policy implies a verified envelope signature and a valid SCT, and it is the policy's verdict on the leaf's claims. |
| Verifier.UnknownLogKeyComesBeforeChain | src/verifier.rs:46-52 | For fitting content, a store without the entry's log key is reported as that, whatever its authorities say of the chain. |
| Verifier.StepsFailInOrder | src/verifier.rs:123-171 | Content, log evidence and chain fail in this order, each with its own fault, whatever the later steps would say. |
| Verifier.OneTimeForAll | src/verifier.rs:155-171 | The reported time is in the log key's and the authority's window and within the leaf's and every chain certificate's own bounds. |
| Verifier.OnePositionOneStatement | src/verifier.rs:123-214 | Two successful verifications at one log position are about one envelope, statement and certificate, or an explicit pair breaks the hash. |
| Verifier.ReportedSubjectWasSigned | src/verifier.rs:123-214 | Under an honest signer the reported subject is named by an in-toto statement the signer signed. |
| Verifier.VerifierBuilder.Build | src/verifier.rs:274-309 | A verifier is built exactly when all parts are set, no signer id is pinned and every policy key is in the store; then only store keys are allowed. |

## Left out

- DER and X.509 decoding, the precertificate TBS surgery of `src/sct.rs:258-288` and Fulcio claim extraction: thin code over libraries that are not part of this model; they are decoder parameters.
- ECDSA, SHA-256 and SPKI decoding: parameters without assumptions.
- JSON tokenizing and typed extraction (bundle, statement, trust root, entry body mirrors) and the tokenizer's recursion limit: the strict visitor is modelled over a document tree, the typed documents are decoder parameters, and whether bytes follow the document is an input.
- Hexadecimal and PEM field decoding of the entry body: decoder parameters with the source's error kinds.
- Merkle.AcceptedPathAtMost64: speaks about sizes that fit 64 bits, because the source's tree sizes do.
- Rfc3339.ParseRfc3339: the offset has no bound beyond 23:59 and seconds stop at 59, as in the code; leap seconds are rejected there too.
- Checkpoint.ParseOfPrint: extension lines are non-empty and the root hash is not empty, because a blank line would end the body in the source as well.
- OriginPolicy.Builder.AllowOrigins: after a failure the origins allowed so far stay in the object, while the source consumes the builder on error.
- Verifier.VerifierBuilder.Build: the source consumes the builder; the setters and `build` here act on one object.
- SctCodec.Cursor.Take: the mutable slice reference is a field holding the unread rest; aliasing of the underlying buffer is not modelled.
- Error message texts, fingerprints and sources of the trust snapshot in the report, and predicate interpretation.
- Trust-root and bundle loading, GitHub response formats, command line, fuzzing entry points and tests.
- Wall-clock cost; work is bounded only for the glob loop and the checkpoint search.
