# Formal model of the attestation core

A Dafny model of the deterministic core of the Cleverbase SDK, with proofs of what that core is for:
the mdoc verifier captures and checks exactly what the issuer signed, the holder's selective
disclosure keeps what it discloses verifiable, calendars and codecs are exact inverses, the DCQL gate
fails closed, and the issuance machine keeps its protocol.

## What is modelled

- **CBOR and the mdoc verifier.** `CborWire` gives the definite-length part of CBOR (section 3 of
  RFC 8949) as trees and bytes, with rows of its appendix A as `ScalarExamples` and `ContainerExamples`;
  `CborCursor` is the forward cursor with its flat, checked counter;
  `IssuerItemScan` is the capture of every `IssuerSignedItem`; `Disclosure` and `MdocVerify` check
  digests, merge without shadowing and run the document loop; `CborEncoding` relates decoded values
  to their encodings.
- **The holder's half.** `Pruning`, `PrunedCapture` and `PrunedVerification` prune a response and show
  what the verifier then sees; `Presentation` and `PresentationVerified` prepare, splice and verify.
  `HeldResponses` builds whole held responses and their presentation; `Witnesses`,
  `PresentationFailures` and `AmbiguousNames` are concrete ones, for every lawful CBOR codec.
- **Calendars.** `Calendar` and `Rfc3339`.
- **Codecs.** `Base64`, `Hex`, `CmsExtraction`, `JsonPointer`, `DisclosurePaths`, with `Splitting` and
  `Decimals` beside them.
- **Queries.** `ClaimsPath`, `Dcql` and `DcqlEvaluation` over the `Json` data type; `DcqlMeaning` reads a
  query off its JSON, without the parser, and shows that the evaluation decides exactly that.
- **Issuance.** `Signer` and `Obtain`.
- **Qualified status.** `Qualified`, down to the end of `verify`.
- **Documentation tooling.** `RustdocCrate`, the reachability worklist and the page of a module.

Code that updates state is a class or a method with loops, tied by its contract to a function on
values; the theorems are about those functions. Machine integers are mathematical integers with the
source's checks written out (`usize` is 64-bit, slices are shorter than 2^63, wrap-around is explicit
where the source shifts). Rust strings are their UTF-8 bytes.

## What is assumed

Library code enters as function parameters, with these laws where a theorem needs them:

- `Presentation.Lawful`: the CBOR library writes a representable value with shortest heads and reads
  back what it wrote. Representable values have valid UTF-8 text, integers of CBOR's range and no byte
  string under a bignum tag. The law is assumed at any nesting depth and for floats of any width; the
  library itself stops at its recursion limit and narrows a float that a shorter width holds. Which
  trees denote a value is `CborEncoding.Denotes`: heads of any width, floats of the width they have, and
  "undefined" (simple value 23) reads as null; booleans and null in their one-byte form only.
  `Witnesses.ModelCodecIsLawful` gives a codec that meets the law and reads heads of any width.
- `Json.Lawful`: the JSON library writes values without floats, keys in order, and reads them back.
- Digests, signatures, certificate chains, validity windows, status tokens, base64 of other crates,
  and the parsing of PDF, JSON and certificates are arbitrary functions: nothing is assumed of them.

## Findings

- **Repeated map keys.** A held response that repeats a map key can pass the issuer-side checks, be
  prepared and finished, and then be refused: `PresentationFailures.RepeatedKeysLoseAcceptance` is one
  with the key `nameSpaces` twice. `CountsAgree` in `PresentationVerifies` is the exact condition, and
  distinct keys imply it (`UniqueKeysAgree`).
- **Long heads.** The verifier hashes an element as it was framed, with heads of any width, and accepts
  it (`mdoc/mod.rs`, lines 924 to 932). The holder re-encodes a kept element with shortest heads,
  although the comment in `present.rs` says it keeps its exact on-wire bytes, so an element that came
  with longer heads than section 9.1.1 of ISO/IEC 18013-5 asks for is refused once presented
  (`PresentationFailures.LongHeadsLoseAcceptance`). `FramingSigned` is the exact condition, and shortest
  heads imply it (`ShortestFramingSigned`).
- **Slashes in names.** The comments in `present.rs` take it that name spaces and element identifiers
  hold no slash, so that a qualified identifier selects one element; nothing checks it. When both hold
  one, two elements can share a qualified identifier: asking for one then discloses the other
  (`AmbiguousNames.SlashDisclosesMore`), and with a repeated `nameSpaces` a claim that is asked for can
  be lost without an error (`AmbiguousNames.SlashLosesAClaim`). `AskedExact` and `SplitRecovers` are the
  exact conditions; name spaces without a slash, such as reverse domain names, meet them
  (`SlashFreeSeparated`, `SeparatedUnambiguous`), and then nothing is lost without an error
  (`NeverLess`).
- **A missing `deviceSigned.nameSpaces`.** `prepare_mdoc` signs over an empty map there, while the
  verifier rejects the response as malformed: `PresentationVerifies` has it as a condition, and
  `Witnesses.RefusedWithoutNameSpaces` shows it on a response.
- **Whitespace in base64.** The comment in `base64_decode` lists vertical tab, but
  `is_ascii_whitespace` excludes it: `Base64.VerticalTabRefused`, with the skipped characters exactly in
  `Base64.IgnoredExact`.
- **Leap seconds.** A seconds field of 60 is accepted at any minute, so the largest accepted value is
  one second past the year 9999: `Rfc3339.PastYear9999` and `Rfc3339.LeapSecondAccepted`.
- **Optional credential sets.** A query whose well-formed credential sets are all optional is met by an
  empty presentation, and a malformed required set beside them is dropped:
  `DcqlEvaluation.NothingSatisfiesJson` and `DcqlEvaluation.RequiredSetDropped`.

## Model

| member | source | states |
|---|---|---|
| `CborWire.ItemComplete` | crates/cleverbase-attestation/src/mdoc/mod.rs:1052-1103 | On the encoding of any valid tree, with any head widths, reading one item ends exactly at its last byte. |
| `CborWire.ItemSound` | crates/cleverbase-attestation/src/mdoc/mod.rs:1052-1103 | Whenever reading one item succeeds, the bytes read are the encoding of some valid tree. |
| `CborWire.ItemsEndIsGrammar` | crates/cleverbase-attestation/src/mdoc/mod.rs:1085-1103 | Reading `n` items from an offset ends at `e` if and only if the bytes in between are exactly the encodings of `n` valid trees. |
| `CborWire.PrefixFree` | crates/cleverbase-attestation/src/mdoc/mod.rs:1052-1103 | Two encodings that start at the same offset are equal: no item is a proper prefix of another. |
| `CborWire.ItemsEndAdd` | crates/cleverbase-attestation/src/mdoc/mod.rs:1085-1103 | Skipping `a` items and then `b` items is skipping `a + b`: the law that lets one flat counter replace recursion. |
| `CborWire.EncodeInjective` | crates/cleverbase-attestation/src/mdoc/mod.rs:1251-1266 | Different valid trees have different encodings. |
| `CborCursor.Cursor.ReadUint` | crates/cleverbase-attestation/src/mdoc/mod.rs:1036-1048 | Reads a big-endian argument of up to eight bytes without losing a bit to wrap-around, and does not move when the input is too short. |
| `CborCursor.Cursor.ReadHead` | crates/cleverbase-attestation/src/mdoc/mod.rs:1018-1033 | Reads a head as the grammar does; indefinite and reserved lengths are refused. |
| `CborCursor.Cursor.HeadChildCount` | crates/cleverbase-attestation/src/mdoc/mod.rs:1061-1073 | The number of child items of a head, `None` exactly when it does not fit `usize`. |
| `CborCursor.Cursor.SkipPending` | crates/cleverbase-attestation/src/mdoc/mod.rs:1085-1103 | The checked flat counter succeeds exactly when the recursive grammar finds `n` items, and stops where they end: no item is lost to an overflow check. |
| `CborCursor.SkipStep` | crates/cleverbase-attestation/src/mdoc/mod.rs:1085-1103 | One turn of the counter: the children of a head join the items still pending. |
| `CborCursor.Cursor.SkipItem` | crates/cleverbase-attestation/src/mdoc/mod.rs:1052-1054 | Skips exactly one item of the grammar. |
| `CborCursor.Cursor.TakeText` | crates/cleverbase-attestation/src/mdoc/mod.rs:1141-1154 | Takes a definite text string with valid UTF-8 and stops after it. |
| `CborCursor.Cursor.TakeTaggedBstrItem` | crates/cleverbase-attestation/src/mdoc/mod.rs:1117-1138 | Returns the whole on-wire span of a tagged byte string and the span of its content. |
| `CborCursor.RejectIndefiniteLengthCbor` | crates/cleverbase-attestation/src/mdoc/mod.rs:1202-1210 | Accepts a response if and only if it is, to the last byte, the encoding of one valid definite-length tree. |
| `IssuerItemScan.WalkIsFold` | crates/cleverbase-attestation/src/mdoc/mod.rs:1170-1190 | Walking the entries of an encoded map calls back on exactly the text-keyed entries, in order, each at the offset of its value, and ends where the map ends. |
| `IssuerItemScan.ElementAt` | crates/cleverbase-attestation/src/mdoc/mod.rs:1117-1138 | On an encoded element the captured span is exactly that element's encoding. |
| `IssuerItemScan.DocumentScanExact` | crates/cleverbase-attestation/src/mdoc/mod.rs:1271-1287 | Scanning one encoded document yields the items of its tree and stops at its end. |
| `IssuerItemScan.ScanInvertsEncoding` | crates/cleverbase-attestation/src/mdoc/mod.rs:1251-1266 | On the encoding of any response tree, with any head widths, the scan returns exactly what the tree holds. |
| `IssuerItemScan.OneRecordPerElement` | crates/cleverbase-attestation/src/mdoc/mod.rs:1292-1314 | A name space yields one record per element, in wire order, each holding that element's own encoding. |
| `IssuerItemScan.TakeKey` | crates/cleverbase-attestation/src/mdoc/mod.rs:1170-1190 | Takes a text key, or skips an entry with another key whole. |
| `IssuerItemScan.ScanNameSpace` | crates/cleverbase-attestation/src/mdoc/mod.rs:1292-1314 | The loop over the elements of one name space computes the specification of the scan; every record it adds is the one decoded from the content of an element of the input, with that element's own bytes. |
| `IssuerItemScan.ScanNameSpaces` | crates/cleverbase-attestation/src/mdoc/mod.rs:1292-1314 | The loop over name spaces, with repeated names appended, computes the specification. |
| `IssuerItemScan.ScanDocumentIssuerItems` | crates/cleverbase-attestation/src/mdoc/mod.rs:1271-1287 | The loop over one document's entries computes the specification and leaves the cursor at its end; its records are decoded from elements of the input whether or not it succeeds. |
| `IssuerItemScan.ScanRawIssuerItems` | crates/cleverbase-attestation/src/mdoc/mod.rs:1251-1266 | Returns the captured items of every document whenever every document scans; always, every record returned pairs the bytes of one element of the response with what that element's own content decodes to. |
| `CborEncoding.ToWireExact` | crates/cleverbase-attestation/src/issuance/present.rs:620-640 | The minimal encoding of a representable value is a valid tree that denotes that value and frames its elements minimally. |
| `CborEncoding.ScanOfValue` | crates/cleverbase-attestation/src/mdoc/mod.rs:1251-1314 | Scanning any encoding of a decoded response, with any head widths, captures what the decoded value holds, once every span is put in shortest form; it stops at the last byte. |
| `CborEncoding.ScanOfShortest` | crates/cleverbase-attestation/src/mdoc/mod.rs:1251-1314 | When the elements have shortest heads the capture is, spans included, what the decoded value says. |
| `CborEncoding.DenotesOne` | crates/cleverbase-attestation/src/mdoc/mod.rs:1324-1330 | A tree denotes at most one value. |
| `CborEncoding.CanonicalInjective` | crates/cleverbase-attestation/src/issuance/present.rs:620-640 | Values with the same minimal encoding are equal. |
| `CborValue.FindTextExact` | crates/cleverbase-attestation/src/mdoc/mod.rs:1324-1330 | A lookup finds the value of the first entry with the text key, and nothing exactly when there is none. |
| `CborValue.ProjectionExact` | crates/cleverbase-attestation/src/mdoc/mod.rs:1776-1806 | The claim value of a decoded value is the one that says the same: the same text, boolean, bytes or `i64` integer; arrays element by element; a map with exactly the text keys, each with the claim value of its last entry; tags are transparent; null for null, floats and other integers. |
| `Disclosure.InsertExact` | crates/cleverbase-attestation/src/mdoc/mod.rs:1739-1759 | An insert succeeds if and only if the facts stay functional, and then adds exactly the new fact. |
| `Disclosure.MergeExact` | crates/cleverbase-attestation/src/mdoc/mod.rs:594-676 | Folding inserts succeeds if and only if all the facts together are functional, and then holds exactly those facts. |
| `Disclosure.MergeOrderIndependent` | crates/cleverbase-attestation/src/mdoc/mod.rs:594-676 | Folding the same facts in any order, with any repetition, gives the same result, failure included. |
| `Disclosure.DisclosedSet.Insert` | crates/cleverbase-attestation/src/mdoc/mod.rs:1739-1759 | The in-place insert does what the specification of an insert says and changes nothing on a conflict. |
| `Disclosure.CheckRecordsExact` | crates/cleverbase-attestation/src/mdoc/mod.rs:1645-1726 | The records of one name space pass exactly when their digest ids are distinct, each record's own bytes hash to the signed digest at its own id, and their facts agree; otherwise the one error is an integrity failure. |
| `Disclosure.DisclosureExact` | crates/cleverbase-attestation/src/mdoc/mod.rs:1645-1726 | Digest verification accepts with a result if and only if every record of every listed name space is signed, and the result holds exactly the listed records. |
| `Disclosure.IndexDigests` | crates/cleverbase-attestation/src/mdoc/mod.rs:1645-1726 | The loop that fills the digest table computes its specification, repeated ids included. |
| `Disclosure.ExpectedExact` | crates/cleverbase-attestation/src/mdoc/mod.rs:1679-1692 | The digest table holds for each id the last digest given for it, whatever else the entries hold. |
| `Disclosure.CheckRecordLoop` | crates/cleverbase-attestation/src/mdoc/mod.rs:1645-1726 | The record loop with its set of seen ids computes the specification. |
| `Disclosure.VerifyValueDigestsLoop` | crates/cleverbase-attestation/src/mdoc/mod.rs:1645-1726 | The whole verification loop computes the specification, error for error. |
| `MdocVerify.FactsExact` | crates/cleverbase-attestation/src/mdoc/mod.rs:594-676 | The facts of a response are exactly those some accepted document discloses. |
| `MdocVerify.MergeDocument` | crates/cleverbase-attestation/src/mdoc/mod.rs:594-676 | Merging one document in place succeeds if and only if its facts agree with those already held. |
| `MdocVerify.VerifyInner` | crates/cleverbase-attestation/src/mdoc/mod.rs:501-677 | Valid if and only if the bytes are one definite item, the envelope is in order, every document passes with its own captured items and its own positional status, and all facts agree; one issuer and one docType is listed per document, in order. Otherwise the error is that of the envelope or of the first document that cannot be added. Every disclosed fact is said by an element of the response whose own bytes hash to the digest that a document's issuer signed at its digest id: the element has that identifier, and the claim value is the projection of its `elementValue`. This holds whether or not every document scans. |
| `MdocVerify.OneDocumentJudged` | crates/cleverbase-attestation/src/mdoc/mod.rs:594-676 | On a response with one document the verdict is that document's: its claims, its issuer and its docType, or its error. |
| `MdocVerify.FactsSigned` | crates/cleverbase-attestation/src/mdoc/mod.rs:1650-1726 | No document passes with a fact that is not said by an element of the response its issuer signed, name, digest id and value, for whatever records the scan captured. |
| `MdocVerify.EveryStatusAnswered` | crates/cleverbase-attestation/src/verify.rs:535-575 | In a valid response every document answers for itself: with its own token's good outcome, or with the outcome supplied at its own index, which must be "good" when it declares a list; a malformed reference is never accepted. |
| `MdocVerify.EnvelopeExact` | crates/cleverbase-attestation/src/mdoc/mod.rs:526-556 | A response is taken up exactly when its version is "1.0", its status 0 and its documents a non-empty array. |
| `MdocVerify.StatusReasons` | crates/cleverbase-attestation/src/mdoc/mod.rs:893-900 | A document whose issuer-side checks pass is refused as revoked, unavailable or untrusted as its own status says: untrusted for a malformed reference, unavailable for a declared list without an outcome. |
| `MdocVerify.DocumentReasons` | crates/cleverbase-attestation/src/mdoc/mod.rs:902-908 | Past the status, a docType other than the signed one is tampering, a digest failure is its own, and the holder binding fails for exactly one reason: a missing part, a missing transcript, or a signature that does not verify over the rebuilt payload. |
| `Pruning.KeepItems` | crates/cleverbase-attestation/src/issuance/present.rs:750-778 | The element loop keeps exactly the disclosed elements, in order. |
| `Pruning.PruneNameSpacesLoop` | crates/cleverbase-attestation/src/issuance/present.rs:750-778 | The name-space loop computes the pruning specification: emptied name spaces are dropped, undecodable elements are errors. |
| `Pruning.ReplaceMapEntryInner` | crates/cleverbase-attestation/src/issuance/present.rs:910-936 | The loop with its `found` flag replaces every entry with the key, leaves the others in place, and reports a missing key only when it is required. |
| `Pruning.FindReplaced` | crates/cleverbase-attestation/src/issuance/present.rs:910-936 | After a replacement a lookup gives the transformed value at the key and the old value elsewhere. |
| `PrunedCapture.ResponseKept` | crates/cleverbase-attestation/src/issuance/present.rs:720-778 | What is captured from the pruned response is what was captured before, filtered to the disclosed ids. |
| `PrunedCapture.PruneRepresentable` | crates/cleverbase-attestation/src/issuance/present.rs:720-740 | Pruning a representable response gives a representable response. |
| `PrunedVerification.PrunedDisclosure` | crates/cleverbase-attestation/src/issuance/present.rs:720-778 | Digest verification of the pruned document gives the restriction of the original result if and only if listing and capture agree and every kept element's shortest form has the digest of the form it came in. |
| `PrunedVerification.PruningPreservesVerification` | crates/cleverbase-attestation/src/issuance/present.rs:720-778 | When verification accepted a response in any encoding, it accepts the re-encoded pruned one under the same MSO with exactly the disclosed part of the result, if and only if listing and capture agree on the disclosed elements and re-framing them in shortest form keeps their digests. |
| `PrunedVerification.ShortestFramingSigned` | crates/cleverbase-attestation/src/issuance/present.rs:604-606 | Elements that came with shortest heads keep their digests, so then only the counts matter. |
| `PrunedVerification.UniqueKeysAgree` | crates/cleverbase-attestation/src/issuance/present.rs:720-778 | With distinct map keys, listing and capture always agree. |
| `PresentationFailures.RepeatedKeysLoseAcceptance` | crates/cleverbase-attestation/src/issuance/present.rs:750-778 | A whole held response with the key `nameSpaces` twice passes the issuer-side checks with its claim and is prepared and finished for it; the verifier answers that disclosure integrity fails. For every lawful codec and every digest. |
| `PresentationFailures.LongHeadsLoseAcceptance` | crates/cleverbase-attestation/src/issuance/present.rs:604-606 | A whole held response whose one element has its length in eight bytes passes the issuer-side checks with its claim and is prepared and finished for it; the verifier answers that disclosure integrity fails, for every digest that tells the two framings apart. |
| `Pruning.QualifiedClash` | crates/cleverbase-attestation/src/issuance/present.rs:667-677 | Two name spaces can yield the same qualified identifier exactly when they are equal or one followed by a slash begins the other. |
| `Pruning.SplitRecovers` | crates/cleverbase-attestation/src/issuance/present.rs:667-677 | Splitting a qualified identifier at its first slash recovers name space and identifier if and only if the name space has no slash. |
| `Presentation.AskedExact` | crates/cleverbase-attestation/src/issuance/present.rs:592-603 | Qualified identifiers select exactly the elements meant, for every choice of issued elements, if and only if no two issued elements share one. |
| `Presentation.PruneIsConfined` | crates/cleverbase-attestation/src/issuance/present.rs:720-740 | Pruning changes a document nowhere but at `issuerSigned.nameSpaces`. |
| `Presentation.SpliceIsConfined` | crates/cleverbase-attestation/src/issuance/present.rs:838-879 | Splicing the signature changes a document nowhere but at `deviceSigned.deviceAuth`. |
| `Presentation.PrepareRefuses` | crates/cleverbase-attestation/src/issuance/present.rs:607-665 | Only a response with exactly one document is prepared, for identifiers it was issued; one with more is refused with their number. |
| `Presentation.SpliceRefuses` | crates/cleverbase-attestation/src/issuance/present.rs:838-879 | The signature is spliced into exactly one document: more are refused with their number, none or no array is malformed. |
| `Presentation.PrunedIssued` | crates/cleverbase-attestation/src/issuance/present.rs:684-740 | The element ids of the pruned response are the issued ones that are disclosed. |
| `Presentation.PreparedDisclosesExactly` | crates/cleverbase-attestation/src/issuance/present.rs:607-665 | A prepared presentation carries exactly the requested element ids. |
| `Presentation.PreparedDisclosesElements` | crates/cleverbase-attestation/src/issuance/present.rs:592-665 | Of a set of issued elements asked for, a prepared presentation lists all of them, and nothing but them when the issued elements are unambiguous. |
| `AmbiguousNames.SlashDisclosesMore` | crates/cleverbase-attestation/src/issuance/present.rs:592-603 | A whole held response with the name spaces `a` and `a/b`: asking for one element discloses another, and the verifier accepts both claims. |
| `AmbiguousNames.SlashLosesAClaim` | crates/cleverbase-attestation/src/issuance/present.rs:750-778 | With `nameSpaces` repeated besides, the verifier accepts a presentation that holds less than the request selects. |
| `Presentation.PayloadShape` | crates/cleverbase-attestation/src/mdoc/mod.rs:1935-1949 | The payload to sign is an encoded-CBOR tag over the array of label, transcript, docType and device name spaces, and decodes back to it. |
| `Presentation.PayloadBinds` | crates/cleverbase-attestation/src/mdoc/mod.rs:1935-1949 | Equal payloads have equal transcripts, docTypes and device name spaces: one signature serves one session and one document type. |
| `PresentationVerified.SignedIsVerified` | crates/cleverbase-attestation/src/issuance/present.rs:607-879 | The payload the verifier rebuilds from the finished response equals the payload the holder signed, if and only if `deviceSigned.nameSpaces` is present. |
| `PresentationVerified.EnvelopeKept` | crates/cleverbase-attestation/src/issuance/present.rs:838-879 | Pruning and splicing keep the envelope the verifier checks. |
| `PresentationVerified.PresentationVerifies` | crates/cleverbase-attestation/src/issuance/present.rs:607-879 | End to end, for any encoding: a held response that passes the issuer-side checks is prepared, signed and finished, and the verifier accepts it with exactly the requested part of its claims if and only if it carries `deviceSigned.nameSpaces`, its listed and captured counts agree and shortest framing keeps its digests. Otherwise it is malformed, or disclosure integrity fails. |
| `PresentationVerified.NeverLess` | crates/cleverbase-attestation/src/issuance/present.rs:720-778 | When no listed name space is within another, the digest check of a pruned document yields all that should be disclosed or fails: never less. |
| `PresentationVerified.PresentationIsJudged` | crates/cleverbase-attestation/src/mdoc/mod.rs:501-677 | Whatever the verifier's loop answers on the finished bytes is the verdict of that theorem. |
| `PresentationVerified.NothingElseCaptured` | crates/cleverbase-attestation/src/issuance/present.rs:592-603 | The bytes prepared for presentation hold no element that the verifier's scan would capture and that was not asked for, whatever the held response repeats. |
| `Witnesses.RefusedWithoutNameSpaces` | crates/cleverbase-attestation/src/issuance/present.rs:789-811 | A concrete held response with and without `deviceSigned.nameSpaces`: both are prepared and finished, the first is accepted with its claim and the second refused. |
| `HeldResponses.HeldCeremony` | crates/cleverbase-attestation/src/mdoc/mod.rs:706-770 | Held responses built from any listings meet every condition of the end-to-end theorem once their digest check passes, so the theorem is not vacuous. |
| `Calendar.EraIsFloor` | crates/cleverbase-core/src/util.rs:7-42 | The truncating division with its correction for negative years is the floor. |
| `Calendar.YearOfEraExact` | crates/cleverbase-core/src/util.rs:7-19 | The year-of-era formula finds the year whose days include the given day of the era. |
| `Calendar.DaysOfCivil` | crates/cleverbase-core/src/util.rs:7-42 | Converting any day number to a date and back returns the day number, negative ones included. |
| `Calendar.CivilOfDays` | crates/cleverbase-core/src/util.rs:7-42 | Converting any valid proleptic Gregorian date to a day number and back returns the date. |
| `Calendar.NextDayAddsOne` | crates/cleverbase-attestation/src/datetime.rs:106-125 | Stepping to the next day under the month lengths and the leap-year rule adds exactly one to the day number. |
| `Calendar.CountingFromTheEpoch` | crates/cleverbase-core/src/util.rs:34-42 | The day number of the date `n` steps after the epoch is `n`. |
| `Calendar.CheckedDaysExact` | crates/cleverbase-attestation/src/datetime.rs:139-164 | The checked day arithmetic equals the unchecked conversion when it answers, and fails only for days whose seconds do not fit `i64`. |
| `Calendar.CivilToUnixExact` | crates/cleverbase-attestation/src/datetime.rs:139-164 | For every `i64` year, answers if and only if midnight of the day and the instant itself fit `i64`, and then with days times 86400 plus the time of day. |
| `Calendar.SplitStaysInI64` | crates/cleverbase-core/src/util.rs:7-31 | For any `i64` instant the result of every operator of the split fits `i64`, listed in order of evaluation, and the last three are the date. |
| `Calendar.UnixRoundTrip` | crates/cleverbase-attestation/src/datetime.rs:139-164 | The split of an instant is a valid date and clock, and joining it returns the instant if and only if midnight of its day fits `i64`. |
| `Rfc3339.ParsesWhatIsWritten` | crates/cleverbase-attestation/src/datetime.rs:35-76 | The text of every valid date-time of years 0000 to 9999, with any fraction, parses to its instant. |
| `Rfc3339.AcceptsOnlyWhatIsWritten` | crates/cleverbase-attestation/src/datetime.rs:35-102 | Every accepted text is the text of a valid UTC date-time. |
| `Rfc3339.ParserIsGrammar` | crates/cleverbase-attestation/src/datetime.rs:35-102 | The parser returns a value if and only if the text is a date-time of the grammar with that value. |
| `Rfc3339.AcceptedRange` | crates/cleverbase-attestation/src/datetime.rs:35-76 | Accepted values lie in the years 0000 to 9999, up to one leap second. |
| `Rfc3339.PastYear9999` | crates/cleverbase-attestation/src/datetime.rs:62-76 | A value lies past 9999-12-31T23:59:59Z exactly when the text is 9999-12-31T23:59:60Z with any fraction, and is then 253402300800. |
| `Rfc3339.LeapSecondAccepted` | crates/cleverbase-attestation/src/datetime.rs:62-76 | That text is accepted, so the bound is reached. |
| `Rfc3339.SplitThenParse` | crates/cleverbase-attestation/src/datetime.rs:35-76 | Parsing the text of the split of an instant of those years returns the instant. |
| `Base64.Base64Std` | crates/cleverbase-core/src/util.rs:85-104 | The chunk loop computes the encoding. |
| `Base64.Base64Decode` | crates/cleverbase-core/src/util.rs:133-178 | The four-slot loop computes the decoding, including the length error. |
| `Base64.DecodeInvertsEncode` | crates/cleverbase-core/src/util.rs:85-178 | Decoding the encoding of any bytes returns them. |
| `Base64.EncodeExact` | crates/cleverbase-core/src/util.rs:85-104 | Every group of three bytes is written as four characters of the standard alphabet, six bits each, with `=` for what is missing, and nothing else is written. |
| `Base64.DecodeExact` | crates/cleverbase-core/src/util.rs:133-178 | A text decodes if and only if, skipped characters aside, it spells sextets that leave fewer than eight bits over, and then to the bytes of those bits. |
| `Base64.IgnoredExact` | crates/cleverbase-core/src/util.rs:133-178 | A character may be inserted anywhere without changing the result if and only if it is `=`, space, tab, line feed, form feed or carriage return. |
| `Base64.VerticalTabRefused` | crates/cleverbase-core/src/util.rs:147-152 | A text that holds a vertical tab anywhere is refused. |
| `Base64.UrlRoundTrip` | crates/cleverbase-core/src/util.rs:125-130 | The unpadded URL-safe text, mapped back to the standard alphabet, decodes to the bytes. |
| `Base64.UrlSafe` | crates/cleverbase-core/src/util.rs:125-130 | The URL-safe text is the standard one up to its padding with `-` for `+` and `_` for `/`, so it has no `=`, `+` or `/`. |
| `Hex.HexValueExact` | crates/cleverbase-core/src/util.rs:48-63 | A character has the value `n` exactly when it is the lower-case or upper-case digit of `n`. |
| `Hex.ToHex` | crates/cleverbase-core/src/util.rs:66-73 | The loop writes two digits per byte, high half first. |
| `Hex.HexPairsExact` | crates/cleverbase-core/src/verification.rs:262-282 | A text of even length decodes to bytes exactly when it spells their digits, in either case. |
| `Hex.HexRoundTrip` | crates/cleverbase-core/src/util.rs:48-73 | Decoding the hex text of any bytes returns them. |
| `Hex.PercentEncode` | crates/cleverbase-core/src/util.rs:107-122 | The loop keeps unreserved characters and writes every other byte as `%` and two upper-case digits. |
| `Hex.PercentRoundTrip` | crates/cleverbase-core/src/util.rs:107-122 | Percent-decoding inverts percent-encoding on every text. |
| `Hex.PercentSafe` | crates/cleverbase-core/src/util.rs:107-122 | Only letters, digits, `-`, `.`, `_`, `~` and `%` are written, so no separator can appear, and exactly the texts of the former are left as they are. |
| `Hex.EscapeExact` | crates/cleverbase-core/src/util.rs:107-122 | A byte is written as itself when it is a letter, a digit or one of `-._~`, and otherwise as `%` and its two upper-case digits, high half first. |
| `CmsExtraction.FoldLengthExact` | crates/cleverbase-core/src/verification.rs:284-299 | On at most eight octets the checked accumulation never fails and is the big-endian value. |
| `CmsExtraction.DerLengthExact` | crates/cleverbase-core/src/verification.rs:284-299 | The DER length is `n` if and only if the first `n` bytes are one TLV with a definite length. |
| `CmsExtraction.CutPaddingExact` | crates/cleverbase-core/src/verification.rs:240-256 | The cut returns a TLV if and only if the bytes are that TLV followed by zeros only. |
| `CmsExtraction.ExtractCmsExact` | crates/cleverbase-core/src/verification.rs:207-260 | Extraction returns a CMS and digest if and only if the document is head, `<hex>` gap and tail, partitioned by the four values, the hex spells that TLV and zeros, and the digest is over head and tail. |
| `CmsExtraction.ExtractInvertsEmbed` | crates/cleverbase-core/src/verification.rs:207-299 | Hex-encoding a TLV with any zero padding into the gap and extracting returns that TLV. |
| `CmsExtraction.AppendedBytesRefused` | crates/cleverbase-core/src/verification.rs:207-222 | Any bytes appended to any signed document make the extraction fail, with the error that says so. |
| `JsonPointer.EscapeRoundTrip` | crates/cleverbase-attestation/src/issuance/present.rs:583-585 | Unescaping `~1` and then `~0` inverts the escape on every key. |
| `JsonPointer.PointerResolves` | crates/cleverbase-attestation/src/issuance/present.rs:427-464 | Evaluating the pointer of a node, as RFC 6901 says, gives that node. |
| `JsonPointer.PointerInjective` | crates/cleverbase-attestation/src/issuance/present.rs:427-464 | Distinct nodes of one document have distinct pointers. |
| `DisclosurePaths.Collector.Walk` | crates/cleverbase-attestation/src/issuance/present.rs:427-464 | The in-place depth-first walk appends exactly what the callbacks push, in order. |
| `DisclosurePaths.WalkedIsVisited` | crates/cleverbase-attestation/src/issuance/present.rs:427-464 | Whatever is pushed was pushed at a node whose path avoids `_sd` and terminal items. |
| `DisclosurePaths.VisitedIsWalked` | crates/cleverbase-attestation/src/issuance/present.rs:427-464 | Every such node is visited. |
| `DisclosurePaths.CollectObjectPropertyPaths` | crates/cleverbase-attestation/src/issuance/present.rs:470-503 | Runs the walk with the object-property callbacks. |
| `DisclosurePaths.ObjectPathsExact` | crates/cleverbase-attestation/src/issuance/present.rs:470-503 | A path is collected if and only if some reachable object lists, in its `_sd` array, a digest with that claim name, under that object's pointer. |
| `DisclosurePaths.SelectorExact` | crates/cleverbase-attestation/src/issuance/present.rs:489-497 | The selector of a collected path is its pointer without the leading slashes: only slashes are gone, and none is left in front. |
| `DisclosurePaths.ParentPointerResolves` | crates/cleverbase-attestation/src/issuance/present.rs:470-503 | The pointer above a collected path resolves to the object whose `_sd` lists the digest. |
| `DisclosurePaths.CollectArrayElementPaths` | crates/cleverbase-attestation/src/issuance/present.rs:548-579 | Runs the walk with the array-element callbacks. |
| `DisclosurePaths.RedactionExact` | crates/cleverbase-attestation/src/issuance/present.rs:556-579 | A redaction is an object whose member `...` is one of the target digests. |
| `DisclosurePaths.ArrayPathsExact` | crates/cleverbase-attestation/src/issuance/present.rs:548-579 | A path is collected if and only if it is the pointer of a reachable redaction below an object key, with that top-level claim. |
| `DisclosurePaths.ElementPointerResolves` | crates/cleverbase-attestation/src/issuance/present.rs:548-579 | A collected element pointer resolves to a redaction and names one node only. |
| `DisclosurePaths.Conceal` | crates/cleverbase-attestation/src/issuance/present.rs:303-346 | The two conceal loops: refused exactly when a requested name selects nothing, otherwise they conceal exactly the unselected disclosures. |
| `DisclosurePaths.ConcealedExact` | crates/cleverbase-attestation/src/issuance/present.rs:303-346 | A pointer is concealed if and only if it is a reachable named digest whose path is not requested, or a reachable redaction whose top-level claim is not. |
| `ClaimsPath.ResolvePath` | crates/cleverbase-attestation/src/dcql.rs:775-794 | The layer loop with its early break returns the same sequence as following the path from each node. |
| `ClaimsPath.SelectionExact` | crates/cleverbase-attestation/src/dcql.rs:775-832 | A value is selected if and only if it sits at a concrete place the path denotes. |
| `ClaimsPath.UnrepresentableSelectsNothing` | crates/cleverbase-attestation/src/dcql.rs:775-832 | A path with a malformed component selects nothing. |
| `ClaimsPath.SelectionExtends` | crates/cleverbase-attestation/src/dcql.rs:775-832 | What is selected is still selected, possibly extended, in a larger presentation. |
| `ClaimsPath.SelectableExact` | crates/cleverbase-attestation/src/dcql.rs:775-832 | Some presentation makes a path select a value if and only if it starts with a key and has no malformed component. |
| `Dcql.Parse` | crates/cleverbase-attestation/src/dcql.rs:250-278 | The parse with its set of seen ids computes the specification: a duplicate id is an error. |
| `Dcql.KeptExactly` | crates/cleverbase-attestation/src/dcql.rs:291-335 | An entry is kept if and only if it has a non-empty id and one of the three supported format identifiers, and it does not have `claim_sets` without `claims`. |
| `Dcql.CredentialsExact` | crates/cleverbase-attestation/src/dcql.rs:250-335 | The parsed credentials are exactly the kept entries. |
| `Dcql.CredentialSetExact` | crates/cleverbase-attestation/src/dcql.rs:412-428 | A set query is kept if and only if its options are a non-empty array of arrays of strings, and then has exactly those. |
| `DcqlEvaluation.ClaimsSatisfied` | crates/cleverbase-attestation/src/dcql.rs:717-751 | The loop with its `by_id` table computes the claim rule, duplicate ids failing closed; what that rule asks for is `DcqlMeaning.ClaimsExact`. |
| `DcqlEvaluation.EvaluationMonotone` | crates/cleverbase-attestation/src/dcql.rs:605-649 | A presentation that satisfies a query still does when it is extended. |
| `DcqlEvaluation.SetsMonotone` | crates/cleverbase-attestation/src/dcql.rs:655-679 | Enlarging the set of satisfied ids never falsifies the set-level rule. |
| `DcqlEvaluation.SetsNeedOnePick` | crates/cleverbase-attestation/src/dcql.rs:655-679 | With credential sets, the rule holds if and only if a non-empty option, every id of which is satisfied, can be picked for every required set. |
| `DcqlEvaluation.NothingSatisfies` | crates/cleverbase-attestation/src/dcql.rs:655-679 | With nothing satisfied, the rule holds exactly when there are credential sets and none is required. |
| `DcqlEvaluation.NothingSatisfiesJson` | crates/cleverbase-attestation/src/dcql.rs:655-679 | On the JSON: the empty presentation satisfies a query exactly when some entry of `credential_sets` is well formed and every well-formed one says `"required": false`; malformed entries count for nothing. |
| `DcqlEvaluation.RequiredSetDropped` | crates/cleverbase-attestation/src/dcql.rs:410-428 | A concrete query whose malformed required set is dropped beside an optional one is satisfied by presenting nothing. |
| `DcqlEvaluation.ClaimSatisfiableExact` | crates/cleverbase-attestation/src/dcql.rs:376-494 | A parsed claim can be met by some presentation if and only if its JSON is well formed. |
| `DcqlEvaluation.FailsClosed` | crates/cleverbase-attestation/src/dcql.rs:291-335 | A kept query with a malformed claim and no claim sets, or with only malformed claim sets, is met by no presentation. |
| `DcqlEvaluation.InactiveExact` | crates/cleverbase-attestation/src/dcql.rs:605-637 | The gate imposes nothing if and only if the query is blank or has no enforceable entry. |
| `DcqlEvaluation.RoleFromMetaExact` | crates/cleverbase-attestation/src/dcql.rs:552-600 | The PID role is derived if and only if some type is admitted and every admitted type is a PID type of its format; no other role is ever derived. |
| `DcqlEvaluation.AdmittedTypesAreListed` | crates/cleverbase-attestation/src/dcql.rs:342-366 | The types a query admits are those its JSON lists, or every type of its format when it lists none. |
| `DcqlEvaluation.SatisfiedIsAdmitted` | crates/cleverbase-attestation/src/dcql.rs:642-712 | A query is satisfied only by credentials of admitted types, and a role it implies is the role of each of them. |
| `DcqlMeaning.ClaimMeaning` | crates/cleverbase-attestation/src/dcql.rs:376-844 | A parsed claim resolves if and only if its JSON path denotes a place of the presentation whose value is among the JSON values given, if any. |
| `DcqlMeaning.ClaimsExact` | crates/cleverbase-attestation/src/dcql.rs:717-751 | The claims of a kept entry are met if and only if its JSON says so: without `claims` always; without `claim_sets` when every claim is shown; with them when no id names two claims and some option is a non-empty array of strings, each the id of a claim that is shown. |
| `DcqlMeaning.TypeExact` | crates/cleverbase-attestation/src/dcql.rs:685-712 | An entry matches a credential if and only if its format identifier is one of the credential's format and, when its JSON lists types, the credential is of a listed one: for an mdoc each of its documents, of which there is at least one. |
| `DcqlMeaning.ReadableExact` | crates/cleverbase-attestation/src/dcql.rs:250-285 | A query parses if and only if the text is a JSON object in which no id names two kept entries. |
| `DcqlMeaning.SatisfiedExact` | crates/cleverbase-attestation/src/dcql.rs:605-649 | The gate answers "satisfied" if and only if the text is not blank, the query is readable, and some kept entry of its JSON is of the presented type and has its claims shown. |
| `DcqlMeaning.SetsExact` | crates/cleverbase-attestation/src/dcql.rs:655-679 | The set-level rule on the JSON: every well-formed entry of `credential_sets` that does not say `"required": false` has an option that is a non-empty array, every string of which is a satisfied id; without a well-formed entry, some credential entry is kept and the ids of all kept ones are satisfied. |
| `Signer.PublicJwkOnly` | crates/cleverbase-attestation/src/issuance/signer.rs:431-439 | The removal loop computes the stripped key. |
| `Signer.PublicJwkExact` | crates/cleverbase-attestation/src/issuance/signer.rs:424-439 | The members `d`, `p`, `q`, `dp`, `dq`, `qi`, `k` and `oth` are gone, and every other member is as it was. |
| `Signer.Assembled` | crates/cleverbase-attestation/src/issuance/signer.rs:289-314 | The compact proof is the signed bytes followed by the signature segment; its segments decode back. |
| `Signer.ProofCarries` | crates/cleverbase-attestation/src/issuance/signer.rs:330-359 | The payload of an assembled proof decodes to the given audience, nonce and time. |
| `Signer.HeaderIsPublic` | crates/cleverbase-attestation/src/issuance/signer.rs:330-359 | The proof input is built for every holder key, and the header of the assembled proof decodes to the algorithm, the type and a `jwk` without the eight private members and with every other member of the holder's key. |
| `Obtain.TokenRequest` | crates/cleverbase-attestation/src/issuance/obtain.rs:431-450 | Builds the token request step by step; equals its specification. |
| `Obtain.FormBodyExact` | crates/cleverbase-attestation/src/issuance/obtain.rs:431-450 | The body of the token request splits and decodes back to exactly the grant type and the offer's fields. |
| `Obtain.ObtainSession.Resume` | crates/cleverbase-attestation/src/issuance/obtain.rs:305-402 | One resume of the session in place: the new phase, token and pending proof, the step, or the error. |
| `Obtain.ObtainSession.Stop` | crates/cleverbase-attestation/src/issuance/obtain.rs:405-408 | Makes the session terminal and returns the failure. |
| `Obtain.BeginObtain` | crates/cleverbase-attestation/src/issuance/obtain.rs:273-296 | A new session and its first step, or an already terminal skip. |
| `Obtain.ErrorsExact` | crates/cleverbase-attestation/src/issuance/obtain.rs:305-402 | A resume is an error if and only if the session is over, the input is of the wrong kind, or the signature is not 64 bytes long, and each has its own error: the missing-state branches are never taken. |
| `Obtain.FailureExact` | crates/cleverbase-attestation/src/issuance/obtain.rs:305-402 | A step ends the flow with a failure exactly when its leg has none of what it needs: no token, no nonce, no proof; a response with a transaction id, or with status 202, is a deferral that keeps that id; any other response that does not issue is a failed credential request. |
| `Obtain.RunKeepsProtocol` | crates/cleverbase-attestation/src/issuance/obtain.rs:273-402 | Every run emits a prefix of token, nonce, sign, credential, each with what the host answered earlier in the same run; nothing follows a terminal step. |
| `Obtain.NoIssuerSkips` | crates/cleverbase-attestation/src/issuance/obtain.rs:273-296 | Without an issuer every run is one skip. |
| `Obtain.RequestIsBound` | crates/cleverbase-attestation/src/issuance/obtain.rs:471-493 | The credential request carries the run's token, the offered configuration and exactly one proof, which names the configured issuer and the run's nonce. |
| `Obtain.TokenGoesToTheCredentialEndpoint` | crates/cleverbase-attestation/src/issuance/obtain.rs:305-400 | Over every run: the signing step is the third, every other step that leaves the session is a request to the endpoint of its leg with the content type of that leg, and only the credential request is authorized, by exactly the token the host answered earlier in this run. |
| `Obtain.ObtainedFromTheIssuer` | crates/cleverbase-attestation/src/issuance/obtain.rs:553-586 | Over every run: a credential is obtained only from an answer of that run which is an immediate success response holding it in the offered format, and only after the host answered with its signature. |
| `Qualified.SortIsStable` | crates/cleverbase-attestation/src/qualified/mod.rs:424-427 | The sorted history is ascending, a permutation, and keeps the order of records that start together. |
| `Qualified.EffectiveExact` | crates/cleverbase-attestation/src/qualified/mod.rs:212-219 | The effective status is that of the listed record in force: the latest started one, the last listed among equals. |
| `Qualified.CoversExact` | crates/cleverbase-attestation/src/qualified/mod.rs:225-254 | A service covers a certificate if and only if its fields list the certificate itself, its key identifier, or the name and key identifier of the CA that the certificate names; a bare key identifier takes precedence over the listed certificate's. |
| `Qualified.ParseService` | crates/cleverbase-attestation/src/qualified/mod.rs:399-435 | One service entry is parsed and its history sorted, or the first error returned. |
| `Qualified.Parse` | crates/cleverbase-attestation/src/qualified/mod.rs:388-441 | The whole list is parsed in order, or the first error returned. |
| `Qualified.ParsesExactly` | crates/cleverbase-attestation/src/qualified/mod.rs:388-441 | A list parses if and only if its update time, every base64 body and every starting time can be read. |
| `Qualified.HistoryExact` | crates/cleverbase-attestation/src/qualified/mod.rs:413-423 | The history that is read has the listed records, in their order, each with the instant its time denotes. |
| `Qualified.FoldExact` | crates/cleverbase-attestation/src/verify.rs:491-507 | The fold is qualified if and only if there are documents and all qualify, and indeterminate if and only if there are none or one is. |
| `Qualified.NeverByNameAlone` | crates/cleverbase-attestation/src/qualified/mod.rs:225-254 | A certificate is read as qualified only when a granted service lists it byte for byte or shares a key identifier with it, never on a name alone. |
| `Qualified.ReadExact` | crates/cleverbase-attestation/src/qualified/mod.rs:617-653 | On the raw list: undecided if and only if the issuer does not declare the qualified type or no listed service covers it; qualified if and only if it declares it and a service that covers it was granted at that time; not qualified if and only if it declares it, a service covers it and none that does was granted. |
| `Qualified.GateExact` | crates/cleverbase-attestation/src/verify.rs:330-480 | With the gate on and a valid response: qualified if and only if the raw list is signed under a configured anchor and fresh now, there is an issuer, and each was granted at its own issuance time; not qualified if and only if the list is authentic, each issuer is decided and one was not granted; indeterminate if and only if the list is missing or not authentic, there is no issuer, or one is undecided. |
| `Qualified.GateOff` | crates/cleverbase-attestation/src/verify.rs:325-365 | There is no status exactly when the gate is off or the response is not valid. |
| `Qualified.EveryDocumentQualifies` | crates/cleverbase-attestation/src/verify.rs:395-507 | A qualified verdict covers every document of the response: each discloses the qualified category and was granted by its own issuer's services at its own issuance time. |
| `RustdocCrate.ReachableModules` | scripts/rustdoc_json_to_markdown.py:53-72 | The worklist returns exactly the modules with a chain from the root through members and one re-export hop. |
| `RustdocCrate.Crate.constructor` | scripts/rustdoc_json_to_markdown.py:39-80 | The owned ids are exactly the non-re-export members of reachable modules. |
| `RustdocCrate.Crate.CollectModuleItems` | scripts/rustdoc_json_to_markdown.py:382-407 | The page loop with its set of seen ids computes the page. |
| `RustdocCrate.ShownOnce` | scripts/rustdoc_json_to_markdown.py:382-407 | No page shows an item twice. |
| `RustdocCrate.NothingDropped` | scripts/rustdoc_json_to_markdown.py:39-80 | Whatever a reachable module exposes is on the page of some reachable module. |

## Left out

- Cryptography and certificates (hashes, ES256, COSE and JWS verification, X.509 chains, trust anchors): arbitrary functions.
- Decoding of CBOR, JSON, PDF and DER certificates by their libraries: function parameters with the laws above, where one is needed.
- SD-JWT VC verification, the OpenID4VP binding and multi-presentation evaluation, PDF signing and embedding, trust-list XML, status-list tokens, session and wire envelopes, and the language bindings: not part of this model.
- The SD-JWT arm of `prepare_present` beyond locating and choosing what to conceal: the presentation builder is a library. Disclosures inside other disclosures are not on the walk.
- `NumericDate` rounding of floating-point seconds in `datetime.rs`: rounding only.
- `MarkdownBuilder` and type rendering of the documentation script: string formatting.
- IssuerItemScan.ScanRawIssuerItems: after a document fails to scan, which later elements are captured under which document is what the code does; the theorems say that each record is genuine, not where it lands.
- DisclosurePaths.ObjectPathsExact: the `selector` of a path is the trimmed pointer; with empty JSON keys two pointers can share a selector, so injectivity is stated for pointers only.
- ClaimsPath.SelectableExact: sequences have no length bound here, so an index that no real array could hold counts as selectable.
- Calendar.DaysOfCivil: stated over all integers; that `i64` does not overflow is proved for split instants and for the checked conversion, not for arbitrary arguments of the unchecked functions.
- Obtain.ObtainSession.Resume: the source drops a session whose resume is an error, so nothing is said of its fields then; a run continues from the session the host kept.
- Messages that only describe a failure are left out of the error values.
- One-byte simple values below 32 are accepted as the cursor accepts them, although section 3.3 of RFC 8949 reserves them.
- The percent-encoder of `obtain.rs` repeats the one in `util.rs`, and the base64 of JWS segments comes from a library; each is modelled once.
