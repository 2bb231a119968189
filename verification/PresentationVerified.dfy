/**
  What the holder signs is what the verifier rebuilds, and a finished presentation of an acceptable
  credential is accepted with exactly the requested claims.
*/
module PresentationVerified {
  import opened Prelude
  import CborWire
  import opened CborCursor
  import opened CborValue
  import opened CborEncoding
  import opened IssuerItemScan
  import opened Disclosure
  import opened DeviceAuthentication
  import opened Pruning
  import opened PrunedCapture
  import opened PrunedVerification
  import opened MdocVerify
  import opened Presentation

  lemma KeysDiffer()
    ensures Lit("deviceSigned") != Lit("issuerSigned") && Lit("deviceSigned") != Lit("docType")
    ensures Lit("issuerSigned") != Lit("docType") && Lit("nameSpaces") != Lit("deviceAuth")
    ensures Lit("nameSpaces") != Lit("issuerAuth")
  {
    assert Lit("deviceSigned")[0] != Lit("issuerSigned")[0];
    assert Lit("nameSpaces")[0] != Lit("deviceAuth")[0];
    assert Lit("nameSpaces")[0] != Lit("issuerAuth")[0];
    assert |Lit("deviceSigned")| != |Lit("docType")|;
    assert |Lit("issuerSigned")| != |Lit("docType")|;
  }

  /** Pruning a document leaves its docType, its device-signed part and its issuer signature alone. */
  lemma PrunedDocumentLookups(doc: Value, disclose: set<Text>, decode: Decoder)
    requires PruneDocument(disclose, decode)(doc).Ok?
    ensures var doc' := PruneDocument(disclose, decode)(doc).value;
            && GetMapEntry(doc', Lit("docType")) == GetMapEntry(doc, Lit("docType"))
            && GetMapEntry(doc', Lit("deviceSigned")) == GetMapEntry(doc, Lit("deviceSigned"))
            && (GetMapEntry(doc, Lit("issuerSigned")).Some? ==>
                  && GetMapEntry(doc', Lit("issuerSigned")).Some?
                  && GetMapEntry(GetMapEntry(doc', Lit("issuerSigned")).value, Lit("issuerAuth"))
                     == GetMapEntry(GetMapEntry(doc, Lit("issuerSigned")).value, Lit("issuerAuth")))
  {
    hide ReplaceEntries, FindText, HasKey, Lit, PruneNameSpaces;
    KeysDiffer();
    var prune := PruneNameSpaces(disclose, decode);
    var inner := Replacing(Lit("nameSpaces"), false, prune);
    FindReplaced(doc.entries, Lit("issuerSigned"), inner, Lit("docType"));
    FindReplaced(doc.entries, Lit("issuerSigned"), inner, Lit("deviceSigned"));
    FindReplaced(doc.entries, Lit("issuerSigned"), inner, Lit("issuerSigned"));
    if GetMapEntry(doc, Lit("issuerSigned")).Some? {
      FindReplaced(GetMapEntry(doc, Lit("issuerSigned")).value.entries, Lit("nameSpaces"), prune, Lit("issuerAuth"));
    }
  }

  /** The splice leaves docType, issuer part and device namespaces alone and installs the signature. */
  lemma SignedDocumentLookups(doc: Value, signature: Value)
    requires SignDocument(signature)(doc).Ok?
    ensures var doc' := SignDocument(signature)(doc).value;
            && GetMapEntry(doc', Lit("docType")) == GetMapEntry(doc, Lit("docType"))
            && GetMapEntry(doc', Lit("issuerSigned")) == GetMapEntry(doc, Lit("issuerSigned"))
            && DeviceNameSpaces(doc') == DeviceNameSpaces(doc)
            && DeviceSignature(doc') == Ok(signature)
  {
    hide ReplaceEntries, FindText, HasKey, Lit;
    KeysDiffer();
    var install := NewDeviceAuth(signature);
    var inner := Replacing(Lit("deviceAuth"), true, install);
    FindReplaced(doc.entries, Lit("deviceSigned"), inner, Lit("docType"));
    FindReplaced(doc.entries, Lit("deviceSigned"), inner, Lit("issuerSigned"));
    FindReplaced(doc.entries, Lit("deviceSigned"), inner, Lit("deviceSigned"));
    var deviceSigned := GetMapEntry(doc, Lit("deviceSigned")).value;
    FindReplaced(deviceSigned.entries, Lit("deviceAuth"), install, Lit("nameSpaces"));
    FindReplaced(deviceSigned.entries, Lit("deviceAuth"), install, Lit("deviceAuth"));
    FindFirst(Lit("deviceSignature"), signature);
  }

  lemma FindFirst(key: Text, v: Value)
    ensures GetMapEntry(CborMap([Pair(CborText(key), v)]), key) == Some(v)
  {
  }

  lemma SignRepresentable(signature: Value)
    requires Representable(signature)
    ensures KeepsRepresentable(Replacing(Lit("documents"), true, SignDocuments(signature)))
  {
    hide Representable, ReplaceMapEntry, AllRepresentable, MapItems;
    var install := NewDeviceAuth(signature);
    InstallRepresentable(signature);
    ReplacingRepresentable(Lit("deviceAuth"), true, install);
    ReplacingRepresentable(Lit("deviceSigned"), true, Replacing(Lit("deviceAuth"), true, install));
    var f := SignDocuments(signature);
    forall v | Representable(v) && f(v).Ok? ensures Representable(f(v).value) {
      ArrayRepresentable(v);
      ItemsRepresentable(v.items, SignDocument(signature));
      ArrayRepresentable(f(v).value);
    }
    KeepsIntro(f);
    ReplacingRepresentable(Lit("documents"), true, f);
  }

  lemma ArrayRepresentable(v: Value)
    requires v.CborArray?
    ensures Representable(v) <==> |v.items| < U64_RANGE && AllRepresentable(v.items)
  {
  }

  lemma InstallRepresentable(signature: Value)
    requires Representable(signature)
    ensures KeepsRepresentable(NewDeviceAuth(signature))
  {
    LitRepresentable("deviceSignature");
    hide Representable, Lit;
    OneEntryRepresentable(Pair(CborText(Lit("deviceSignature")), signature));
  }

  lemma OneEntryRepresentable(e: Pair)
    requires Representable(e.key) && Representable(e.value)
    ensures Representable(CborMap([e]))
  {
    assert [e][1..] == [];
    assert PairRepresentable(e) && PairsRepresentable([e]);
  }

  /** The finished response, as the verifier decodes it. */
  lemma Finished(c: Codec, deviceResponse: Bytes, transcript: Bytes, disclose: set<Text>, signatureCbor: Bytes)
    requires Lawful(c) && c.decode(deviceResponse).Some? && Representable(c.decode(deviceResponse).value)
    requires PrepareMdoc(c, deviceResponse, transcript, disclose).Ok?
    requires var prepared := PrepareMdoc(c, deviceResponse, transcript, disclose).value;
             Finish(c, prepared, signatureCbor).Ok? && Representable(c.decode(signatureCbor).value)
    ensures var response := c.decode(deviceResponse).value;
            var final := Finish(c, PrepareMdoc(c, deviceResponse, transcript, disclose).value, signatureCbor).value;
            var signature := c.decode(signatureCbor).value;
            && PruneIssuerSigned(response, disclose, c.decode).Ok?
            && (var pruned := PruneIssuerSigned(response, disclose, c.decode).value;
                && Representable(pruned)
                && ReplaceDeviceSignature(pruned, signature).Ok?
                && (var rebuilt := ReplaceDeviceSignature(pruned, signature).value;
                    Representable(rebuilt) && final == Canonical(rebuilt) && c.decode(final) == Some(rebuilt)))
  {
    hide PruneIssuerSigned, ReplaceMapEntry, Representable, FirstDocType, FirstDeviceNameSpacesBytes, BuildDeviceAuthentication,
         IssuedElementIdentifiers, DocumentCount;
    var response := c.decode(deviceResponse).value;
    PruneRepresentable(response, disclose, c.decode);
    var pruned := PruneIssuerSigned(response, disclose, c.decode).value;
    var signature := c.decode(signatureCbor).value;
    SignRepresentable(signature);
    assert Replacing(Lit("documents"), true, SignDocuments(signature))(pruned) == ReplaceDeviceSignature(pruned, signature);
  }

  /** The one document of the finished response. */
  lemma FinishedDocument(response: Value, disclose: set<Text>, decode: Decoder, signature: Value)
    requires PruneIssuerSigned(response, disclose, decode).Ok?
    requires ReplaceDeviceSignature(PruneIssuerSigned(response, disclose, decode).value, signature).Ok?
    ensures DocumentsIn(response).Some? && |DocumentsIn(response).value| == 1
    ensures PruneDocument(disclose, decode)(DocumentsIn(response).value[0]).Ok?
    ensures var doc' := PruneDocument(disclose, decode)(DocumentsIn(response).value[0]).value;
            && DocumentsIn(PruneIssuerSigned(response, disclose, decode).value) == Some([doc'])
            && SignDocument(signature)(doc').Ok?
            && DocumentsIn(ReplaceDeviceSignature(PruneIssuerSigned(response, disclose, decode).value, signature).value)
               == Some([SignDocument(signature)(doc').value])
  {
    hide ReplaceEntries, FindText, HasKey, MapItems, Lit, PruneDocument, SignDocument;
    var pruned := PruneIssuerSigned(response, disclose, decode).value;
    FindReplaced(response.entries, Lit("documents"), PruneDocuments(disclose, decode), Lit("documents"));
    FindReplaced(pruned.entries, Lit("documents"), SignDocuments(signature), Lit("documents"));
    var docs := DocumentsIn(response).value;
    MapNothing(PruneDocument(disclose, decode));
    if docs != [] {
      MapItemsAt(docs, PruneDocument(disclose, decode), 0);
      var docs' := DocumentsIn(pruned).value;
      assert docs' == [docs'[0]];
      MapItemsAt(docs', SignDocument(signature), 0);
      var docs'' := MapItems(docs', SignDocument(signature)).value;
      assert docs'' == [docs''[0]];
    }
  }

  /**
    Signed bytes equal verified bytes: the verifier rebuilds from the finished response the payload
    the holder signed, and reads the holder's signature, exactly when the held document carries
    `deviceSigned.nameSpaces`; without it the verifier rebuilds nothing.
  */
  lemma SignedIsVerified(k: Checks, deviceResponse: Bytes, transcript: Bytes, disclose: set<Text>, signatureCbor: Bytes)
    requires var c := k.codec;
             && Lawful(c) && c.decode(deviceResponse).Some? && Representable(c.decode(deviceResponse).value)
             && PrepareMdoc(c, deviceResponse, transcript, disclose).Ok?
             && Finish(c, PrepareMdoc(c, deviceResponse, transcript, disclose).value, signatureCbor).Ok?
             && Representable(c.decode(signatureCbor).value)
    ensures var c := k.codec;
            var response, prepared := c.decode(deviceResponse).value, PrepareMdoc(c, deviceResponse, transcript, disclose).value;
            var root := c.decode(Finish(c, prepared, signatureCbor).value);
            && root.Some? && DocumentsIn(response).Some? && |DocumentsIn(response).value| == 1
            && DocumentsIn(root.value).Some? && |DocumentsIn(root.value).value| == 1
            && (var held, doc := DocumentsIn(response).value[0], DocumentsIn(root.value).value[0];
                && FirstDocType(response).Some? && GetText(doc, Lit("docType")) == FirstDocType(response)
                && DeviceSignature(doc) == Ok(c.decode(signatureCbor).value)
                && c.decode(transcript).Some?
                && (RebuiltPayload(k, doc, FirstDocType(response).value, c.decode(transcript).value)
                    == if DeviceNameSpaces(held).Some? then Some(prepared.payload) else None))
  {
    hide PruneIssuerSigned, ReplaceDeviceSignature, Representable, BuildDeviceAuthentication, IssuedElementIdentifiers,
      PruneDocument, SignDocument, Reencode, Lit, GetMapEntry, DeviceSignature;
    var c := k.codec;
    var response, signature := c.decode(deviceResponse).value, c.decode(signatureCbor).value;
    Finished(c, deviceResponse, transcript, disclose, signatureCbor);
    FinishedDocument(response, disclose, c.decode, signature);
    var held := DocumentsIn(response).value[0];
    PrunedDocumentLookups(held, disclose, c.decode);
    SignedDocumentLookups(PruneDocument(disclose, c.decode)(held).value, signature);
  }

  // ---------------------------------------------------------------------------------------------
  // The splice leaves the capture alone
  // ---------------------------------------------------------------------------------------------

  lemma {:induction false} FoldIgnored<A(!new)>(entries: seq<Pair>, key: Text, f: Transform, acc: A, h: (Text, Value, A) -> Option<A>)
    requires ReplaceEntries(entries, key, f).Ok?
    requires forall v, a {:trigger h(key, v, a)} :: h(key, v, a) == Some(a)
    ensures FoldPairs(ReplaceEntries(entries, key, f).value, acc, h) == FoldPairs(entries, acc, h)
    decreases |entries|
  {
    if entries != [] {
      var e, rest := entries[0], entries[1..];
      var out := ReplaceEntries(rest, key, f).value;
      assert ReplaceEntries(entries, key, f).value[1..] == out;
      if e.key.CborText? {
        var next := h(e.key.text, e.value, acc);
        if next.Some? {
          FoldIgnored(rest, key, f, next.value, h);
        }
      } else {
        FoldIgnored(rest, key, f, acc, h);
      }
    }
  }

  lemma SignedDocumentCapture(doc: Value, signature: Value, decode: Decoder)
    requires SignDocument(signature)(doc).Ok?
    ensures DocumentOf(SignDocument(signature)(doc).value, decode) == DocumentOf(doc, decode)
  {
    hide ReplaceEntries, FoldPairs, HasKey, Lit, FoldMapValue;
    KeysDiffer();
    var inner := Replacing(Lit("deviceAuth"), true, NewDeviceAuth(signature));
    FoldIgnored(doc.entries, Lit("deviceSigned"), inner, map[], ValueDocument(decode));
    MapFold(doc, map[], ValueDocument(decode));
    MapFold(SignDocument(signature)(doc).value, map[], ValueDocument(decode));
  }

  lemma MapFold<A>(v: Value, acc: A, h: (Text, Value, A) -> Option<A>)
    requires v.CborMap?
    ensures FoldMapValue(v, acc, h) == FoldPairs(v.entries, acc, h)
  {
  }

  ghost function Same(): (seq<RawDocumentItems>, seq<RawDocumentItems>) -> bool {
    (a, b) => a == b
  }

  lemma SignCommutes(signature: Value, decode: Decoder)
    ensures Commutes(Lit("documents"), SignDocuments(signature), ValueResponse(decode), Same())
  {
    hide MapItems, SignDocument, DocumentOf, DocumentsOf;
    var key, f, h, rel := Lit("documents"), SignDocuments(signature), ValueResponse(decode), Same();
    forall v: Value, a: seq<RawDocumentItems>, a': seq<RawDocumentItems> | rel(a', a) && f(v).Ok? && h(key, v, a).Some?
      ensures h(key, f(v).value, a').Some? && rel(h(key, f(v).value, a').value, h(key, v, a).value)
    {
      MapItemsAt(v.items, SignDocument(signature), 0);
      SignedDocumentCapture(v.items[0], signature, decode);
      OneDocumentOf(v.items, a, decode);
      OneDocumentOf(f(v).value.items, a, decode);
    }
  }

  lemma OneDocumentOf(items: seq<Value>, acc: seq<RawDocumentItems>, decode: Decoder)
    requires |items| == 1
    ensures DocumentsOf(items, acc, decode)
         == match DocumentOf(items[0], decode) { case None => None case Some(doc) => Some(acc + [doc]) }
  {
    assert items[1..] == [];
  }

  lemma SignedCapture(pruned: Value, signature: Value, decode: Decoder)
    requires ReplaceDeviceSignature(pruned, signature).Ok? && ResponseOf(pruned, decode).Some?
    ensures ResponseOf(ReplaceDeviceSignature(pruned, signature).value, decode) == ResponseOf(pruned, decode)
  {
    hide ReplaceEntries, FoldPairs, ValueResponse, SignDocuments, HasKey, Lit;
    SignCommutes(signature, decode);
    FoldReplaced(pruned.entries, Lit("documents"), SignDocuments(signature), ValueResponse(decode), Same(), [], []);
  }

  // ---------------------------------------------------------------------------------------------
  // The whole ceremony
  // ---------------------------------------------------------------------------------------------

  /** The held document passes the issuer-side checks and its digests disclose `d`. */
  ghost predicate Acceptable(k: Checks, held: Value, raw: RawDocumentItems, params: Params, a: Authenticated, key: Bytes, d: Disclosed) {
    && GetMapEntry(held, Lit("issuerSigned")).Some?
    && IssuerAuthOf(k, GetMapEntry(held, Lit("issuerSigned")).value) == Ok(a)
    && StatusFailure(ResolveStatus(k, a.reference, StatusAt(params.statuses, 0), params.tokens)) == None
    && GetText(a.mso, Lit("docType")) == GetText(held, Lit("docType"))
    && VerifyValueDigests(GetMapEntry(held, Lit("issuerSigned")).value, Some(raw), a.mso, a.digest) == Ok(d)
    && k.deviceKey(a.mso) == Ok(key)
  }

  /** The gates around `documents` read entries the holder does not touch. */
  lemma EnvelopeKept(response: Value, disclose: set<Text>, decode: Decoder, signature: Value)
    requires PruneIssuerSigned(response, disclose, decode).Ok?
    requires ReplaceDeviceSignature(PruneIssuerSigned(response, disclose, decode).value, signature).Ok?
    requires Documents(response).Some?
    ensures var root := ReplaceDeviceSignature(PruneIssuerSigned(response, disclose, decode).value, signature).value;
            Documents(root) == DocumentsIn(root)
  {
    hide ReplaceEntries, FindText, HasKey, PruneDocuments, SignDocuments;
    var pruned := PruneIssuerSigned(response, disclose, decode).value;
    assert |Lit("documents")| != |Lit("version")| && |Lit("documents")| != |Lit("status")|;
    FindReplaced(response.entries, Lit("documents"), PruneDocuments(disclose, decode), Lit("version"));
    FindReplaced(response.entries, Lit("documents"), PruneDocuments(disclose, decode), Lit("status"));
    FindReplaced(pruned.entries, Lit("documents"), SignDocuments(signature), Lit("version"));
    FindReplaced(pruned.entries, Lit("documents"), SignDocuments(signature), Lit("status"));
    FinishedDocument(response, disclose, decode, signature);
  }

  /** The whole response is one the holder prepared from `t` and finished. */
  ghost predicate Presented(c: Codec, t: CborWire.Item, transcript: Bytes, disclose: set<Text>, signatureCbor: Bytes) {
    && Lawful(c) && CborWire.Valid(t)
    && c.decode(CborWire.Encode(t)).Some? && Denotes(t, c.decode(CborWire.Encode(t)).value)
    && ScanResponse(CborWire.Encode(t), c.decode).Some? && ScanResponse(CborWire.Encode(t), c.decode).value.acc != []
    && PrepareMdoc(c, CborWire.Encode(t), transcript, disclose).Ok?
    && Finish(c, PrepareMdoc(c, CborWire.Encode(t), transcript, disclose).value, signatureCbor).Ok?
    && Representable(c.decode(signatureCbor).value)
  }

  /** The document a response holds, and what the scan captures from it. */
  function HeldOf(c: Codec, deviceResponse: Bytes): Value {
    match c.decode(deviceResponse)
    case None => CborNull
    case Some(root) =>
      match Documents(root)
      case None => CborNull
      case Some(documents) => if documents == [] then CborNull else documents[0]
  }

  function CaptureOf(c: Codec, deviceResponse: Bytes): RawDocumentItems {
    match ScanResponse(deviceResponse, c.decode)
    case None => map[]
    case Some(scanned) => if scanned.acc == [] then map[] else scanned.acc[0]
  }

  /** The signature checks over the prepared payload. */
  ghost predicate Signs(k: Checks, deviceResponse: Bytes, transcript: Bytes, disclose: set<Text>, signatureCbor: Bytes, key: Bytes) {
    match (PrepareMdoc(k.codec, deviceResponse, transcript, disclose), k.codec.decode(signatureCbor))
    case (Ok(prepared), Some(signature)) => k.coseWellFormed(signature) && k.deviceSignatureOk(signature, prepared.payload, key)
    case _ => false
  }

  /**
    A presentation ceremony: the envelope is in order, the held document passes the issuer-side checks
    with the claims `d`, the holder prepares and finishes it for the verifier's transcript, and the
    holder's signature checks.
  */
  ghost predicate Ceremony(k: Checks, t: CborWire.Item, transcript: Bytes, disclose: set<Text>, signatureCbor: Bytes,
                           params: Params, a: Authenticated, key: Bytes, d: Disclosed)
  {
    && Presented(k.codec, t, transcript, disclose, signatureCbor)
    && Documents(k.codec.decode(CborWire.Encode(t)).value).Some?
    && Acceptable(k, HeldOf(k.codec, CborWire.Encode(t)), CaptureOf(k.codec, CborWire.Encode(t)), params, a, key, d)
    && params.sessionTranscript == Some(transcript)
    && Signs(k, CborWire.Encode(t), transcript, disclose, signatureCbor, key)
  }

  /** The entries of `issuerSigned.nameSpaces`. */
  function ListedEntries(doc: Value): seq<Pair> {
    match GetMapEntry(doc, Lit("issuerSigned"))
    case None => []
    case Some(issuerSigned) => match NameSpaces(issuerSigned) { case None => [] case Some(entries) => entries }
  }

  function ListedNames(entries: seq<Pair>): set<Text> {
    set e | e in entries && e.key.CborText? :: e.key.text
  }

  /** Pruning does the document no harm: counts agree, and rewriting heads keeps the signed digests. */
  ghost predicate Intact(entries: seq<Pair>, raw: RawDocumentItems, disclose: set<Text>, decode: Decoder, digest: Digest) {
    CountsAgree(entries, raw, disclose, decode) && FramingSigned(entries, raw, disclose, digest)
  }

  // ---------------------------------------------------------------------------------------------
  // A damaged document is refused, not shortened
  // ---------------------------------------------------------------------------------------------

  /** On a listing of the right shape the digest check fails in one way. */
  lemma {:induction false} ShapedChecksFail(entries: seq<Pair>, raw: RawDocumentItems, valueDigests: seq<Pair>,
                                           digest: Digest, acc: Disclosed)
    requires forall e :: e in entries ==> e.key.CborText? && e.value.CborArray?
    ensures CheckNameSpaces(entries, raw, valueDigests, digest, acc).Err? ==>
              CheckNameSpaces(entries, raw, valueDigests, digest, acc) == Err(DisclosureIntegrity)
    decreases |entries|
  {
    hide CheckRecords, ExpectedById, FindText, MergeAll, FreshIds, DigestMatches, TriplesOf;
    if entries != [] {
      var e := entries[0];
      assert e in entries;
      var ns := e.key.text;
      if ns in raw && AsMap(FindText(valueDigests, ns)).Some? {
        CheckRecordsExact(raw[ns], ExpectedById(AsMap(FindText(valueDigests, ns)).value), {}, ns, digest, acc);
      }
      var r := CheckNameSpace(e, raw, valueDigests, digest, acc);
      if r.Ok? {
        ShapedChecksFail(entries[1..], raw, valueDigests, digest, r.value);
      }
    }
  }

  /** When every requested identifier is issued, the name space of a disclosed element keeps an element. */
  lemma AskedIsListed(entries: seq<Pair>, disclose: set<Text>, decode: Decoder, ns: Text, id: Text)
    requires disclose <= QualifiedAll(NamesInEntries(entries, decode)) && Separated(ListedNames(entries))
    requires ns in ListedNames(entries) && QualifiedElementId(ns, id) in disclose
    ensures KeptElsewhere(CborText(ns), entries, disclose, decode)
  {
    hide KeptItems, NamesInItems, QualifiedElementId, Separated, PrunedTo;
    var n :| n in NamesInEntries(entries, decode) && Qualified(n) == QualifiedElementId(ns, id);
    var e :| e in entries && n in NamesInEntry(e, decode);
    NameOf(e, decode, n);
    assert e.key.text in ListedNames(entries);
    QualifiedInjective(ListedNames(entries), n.ns, n.id, ns, id);
    AskedIsKept(e, disclose, decode, n);
  }

  lemma NameOf(e: Pair, decode: Decoder, n: ElementName)
    requires n in NamesInEntry(e, decode)
    ensures e.key == CborText(n.ns)
  {
  }

  /**
    Between separated name spaces, pruning never yields a document that is accepted with less than it
    should disclose: it discloses all of it or fails the digest check.
  */
  lemma NeverLess(issuerSigned: Value, issuerSigned': Value, raw: RawDocumentItems, raw': RawDocumentItems,
                  mso: Value, digest: Digest, disclose: set<Text>, decode: Decoder, d: Disclosed)
    requires VerifyValueDigests(issuerSigned, Some(raw), mso, digest) == Ok(d)
    requires NameSpaces(issuerSigned).Some? && PruneEntries(NameSpaces(issuerSigned).value, disclose, decode).Ok?
    requires NameSpaces(issuerSigned') == Some(PruneEntries(NameSpaces(issuerSigned).value, disclose, decode).value)
    requires Rewritten(raw', raw, disclose)
    requires disclose <= QualifiedAll(NamesInEntries(NameSpaces(issuerSigned).value, decode))
    requires Separated(ListedNames(NameSpaces(issuerSigned).value))
    ensures var r := VerifyValueDigests(issuerSigned', Some(raw'), mso, digest);
            r == Ok(Restrict(d, disclose)) || r == Err(DisclosureIntegrity)
  {
    hide VerifyValueDigests, PruneEntries, NameSpaces, ValueDigests, AllSigned, Triples, Rewritten, Restrict, Qualified, QualifiedAll,
      NamesInEntries, Separated, KeptElsewhere, NoEmptyGroup, CheckNameSpaces, QualifiedElementId;
    var entries := NameSpaces(issuerSigned).value;
    var out := PruneEntries(entries, disclose, decode).value;
    DisclosureExact(issuerSigned, Some(raw), mso, digest, d);
    RestrictExact(d, disclose);
    SignedShape(entries, raw, ValueDigests(mso).value, digest);
    PrunedShape(entries, disclose, decode);
    ListingChecked(issuerSigned', raw', mso, digest);
    ShapedChecksFail(out, raw', ValueDigests(mso).value, digest, map[]);
    var r := VerifyValueDigests(issuerSigned', Some(raw'), mso, digest);
    if r.Ok? {
      DisclosureExact(issuerSigned', Some(raw'), mso, digest, r.value);
      forall t ensures t in Triples(r.value) <==> t in Triples(Restrict(d, disclose)) {
        SameListing(entries, raw, raw', disclose, decode, t);
      }
      TriplesDetermine(r.value, Restrict(d, disclose));
    }
  }

  lemma SameListing(entries: seq<Pair>, raw: RawDocumentItems, raw': RawDocumentItems, disclose: set<Text>, decode: Decoder, t: Triple)
    requires PruneEntries(entries, disclose, decode).Ok? && Rewritten(raw', raw, disclose)
    requires disclose <= QualifiedAll(NamesInEntries(entries, decode)) && Separated(ListedNames(entries))
    ensures Disclosure.Listed(PruneEntries(entries, disclose, decode).value, raw', t)
       <==> Disclosure.Listed(entries, raw, t) && Qualifies(t, disclose)
  {
    hide PruneEntries, Rewritten, KeptElsewhere, NamesInEntries, Qualified, Separated, TripleOf, QualifiedElementId;
    if Disclosure.Listed(PruneEntries(entries, disclose, decode).value, raw', t) {
      OnlyDisclosedListed(entries, raw, raw', disclose, decode, t);
    }
    if Disclosure.Listed(entries, raw, t) && Qualifies(t, disclose) {
      var e, r :| e in entries && e.key == CborText(t.ns) && t.ns in raw && r in raw[t.ns] && t == TripleOf(t.ns, r);
      assert t.ns in ListedNames(entries);
      AskedIsListed(entries, disclose, decode, t.ns, t.id);
      StaysListed(entries, raw, raw', disclose, decode, t);
    }
  }

  lemma PrunedShape(entries: seq<Pair>, disclose: set<Text>, decode: Decoder)
    requires PruneEntries(entries, disclose, decode).Ok? && forall e :: e in entries ==> e.key.CborText?
    ensures forall e :: e in PruneEntries(entries, disclose, decode).value ==> e.key.CborText? && e.value.CborArray?
  {
    hide PruneEntries, KeptItems;
    PrunedEntries(entries, disclose, decode);
  }

  lemma ListingChecked(issuerSigned: Value, raw: RawDocumentItems, mso: Value, digest: Digest)
    requires NameSpaces(issuerSigned).Some? && ValueDigests(mso).Some?
    ensures VerifyValueDigests(issuerSigned, Some(raw), mso, digest)
         == CheckNameSpaces(NameSpaces(issuerSigned).value, raw, ValueDigests(mso).value, digest, map[])
  {
  }

  /** What the verifier says of the one document of a response; None when there is not exactly one. */
  function OnlyVerdict(k: Checks, deviceResponse: Bytes, params: Params): Option<Result<OneDocument, Reason>> {
    match (k.codec.decode(deviceResponse), ScanResponse(deviceResponse, k.codec.decode))
    case (Some(root), Some(scanned)) =>
      (match Documents(root)
       case Some(documents) => if |documents| == 1 then Some(DocumentAt(k, documents, scanned.acc, params, 0)) else None
       case None => None)
    case _ => None
  }

  /** Prepare, finish, verify; None when the holder refuses or presents something else than one document. */
  function PresentedVerdict(k: Checks, deviceResponse: Bytes, transcript: Bytes, disclose: set<Text>, signatureCbor: Bytes,
                            params: Params): Option<Result<OneDocument, Reason>>
  {
    match PrepareMdoc(k.codec, deviceResponse, transcript, disclose)
    case Err(_) => None
    case Ok(prepared) =>
      match Finish(k.codec, prepared, signatureCbor)
      case Err(_) => None
      case Ok(final) => OnlyVerdict(k, final, params)
  }

  /** The digest check of the pruned document. */
  function PrunedCheck(c: Codec, response: Value, disclose: set<Text>, a: Authenticated): Result<Disclosed, Reason> {
    match PruneIssuerSigned(response, disclose, c.decode)
    case Err(_) => Err(MalformedCredential)
    case Ok(pruned) =>
      match (DocumentsIn(pruned), ScanResponse(c.encode(pruned), c.decode))
      case (Some(docs), Some(scanned)) =>
        if docs == [] || GetMapEntry(docs[0], Lit("issuerSigned")).None? then Err(MalformedCredential)
        else VerifyValueDigests(GetMapEntry(docs[0], Lit("issuerSigned")).value, RawAt(scanned.acc, 0), a.mso, a.digest)
      case _ => Err(MalformedCredential)
  }

  lemma EnvelopedDocuments(root: Value)
    requires Documents(root).Some?
    ensures DocumentsIn(root) == Documents(root)
  {
  }

  lemma HeldScanned(c: Codec, t: CborWire.Item, transcript: Bytes, disclose: set<Text>, signatureCbor: Bytes)
    requires Presented(c, t, transcript, disclose, signatureCbor)
    ensures var response := c.decode(CborWire.Encode(t)).value;
            && Representable(response) && PruneIssuerSigned(response, disclose, c.decode).Ok?
            && DocumentsIn(response).Some? && |DocumentsIn(response).value| == 1
            && GetText(DocumentsIn(response).value[0], Lit("docType")).Some?
            && disclose <= QualifiedAll(NamesInEntries(ListedEntries(DocumentsIn(response).value[0]), c.decode))
  {
    hide Denotes, ScanResponse, PruneIssuerSigned, Representable, BuildDeviceAuthentication, FirstDocType, FirstDeviceNameSpacesBytes,
      NamesInEntries, Qualified, CborWire.Valid, CborWire.Encode, GetMapEntry, Lit, ReplaceDeviceSignature, NameSpaces;
    var response := c.decode(CborWire.Encode(t)).value;
    RepresentableOfDenotes(t, response);
    Finished(c, CborWire.Encode(t), transcript, disclose, signatureCbor);
    FinishedDocument(response, disclose, c.decode, c.decode(signatureCbor).value);
    var docs := DocumentsIn(response).value;
    assert docs == [docs[0]];
    OneDocumentNames(docs[0], c.decode);
    FirstDocTypeIs(response);
  }

  lemma FirstDocTypeIs(response: Value)
    requires DocumentsIn(response).Some? && DocumentsIn(response).value != []
    ensures FirstDocType(response) == GetText(DocumentsIn(response).value[0], Lit("docType"))
  {
  }

  lemma OneDocumentNames(doc: Value, decode: Decoder)
    ensures NamesInDocuments([doc], decode) == NamesInEntries(ListedEntries(doc), decode)
  {
    hide NameSpaces, GetMapEntry, Lit, NamesInEntry;
    assert NamesInEntries([], decode) == {};
    assert NamesInDocument(doc, decode) == NamesInEntries(ListedEntries(doc), decode);
    assert doc in [doc];
  }

  /** What the device binding makes of disclosed claims: the document needs device namespaces. */
  function Bound(held: Value, a: Authenticated, disclosed: Disclosed): Result<OneDocument, Reason> {
    match (DeviceNameSpaces(held), GetText(held, Lit("docType")))
    case (Some(_), Some(docType)) => Ok(OneDocument(docType, disclosed, a.dsCert, a.issuedAt))
    case _ => Err(MalformedCredential)
  }

  /** The verifier's answer is that of the digest check of the pruned document, then of the device binding. */
  lemma PresentedIs(k: Checks, t: CborWire.Item, transcript: Bytes, disclose: set<Text>, signatureCbor: Bytes,
                    params: Params, a: Authenticated, key: Bytes, d: Disclosed)
    requires Ceremony(k, t, transcript, disclose, signatureCbor, params, a, key, d)
    ensures PresentedVerdict(k, CborWire.Encode(t), transcript, disclose, signatureCbor, params)
         == Some(match PrunedCheck(k.codec, k.codec.decode(CborWire.Encode(t)).value, disclose, a)
                 case Err(e) => Err(e)
                 case Ok(d') => Bound(HeldOf(k.codec, CborWire.Encode(t)), a, d'))
  {
    hide PruneIssuerSigned, ReplaceDeviceSignature, Representable, BuildDeviceAuthentication, IssuedElementIdentifiers, PruneDocument,
         SignDocument, Reencode, Lit, VerifyValueDigests, Intact, ResponseOf, ScanResponse, RebuiltPayload, PruneEntries, Rewritten,
         DeviceSignature, Denotes, MinimalElements, CborWire.Valid, FindText, CborWire.Encode, PrepareMdoc, QualifiedAll;
    var c, deviceResponse := k.codec, CborWire.Encode(t);
    var response, signature := c.decode(deviceResponse).value, c.decode(signatureCbor).value;
    HeldScanned(c, t, transcript, disclose, signatureCbor);
    EnvelopedDocuments(response);
    Finished(c, deviceResponse, transcript, disclose, signatureCbor);
    FinishedDocument(response, disclose, c.decode, signature);
    SignedIsVerified(k, deviceResponse, transcript, disclose, signatureCbor);
    EnvelopeKept(response, disclose, c.decode, signature);
    var held := DocumentsIn(response).value[0];
    var prunedDoc := PruneDocument(disclose, c.decode)(held).value;
    PrunedDocumentLookups(held, disclose, c.decode);
    SignedDocumentLookups(prunedDoc, signature);
    AcceptedShape(GetMapEntry(held, Lit("issuerSigned")).value, ScanResponse(deviceResponse, c.decode).value.acc[0], a.mso, a.digest);
    PrunedView(t, response, disclose, c.decode, 0);
    FinishedCapture(PruneIssuerSigned(response, disclose, c.decode).value, signature, c.decode);
  }

  /**
    The presentation verifies.  The verifier accepts the finished response with exactly the requested
    part of `d` if and only if the held document has device namespaces and pruning does it no harm.
    Without device namespaces an unharmed document is malformed; a harmed one fails the digest check
    when no listed name space is within another.
  */
  lemma PresentationVerifies(k: Checks, t: CborWire.Item, transcript: Bytes, disclose: set<Text>, signatureCbor: Bytes,
                             params: Params, a: Authenticated, key: Bytes, d: Disclosed)
    requires Ceremony(k, t, transcript, disclose, signatureCbor, params, a, key, d)
    ensures var held, raw := HeldOf(k.codec, CborWire.Encode(t)), CaptureOf(k.codec, CborWire.Encode(t));
            var intact := Intact(ListedEntries(held), raw, disclose, k.codec.decode, a.digest);
            var verdict := PresentedVerdict(k, CborWire.Encode(t), transcript, disclose, signatureCbor, params);
            && verdict.Some? && GetText(held, Lit("docType")).Some?
            && (verdict.value == Ok(OneDocument(GetText(held, Lit("docType")).value, Restrict(d, disclose), a.dsCert, a.issuedAt))
                <==> DeviceNameSpaces(held).Some? && intact)
            && (intact && DeviceNameSpaces(held).None? ==> verdict.value == Err(MalformedCredential))
            && (!intact && Separated(ListedNames(ListedEntries(held))) ==> verdict.value == Err(DisclosureIntegrity))
  {
    hide PruneIssuerSigned, Lit, VerifyValueDigests, CountsAgree, FramingSigned, ScanResponse, Restrict, PruneEntries, Rewritten,
      Denotes, CborWire.Valid, FindText, CborWire.Encode, PrepareMdoc, Finish, PresentedVerdict, QualifiedAll, Separated,
      Documents, GetMapEntry, Signs, Representable, NamesInEntries, ListedNames, NameSpaces;
    var c, response := k.codec, k.codec.decode(CborWire.Encode(t)).value;
    HeldScanned(c, t, transcript, disclose, signatureCbor);
    EnvelopedDocuments(response);
    var held, raw := HeldOf(c, CborWire.Encode(t)), CaptureOf(c, CborWire.Encode(t));
    PresentedIs(k, t, transcript, disclose, signatureCbor, params, a, key, d);
    var issuerSigned := GetMapEntry(held, Lit("issuerSigned")).value;
    AcceptedShape(issuerSigned, raw, a.mso, a.digest);
    PrunedView(t, response, disclose, c.decode, 0);
    var pruned := PruneIssuerSigned(response, disclose, c.decode).value;
    var issuerSigned' := GetMapEntry(DocumentsIn(pruned).value[0], Lit("issuerSigned")).value;
    var raw' := ScanResponse(Canonical(pruned), c.decode).value.acc[0];
    assert c.encode(pruned) == Canonical(pruned);
    assert PrunedCheck(c, response, disclose, a) == VerifyValueDigests(issuerSigned', Some(raw'), a.mso, a.digest);
    PrunedDisclosure(issuerSigned, issuerSigned', raw, raw', a.mso, a.digest, disclose, c.decode, d);
    if Separated(ListedNames(ListedEntries(held))) {
      NeverLess(issuerSigned, issuerSigned', raw, raw', a.mso, a.digest, disclose, c.decode, d);
    }
  }

  /** The finished response is captured like the pruned one. */
  lemma FinishedCapture(pruned: Value, signature: Value, decode: Decoder)
    requires Representable(pruned) && ReplaceDeviceSignature(pruned, signature).Ok?
    requires Representable(ReplaceDeviceSignature(pruned, signature).value)
    requires ScanResponse(Canonical(pruned), decode).Some?
    ensures var final := Canonical(ReplaceDeviceSignature(pruned, signature).value);
            && ScanResponse(final, decode).Some?
            && ScanResponse(final, decode).value.acc == ScanResponse(Canonical(pruned), decode).value.acc
  {
    hide ReplaceDeviceSignature, Representable, ResponseOf, ScanResponse, Denotes, MinimalElements, CborWire.Valid, CborWire.Encode;
    var rebuilt := ReplaceDeviceSignature(pruned, signature).value;
    WriterWrites(pruned);
    ScanOfShortest(ToWire(pruned), pruned, decode);
    SignedCapture(pruned, signature, decode);
    WriterWrites(rebuilt);
    ScanOfShortest(ToWire(rebuilt), rebuilt, decode);
  }

  /** The finished bytes; what `VerifyInner` answers on them is the verdict on their one document. */
  lemma PresentationIsJudged(k: Checks, t: CborWire.Item, transcript: Bytes, disclose: set<Text>, signatureCbor: Bytes, params: Params,
                             r: Result<Verdict, Reason>, documents: seq<Value>, raw: seq<RawDocumentItems>)
    requires Presented(k.codec, t, transcript, disclose, signatureCbor)
    requires Documents(k.codec.decode(CborWire.Encode(t)).value).Some?
    requires var final := Finish(k.codec, PrepareMdoc(k.codec, CborWire.Encode(t), transcript, disclose).value, signatureCbor).value;
             Judged(k, final, params, r, documents, raw)
    ensures var verdict := PresentedVerdict(k, CborWire.Encode(t), transcript, disclose, signatureCbor, params);
            verdict.Some? ==> r == AsVerdict(verdict.value)
  {
    hide PruneIssuerSigned, ReplaceDeviceSignature, Representable, Denotes, ScanResponse, CborWire.Valid, CborWire.Encode,
      PrepareMdoc, Lit, DocumentAt, Judged, Canonical, QualifiedAll, Documents;
    var c, deviceResponse := k.codec, CborWire.Encode(t);
    var final := Finish(c, PrepareMdoc(c, deviceResponse, transcript, disclose).value, signatureCbor).value;
    HeldScanned(c, t, transcript, disclose, signatureCbor);
    Finished(c, deviceResponse, transcript, disclose, signatureCbor);
    var rebuilt := ReplaceDeviceSignature(PruneIssuerSigned(c.decode(deviceResponse).value, disclose, c.decode).value,
                                          c.decode(signatureCbor).value).value;
    WriterWrites(rebuilt);
    assert OneDefiniteItem(final);
    if PresentedVerdict(k, deviceResponse, transcript, disclose, signatureCbor, params).Some? {
      JudgedDocuments(k, final, params, r, documents, raw);
      OneDocumentJudged(k, final, params, r, documents, raw);
    }
  }

  lemma JudgedDocuments(k: Checks, deviceResponse: Bytes, params: Params, r: Result<Verdict, Reason>, documents: seq<Value>,
                        raw: seq<RawDocumentItems>)
    requires Judged(k, deviceResponse, params, r, documents, raw) && OneDefiniteItem(deviceResponse)
    requires k.codec.decode(deviceResponse).Some? && Documents(k.codec.decode(deviceResponse).value).Some?
    ensures documents == Documents(k.codec.decode(deviceResponse).value).value && documents != []
    ensures ScanResponse(deviceResponse, k.codec.decode).Some? ==> raw == ScanResponse(deviceResponse, k.codec.decode).value.acc
  {
    hide Documents, ScanResponse, OneDefiniteItem, Passed, FailsAt, MdocVerify.Listed;
  }

  // ---------------------------------------------------------------------------------------------
  // Nothing else rides along
  // ---------------------------------------------------------------------------------------------

  /**
    Whatever the held response repeats or hides, the bytes prepared for presentation hold no element
    that the verifier's scan would capture and whose qualified identifier was not asked for.
  */
  lemma NothingElseCaptured(c: Codec, t: CborWire.Item, transcript: Bytes, disclose: set<Text>, ns: Text, r: RawIssuerItem)
    requires Lawful(c) && CborWire.Valid(t)
    requires c.decode(CborWire.Encode(t)).Some? && Denotes(t, c.decode(CborWire.Encode(t)).value)
    requires ScanResponse(CborWire.Encode(t), c.decode).Some?
    requires PrepareMdoc(c, CborWire.Encode(t), transcript, disclose).Ok?
    ensures var presented := PrepareMdoc(c, CborWire.Encode(t), transcript, disclose).value.deviceResponse;
            && ScanResponse(presented, c.decode).Some?
            && forall d :: d in ScanResponse(presented, c.decode).value.acc && r in Captured(d, ns) ==>
                 QualifiedElementId(ns, r.identifier) in disclose
  {
    hide PruneIssuerSigned, Representable, BuildDeviceAuthentication, FirstDocType, FirstDeviceNameSpacesBytes, Denotes,
      ScanResponse, IssuedElementIdentifiers, CborWire.Valid, CborWire.Encode, Filtered, Canonical, ResponseOf, SeenItems,
      KeptRecords, QualifiedElementId;
    var response := c.decode(CborWire.Encode(t)).value;
    RepresentableOfDenotes(t, response);
    PruneRepresentable(response, disclose, c.decode);
    var pruned := PruneIssuerSigned(response, disclose, c.decode).value;
    ScanOfValue(t, response, c.decode);
    ResponseKept(response, disclose, c.decode);
    WriterWrites(pruned);
    ScanOfShortest(ToWire(pruned), pruned, c.decode);
    var before, after := ResponseOf(response, c.decode).value, ResponseOf(pruned, c.decode).value;
    forall d | d in after && r in Captured(d, ns) ensures QualifiedElementId(ns, r.identifier) in disclose {
      var i :| 0 <= i < |after| && after[i] == d;
      assert Filtered(after[i], before[i], disclose);
      FilteredHolds(after[i], before[i], disclose, ns, r);
    }
  }

  lemma FilteredHolds(after: RawDocumentItems, before: RawDocumentItems, disclose: set<Text>, ns: Text, r: RawIssuerItem)
    requires Filtered(after, before, disclose) && r in Captured(after, ns)
    ensures QualifiedElementId(ns, r.identifier) in disclose
  {
    hide KeptRecords, QualifiedElementId;
    KeptMember(ns, Captured(before, ns), disclose, r);
  }
}
