/**
  The document loop of the mdoc verifier.  Signatures, certificate trust and validity windows are
  parameters; statuses, digests, merging and the holder binding are computed.
*/
module MdocVerify {
  import opened Prelude
  import opened CborValue
  import CborWire
  import opened CborCursor
  import opened IssuerItemScan
  import opened Disclosure
  import opened DeviceAuthentication

  datatype StatusOutcome = NoStatus | Good | StatusRevoked | Unavailable | Untrusted

  datatype StatusReference = NoReference | Malformed | StatusList(index: nat, uri: Text) | Crl

  /** What the issuer-side checks establish about one document. */
  datatype Authenticated = Authenticated(mso: Value, digest: Digest, reference: StatusReference,
                                         dsCert: Bytes, issuedAt: int)

  /** The checks the model does not look into. */
  datatype Checks = Checks(
    codec: Codec,
    issuerAuth: Value -> Result<Authenticated, Reason>,
    statusToken: (Bytes, Text, nat) -> StatusOutcome,
    deviceKey: Value -> Result<Bytes, Reason>,
    coseWellFormed: Value -> bool,
    deviceSignatureOk: (Value, Bytes, Bytes) -> bool)

  datatype Params = Params(statuses: seq<StatusOutcome>, tokens: map<Text, Bytes>, sessionTranscript: Option<Bytes>)

  datatype OneDocument = OneDocument(docType: Text, disclosed: Disclosed, dsCert: Bytes, issuedAt: int)

  datatype ClaimedIssuer = ClaimedIssuer(dsCert: Bytes, issuedAt: int, category: Option<Text>)

  datatype Verdict = Verdict(disclosed: Disclosed, issuers: seq<ClaimedIssuer>, docTypes: seq<Text>)

  // ---------------------------------------------------------------------------------------------
  // One document
  // ---------------------------------------------------------------------------------------------

  /** A supplied token decides; a declared list left unresolved is never "no status". */
  function ResolveStatus(k: Checks, reference: StatusReference, positional: StatusOutcome, tokens: map<Text, Bytes>): StatusOutcome {
    match reference
    case StatusList(index, uri) =>
      if uri in tokens then k.statusToken(tokens[uri], uri, index)
      else if positional == NoStatus then Unavailable else positional
    case Malformed => Untrusted
    case Crl => positional
    case NoReference => positional
  }

  function StatusFailure(o: StatusOutcome): Option<Reason> {
    match o
    case NoStatus => None
    case Good => None
    case StatusRevoked => Some(Revoked)
    case Unavailable => Some(StatusUnavailable)
    case Untrusted => Some(StatusUntrusted)
  }

  /** The payload the verifier rebuilds from a document. */
  function RebuiltPayload(k: Checks, document: Value, docType: Text, transcript: Value): Option<Bytes> {
    match GetMapEntry(document, Lit("deviceSigned"))
    case None => None
    case Some(deviceSigned) =>
      match GetMapEntry(deviceSigned, Lit("nameSpaces"))
      case None => None
      case Some(nameSpaces) =>
        match Reencode(k.codec, nameSpaces)
        case None => None
        case Some(bytes) => BuildDeviceAuthentication(k.codec, transcript, docType, bytes)
  }

  function DeviceSignature(document: Value): Result<Value, Reason> {
    match GetMapEntry(document, Lit("deviceSigned"))
    case None => Err(MalformedCredential)
    case Some(deviceSigned) =>
      match GetMapEntry(deviceSigned, Lit("deviceAuth"))
      case None => Err(MalformedCredential)
      case Some(auth) =>
        match GetMapEntry(auth, Lit("deviceSignature"))
        case None => Err(HolderBinding)
        case Some(signature) => Ok(signature)
  }

  function VerifyDeviceBinding(k: Checks, document: Value, key: Bytes, docType: Text, params: Params): Option<Reason> {
    match DeviceSignature(document)
    case Err(e) => Some(e)
    case Ok(signature) =>
      if params.sessionTranscript.None? then Some(MissingRequestBinding)
      else if !k.coseWellFormed(signature) then Some(MalformedCredential)
      else
        match k.codec.decode(params.sessionTranscript.value)
        case None => Some(MalformedCredential)
        case Some(transcript) =>
          match RebuiltPayload(k, document, docType, transcript)
          case None => Some(MalformedCredential)
          case Some(payload) => if k.deviceSignatureOk(signature, payload, key) then None else Some(HolderBinding)
  }

  function IssuerAuthOf(k: Checks, issuerSigned: Value): Result<Authenticated, Reason> {
    match GetMapEntry(issuerSigned, Lit("issuerAuth"))
    case None => Err(MalformedCredential)
    case Some(auth) => k.issuerAuth(auth)
  }

  function VerifyOneDocument(k: Checks, document: Value, raw: Option<RawDocumentItems>, positional: StatusOutcome,
                             params: Params): Result<OneDocument, Reason>
  {
    match (GetText(document, Lit("docType")), GetMapEntry(document, Lit("issuerSigned")))
    case (Some(docType), Some(issuerSigned)) =>
      (match IssuerAuthOf(k, issuerSigned)
       case Err(e) => Err(e)
       case Ok(a) =>
         var failure := StatusFailure(ResolveStatus(k, a.reference, positional, params.tokens));
         if failure.Some? then Err(failure.value)
         else if GetText(a.mso, Lit("docType")) != Some(docType) then Err(Tamper)
         else
           match VerifyValueDigests(issuerSigned, raw, a.mso, a.digest)
           case Err(e) => Err(e)
           case Ok(disclosed) =>
             match k.deviceKey(a.mso)
             case Err(e) => Err(e)
             case Ok(key) =>
               match VerifyDeviceBinding(k, document, key, docType, params)
               case Some(e) => Err(e)
               case None => Ok(OneDocument(docType, disclosed, a.dsCert, a.issuedAt)))
    case _ => Err(MalformedCredential)
  }

  // ---------------------------------------------------------------------------------------------
  // The whole response
  // ---------------------------------------------------------------------------------------------

  function StatusAt(statuses: seq<StatusOutcome>, i: nat): StatusOutcome {
    if i < |statuses| then statuses[i] else Unavailable
  }

  function RawAt(raw: seq<RawDocumentItems>, i: nat): Option<RawDocumentItems> {
    if i < |raw| then Some(raw[i]) else None
  }

  /** Document `i`, against its own captured items and its own positional status. */
  function DocumentAt(k: Checks, documents: seq<Value>, raw: seq<RawDocumentItems>, params: Params, i: nat): Result<OneDocument, Reason>
    requires i < |documents|
  {
    VerifyOneDocument(k, documents[i], RawAt(raw, i), StatusAt(params.statuses, i), params)
  }

  function CategoryOf(d: Disclosed): Option<Text> {
    var ns, id := Lit("org.etsi.01947201.010101"), Lit("category");
    if ns in d && id in d[ns] && d[ns][id].TextValue? then Some(d[ns][id].text) else None
  }

  /** The category is a disclosed text under ETSI's name space, and nothing else. */
  lemma CategoryExact(d: Disclosed, category: Text)
    ensures CategoryOf(d) == Some(category)
       <==> Triple(Lit("org.etsi.01947201.010101"), Lit("category"), TextValue(category)) in Triples(d)
  {
    hide Lit;
  }

  /** The envelope gates: version, status and a non-empty document list. */
  function Documents(root: Value): Option<seq<Value>> {
    if GetText(root, Lit("version")) == Some(Lit("1.0")) && GetInteger(root, Lit("status")) == Some(0) then
      match AsArray(GetMapEntry(root, Lit("documents")))
      case Some(documents) => if documents == [] then None else Some(documents)
      case None => None
    else None
  }

  /** The facts disclosed by the first `n` documents. */
  ghost function Facts(k: Checks, documents: seq<Value>, raw: seq<RawDocumentItems>, params: Params, n: nat): set<Triple>
    requires n <= |documents|
  {
    if n == 0 then {}
    else
      var one := DocumentAt(k, documents, raw, params, n - 1);
      Facts(k, documents, raw, params, n - 1) + (if one.Ok? then Triples(one.value.disclosed) else {})
  }

  ghost predicate AllVerified(k: Checks, documents: seq<Value>, raw: seq<RawDocumentItems>, params: Params, n: nat)
    requires n <= |documents|
  {
    forall i :: 0 <= i < n ==> DocumentAt(k, documents, raw, params, i).Ok?
  }

  /** One issuer and one docType per document, in order. */
  ghost predicate Listed(k: Checks, documents: seq<Value>, raw: seq<RawDocumentItems>, params: Params, n: nat,
                         issuers: seq<ClaimedIssuer>, docTypes: seq<Text>)
    requires n <= |documents| && AllVerified(k, documents, raw, params, n)
  {
    && |issuers| == n == |docTypes|
    && forall i :: 0 <= i < n ==>
         (var one := DocumentAt(k, documents, raw, params, i).value;
          && docTypes[i] == one.docType
          && issuers[i] == ClaimedIssuer(one.dsCert, one.issuedAt, CategoryOf(one.disclosed)))
  }

  /** The loop's facts grow by one document. */
  lemma OneMore(k: Checks, documents: seq<Value>, raw: seq<RawDocumentItems>, params: Params, n: nat,
                issuers: seq<ClaimedIssuer>, docTypes: seq<Text>)
    requires n < |documents| && AllVerified(k, documents, raw, params, n) && DocumentAt(k, documents, raw, params, n).Ok?
    requires Listed(k, documents, raw, params, n, issuers, docTypes)
    ensures var one := DocumentAt(k, documents, raw, params, n).value;
            && AllVerified(k, documents, raw, params, n + 1)
            && Listed(k, documents, raw, params, n + 1,
                      issuers + [ClaimedIssuer(one.dsCert, one.issuedAt, CategoryOf(one.disclosed))], docTypes + [one.docType])
            && Facts(k, documents, raw, params, n + 1) == Facts(k, documents, raw, params, n) + Triples(one.disclosed)
  {
    hide DocumentAt, Triples, CategoryOf;
  }

  lemma NotOneMore(k: Checks, documents: seq<Value>, raw: seq<RawDocumentItems>, params: Params, n: nat)
    requires n < |documents| && DocumentAt(k, documents, raw, params, n).Err?
    ensures !AllVerified(k, documents, raw, params, |documents|)
  {
    hide DocumentAt;
  }

  lemma NoneYet(k: Checks, documents: seq<Value>, raw: seq<RawDocumentItems>, params: Params)
    ensures AllVerified(k, documents, raw, params, 0) && Facts(k, documents, raw, params, 0) == {}
    ensures Listed(k, documents, raw, params, 0, [], [])
  {
  }

  lemma {:induction false} FactsExact(k: Checks, documents: seq<Value>, raw: seq<RawDocumentItems>, params: Params, n: nat, t: Triple)
    requires n <= |documents|
    ensures t in Facts(k, documents, raw, params, n)
       <==> exists i :: 0 <= i < n && DocumentAt(k, documents, raw, params, i).Ok?
                        && t in Triples(DocumentAt(k, documents, raw, params, i).value.disclosed)
  {
    hide DocumentAt, Triples;
    if n > 0 {
      FactsExact(k, documents, raw, params, n - 1, t);
    }
  }

  lemma {:induction false} FactsGrow(k: Checks, documents: seq<Value>, raw: seq<RawDocumentItems>, params: Params, n: nat, m: nat)
    requires n <= m <= |documents|
    ensures Facts(k, documents, raw, params, n) <= Facts(k, documents, raw, params, m)
    decreases m
  {
    hide DocumentAt, Triples;
    if n < m {
      FactsGrow(k, documents, raw, params, n, m - 1);
    }
  }

  /** Merge one document's facts, in whatever order its maps are walked. */
  method MergeDocument(disclosed: DisclosedSet, document: Disclosed) returns (ok: bool)
    requires NoEmptyGroup(disclosed.groups)
    modifies disclosed
    ensures NoEmptyGroup(disclosed.groups)
    ensures ok <==> Functional(Triples(old(disclosed.groups)) + Triples(document))
    ensures ok ==> Triples(disclosed.groups) == Triples(old(disclosed.groups)) + Triples(document)
  {
    hide Triples, Functional, NoEmptyGroup;
    ghost var before, all := Triples(disclosed.groups), Triples(document);
    ghost var done: set<Triple> := {};
    var namespaces := document.Keys;
    TriplesOfGroups(document);
    while namespaces != {}
      invariant namespaces <= document.Keys
      invariant NoEmptyGroup(disclosed.groups)
      invariant done == set t | t in all && t.ns !in namespaces
      invariant Triples(disclosed.groups) == before + done
      decreases namespaces
    {
      var ns :| ns in namespaces;
      ghost var done0 := done;
      var ids := document[ns].Keys;
      while ids != {}
        invariant ids <= document[ns].Keys
        invariant NoEmptyGroup(disclosed.groups)
        invariant done == done0 + set t | t in all && t.ns == ns && t.id !in ids
        invariant done <= all
        invariant Triples(disclosed.groups) == before + done
        decreases ids
      {
        var id :| id in ids;
        ghost var t := Triple(ns, id, document[ns][id]);
        ok := disclosed.Insert(ns, id, document[ns][id]);
        if !ok {
          if Functional(before + all) {
            FunctionalSubset(before + done + {t}, before + all);
          }
          return;
        }
        ids := ids - {id};
        done := done + {t};
      }
      namespaces := namespaces - {ns};
    }
    assert done == all;
    TriplesFunctional(disclosed.groups);
    ok := true;
  }

  lemma TriplesOfGroups(d: Disclosed)
    ensures forall t :: t in Triples(d) <==> t.ns in d && t.id in d[t.ns] && d[t.ns][t.id] == t.value
  {
    forall t: Triple | t.ns in d && t.id in d[t.ns] && d[t.ns][t.id] == t.value ensures t in Triples(d) {
    }
  }

  /** `a` is what the issuer-side checks establish for one of the documents. */
  ghost predicate IssuedBy(k: Checks, document: Value, a: Authenticated) {
    GetMapEntry(document, Lit("issuerSigned")).Some? && IssuerAuthOf(k, GetMapEntry(document, Lit("issuerSigned")).value) == Ok(a)
  }

  /** The record's own bytes hash to what `a` signs for its name space and digest id. */
  ghost predicate SignedRecord(a: Authenticated, ns: Text, r: RawIssuerItem) {
    var groups := GetMapEntry(a.mso, Lit("valueDigests"));
    && groups.Some? && groups.value.CborMap?
    && FindText(groups.value.entries, ns).Some? && FindText(groups.value.entries, ns).value.CborMap?
    && var table := FindText(groups.value.entries, ns).value.entries;
       exists i: nat :: GivesDigest(table, r.digestId, i) && table[i].value.bytes == a.digest(r.rawBytes)
  }

  lemma MatchIsSigned(a: Authenticated, ns: Text, r: RawIssuerItem)
    requires ValueDigests(a.mso).Some? && AsMap(FindText(ValueDigests(a.mso).value, ns)).Some?
    requires DigestMatches(r, ExpectedById(AsMap(FindText(ValueDigests(a.mso).value, ns)).value), a.digest)
    ensures SignedRecord(a, ns, r)
  {
    hide GetMapEntry, FindText, Lit, ExpectedById, GivesDigest;
    ExpectedExact(AsMap(FindText(ValueDigests(a.mso).value, ns)).value, r.digestId, a.digest(r.rawBytes));
  }

  /** The record's content names `t`'s element, under the record's digest id, and has a value that projects to `t`'s. */
  ghost predicate Says(r: RawIssuerItem, t: Triple) {
    && GetInteger(r.item, Lit("digestID")) == Some(r.digestId)
    && GetText(r.item, Lit("elementIdentifier")) == Some(t.id)
    && GetMapEntry(r.item, Lit("elementValue")).Some?
    && Projects(GetMapEntry(r.item, Lit("elementValue")).value, t.value)
  }

  /**
    `t` is what the content of a tagged element of the response says, and that element's own bytes hash
    to the digest signed by the issuer of one of the documents.
  */
  ghost predicate SignedFact(k: Checks, deviceResponse: Bytes, documents: seq<Value>, t: Triple) {
    exists document, a, r :: document in documents && IssuedBy(k, document, a) && SignedRecord(a, t.ns, r)
                             && Genuine(deviceResponse, r, k.codec.decode) && Says(r, t)
  }

  lemma GenuineSays(s: Bytes, r: RawIssuerItem, decode: Decoder, ns: Text)
    requires Genuine(s, r, decode)
    ensures Says(r, TripleOf(ns, r))
  {
    hide TaggedFrom, GetMapEntry, GetInteger, GetText, Projects, CborToAttribute;
    ProjectionExact(GetMapEntry(r.item, Lit("elementValue")).value, ElementValue(r));
  }

  lemma AcceptedDigests(k: Checks, document: Value, raw: Option<RawDocumentItems>, positional: StatusOutcome, params: Params)
    requires VerifyOneDocument(k, document, raw, positional, params).Ok?
    ensures GetMapEntry(document, Lit("issuerSigned")).Some?
    ensures var issuerSigned := GetMapEntry(document, Lit("issuerSigned")).value;
            && IssuerAuthOf(k, issuerSigned).Ok?
            && (var a := IssuerAuthOf(k, issuerSigned).value;
                VerifyValueDigests(issuerSigned, raw, a.mso, a.digest)
                == Ok(VerifyOneDocument(k, document, raw, positional, params).value.disclosed))
  {
    hide VerifyValueDigests, IssuerAuthOf, GetMapEntry, VerifyDeviceBinding, ResolveStatus, StatusFailure;
  }

  lemma DocumentFactSigned(k: Checks, deviceResponse: Bytes, documents: seq<Value>, raw: seq<RawDocumentItems>, params: Params, i: nat,
                           t: Triple)
    requires CaptureGenuine(deviceResponse, raw, k.codec.decode)
    requires i < |documents| && DocumentAt(k, documents, raw, params, i).Ok?
    requires t in Triples(DocumentAt(k, documents, raw, params, i).value.disclosed)
    ensures SignedFact(k, deviceResponse, documents, t)
  {
    hide VerifyValueDigests, IssuerAuthOf, GetMapEntry, VerifyOneDocument, Triples, ExpectedById, FindText, Genuine, TripleOf, NameSpaces,
      ValueDigests, Says, SignedRecord;
    var document, items := documents[i], RawAt(raw, i);
    AcceptedDigests(k, document, items, StatusAt(params.statuses, i), params);
    var issuerSigned := GetMapEntry(document, Lit("issuerSigned")).value;
    var a := IssuerAuthOf(k, issuerSigned).value;
    DisclosureExact(issuerSigned, items, a.mso, a.digest, DocumentAt(k, documents, raw, params, i).value.disclosed);
    var entries := NameSpaces(issuerSigned).value;
    assert Disclosure.Listed(entries, items.value, t);
    var e, r :| e in entries && e.key == CborText(t.ns) && t.ns in items.value && r in items.value[t.ns] && t == TripleOf(t.ns, r);
    assert NameSpaceSigned(e, items.value, ValueDigests(a.mso).value, a.digest);
    MatchIsSigned(a, t.ns, r);
    assert raw[i] in raw && ItemsGenuine(deviceResponse, raw[i], k.codec.decode);
    assert AllGenuine(deviceResponse, raw[i][t.ns], k.codec.decode);
    GenuineSays(deviceResponse, r, k.codec.decode, t.ns);
    assert document in documents && IssuedBy(k, document, a);
  }

  /** Whatever the scan did, no fact is disclosed that is not decoded from bytes of the response its issuer signed. */
  lemma FactsSigned(k: Checks, deviceResponse: Bytes, documents: seq<Value>, raw: seq<RawDocumentItems>, params: Params)
    requires CaptureGenuine(deviceResponse, raw, k.codec.decode)
    ensures forall t :: t in Facts(k, documents, raw, params, |documents|) ==> SignedFact(k, deviceResponse, documents, t)
  {
    hide DocumentAt, Triples, SignedFact, Facts, CaptureGenuine;
    forall t | t in Facts(k, documents, raw, params, |documents|) ensures SignedFact(k, deviceResponse, documents, t) {
      FactsExact(k, documents, raw, params, |documents|, t);
      var i :| 0 <= i < |documents| && DocumentAt(k, documents, raw, params, i).Ok?
               && t in Triples(DocumentAt(k, documents, raw, params, i).value.disclosed);
      DocumentFactSigned(k, deviceResponse, documents, raw, params, i, t);
    }
  }

  /** The first `n` documents pass and their facts agree. */
  ghost predicate Passed(k: Checks, documents: seq<Value>, raw: seq<RawDocumentItems>, params: Params, n: nat)
    requires n <= |documents|
  {
    AllVerified(k, documents, raw, params, n) && Functional(Facts(k, documents, raw, params, n))
  }

  /** Document `i` is the first that cannot be added, and `e` says why. */
  ghost predicate FailsAt(k: Checks, documents: seq<Value>, raw: seq<RawDocumentItems>, params: Params, i: nat, e: Reason)
    requires i < |documents|
  {
    && Passed(k, documents, raw, params, i)
    && match DocumentAt(k, documents, raw, params, i)
       case Err(reason) => e == reason
       case Ok(_) => e == DisclosureIntegrity && !Functional(Facts(k, documents, raw, params, i + 1))
  }

  /** The envelope: version "1.0", status 0 and a non-empty array of documents. */
  lemma EnvelopeExact(root: Value, documents: seq<Value>)
    ensures Documents(root) == Some(documents)
       <==> && documents != []
            && GetMapEntry(root, Lit("version")) == Some(CborText(Lit("1.0")))
            && GetMapEntry(root, Lit("status")) == Some(CborInteger(0))
            && GetMapEntry(root, Lit("documents")) == Some(CborArray(documents))
  {
    hide GetMapEntry, Lit;
  }

  /** The bytes are one definite-length item, and decode to a response with the right envelope. */
  ghost predicate Enveloped(k: Checks, deviceResponse: Bytes) {
    && OneDefiniteItem(deviceResponse)
    && k.codec.decode(deviceResponse).Some?
    && Documents(k.codec.decode(deviceResponse).value).Some?
  }

  /**
    What the verifier answers.  VALID exactly when the envelope is in order, every document passes with
    its own captured items and its own positional status, and the facts of all documents agree; an
    error is that of the envelope or of the first document that cannot be added.
  */
  ghost predicate Judged(k: Checks, deviceResponse: Bytes, params: Params, r: Result<Verdict, Reason>,
                         documents: seq<Value>, raw: seq<RawDocumentItems>)
  {
    && (if Enveloped(k, deviceResponse) then documents == Documents(k.codec.decode(deviceResponse).value).value && documents != []
        else documents == [] && r == Err(MalformedCredential))
    && (var scanned := ScanResponse(deviceResponse, k.codec.decode); scanned.Some? && documents != [] ==> raw == scanned.value.acc)
    && (r.Ok? <==> documents != [] && Passed(k, documents, raw, params, |documents|))
    && (r.Ok? ==>
          && NoEmptyGroup(r.value.disclosed)
          && Triples(r.value.disclosed) == Facts(k, documents, raw, params, |documents|)
          && Listed(k, documents, raw, params, |documents|, r.value.issuers, r.value.docTypes))
    && (r.Err? && documents != [] ==> exists i :: 0 <= i < |documents| && FailsAt(k, documents, raw, params, i, r.error))
  }

  /**
    The verifier's loop.  Every disclosed fact is signed, whether or not the scan could navigate the
    whole response.
  */
  method VerifyInner(k: Checks, deviceResponse: Bytes, params: Params)
    returns (r: Result<Verdict, Reason>, ghost documents: seq<Value>, ghost raw: seq<RawDocumentItems>)
    requires |deviceResponse| <= SLICE_MAX
    ensures Judged(k, deviceResponse, params, r, documents, raw)
    ensures !Enveloped(k, deviceResponse) ==> r == Err(MalformedCredential)
    ensures r.Ok? ==> forall t :: t in Triples(r.value.disclosed) ==>
                        SignedFact(k, deviceResponse, Documents(k.codec.decode(deviceResponse).value).value, t)
  {
    hide DocumentAt, Triples, Functional, Documents, ScanResponse, AllVerified, Facts, Listed, CategoryOf, SignedFact, CaptureGenuine,
      OneDefiniteItem, NoEmptyGroup;
    documents, raw := [], [];
    r := Err(MalformedCredential);
    var definite := RejectIndefiniteLengthCbor(deviceResponse);
    if !definite { return; }
    var root := k.codec.decode(deviceResponse);
    if root.None? { return; }
    var docs := Documents(root.value);
    if docs.None? { return; }
    DocumentsNonEmpty(root.value);
    documents := docs.value;
    var captured := ScanRawIssuerItems(deviceResponse, k.codec.decode);
    raw := captured;
    var disclosed := new DisclosedSet();
    EmptyDisclosure();
    var issuers: seq<ClaimedIssuer> := [];
    var docTypes: seq<Text> := [];
    NoneYet(k, documents, raw, params);
    for i := 0 to |docs.value|
      invariant fresh(disclosed) && NoEmptyGroup(disclosed.groups)
      invariant AllVerified(k, documents, raw, params, i)
      invariant Triples(disclosed.groups) == Facts(k, documents, raw, params, i)
      invariant Listed(k, documents, raw, params, i, issuers, docTypes)
    {
      var one := DocumentAt(k, docs.value, captured, params, i);
      TriplesFunctional(disclosed.groups);
      if one.Err? {
        NotOneMore(k, documents, raw, params, i);
        r := Err(one.error);
        assert FailsAt(k, documents, raw, params, i, one.error);
        return;
      }
      OneMore(k, documents, raw, params, i, issuers, docTypes);
      docTypes := docTypes + [one.value.docType];
      issuers := issuers + [ClaimedIssuer(one.value.dsCert, one.value.issuedAt, CategoryOf(one.value.disclosed))];
      var ok := MergeDocument(disclosed, one.value.disclosed);
      if !ok {
        r := Err(DisclosureIntegrity);
        FactsGrow(k, documents, raw, params, i + 1, |documents|);
        if Functional(Facts(k, documents, raw, params, |documents|)) {
          FunctionalSubset(Facts(k, documents, raw, params, i + 1), Facts(k, documents, raw, params, |documents|));
        }
        assert FailsAt(k, documents, raw, params, i, DisclosureIntegrity);
        return;
      }
    }
    TriplesFunctional(disclosed.groups);
    FactsSigned(k, deviceResponse, documents, raw, params);
    r := Ok(Verdict(disclosed.groups, issuers, docTypes));
  }

  /** The verdict on a response with one document is that document's. */
  function AsVerdict(one: Result<OneDocument, Reason>): Result<Verdict, Reason> {
    match one
    case Ok(d) => Ok(Verdict(d.disclosed, [ClaimedIssuer(d.dsCert, d.issuedAt, CategoryOf(d.disclosed))], [d.docType]))
    case Err(e) => Err(e)
  }

  lemma OneDocumentFacts(k: Checks, documents: seq<Value>, raw: seq<RawDocumentItems>, params: Params)
    requires |documents| == 1
    ensures DocumentAt(k, documents, raw, params, 0).Ok? ==>
              && Passed(k, documents, raw, params, 1)
              && Facts(k, documents, raw, params, 1) == Triples(DocumentAt(k, documents, raw, params, 0).value.disclosed)
    ensures Passed(k, documents, raw, params, 1) ==> DocumentAt(k, documents, raw, params, 0).Ok?
  {
    hide DocumentAt, Triples, Functional;
    NoneYet(k, documents, raw, params);
    if DocumentAt(k, documents, raw, params, 0).Ok? {
      TriplesFunctional(DocumentAt(k, documents, raw, params, 0).value.disclosed);
      var facts := Triples(DocumentAt(k, documents, raw, params, 0).value.disclosed);
      assert Facts(k, documents, raw, params, 1) == Facts(k, documents, raw, params, 0) + facts;
      assert {} + facts == facts;
    }
  }

  lemma AcceptedGroups(k: Checks, document: Value, raw: Option<RawDocumentItems>, positional: StatusOutcome, params: Params)
    requires VerifyOneDocument(k, document, raw, positional, params).Ok?
    ensures NoEmptyGroup(VerifyOneDocument(k, document, raw, positional, params).value.disclosed)
  {
    hide VerifyValueDigests, VerifyOneDocument, NoEmptyGroup, IssuerAuthOf, GetMapEntry;
    AcceptedDigests(k, document, raw, positional, params);
    var issuerSigned := GetMapEntry(document, Lit("issuerSigned")).value;
    var a := IssuerAuthOf(k, issuerSigned).value;
    DisclosureExact(issuerSigned, raw, a.mso, a.digest, VerifyOneDocument(k, document, raw, positional, params).value.disclosed);
  }

  /** Whatever `VerifyInner` answers on an enveloped response with one document is that document's verdict. */
  lemma OneDocumentJudged(k: Checks, deviceResponse: Bytes, params: Params, r: Result<Verdict, Reason>,
                          documents: seq<Value>, raw: seq<RawDocumentItems>)
    requires Judged(k, deviceResponse, params, r, documents, raw) && |documents| == 1
    ensures r == AsVerdict(DocumentAt(k, documents, raw, params, 0))
  {
    hide DocumentAt, Triples, Functional, Documents, ScanResponse, CategoryOf, NoEmptyGroup, Facts, AllVerified;
    OneDocumentFacts(k, documents, raw, params);
    var one := DocumentAt(k, documents, raw, params, 0);
    assert |documents| == 1;
    if one.Ok? {
      FirstGroups(k, documents, raw, params);
      TriplesDetermine(r.value.disclosed, one.value.disclosed);
      assert r.value.issuers == [r.value.issuers[0]] && r.value.docTypes == [r.value.docTypes[0]];
    } else {
      var i :| 0 <= i < |documents| && FailsAt(k, documents, raw, params, i, r.error);
      assert i == 0;
    }
  }

  lemma FirstGroups(k: Checks, documents: seq<Value>, raw: seq<RawDocumentItems>, params: Params)
    requires |documents| == 1 && DocumentAt(k, documents, raw, params, 0).Ok?
    ensures NoEmptyGroup(DocumentAt(k, documents, raw, params, 0).value.disclosed)
  {
    hide VerifyOneDocument, NoEmptyGroup;
    AcceptedGroups(k, documents[0], RawAt(raw, 0), StatusAt(params.statuses, 0), params);
  }

  lemma DocumentsNonEmpty(root: Value)
    ensures Documents(root).Some? ==> Documents(root).value != []
  {
  }

  /** A document is accepted only with a passing status, an agreeing docType and a verified payload. */
  lemma AcceptedDocument(k: Checks, document: Value, raw: Option<RawDocumentItems>, positional: StatusOutcome, params: Params)
    requires VerifyOneDocument(k, document, raw, positional, params).Ok?
    ensures var one := VerifyOneDocument(k, document, raw, positional, params).value;
            var a := IssuerAuthOf(k, GetMapEntry(document, Lit("issuerSigned")).value).value;
            && GetText(document, Lit("docType")) == Some(one.docType) == GetText(a.mso, Lit("docType"))
            && ResolveStatus(k, a.reference, positional, params.tokens) in {NoStatus, Good}
            && params.sessionTranscript.Some? && k.codec.decode(params.sessionTranscript.value).Some?
            && DeviceSignature(document).Ok?
            && (var payload := RebuiltPayload(k, document, one.docType, k.codec.decode(params.sessionTranscript.value).value);
                payload.Some? && k.deviceSignatureOk(DeviceSignature(document).value, payload.value, k.deviceKey(a.mso).value))
  {
    hide VerifyValueDigests, RebuiltPayload, DeviceSignature, IssuerAuthOf, GetMapEntry;
  }

  /** The outcome that answers for a document: its own token's, or the one supplied for it. */
  function Answer(k: Checks, a: Authenticated, positional: StatusOutcome, params: Params): StatusOutcome {
    if a.reference.StatusList? && a.reference.uri in params.tokens
    then k.statusToken(params.tokens[a.reference.uri], a.reference.uri, a.reference.index)
    else positional
  }

  /** A document whose issuer-side checks pass is refused with the reason that its status has. */
  lemma StatusReasons(k: Checks, document: Value, raw: Option<RawDocumentItems>, positional: StatusOutcome, params: Params,
                      a: Authenticated)
    requires IssuedBy(k, document, a) && GetText(document, Lit("docType")).Some?
    ensures var answer, r := Answer(k, a, positional, params), VerifyOneDocument(k, document, raw, positional, params);
            && (answer == StatusRevoked && !a.reference.Malformed? ==> r == Err(Revoked))
            && (answer == Unavailable && !a.reference.Malformed? ==> r == Err(StatusUnavailable))
            && (answer == Untrusted || a.reference.Malformed? ==> r == Err(StatusUntrusted))
            && (a.reference.StatusList? && a.reference.uri !in params.tokens && answer == NoStatus ==> r == Err(StatusUnavailable))
  {
    hide VerifyValueDigests, VerifyDeviceBinding, IssuerAuthOf, GetMapEntry, Lit;
  }

  /** What the device is asked to have signed: the transcript, the docType and the device name spaces of the document. */
  predicate Rebuilt(k: Checks, document: Value, docType: Text, transcript: Value, payload: Bytes) {
    && GetMapEntry(document, Lit("deviceSigned")).Some?
    && var nameSpaces := GetMapEntry(GetMapEntry(document, Lit("deviceSigned")).value, Lit("nameSpaces"));
       && nameSpaces.Some? && Reencode(k.codec, nameSpaces.value).Some?
       && BuildDeviceAuthentication(k.codec, transcript, docType, Reencode(k.codec, nameSpaces.value).value) == Some(payload)
  }

  /** The entry `deviceSignature` of the document's device authentication, if the document has one. */
  predicate SignedBy(document: Value, signature: Value) {
    && GetMapEntry(document, Lit("deviceSigned")).Some?
    && var deviceAuth := GetMapEntry(GetMapEntry(document, Lit("deviceSigned")).value, Lit("deviceAuth"));
       deviceAuth.Some? && GetMapEntry(deviceAuth.value, Lit("deviceSignature")) == Some(signature)
  }

  /**
    Past the issuer-side checks and the status: another docType than the signed one is tampering, a digest
    failure is its own, and a missing or wrong device signature breaks the holder binding.
  */
  lemma DocumentReasons(k: Checks, document: Value, raw: Option<RawDocumentItems>, positional: StatusOutcome, params: Params,
                        a: Authenticated, docType: Text)
    requires IssuedBy(k, document, a) && GetText(document, Lit("docType")) == Some(docType)
    requires ResolveStatus(k, a.reference, positional, params.tokens) in {NoStatus, Good}
    ensures var r := VerifyOneDocument(k, document, raw, positional, params);
            var digests := VerifyValueDigests(GetMapEntry(document, Lit("issuerSigned")).value, raw, a.mso, a.digest);
            && (GetText(a.mso, Lit("docType")) != Some(docType) ==> r == Err(Tamper))
            && (GetText(a.mso, Lit("docType")) == Some(docType) && digests.Err? ==> r == Err(digests.error))
            && (GetText(a.mso, Lit("docType")) == Some(docType) && digests.Ok? && k.deviceKey(a.mso).Ok? ==>
                  BindingJudged(k, document, params, k.deviceKey(a.mso).value, docType, if r.Ok? then None else Some(r.error)))
            && (r.Ok? ==> digests == Ok(r.value.disclosed) && r.value == OneDocument(docType, r.value.disclosed, a.dsCert, a.issuedAt))
  {
    hide VerifyValueDigests, IssuerAuthOf, GetMapEntry, Lit, Reencode, BuildDeviceAuthentication, ResolveStatus;
  }

  /** The holder binding holds, or fails for the reason given. */
  predicate BindingJudged(k: Checks, document: Value, params: Params, key: Bytes, docType: Text, failure: Option<Reason>) {
    match DeviceSignature(document)
    case Err(e) =>
      && failure == Some(e)
      && var deviceSigned := GetMapEntry(document, Lit("deviceSigned"));
         e == if deviceSigned.None? || GetMapEntry(deviceSigned.value, Lit("deviceAuth")).None? then MalformedCredential
              else HolderBinding
    case Ok(signature) =>
      && SignedBy(document, signature)
      && match params.sessionTranscript
         case None => failure == Some(MissingRequestBinding)
         case Some(bytes) =>
           if !k.coseWellFormed(signature) || k.codec.decode(bytes).None? then failure == Some(MalformedCredential)
           else
             match RebuiltPayload(k, document, docType, k.codec.decode(bytes).value)
             case None => failure == Some(MalformedCredential)
             case Some(payload) =>
               && Rebuilt(k, document, docType, k.codec.decode(bytes).value, payload)
               && failure == if k.deviceSignatureOk(signature, payload, key) then None else Some(HolderBinding)
  }

  /** Document `i`'s own status is a passing one: its own token's, or the one supplied at its own index. */
  ghost predicate StatusAnswered(k: Checks, a: Authenticated, params: Params, i: nat) {
    match a.reference
    case Malformed => false
    case StatusList(index, uri) =>
      if uri in params.tokens then k.statusToken(params.tokens[uri], uri, index) in {NoStatus, Good}
      else i < |params.statuses| && params.statuses[i] == Good
    case _ => i < |params.statuses| && params.statuses[i] in {NoStatus, Good}
  }

  /** The issuer-side checks of document `i` pass, and its own status answers. */
  ghost predicate AnswersForItself(k: Checks, documents: seq<Value>, params: Params, i: nat)
    requires i < |documents|
  {
    exists a :: IssuedBy(k, documents[i], a) && StatusAnswered(k, a, params, i)
  }

  /**
    In a valid response every document answers for itself: no status is reused for a later document, a
    declared list is never "no status", and a malformed reference is never accepted.
  */
  lemma EveryStatusAnswered(k: Checks, documents: seq<Value>, raw: seq<RawDocumentItems>, params: Params)
    requires AllVerified(k, documents, raw, params, |documents|)
    ensures forall i :: 0 <= i < |documents| ==> AnswersForItself(k, documents, params, i)
  {
    hide VerifyOneDocument, IssuerAuthOf, GetMapEntry;
    forall i | 0 <= i < |documents| ensures AnswersForItself(k, documents, params, i) {
      assert DocumentAt(k, documents, raw, params, i).Ok?;
      AcceptedDigests(k, documents[i], RawAt(raw, i), StatusAt(params.statuses, i), params);
      AcceptedDocument(k, documents[i], RawAt(raw, i), StatusAt(params.statuses, i), params);
      var a := IssuerAuthOf(k, GetMapEntry(documents[i], Lit("issuerSigned")).value).value;
      assert IssuedBy(k, documents[i], a) && StatusAnswered(k, a, params, i);
    }
  }
}
