/**
  The holder's presentation: prepare (prune and build the payload to sign), then finish (splice the
  signature in).  The theorems tie both to the verifier.
*/
module Presentation {
  import opened Prelude
  import CborWire
  import opened CborValue
  import opened CborEncoding
  import opened IssuerItemScan
  import opened Disclosure
  import opened DeviceAuthentication
  import opened Pruning
  import opened PrunedCapture
  import opened PrunedVerification
  import opened MdocVerify

  /** A prepared presentation: the pruned response and the payload the holder signs. */
  datatype Prepared = Prepared(deviceResponse: Bytes, payload: Bytes)

  /** The library writes shortest heads and reads back what it wrote. */
  ghost predicate Lawful(c: Codec) {
    forall v {:trigger c.encode(v)} :: Representable(v) ==> c.encode(v) == Canonical(v) && c.decode(c.encode(v)) == Some(v)
  }

  // ---------------------------------------------------------------------------------------------
  // Preparing
  // ---------------------------------------------------------------------------------------------

  /** An element's name space and identifier. */
  datatype ElementName = ElementName(ns: Text, id: Text)

  function Qualified(n: ElementName): Text {
    QualifiedElementId(n.ns, n.id)
  }

  function NamesInItems(ns: Text, items: seq<Value>, decode: Decoder): set<ElementName> {
    set item | item in items && ItemIdentifier(item, decode).Some? :: ElementName(ns, ItemIdentifier(item, decode).value)
  }

  function NamesInEntry(e: Pair, decode: Decoder): set<ElementName> {
    if e.key.CborText? && e.value.CborArray? then NamesInItems(e.key.text, e.value.items, decode) else {}
  }

  function NamesInEntries(entries: seq<Pair>, decode: Decoder): set<ElementName> {
    set e, n | e in entries && n in NamesInEntry(e, decode) :: n
  }

  function NamesInDocument(doc: Value, decode: Decoder): set<ElementName> {
    match GetMapEntry(doc, Lit("issuerSigned"))
    case None => {}
    case Some(issuerSigned) =>
      match NameSpaces(issuerSigned)
      case None => {}
      case Some(entries) => NamesInEntries(entries, decode)
  }

  function NamesInDocuments(docs: seq<Value>, decode: Decoder): set<ElementName> {
    set doc, n | doc in docs && n in NamesInDocument(doc, decode) :: n
  }

  /** Every issued element that can be asked for. */
  function IssuedElements(response: Value, decode: Decoder): set<ElementName> {
    match DocumentsIn(response)
    case None => {}
    case Some(docs) => NamesInDocuments(docs, decode)
  }

  function QualifiedAll(names: set<ElementName>): set<Text> {
    set n | n in names :: Qualified(n)
  }

  /** The qualified identifiers of every issued element. */
  function IssuedElementIdentifiers(response: Value, decode: Decoder): set<Text> {
    QualifiedAll(IssuedElements(response, decode))
  }

  function FirstDocType(response: Value): Option<Text> {
    match DocumentsIn(response)
    case None => None
    case Some(docs) => if docs == [] then None else GetText(docs[0], Lit("docType"))
  }

  function DeviceNameSpaces(doc: Value): Option<Value> {
    match GetMapEntry(doc, Lit("deviceSigned"))
    case None => None
    case Some(deviceSigned) => GetMapEntry(deviceSigned, Lit("nameSpaces"))
  }

  /** The bytes to sign over; a document without device namespaces signs over the empty map. */
  function FirstDeviceNameSpacesBytes(c: Codec, response: Value): Result<Bytes, PresentError> {
    var nameSpaces := match DocumentsIn(response)
      case None => None
      case Some(docs) => if docs == [] then None else DeviceNameSpaces(docs[0]);
    match nameSpaces
    case None => Ok(EncodeTagged(c, c.encode(CborMap([]))))
    case Some(v) =>
      match Reencode(c, v)
      case None => Err(MalformedInput)
      case Some(bytes) => Ok(bytes)
  }

  function DocumentCount(response: Value): nat {
    match DocumentsIn(response)
    case None => 0
    case Some(docs) => |docs|
  }

  function PrepareMdoc(c: Codec, deviceResponse: Bytes, transcript: Bytes, disclose: set<Text>): Result<Prepared, PresentError> {
    match c.decode(deviceResponse)
    case None => Err(MalformedInput)
    case Some(response) =>
      if DocumentCount(response) > 1 then Err(MultiDocumentMdoc(DocumentCount(response)))
      else
        match FirstDocType(response)
        case None => Err(MalformedInput)
        case Some(docType) =>
          match FirstDeviceNameSpacesBytes(c, response)
          case Err(e) => Err(e)
          case Ok(nameSpaces) =>
            if !(disclose <= IssuedElementIdentifiers(response, c.decode)) then Err(UndisclosableClaim)
            else
              match PruneIssuerSigned(response, disclose, c.decode)
              case Err(e) => Err(e)
              case Ok(pruned) =>
                match c.decode(transcript)
                case None => Err(Build)
                case Some(t) =>
                  match BuildDeviceAuthentication(c, t, docType, nameSpaces)
                  case None => Err(Build)
                  case Some(payload) => Ok(Prepared(c.encode(pruned), payload))
  }

  /** The response decodes, and its `documents` is an array of `n`. */
  predicate HoldsDocuments(response: Option<Value>, n: nat) {
    && response.Some? && GetMapEntry(response.value, Lit("documents")).Some?
    && GetMapEntry(response.value, Lit("documents")).value.CborArray?
    && |GetMapEntry(response.value, Lit("documents")).value.items| == n
  }

  /**
    Only a response with exactly one document is prepared; one with more is refused with their number.
    A request for what is not issued is never prepared, and is only refused as such when it is one.
  */
  lemma PrepareRefuses(c: Codec, deviceResponse: Bytes, transcript: Bytes, disclose: set<Text>, n: nat)
    ensures var r, response := PrepareMdoc(c, deviceResponse, transcript, disclose), c.decode(deviceResponse);
            && (r == Err(MultiDocumentMdoc(n)) <==> n > 1 && HoldsDocuments(response, n))
            && (r.Ok? ==> HoldsDocuments(response, 1) && disclose <= IssuedElementIdentifiers(response.value, c.decode))
            && (r == Err(UndisclosableClaim) ==>
                  HoldsDocuments(response, 1) && !(disclose <= IssuedElementIdentifiers(response.value, c.decode)))
  {
    hide IssuedElementIdentifiers, PruneIssuerSigned, BuildDeviceAuthentication, GetMapEntry, Lit, Reencode, EncodeTagged;
    if c.decode(deviceResponse).Some? { PruneMalforms(c.decode(deviceResponse).value, disclose, c.decode); }
  }

  // ---------------------------------------------------------------------------------------------
  // Finishing
  // ---------------------------------------------------------------------------------------------

  function NewDeviceAuth(signature: Value): Transform {
    (v: Value) => Ok(CborMap([Pair(CborText(Lit("deviceSignature")), signature)]))
  }

  function SignDocument(signature: Value): Transform {
    Replacing(Lit("deviceSigned"), true, Replacing(Lit("deviceAuth"), true, NewDeviceAuth(signature)))
  }

  function SignDocuments(signature: Value): Transform {
    (v: Value) =>
      if !v.CborArray? || |v.items| == 0 then Err(MalformedInput)
      else if |v.items| > 1 then Err(MultiDocumentMdoc(|v.items|))
      else
        match MapItems(v.items, SignDocument(signature))
        case Err(e) => Err(e)
        case Ok(items) => Ok(CborArray(items))
  }

  function ReplaceDeviceSignature(response: Value, signature: Value): Result<Value, PresentError> {
    ReplaceMapEntry(response, Lit("documents"), true, SignDocuments(signature))
  }

  /** `signatureCbor` is the assembled detached COSE_Sign1. */
  function Finish(c: Codec, prepared: Prepared, signatureCbor: Bytes): Result<Bytes, PresentError> {
    match c.decode(prepared.deviceResponse)
    case None => Err(MalformedInput)
    case Some(response) =>
      match c.decode(signatureCbor)
      case None => Err(Build)
      case Some(signature) =>
        match ReplaceDeviceSignature(response, signature)
        case Err(e) => Err(e)
        case Ok(rebuilt) => Ok(c.encode(rebuilt))
  }

  /** A signature is spliced into one document only: a response with none is malformed, one with more is refused. */
  lemma SpliceRefuses(response: Value, signature: Value)
    ensures var documents, r := GetMapEntry(response, Lit("documents")), ReplaceDeviceSignature(response, signature);
            && (r.Ok? ==> documents.Some? && documents.value.CborArray? && |documents.value.items| == 1)
            && (documents.Some? && documents.value.CborArray? && |documents.value.items| > 1 ==>
                  r == Err(MultiDocumentMdoc(|documents.value.items|)))
            && (documents.None? || !documents.value.CborArray? || documents.value.items == [] ==> r == Err(MalformedInput))
  {
    if response.CborMap? {
      FindTextExact(response.entries, Lit("documents"));
      FirstFails(response.entries, Lit("documents"), SignDocuments(signature));
      if !HasKey(response.entries, Lit("documents")) { NothingReplaced(response.entries, Lit("documents"), SignDocuments(signature)); }
    }
    hide SignDocument, Lit, ReplaceEntries, FindText;
  }

  lemma {:induction false} NothingReplaced(entries: seq<Pair>, key: Text, f: Transform)
    requires !HasKey(entries, key)
    ensures ReplaceEntries(entries, key, f) == Ok(entries)
  {
    if entries != [] {
      assert entries == [entries[0]] + entries[1..];
      NothingReplaced(entries[1..], key, f);
    }
  }

  lemma {:induction false} FirstFails(entries: seq<Pair>, key: Text, f: Transform)
    ensures var r := ReplaceEntries(entries, key, f);
            FindText(entries, key).Some? ==>
              && (r.Ok? ==> f(FindText(entries, key).value).Ok?)
              && (f(FindText(entries, key).value).Err? ==> r == Err(f(FindText(entries, key).value).error))
  {
    if entries != [] { FirstFails(entries[1..], key, f); }
  }

  // ---------------------------------------------------------------------------------------------
  // Only the named entry changes
  // ---------------------------------------------------------------------------------------------

  /** `after` is `before` except for values reached by following `path` through map keys. */
  predicate OnlyUnder(path: seq<Text>, before: Value, after: Value)
    decreases |path|
  {
    if path == [] then true
    else
      && before.CborMap? && after.CborMap? && |before.entries| == |after.entries|
      && forall i :: 0 <= i < |before.entries| ==>
           && before.entries[i].key == after.entries[i].key
           && (if before.entries[i].key == CborText(path[0])
               then OnlyUnder(path[1..], before.entries[i].value, after.entries[i].value)
               else before.entries[i].value == after.entries[i].value)
  }

  ghost predicate Confined(path: seq<Text>, f: Transform) {
    forall v :: f(v).Ok? ==> OnlyUnder(path, v, f(v).value)
  }

  lemma {:induction false} ReplacedPointwise(entries: seq<Pair>, key: Text, f: Transform, i: nat)
    requires ReplaceEntries(entries, key, f).Ok? && i < |entries|
    ensures var out := ReplaceEntries(entries, key, f).value;
            && |out| == |entries| && out[i].key == entries[i].key
            && (if entries[i].key == CborText(key) then f(entries[i].value) == Ok(out[i].value) else out[i].value == entries[i].value)
    decreases |entries|
  {
    if i > 0 {
      ReplacedPointwise(entries[1..], key, f, i - 1);
    } else if |entries| > 1 {
      ReplacedPointwise(entries[1..], key, f, 0);
    }
  }

  lemma ReplacingConfined(key: Text, required: bool, f: Transform, path: seq<Text>)
    requires Confined(path, f)
    ensures Confined([key] + path, Replacing(key, required, f))
  {
    hide ReplaceEntries, HasKey;
    var g, whole := Replacing(key, required, f), [key] + path;
    assert whole[1..] == path;
    forall v | g(v).Ok? ensures OnlyUnder(whole, v, g(v).value) {
      var out := g(v).value.entries;
      EntriesReplaced(v.entries, key, f);
      forall i | 0 <= i < |v.entries|
        ensures v.entries[i].key == out[i].key
        ensures if v.entries[i].key == CborText(key) then OnlyUnder(path, v.entries[i].value, out[i].value)
                else v.entries[i].value == out[i].value
      {
        ReplacedPointwise(v.entries, key, f, i);
      }
    }
  }

  lemma EntriesReplaced(entries: seq<Pair>, key: Text, f: Transform)
    requires ReplaceEntries(entries, key, f).Ok?
    ensures |ReplaceEntries(entries, key, f).value| == |entries|
  {
    if entries != [] {
      ReplacedPointwise(entries, key, f, 0);
    }
  }

  /** The splice rewrites `deviceSigned.deviceAuth` of a document and nothing else in it. */
  lemma SpliceIsConfined(signature: Value)
    ensures Confined([Lit("deviceSigned"), Lit("deviceAuth")], SignDocument(signature))
  {
    hide OnlyUnder;
    var f := NewDeviceAuth(signature);
    assert Confined([], f) by { AnythingUnderNothing(); }
    ReplacingConfined(Lit("deviceAuth"), true, f, []);
    ReplacingConfined(Lit("deviceSigned"), true, Replacing(Lit("deviceAuth"), true, f), [Lit("deviceAuth")] + []);
    assert [Lit("deviceSigned")] + ([Lit("deviceAuth")] + []) == [Lit("deviceSigned"), Lit("deviceAuth")];
  }

  /** Pruning rewrites `issuerSigned.nameSpaces` of a document and nothing else in it. */
  lemma PruneIsConfined(disclose: set<Text>, decode: Decoder)
    ensures Confined([Lit("issuerSigned"), Lit("nameSpaces")], PruneDocument(disclose, decode))
  {
    hide OnlyUnder;
    var f := PruneNameSpaces(disclose, decode);
    assert Confined([], f) by { AnythingUnderNothing(); }
    ReplacingConfined(Lit("nameSpaces"), false, f, []);
    ReplacingConfined(Lit("issuerSigned"), false, Replacing(Lit("nameSpaces"), false, f), [Lit("nameSpaces")] + []);
    assert [Lit("issuerSigned")] + ([Lit("nameSpaces")] + []) == [Lit("issuerSigned"), Lit("nameSpaces")];
  }

  lemma AnythingUnderNothing()
    ensures forall v, w :: OnlyUnder([], v, w)
  {
  }

  // ---------------------------------------------------------------------------------------------
  // Exactly the requested identifiers ride on the wire
  // ---------------------------------------------------------------------------------------------

  lemma {:induction false} KeptIssued(key: Value, items: seq<Value>, disclose: set<Text>, decode: Decoder, item: Value)
    ensures item in KeptItems(key, items, disclose, decode) <==> item in items && Keep(key, item, disclose, decode)
    decreases |items|
  {
    hide Keep;
    if items != [] {
      KeptIssued(key, items[1..], disclose, decode, item);
      assert items == [items[0]] + items[1..];
    }
  }

  /** The elements whose qualified identifier is asked for. */
  function Asked(names: set<ElementName>, disclose: set<Text>): set<ElementName> {
    set n | n in names && Qualified(n) in disclose
  }

  lemma EntryNamed(e: Pair, e': Pair, disclose: set<Text>, decode: Decoder)
    requires PrunedTo(e, e', disclose, decode)
    ensures NamesInEntry(e', decode) == Asked(NamesInEntry(e, decode), disclose)
  {
    hide KeptItems, ItemIdentifier, QualifiedElementId;
    if e.key.CborText? {
      forall n | n in Asked(NamesInEntry(e, decode), disclose) ensures n in NamesInEntry(e', decode) {
        var item :| item in e.value.items && ItemIdentifier(item, decode).Some?
                    && n == ElementName(e.key.text, ItemIdentifier(item, decode).value);
        KeptIssued(e.key, e.value.items, disclose, decode, item);
      }
      forall n | n in NamesInEntry(e', decode) ensures n in Asked(NamesInEntry(e, decode), disclose) {
        var item :| item in e'.value.items && ItemIdentifier(item, decode).Some?
                    && n == ElementName(e.key.text, ItemIdentifier(item, decode).value);
        KeptIssued(e.key, e.value.items, disclose, decode, item);
      }
    }
  }

  /** An element asked for keeps its entry. */
  lemma AskedIsKept(e: Pair, disclose: set<Text>, decode: Decoder, n: ElementName)
    requires n in Asked(NamesInEntry(e, decode), disclose)
    ensures e.value.CborArray? && PrunedTo(e, Pair(e.key, CborArray(KeptItems(e.key, e.value.items, disclose, decode))), disclose, decode)
  {
    hide KeptItems, ItemIdentifier, QualifiedElementId;
    var item :| item in e.value.items && ItemIdentifier(item, decode).Some?
                && n == ElementName(e.key.text, ItemIdentifier(item, decode).value);
    KeptIssued(e.key, e.value.items, disclose, decode, item);
  }

  lemma EntriesNamed(entries: seq<Pair>, disclose: set<Text>, decode: Decoder)
    requires PruneEntries(entries, disclose, decode).Ok?
    ensures NamesInEntries(PruneEntries(entries, disclose, decode).value, decode) == Asked(NamesInEntries(entries, decode), disclose)
  {
    hide PruneEntries, KeptItems, NamesInEntry, Qualified;
    var out := PruneEntries(entries, disclose, decode).value;
    PrunedEntries(entries, disclose, decode);
    forall n | n in NamesInEntries(out, decode) ensures n in Asked(NamesInEntries(entries, decode), disclose) {
      var e' :| e' in out && n in NamesInEntry(e', decode);
      var e :| e in entries && PrunedTo(e, e', disclose, decode);
      EntryNamed(e, e', disclose, decode);
    }
    forall n | n in Asked(NamesInEntries(entries, decode), disclose) ensures n in NamesInEntries(out, decode) {
      var e :| e in entries && n in NamesInEntry(e, decode);
      AskedIsKept(e, disclose, decode, n);
      var e' := Pair(e.key, CborArray(KeptItems(e.key, e.value.items, disclose, decode)));
      EntryNamed(e, e', disclose, decode);
      assert e' in out;
    }
  }

  lemma DocumentNamed(doc: Value, disclose: set<Text>, decode: Decoder)
    requires PruneDocument(disclose, decode)(doc).Ok?
    ensures NamesInDocument(PruneDocument(disclose, decode)(doc).value, decode) == Asked(NamesInDocument(doc, decode), disclose)
  {
    hide ReplaceEntries, FindText, HasKey, PruneEntries, NamesInEntries, Lit, Qualified;
    var inner := Replacing(Lit("nameSpaces"), false, PruneNameSpaces(disclose, decode));
    FindReplaced(doc.entries, Lit("issuerSigned"), inner, Lit("issuerSigned"));
    match GetMapEntry(doc, Lit("issuerSigned"))
    case None =>
    case Some(issuerSigned) =>
      FindReplaced(issuerSigned.entries, Lit("nameSpaces"), PruneNameSpaces(disclose, decode), Lit("nameSpaces"));
      match GetMapEntry(issuerSigned, Lit("nameSpaces")) {
        case None =>
        case Some(v) => EntriesNamed(v.entries, disclose, decode);
      }
  }

  /** The elements of the pruned response are the issued ones asked for. */
  lemma PrunedNames(response: Value, disclose: set<Text>, decode: Decoder)
    requires PruneIssuerSigned(response, disclose, decode).Ok?
    ensures IssuedElements(PruneIssuerSigned(response, disclose, decode).value, decode)
         == Asked(IssuedElements(response, decode), disclose)
  {
    hide ReplaceEntries, FindText, HasKey, MapItems, PruneDocument, NamesInDocument, Lit, Qualified;
    var pruned := PruneIssuerSigned(response, disclose, decode).value;
    FindReplaced(response.entries, Lit("documents"), PruneDocuments(disclose, decode), Lit("documents"));
    if DocumentsIn(response).Some? {
      var docs := DocumentsIn(response).value;
      var docs' := MapItems(docs, PruneDocument(disclose, decode)).value;
      assert DocumentsIn(pruned) == Some(docs');
      forall i | 0 <= i < |docs|
        ensures |docs'| == |docs| && NamesInDocument(docs'[i], decode) == Asked(NamesInDocument(docs[i], decode), disclose)
      {
        MapItemsAt(docs, PruneDocument(disclose, decode), i);
        DocumentNamed(docs[i], disclose, decode);
      }
      MapNothing(PruneDocument(disclose, decode));
      assert |docs'| == |docs| by {
        if docs != [] { MapItemsAt(docs, PruneDocument(disclose, decode), 0); }
      }
      UnionNamed(docs, docs', disclose, decode);
    }
  }

  lemma MapNothing(f: Transform)
    ensures MapItems([], f) == Ok([])
  {
  }

  lemma UnionNamed(docs: seq<Value>, docs': seq<Value>, disclose: set<Text>, decode: Decoder)
    requires |docs| == |docs'|
    requires forall i :: 0 <= i < |docs| ==> NamesInDocument(docs'[i], decode) == Asked(NamesInDocument(docs[i], decode), disclose)
    ensures NamesInDocuments(docs', decode) == Asked(NamesInDocuments(docs, decode), disclose)
  {
    hide NamesInDocument, Qualified;
    forall n | n in Asked(NamesInDocuments(docs, decode), disclose) ensures n in NamesInDocuments(docs', decode) {
      var doc :| doc in docs && n in NamesInDocument(doc, decode);
      var i :| 0 <= i < |docs| && docs[i] == doc;
      assert docs'[i] in docs' && n in NamesInDocument(docs'[i], decode);
    }
    forall n | n in NamesInDocuments(docs', decode) ensures n in Asked(NamesInDocuments(docs, decode), disclose) {
      var doc :| doc in docs' && n in NamesInDocument(doc, decode);
      var i :| 0 <= i < |docs'| && docs'[i] == doc;
      assert docs[i] in docs && n in Asked(NamesInDocument(docs[i], decode), disclose);
    }
  }

  /** What stays in the pruned response is what was issued and asked for. */
  lemma PrunedIssued(response: Value, disclose: set<Text>, decode: Decoder)
    requires PruneIssuerSigned(response, disclose, decode).Ok?
    ensures IssuedElementIdentifiers(PruneIssuerSigned(response, disclose, decode).value, decode)
         == IssuedElementIdentifiers(response, decode) * disclose
  {
    hide PruneIssuerSigned, IssuedElements, Qualified;
    PrunedNames(response, disclose, decode);
  }

  /** An accepted request discloses exactly the identifiers it names, no more and no fewer. */
  lemma PreparedDisclosesExactly(c: Codec, deviceResponse: Bytes, transcript: Bytes, disclose: set<Text>)
    requires PrepareMdoc(c, deviceResponse, transcript, disclose).Ok?
    requires Lawful(c) && c.decode(deviceResponse).Some? && Representable(c.decode(deviceResponse).value)
    ensures var presented := c.decode(PrepareMdoc(c, deviceResponse, transcript, disclose).value.deviceResponse);
            presented.Some? && IssuedElementIdentifiers(presented.value, c.decode) == disclose
  {
    hide IssuedElementIdentifiers, PruneIssuerSigned, Representable, BuildDeviceAuthentication, FirstDocType, FirstDeviceNameSpacesBytes;
    var response := c.decode(deviceResponse).value;
    PruneRepresentable(response, disclose, c.decode);
    PrunedIssued(response, disclose, c.decode);
  }

  function NameSpacesOf(names: set<ElementName>): set<Text> {
    set n | n in names :: n.ns
  }

  /** No two of the elements share a qualified identifier. */
  predicate Unambiguous(names: set<ElementName>) {
    forall m, n :: m in names && n in names && Qualified(m) == Qualified(n) ==> m == n
  }

  lemma SeparatedUnambiguous(names: set<ElementName>)
    requires Separated(NameSpacesOf(names))
    ensures Unambiguous(names)
  {
    hide Separated, QualifiedElementId;
    forall m, n | m in names && n in names && Qualified(m) == Qualified(n) ensures m == n {
      QualifiedInjective(NameSpacesOf(names), m.ns, m.id, n.ns, n.id);
    }
  }

  /**
    Asking by qualified identifier selects exactly the elements meant, whichever they are, if and only if
    the issued ones are unambiguous.
  */
  lemma AskedExact(issued: set<ElementName>)
    ensures (forall wanted | wanted <= issued :: Asked(issued, QualifiedAll(wanted)) == wanted) <==> Unambiguous(issued)
  {
    hide QualifiedElementId;
    if Unambiguous(issued) {
      forall wanted | wanted <= issued ensures Asked(issued, QualifiedAll(wanted)) == wanted {
        AskedWhenUnambiguous(issued, wanted);
      }
    }
    if forall wanted | wanted <= issued :: Asked(issued, QualifiedAll(wanted)) == wanted {
      forall m, n | m in issued && n in issued && Qualified(m) == Qualified(n) ensures m == n {
        assert {m} <= issued && Asked(issued, QualifiedAll({m})) == {m};
        assert Qualified(m) in QualifiedAll({m});
        assert n in Asked(issued, QualifiedAll({m}));
      }
    }
  }

  lemma AskedWhenUnambiguous(issued: set<ElementName>, wanted: set<ElementName>)
    requires Unambiguous(issued) && wanted <= issued
    ensures Asked(issued, QualifiedAll(wanted)) == wanted
  {
    hide QualifiedElementId, Qualified;
    forall n | n in Asked(issued, QualifiedAll(wanted)) ensures n in wanted {
      var m :| m in wanted && Qualified(m) == Qualified(n);
    }
    forall n | n in wanted ensures n in Asked(issued, QualifiedAll(wanted)) {
    }
  }

  /**
    A request made by qualifying a set of issued elements discloses the elements that share their
    identifiers: exactly the wanted ones if the issued elements are unambiguous.
  */
  lemma PreparedDisclosesElements(c: Codec, deviceResponse: Bytes, transcript: Bytes, wanted: set<ElementName>)
    requires PrepareMdoc(c, deviceResponse, transcript, QualifiedAll(wanted)).Ok?
    requires Lawful(c) && c.decode(deviceResponse).Some? && Representable(c.decode(deviceResponse).value)
    requires wanted <= IssuedElements(c.decode(deviceResponse).value, c.decode)
    ensures var issued := IssuedElements(c.decode(deviceResponse).value, c.decode);
            var presented := c.decode(PrepareMdoc(c, deviceResponse, transcript, QualifiedAll(wanted)).value.deviceResponse);
            && presented.Some?
            && IssuedElements(presented.value, c.decode) == Asked(issued, QualifiedAll(wanted))
            && wanted <= IssuedElements(presented.value, c.decode)
            && (Unambiguous(issued) ==> IssuedElements(presented.value, c.decode) == wanted)
  {
    hide IssuedElements, IssuedElementIdentifiers, PruneIssuerSigned, Representable, BuildDeviceAuthentication, FirstDocType,
      FirstDeviceNameSpacesBytes, Unambiguous, QualifiedElementId;
    var response, disclose := c.decode(deviceResponse).value, QualifiedAll(wanted);
    PruneRepresentable(response, disclose, c.decode);
    PrunedNames(response, disclose, c.decode);
    if Unambiguous(IssuedElements(response, c.decode)) {
      AskedWhenUnambiguous(IssuedElements(response, c.decode), wanted);
    }
  }

  // ---------------------------------------------------------------------------------------------
  // What a device signature binds
  // ---------------------------------------------------------------------------------------------

  function AuthenticationArray(transcript: Value, docType: Text, nameSpaces: Value): Value {
    CborArray([CborText(Lit("DeviceAuthentication")), transcript, CborText(docType), nameSpaces])
  }

  /** The parts of a payload are ones the library can write. */
  predicate Writable(c: Codec, transcript: Value, docType: Text, deviceNameSpaces: Bytes) {
    && c.decode(deviceNameSpaces).Some?
    && Representable(transcript) && Representable(CborText(docType)) && Representable(c.decode(deviceNameSpaces).value)
    && |c.encode(AuthenticationArray(transcript, docType, c.decode(deviceNameSpaces).value))| < U64_RANGE
  }

  lemma TitleRepresentable()
    ensures Representable(CborText(Lit("DeviceAuthentication")))
  {
    LitRepresentable("DeviceAuthentication");
  }

  lemma ConsRepresentable(v: Value, rest: seq<Value>)
    requires Representable(v) && AllRepresentable(rest)
    ensures AllRepresentable([v] + rest)
  {
    hide Representable;
    assert ([v] + rest)[1..] == rest;
  }

  lemma AuthenticationRepresentable(transcript: Value, docType: Text, nameSpaces: Value)
    requires Representable(transcript) && Representable(CborText(docType)) && Representable(nameSpaces)
    ensures Representable(AuthenticationArray(transcript, docType, nameSpaces))
  {
    TitleRepresentable();
    assert AllRepresentable([]);
    hide Representable, AllRepresentable, Lit;
    var title, d := CborText(Lit("DeviceAuthentication")), CborText(docType);
    ConsRepresentable(nameSpaces, []);
    ConsRepresentable(d, [nameSpaces] + []);
    ConsRepresentable(transcript, [d] + ([nameSpaces] + []));
    ConsRepresentable(title, [transcript] + ([d] + ([nameSpaces] + [])));
    var all := [title, transcript, d, nameSpaces];
    assert [title] + ([transcript] + ([d] + ([nameSpaces] + []))) == all;
    FourRepresentable(all);
  }

  lemma FourRepresentable(all: seq<Value>)
    requires |all| == 4 && AllRepresentable(all)
    ensures Representable(CborArray(all))
  {
  }

  lemma WrappedRepresentable(inner: Bytes)
    requires |inner| < U64_RANGE
    ensures Representable(WrapTagged(inner))
  {
  }

  /** The payload is `#6.24(bstr)` over the four-element array, and reads back as it. */
  lemma PayloadShape(c: Codec, transcript: Value, docType: Text, deviceNameSpaces: Bytes)
    requires Lawful(c) && Writable(c, transcript, docType, deviceNameSpaces)
    ensures var payload := BuildDeviceAuthentication(c, transcript, docType, deviceNameSpaces);
            && payload.Some? && c.decode(payload.value).Some?
            && var inner := UnwrapTagged(c.decode(payload.value).value);
               inner.Some? && c.decode(inner.value) == Some(AuthenticationArray(transcript, docType, c.decode(deviceNameSpaces).value))
  {
    var auth := AuthenticationArray(transcript, docType, c.decode(deviceNameSpaces).value);
    AuthenticationRepresentable(transcript, docType, c.decode(deviceNameSpaces).value);
    hide Representable, Lit;
    WrappedRepresentable(c.encode(auth));
    assert c.decode(c.encode(auth)) == Some(auth);
    assert c.decode(c.encode(WrapTagged(c.encode(auth)))) == Some(WrapTagged(c.encode(auth)));
  }

  /** One payload belongs to one session transcript, one docType and one set of device namespaces. */
  lemma PayloadBinds(c: Codec, transcript: Value, docType: Text, nameSpaces: Bytes,
                     transcript': Value, docType': Text, nameSpaces': Bytes)
    requires Lawful(c) && Writable(c, transcript, docType, nameSpaces) && Writable(c, transcript', docType', nameSpaces')
    requires BuildDeviceAuthentication(c, transcript, docType, nameSpaces)
          == BuildDeviceAuthentication(c, transcript', docType', nameSpaces')
    ensures transcript == transcript' && docType == docType' && c.decode(nameSpaces) == c.decode(nameSpaces')
  {
    PayloadShape(c, transcript, docType, nameSpaces);
    PayloadShape(c, transcript', docType', nameSpaces');
    hide BuildDeviceAuthentication, Writable, Representable, Lit;
    var a := AuthenticationArray(transcript, docType, c.decode(nameSpaces).value);
    var a' := AuthenticationArray(transcript', docType', c.decode(nameSpaces').value);
    assert a == a';
    assert a.items[1] == a'.items[1] && a.items[2] == a'.items[2] && a.items[3] == a'.items[3];
  }
}
