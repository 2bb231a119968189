/**
  Whole held responses, built from the listings under `nameSpaces`: what the lookups, the scan, the
  pruner and the splice make of them, and the ceremony in which they are presented.
*/
module HeldResponses {
  import opened Prelude
  import CborWire
  import opened CborValue
  import opened IssuerItemScan
  import opened CborEncoding
  import opened Disclosure
  import opened DeviceAuthentication
  import opened Pruning
  import opened PrunedCapture
  import opened PrunedVerification
  import opened MdocVerify
  import opened Presentation
  import opened PresentationVerified

  type Listing = seq<Pair>

  function Txt(s: string): Value {
    CborText(Lit(s))
  }

  /** One `nameSpaces` entry per listing, then the issuer's signature. */
  function IssuerEntries(ls: seq<Listing>): seq<Pair> {
    if ls == [] then [Pair(Txt("issuerAuth"), CborNull)]
    else [Pair(Txt("nameSpaces"), CborMap(ls[0]))] + IssuerEntries(ls[1..])
  }

  function Issuer(ls: seq<Listing>): Value {
    CborMap(IssuerEntries(ls))
  }

  /** The empty map, written. */
  function EmptyBytes(): Bytes {
    Canonical(CborMap([]))
  }

  function DeviceSigned(ns: bool): Value {
    if ns then CborMap([Pair(Txt("nameSpaces"), WrapTagged(EmptyBytes())), Pair(Txt("deviceAuth"), CborNull)])
    else CborMap([Pair(Txt("deviceAuth"), CborNull)])
  }

  function HeldDocument(ls: seq<Listing>, ns: bool): Value {
    CborMap([Pair(Txt("docType"), Txt("t")), Pair(Txt("issuerSigned"), Issuer(ls)), Pair(Txt("deviceSigned"), DeviceSigned(ns))])
  }

  /** A response with one document; `ns` says whether it carries `deviceSigned.nameSpaces`. */
  function HeldResponse(ls: seq<Listing>, ns: bool): Value {
    CborMap([Pair(Txt("version"), Txt("1.0")), Pair(Txt("status"), CborInteger(0)),
             Pair(Txt("documents"), CborArray([HeldDocument(ls, ns)]))])
  }

  /** The null item: the session transcript, the placeholder signatures and the assembled signature. */
  function NullBytes(): Bytes {
    Canonical(CborNull)
  }

  function Issued(mso: Value, digest: Digest): Authenticated {
    Authenticated(mso, digest, NoReference, [], 0)
  }

  /** Checks that pass, with `mso` signed by the issuer. */
  function Passing(c: Codec, mso: Value, digest: Digest): Checks {
    Checks(c, _ => Ok(Issued(mso, digest)), (_, _, _) => Good, _ => Ok([]), _ => true, (_, _, _) => true)
  }

  function NullParams(): Params {
    Params([Good], map[], Some(NullBytes()))
  }

  // ---------------------------------------------------------------------------------------------
  // Lookups
  // ---------------------------------------------------------------------------------------------

  lemma {:induction false} FindAt(entries: seq<Pair>, key: Text, i: nat)
    requires i < |entries| && entries[i].key == CborText(key)
    requires forall j :: 0 <= j < i ==> entries[j].key != CborText(key)
    ensures FindText(entries, key) == Some(entries[i].value)
  {
    if i > 0 {
      FindAt(entries[1..], key, i - 1);
    }
  }

  lemma ResponseNames()
    ensures Lit("version") != Lit("status") && Lit("version") != Lit("documents") && Lit("status") != Lit("documents")
    ensures Lit("docType") != Lit("issuerSigned") && Lit("docType") != Lit("deviceSigned")
    ensures Lit("issuerSigned") != Lit("deviceSigned") && Lit("docType") != Lit("valueDigests")
    ensures Lit("nameSpaces") != Lit("issuerAuth") && Lit("nameSpaces") != Lit("deviceAuth")
  {
    KeysDiffer();
    assert |Lit("version")| == 7 && |Lit("status")| == 6 && |Lit("documents")| == 9;
    assert |Lit("docType")| == 7 && |Lit("valueDigests")| == 12;
  }

  lemma HeldLookups(ls: seq<Listing>, ns: bool)
    ensures DocumentsIn(HeldResponse(ls, ns)) == Some([HeldDocument(ls, ns)])
    ensures GetText(HeldResponse(ls, ns), Lit("version")) == Some(Lit("1.0"))
    ensures GetInteger(HeldResponse(ls, ns), Lit("status")) == Some(0)
    ensures GetText(HeldDocument(ls, ns), Lit("docType")) == Some(Lit("t"))
    ensures GetMapEntry(HeldDocument(ls, ns), Lit("issuerSigned")) == Some(Issuer(ls))
    ensures GetMapEntry(HeldDocument(ls, ns), Lit("deviceSigned")) == Some(DeviceSigned(ns))
  {
    hide Lit, FindText, Issuer, DeviceSigned;
    ResponseNames();
    var response, doc := HeldResponse(ls, ns).entries, HeldDocument(ls, ns).entries;
    FindAt(response, Lit("version"), 0);
    FindAt(response, Lit("status"), 1);
    FindAt(response, Lit("documents"), 2);
    FindAt(doc, Lit("docType"), 0);
    FindAt(doc, Lit("issuerSigned"), 1);
    FindAt(doc, Lit("deviceSigned"), 2);
  }

  lemma {:induction false} AuthFound(ls: seq<Listing>)
    ensures FindText(IssuerEntries(ls), Lit("issuerAuth")) == Some(CborNull)
    decreases |ls|
  {
    hide Lit;
    ResponseNames();
    if ls != [] {
      AuthFound(ls[1..]);
      assert IssuerEntries(ls)[1..] == IssuerEntries(ls[1..]);
    }
  }

  lemma IssuerLookups(ls: seq<Listing>)
    requires ls != []
    ensures NameSpaces(Issuer(ls)) == Some(ls[0])
    ensures GetMapEntry(Issuer(ls), Lit("issuerAuth")) == Some(CborNull)
  {
    hide Lit, FindText;
    AuthFound(ls);
    FindAt(IssuerEntries(ls), Lit("nameSpaces"), 0);
  }

  lemma DeviceLookups(ns: bool)
    ensures GetMapEntry(DeviceSigned(ns), Lit("nameSpaces")) == if ns then Some(WrapTagged(EmptyBytes())) else None
    ensures GetMapEntry(DeviceSigned(ns), Lit("deviceAuth")) == Some(CborNull)
  {
    hide Lit, FindText, EmptyBytes;
    ResponseNames();
    if ns {
      FindAt(DeviceSigned(ns).entries, Lit("nameSpaces"), 0);
      FindAt(DeviceSigned(ns).entries, Lit("deviceAuth"), 1);
    } else {
      FindAt(DeviceSigned(ns).entries, Lit("deviceAuth"), 0);
      NotFound(DeviceSigned(ns).entries, Lit("nameSpaces"));
    }
  }

  lemma HeldDocuments(ls: seq<Listing>, ns: bool)
    requires ls != []
    ensures Documents(HeldResponse(ls, ns)) == Some([HeldDocument(ls, ns)])
    ensures DeviceNameSpaces(HeldDocument(ls, ns)) == if ns then Some(WrapTagged(EmptyBytes())) else None
    ensures ListedEntries(HeldDocument(ls, ns)) == ls[0]
  {
    hide Lit, GetMapEntry, HeldDocument, HeldResponse, EmptyBytes, DeviceSigned, Issuer, NameSpaces;
    HeldLookups(ls, ns);
    DeviceLookups(ns);
    IssuerLookups(ls);
  }

  // ---------------------------------------------------------------------------------------------
  // Writing it
  // ---------------------------------------------------------------------------------------------

  lemma TextWritable(s: string)
    requires |s| < 60 && forall c :: c in s ==> c as int < 128
    ensures Representable(Txt(s))
  {
    LitRepresentable(s);
  }

  lemma {:induction false} EntriesWritable(entries: seq<Pair>)
    requires forall e :: e in entries ==> Representable(e.key) && Representable(e.value)
    ensures PairsRepresentable(entries)
    decreases |entries|
  {
    hide Representable;
    if entries != [] {
      assert PairRepresentable(entries[0]) by { assert entries[0] in entries; }
      EntriesWritable(entries[1..]);
    }
  }

  lemma MapWritable(entries: seq<Pair>)
    requires |entries| < 100 && forall e :: e in entries ==> Representable(e.key) && Representable(e.value)
    ensures Representable(CborMap(entries))
  {
    EntriesWritable(entries);
  }

  lemma TwoWritable(a: Pair, b: Pair)
    requires Representable(a.key) && Representable(a.value) && Representable(b.key) && Representable(b.value)
    ensures Representable(CborMap([a, b]))
  {
    hide Representable;
    MapWritable([a, b]);
  }

  lemma ThreeWritable(a: Pair, b: Pair, c: Pair)
    requires Representable(a.key) && Representable(a.value) && Representable(b.key) && Representable(b.value)
    requires Representable(c.key) && Representable(c.value)
    ensures Representable(CborMap([a, b, c]))
  {
    hide Representable;
    MapWritable([a, b, c]);
  }

  lemma {:induction false} ArrayWritable(items: seq<Value>)
    requires |items| < 100 && forall v :: v in items ==> Representable(v)
    ensures Representable(CborArray(items)) && AllRepresentable(items)
    decreases |items|
  {
    hide Representable;
    if items != [] {
      assert items[0] in items;
      ArrayWritable(items[1..]);
    }
    ArrayOf(items);
  }

  lemma ArrayOf(items: seq<Value>)
    requires |items| < 100 && AllRepresentable(items)
    ensures Representable(CborArray(items))
  {
  }

  lemma ScalarsWritable()
    ensures Representable(CborNull) && Representable(CborInteger(0))
  {
  }

  lemma EmptyWritable()
    ensures Representable(CborMap([])) && |EmptyBytes()| <= 100 && Representable(WrapTagged(EmptyBytes()))
  {
  }

  ghost predicate ListingsWritable(ls: seq<Listing>) {
    |ls| < 10 && forall l :: l in ls ==> Representable(CborMap(l))
  }

  lemma {:induction false} IssuerMembers(ls: seq<Listing>, e: Pair)
    requires e in IssuerEntries(ls)
    ensures e == Pair(Txt("issuerAuth"), CborNull) || exists l :: l in ls && e == Pair(Txt("nameSpaces"), CborMap(l))
    ensures |IssuerEntries(ls)| == |ls| + 1
    decreases |ls|
  {
    hide Lit;
    if ls != [] {
      assert IssuerEntries(ls)[1..] == IssuerEntries(ls[1..]);
      if |ls| == 1 { assert IssuerEntries(ls[1..])[0] in IssuerEntries(ls[1..]); }
      if e != IssuerEntries(ls)[0] {
        IssuerMembers(ls[1..], e);
        if l :| l in ls[1..] && e == Pair(Txt("nameSpaces"), CborMap(l)) { assert l in ls; }
      } else {
        assert ls[0] in ls;
        IssuerCount(ls);
      }
    }
  }

  lemma {:induction false} IssuerCount(ls: seq<Listing>)
    ensures |IssuerEntries(ls)| == |ls| + 1
    decreases |ls|
  {
    if ls != [] {
      IssuerCount(ls[1..]);
    }
  }

  lemma IssuerWritable(ls: seq<Listing>)
    requires ListingsWritable(ls)
    ensures Representable(Issuer(ls))
  {
    hide Representable, Lit;
    TextWritable("nameSpaces");
    TextWritable("issuerAuth");
    ScalarsWritable();
    IssuerCount(ls);
    forall e | e in IssuerEntries(ls) ensures Representable(e.key) && Representable(e.value) {
      IssuerMembers(ls, e);
    }
    MapWritable(IssuerEntries(ls));
  }

  lemma DeviceWritable(ns: bool)
    ensures Representable(DeviceSigned(ns))
  {
    hide Representable, Lit, EmptyBytes;
    TextWritable("nameSpaces");
    TextWritable("deviceAuth");
    EmptyWritable();
    ScalarsWritable();
    TwoWritable(Pair(Txt("nameSpaces"), WrapTagged(EmptyBytes())), Pair(Txt("deviceAuth"), CborNull));
    OneEntryRepresentable(Pair(Txt("deviceAuth"), CborNull));
  }

  lemma DocumentWritable(ls: seq<Listing>, ns: bool)
    requires ListingsWritable(ls)
    ensures Representable(HeldDocument(ls, ns))
  {
    hide Representable, Lit, Issuer, DeviceSigned, ListingsWritable;
    TextWritable("docType");
    TextWritable("t");
    TextWritable("issuerSigned");
    TextWritable("deviceSigned");
    IssuerWritable(ls);
    DeviceWritable(ns);
    ThreeWritable(Pair(Txt("docType"), Txt("t")), Pair(Txt("issuerSigned"), Issuer(ls)), Pair(Txt("deviceSigned"), DeviceSigned(ns)));
  }

  lemma HeldWritable(ls: seq<Listing>, ns: bool)
    requires ListingsWritable(ls)
    ensures Representable(HeldResponse(ls, ns))
  {
    hide Representable, Lit, HeldDocument, ListingsWritable;
    TextWritable("version");
    TextWritable("1.0");
    TextWritable("status");
    TextWritable("documents");
    DocumentWritable(ls, ns);
    ArrayWritable([HeldDocument(ls, ns)]);
    ScalarsWritable();
    ThreeWritable(Pair(Txt("version"), Txt("1.0")), Pair(Txt("status"), CborInteger(0)),
                  Pair(Txt("documents"), CborArray([HeldDocument(ls, ns)])));
  }

  // ---------------------------------------------------------------------------------------------
  // What is captured from it
  // ---------------------------------------------------------------------------------------------

  /** The listings, captured one after the other. */
  function FoldListings(ls: seq<Listing>, acc: RawDocumentItems, decode: Decoder): Option<RawDocumentItems> {
    if ls == [] then Some(acc)
    else
      match FoldPairs(ls[0], acc, ValueNameSpace(decode))
      case None => None
      case Some(next) => FoldListings(ls[1..], next, decode)
  }

  lemma FoldNone<A>(acc: A, h: (Text, Value, A) -> Option<A>)
    ensures FoldPairs([], acc, h) == Some(acc)
  {
  }

  lemma FoldCons<A>(key: Text, v: Value, rest: seq<Pair>, acc: A, h: (Text, Value, A) -> Option<A>)
    ensures FoldPairs([Pair(CborText(key), v)] + rest, acc, h)
         == match h(key, v, acc) { case None => None case Some(a) => FoldPairs(rest, a, h) }
  {
    assert ([Pair(CborText(key), v)] + rest)[1..] == rest;
  }

  lemma {:induction false} IssuerFold(ls: seq<Listing>, acc: RawDocumentItems, decode: Decoder)
    ensures FoldPairs(IssuerEntries(ls), acc, ValueIssuerSigned(decode)) == FoldListings(ls, acc, decode)
    decreases |ls|
  {
    hide Lit, FoldPairs, ValueNameSpace;
    ResponseNames();
    var h := ValueIssuerSigned(decode);
    if ls == [] {
      FoldCons(Lit("issuerAuth"), CborNull, [], acc, h);
      FoldNone(acc, h);
      assert [Pair(Txt("issuerAuth"), CborNull)] + [] == [Pair(Txt("issuerAuth"), CborNull)];
    } else {
      FoldCons(Lit("nameSpaces"), CborMap(ls[0]), IssuerEntries(ls[1..]), acc, h);
      MapFold(CborMap(ls[0]), acc, ValueNameSpace(decode));
      var next := FoldPairs(ls[0], acc, ValueNameSpace(decode));
      if next.Some? {
        IssuerFold(ls[1..], next.value, decode);
      }
    }
  }

  lemma ThreeUnique(a: Pair, b: Pair, c: Pair)
    requires a.key != b.key && a.key != c.key && b.key != c.key
    ensures UniqueKeys([a, b, c])
  {
  }

  lemma DocumentCapture(ls: seq<Listing>, ns: bool, decode: Decoder)
    ensures DocumentOf(HeldDocument(ls, ns), decode) == FoldListings(ls, map[], decode)
  {
    hide Lit, FindText, FoldPairs, FoldMapValue, ValueIssuerSigned, IssuerEntries, DeviceSigned, UniqueKeys, FoldListings;
    ResponseNames();
    HeldLookups(ls, ns);
    IssuerFold(ls, map[], decode);
    MapFold(Issuer(ls), map[], ValueIssuerSigned(decode));
    var entries := HeldDocument(ls, ns).entries;
    ThreeUnique(entries[0], entries[1], entries[2]);
    FoldOnce(entries, Lit("issuerSigned"), map[], ValueDocument(decode));
    MapFold(HeldDocument(ls, ns), map[], ValueDocument(decode));
  }

  lemma HeldCapture(ls: seq<Listing>, ns: bool, decode: Decoder, raw: RawDocumentItems)
    requires FoldListings(ls, map[], decode) == Some(raw)
    ensures ResponseOf(HeldResponse(ls, ns), decode) == Some([raw])
  {
    hide Lit, FindText, FoldPairs, FoldMapValue, DocumentOf, DocumentsOf, HeldDocument, UniqueKeys, FoldListings;
    ResponseNames();
    HeldLookups(ls, ns);
    DocumentCapture(ls, ns, decode);
    OneDocumentOf([HeldDocument(ls, ns)], [], decode);
    assert [] + [raw] == [raw];
    var entries := HeldResponse(ls, ns).entries;
    ThreeUnique(entries[0], entries[1], entries[2]);
    FoldOnce(entries, Lit("documents"), [], ValueResponse(decode));
    MapFold(HeldResponse(ls, ns), [], ValueResponse(decode));
  }

  // ---------------------------------------------------------------------------------------------
  // Pruning and splicing succeed
  // ---------------------------------------------------------------------------------------------

  lemma {:induction false} ReplaceSucceeds(entries: seq<Pair>, key: Text, f: Transform)
    requires forall e :: e in entries && e.key == CborText(key) ==> f(e.value).Ok?
    ensures ReplaceEntries(entries, key, f).Ok?
    decreases |entries|
  {
    if entries != [] {
      assert entries[0] in entries;
      ReplaceSucceeds(entries[1..], key, f);
    }
  }

  lemma ReplacedOk(entries: seq<Pair>, key: Text, required: bool, f: Transform)
    requires forall e :: e in entries && e.key == CborText(key) ==> f(e.value).Ok?
    requires required ==> HasKey(entries, key)
    ensures ReplaceMapEntry(CborMap(entries), key, required, f).Ok?
  {
    hide ReplaceEntries;
    ReplaceSucceeds(entries, key, f);
  }

  lemma OneMapped(doc: Value, doc': Value, f: Transform)
    requires f(doc) == Ok(doc')
    ensures MapItems([doc], f) == Ok([doc'])
  {
    assert [doc][1..] == [] && [doc'] + [] == [doc'];
    MapNothing(f);
  }

  ghost predicate ListingsPrune(ls: seq<Listing>, disclose: set<Text>, decode: Decoder) {
    forall l :: l in ls ==> PruneEntries(l, disclose, decode).Ok?
  }

  ghost function PrunedListings(ls: seq<Listing>, disclose: set<Text>, decode: Decoder): (out: seq<Listing>)
    requires ListingsPrune(ls, disclose, decode)
    ensures |out| == |ls| && forall i :: 0 <= i < |ls| ==> PruneEntries(ls[i], disclose, decode) == Ok(out[i])
  {
    seq(|ls|, i requires 0 <= i < |ls| => assert ls[i] in ls; PruneEntries(ls[i], disclose, decode).value)
  }

  lemma ReplaceStep(e: Pair, rest: seq<Pair>, v': Value, rest': seq<Pair>, key: Text, f: Transform)
    requires if e.key == CborText(key) then f(e.value) == Ok(v') else v' == e.value
    requires ReplaceEntries(rest, key, f) == Ok(rest')
    ensures ReplaceEntries([e] + rest, key, f) == Ok([Pair(e.key, v')] + rest')
  {
    assert ([e] + rest)[1..] == rest;
  }

  lemma ReplaceNone(key: Text, f: Transform)
    ensures ReplaceEntries([], key, f) == Ok([])
  {
  }

  lemma {:induction false} IssuerPruned(ls: seq<Listing>, disclose: set<Text>, decode: Decoder)
    requires ListingsPrune(ls, disclose, decode)
    ensures ReplaceEntries(IssuerEntries(ls), Lit("nameSpaces"), PruneNameSpaces(disclose, decode))
         == Ok(IssuerEntries(PrunedListings(ls, disclose, decode)))
    decreases |ls|
  {
    hide Lit, ReplaceEntries, PruneEntries;
    ResponseNames();
    var f, key := PruneNameSpaces(disclose, decode), Lit("nameSpaces");
    var out := PrunedListings(ls, disclose, decode);
    if ls == [] {
      var auth := Pair(Txt("issuerAuth"), CborNull);
      ReplaceNone(key, f);
      ReplaceStep(auth, [], CborNull, [], key, f);
      assert [auth] + [] == [auth];
    } else {
      assert ListingsPrune(ls[1..], disclose, decode);
      IssuerPruned(ls[1..], disclose, decode);
      assert out[1..] == PrunedListings(ls[1..], disclose, decode);
      assert f(CborMap(ls[0])) == Ok(CborMap(out[0]));
      ReplaceStep(Pair(Txt("nameSpaces"), CborMap(ls[0])), IssuerEntries(ls[1..]), CborMap(out[0]), IssuerEntries(out[1..]), key, f);
    }
  }

  lemma ThreeReplaced(a: Pair, b: Pair, c: Pair, key: Text, required: bool, f: Transform, v': Value)
    requires a.key != CborText(key) && (b.key == CborText(key)) != (c.key == CborText(key))
    requires f(if b.key == CborText(key) then b.value else c.value) == Ok(v')
    ensures ReplaceMapEntry(CborMap([a, b, c]), key, required, f)
         == Ok(CborMap(if b.key == CborText(key) then [a, Pair(b.key, v'), c] else [a, b, Pair(c.key, v')]))
  {
    hide ReplaceEntries;
    var b' := if b.key == CborText(key) then v' else b.value;
    var c' := if c.key == CborText(key) then v' else c.value;
    ReplaceNone(key, f);
    ReplaceStep(c, [], c', [], key, f);
    ReplaceStep(b, [c] + [], b', [Pair(c.key, c')] + [], key, f);
    ReplaceStep(a, [b] + ([c] + []), a.value, [Pair(b.key, b')] + ([Pair(c.key, c')] + []), key, f);
    assert [a] + ([b] + ([c] + [])) == [a, b, c];
    assert [Pair(a.key, a.value)] + ([Pair(b.key, b')] + ([Pair(c.key, c')] + [])) == [a, Pair(b.key, b'), Pair(c.key, c')];
    assert [a, b, c][1] == b && [a, b, c][2] == c;
    assert b in [a, b, c] && c in [a, b, c];
  }

  lemma DocumentPruned(ls: seq<Listing>, ns: bool, disclose: set<Text>, decode: Decoder)
    requires ListingsPrune(ls, disclose, decode)
    ensures PruneDocument(disclose, decode)(HeldDocument(ls, ns)) == Ok(HeldDocument(PrunedListings(ls, disclose, decode), ns))
  {
    hide Lit, ReplaceEntries, PruneNameSpaces, IssuerEntries, DeviceSigned, ListingsPrune, PrunedListings;
    ResponseNames();
    IssuerPruned(ls, disclose, decode);
    var inner := Replacing(Lit("nameSpaces"), false, PruneNameSpaces(disclose, decode));
    var out := PrunedListings(ls, disclose, decode);
    assert inner(Issuer(ls)) == Ok(Issuer(out));
    hide ReplaceMapEntry, Issuer;
    var doc := HeldDocument(ls, ns).entries;
    ThreeReplaced(doc[0], doc[1], doc[2], Lit("issuerSigned"), false, inner, Issuer(out));
  }

  /** Pruning such a response prunes its listings. */
  lemma HeldPruned(ls: seq<Listing>, ns: bool, disclose: set<Text>, decode: Decoder)
    requires ListingsPrune(ls, disclose, decode)
    ensures PruneIssuerSigned(HeldResponse(ls, ns), disclose, decode) == Ok(HeldResponse(PrunedListings(ls, disclose, decode), ns))
  {
    hide Lit, ReplaceMapEntry, HeldDocument, MapItems, PruneDocument, ListingsPrune, PrunedListings;
    ResponseNames();
    DocumentPruned(ls, ns, disclose, decode);
    var out := PrunedListings(ls, disclose, decode);
    OneMapped(HeldDocument(ls, ns), HeldDocument(out, ns), PruneDocument(disclose, decode));
    var f := PruneDocuments(disclose, decode);
    assert f(CborArray([HeldDocument(ls, ns)])) == Ok(CborArray([HeldDocument(out, ns)]));
    var entries := HeldResponse(ls, ns).entries;
    ThreeReplaced(entries[0], entries[1], entries[2], Lit("documents"), false, f, CborArray([HeldDocument(out, ns)]));
  }

  // ---------------------------------------------------------------------------------------------
  // The ceremony
  // ---------------------------------------------------------------------------------------------

  lemma NullReads(c: Codec)
    requires Lawful(c)
    ensures c.decode(NullBytes()) == Some(CborNull)
  {
    ScalarsWritable();
    hide Canonical, Representable;
    assert c.encode(CborNull) == NullBytes();
  }

  lemma DeviceBytes(c: Codec, ls: seq<Listing>, ns: bool)
    requires Lawful(c) && ls != []
    ensures FirstDeviceNameSpacesBytes(c, HeldResponse(ls, ns)) == Ok(c.encode(WrapTagged(EmptyBytes())))
    ensures c.decode(c.encode(WrapTagged(EmptyBytes()))) == Some(WrapTagged(EmptyBytes()))
  {
    hide Representable, Canonical, HeldResponse, HeldDocument, DocumentsIn, Lit, DeviceNameSpaces;
    EmptyWritable();
    HeldLookups(ls, ns);
    HeldDocuments(ls, ns);
  }

  lemma HeldNames(c: Codec, ls: seq<Listing>, ns: bool)
    requires ls != []
    ensures IssuedElements(HeldResponse(ls, ns), c.decode) == NamesInEntries(ls[0], c.decode)
  {
    hide Lit, GetMapEntry, HeldResponse, HeldDocument, NamesInEntries, ListedEntries;
    HeldLookups(ls, ns);
    HeldDocuments(ls, ns);
    OneDocumentNames(HeldDocument(ls, ns), c.decode);
  }

  /** The holder prepares any part of what the first listing names. */
  lemma HeldPrepares(c: Codec, deviceResponse: Bytes, ls: seq<Listing>, ns: bool, disclose: set<Text>)
    requires Lawful(c) && c.decode(deviceResponse) == Some(HeldResponse(ls, ns))
    requires ls != [] && ListingsPrune(ls, disclose, c.decode)
    requires disclose <= QualifiedAll(NamesInEntries(ls[0], c.decode))
    ensures var prepared := PrepareMdoc(c, deviceResponse, NullBytes(), disclose);
            prepared.Ok? && prepared.value.deviceResponse == c.encode(HeldResponse(PrunedListings(ls, disclose, c.decode), ns))
  {
    hide NullBytes, HeldResponse, HeldDocument, Lit, FirstDeviceNameSpacesBytes, GetText, NamesInEntries, PrunedListings,
      IssuedElements, QualifiedAll, PruneIssuerSigned, EmptyBytes, ListingsPrune, DocumentsIn;
    NullReads(c);
    DeviceBytes(c, ls, ns);
    HeldLookups(ls, ns);
    HeldNames(c, ls, ns);
    HeldPruned(ls, ns, disclose, c.decode);
  }

  lemma DeviceSigns(ns: bool, signature: Value)
    ensures Replacing(Lit("deviceAuth"), true, NewDeviceAuth(signature))(DeviceSigned(ns)).Ok?
  {
    hide Lit, ReplaceMapEntry, EmptyBytes;
    ResponseNames();
    var device := DeviceSigned(ns).entries;
    assert device[|device| - 1] in device && device[|device| - 1].key == Txt("deviceAuth");
    ReplacedOk(device, Lit("deviceAuth"), true, NewDeviceAuth(signature));
  }

  lemma DocumentSigns(ls: seq<Listing>, ns: bool, signature: Value)
    ensures SignDocument(signature)(HeldDocument(ls, ns)).Ok?
  {
    hide Lit, ReplaceMapEntry, Issuer, DeviceSigned;
    ResponseNames();
    DeviceSigns(ns, signature);
    var inner := Replacing(Lit("deviceAuth"), true, NewDeviceAuth(signature));
    var doc := HeldDocument(ls, ns).entries;
    ThreeReplaced(doc[0], doc[1], doc[2], Lit("deviceSigned"), true, inner, inner(DeviceSigned(ns)).value);
  }

  lemma HeldSigns(ls: seq<Listing>, ns: bool, signature: Value)
    ensures ReplaceDeviceSignature(HeldResponse(ls, ns), signature).Ok?
  {
    hide Lit, ReplaceMapEntry, SignDocument, HeldDocument, MapItems;
    ResponseNames();
    DocumentSigns(ls, ns, signature);
    OneMapped(HeldDocument(ls, ns), SignDocument(signature)(HeldDocument(ls, ns)).value, SignDocument(signature));
    var entries := HeldResponse(ls, ns).entries;
    var f := SignDocuments(signature);
    assert f(entries[2].value).Ok?;
    ThreeReplaced(entries[0], entries[1], entries[2], Lit("documents"), true, f, f(entries[2].value).value);
  }

  /** What the verifier answers when `disclose` is presented of `deviceResponse` to passing checks. */
  function Outcome(c: Codec, mso: Value, digest: Digest, deviceResponse: Bytes, disclose: set<Text>)
    : Option<Result<OneDocument, Reason>>
  {
    PresentedVerdict(Passing(c, mso, digest), deviceResponse, NullBytes(), disclose, NullBytes(), NullParams())
  }

  /** A ceremony with passing checks. */
  ghost predicate Staged(c: Codec, mso: Value, digest: Digest, t: CborWire.Item, disclose: set<Text>, d: Disclosed) {
    Ceremony(Passing(c, mso, digest), t, NullBytes(), disclose, NullBytes(), NullParams(), Issued(mso, digest), [], d)
  }

  /** `PresentationVerifies`, with passing checks. */
  lemma OutcomeVerifies(c: Codec, mso: Value, digest: Digest, t: CborWire.Item, disclose: set<Text>, d: Disclosed)
    requires CborWire.Valid(t) && Staged(c, mso, digest, t, disclose, d)
    ensures var held, outcome := HeldOf(c, CborWire.Encode(t)), Outcome(c, mso, digest, CborWire.Encode(t), disclose);
            var intact := Intact(ListedEntries(held), CaptureOf(c, CborWire.Encode(t)), disclose, c.decode, digest);
            && outcome.Some? && GetText(held, Lit("docType")).Some?
            && (outcome == Some(Ok(OneDocument(GetText(held, Lit("docType")).value, Restrict(d, disclose), [], 0)))
                <==> DeviceNameSpaces(held).Some? && intact)
            && (intact && DeviceNameSpaces(held).None? ==> outcome == Some(Err(MalformedCredential)))
            && (!intact && Separated(ListedNames(ListedEntries(held))) ==> outcome == Some(Err(DisclosureIntegrity)))
  {
    hide PresentedVerdict, Ceremony, Intact, HeldOf, CaptureOf, ListedEntries, ListedNames, Separated, Restrict, DeviceNameSpaces,
      CborWire.Valid, CborWire.Encode, Lit, GetText;
    PresentationVerifies(Passing(c, mso, digest), t, NullBytes(), disclose, NullBytes(), NullParams(), Issued(mso, digest), [], d);
  }

  lemma OutcomeIs(c: Codec, mso: Value, digest: Digest, t: CborWire.Item, disclose: set<Text>, d: Disclosed)
    requires CborWire.Valid(t) && Staged(c, mso, digest, t, disclose, d)
    ensures c.decode(CborWire.Encode(t)).Some?
    ensures Outcome(c, mso, digest, CborWire.Encode(t), disclose)
         == Some(match PrunedCheck(c, c.decode(CborWire.Encode(t)).value, disclose, Issued(mso, digest))
                 case Err(e) => Err(e)
                 case Ok(d') => Bound(HeldOf(c, CborWire.Encode(t)), Issued(mso, digest), d'))
  {
    hide PresentedVerdict, HeldOf, CborWire.Valid, CborWire.Encode, PrunedCheck, Bound, Acceptable, Signs, PrepareMdoc,
      ScanResponse, Documents;
    PresentedIs(Passing(c, mso, digest), t, NullBytes(), disclose, NullBytes(), NullParams(), Issued(mso, digest), [], d);
  }

  /**
    `t` is a wire form of such a response with the capture `raw`, whose digest check yields `d`: the
    holder presents it, and every condition of the presentation theorems is met.
  */
  lemma HeldCeremony(c: Codec, t: CborWire.Item, ls: seq<Listing>, ns: bool, raw: RawDocumentItems, disclose: set<Text>,
                     mso: Value, digest: Digest, d: Disclosed)
    requires Lawful(c) && CborWire.Valid(t) && Denotes(t, HeldResponse(ls, ns))
    requires c.decode(CborWire.Encode(t)) == Some(HeldResponse(ls, ns))
    requires ScanResponse(CborWire.Encode(t), c.decode).Some? && ScanResponse(CborWire.Encode(t), c.decode).value.acc == [raw]
    requires ls != [] && ListingsPrune(ls, disclose, c.decode) && disclose <= QualifiedAll(NamesInEntries(ls[0], c.decode))
    requires GetText(mso, Lit("docType")) == Some(Lit("t")) && VerifyValueDigests(Issuer(ls), Some(raw), mso, digest) == Ok(d)
    ensures Staged(c, mso, digest, t, disclose, d)
    ensures HeldOf(c, CborWire.Encode(t)) == HeldDocument(ls, ns) && CaptureOf(c, CborWire.Encode(t)) == raw
  {
    hide Lit, GetMapEntry, HeldResponse, HeldDocument, Issuer, Documents, VerifyValueDigests, NullBytes, PrepareMdoc,
      ReplaceDeviceSignature, CborWire.Valid, CborWire.Encode, Denotes, ScanResponse, Representable, PrunedListings, ListingsPrune,
      NamesInEntries, QualifiedAll;
    var response := CborWire.Encode(t);
    NullReads(c);
    HeldDocuments(ls, ns);
    HeldLookups(ls, ns);
    IssuerLookups(ls);
    HeldPrepares(c, response, ls, ns, disclose);
    HeldFinishes(c, t, ls, ns, disclose);
    ScalarsWritable();
  }

  lemma HeldFinishes(c: Codec, t: CborWire.Item, ls: seq<Listing>, ns: bool, disclose: set<Text>)
    requires Lawful(c) && CborWire.Valid(t) && Denotes(t, HeldResponse(ls, ns)) && ListingsPrune(ls, disclose, c.decode)
    ensures Finish(c, Prepared(c.encode(HeldResponse(PrunedListings(ls, disclose, c.decode), ns)), []), NullBytes()).Ok?
  {
    hide Denotes, CborWire.Valid, Representable, HeldResponse, NullBytes, ReplaceDeviceSignature, PruneIssuerSigned, ListingsPrune,
      PrunedListings;
    NullReads(c);
    RepresentableOfDenotes(t, HeldResponse(ls, ns));
    HeldPruned(ls, ns, disclose, c.decode);
    PruneRepresentable(HeldResponse(ls, ns), disclose, c.decode);
    HeldSigns(PrunedListings(ls, disclose, c.decode), ns, CborNull);
  }

  /** The same, as the library writes it. */
  lemma WrittenCeremony(c: Codec, ls: seq<Listing>, ns: bool, raw: RawDocumentItems, disclose: set<Text>, mso: Value, digest: Digest,
                        d: Disclosed)
    requires Lawful(c) && ls != [] && ListingsWritable(ls) && FoldListings(ls, map[], c.decode) == Some(raw)
    requires ListingsPrune(ls, disclose, c.decode) && disclose <= QualifiedAll(NamesInEntries(ls[0], c.decode))
    requires GetText(mso, Lit("docType")) == Some(Lit("t")) && VerifyValueDigests(Issuer(ls), Some(raw), mso, digest) == Ok(d)
    ensures Representable(HeldResponse(ls, ns))
    ensures Writes(ToWire(HeldResponse(ls, ns)), HeldResponse(ls, ns))
    ensures CborWire.Encode(ToWire(HeldResponse(ls, ns))) == Canonical(HeldResponse(ls, ns))
    ensures Staged(c, mso, digest, ToWire(HeldResponse(ls, ns)), disclose, d)
    ensures HeldOf(c, Canonical(HeldResponse(ls, ns))) == HeldDocument(ls, ns) && CaptureOf(c, Canonical(HeldResponse(ls, ns))) == raw
    ensures FramingSigned(ls[0], raw, disclose, digest)
  {
    hide Lit, GetText, HeldResponse, HeldDocument, Issuer, VerifyValueDigests, NullBytes, CborWire.Valid, CborWire.Encode, Denotes,
      ScanResponse, Representable, ListingsPrune, NamesInEntries, QualifiedAll, Staged, HeldOf, CaptureOf, Canonical,
      MinimalElements, ResponseOf, FramingSigned, FoldListings, ListingsWritable, ToWire;
    var response := HeldResponse(ls, ns);
    var t := ToWire(response);
    HeldWritable(ls, ns);
    WriterWrites(response);
    assert c.encode(response) == Canonical(response);
    HeldCapture(ls, ns, c.decode, raw);
    ScanOfShortest(t, response, c.decode);
    HeldCeremony(c, t, ls, ns, raw, disclose, mso, digest, d);
    ShortestFramingSigned(t, response, c.decode, 0, ls[0], disclose, digest);
  }
}
