/**
  Two name spaces of which one is within the other: `a` with the element `b/c`, and `a/b` with the
  element `c`.  Both elements have the qualified identifier `a/b/c`.
*/
module AmbiguousNames {
  import opened Prelude
  import CborWire
  import opened CborValue
  import opened IssuerItemScan
  import opened CborEncoding
  import opened Disclosure
  import opened DeviceAuthentication
  import opened Pruning
  import opened PrunedCapture
  import opened PrunedVerification
  import opened MdocVerify
  import opened Presentation
  import opened PresentationVerified
  import opened HeldResponses
  import opened Witnesses
  import opened PresentationFailures

  const INNER: Text := Lit("a/b")
  const C: Text := Lit("c")
  const BC: Text := Lit("b/c")

  lemma AmbiguousFine()
    ensures Fine(0, C) && Fine(0, BC) && Representable(CborText(NS)) && Representable(CborText(INNER)) && NS != INNER
  {
    hide Small, Representable;
    TextSmall("c");
    TextSmall("b/c");
    TextWritable("a");
    TextWritable("a/b");
    assert |NS| == 1 && |INNER| == 3;
  }

  lemma SameQualified()
    ensures QualifiedElementId(NS, BC) == QualifiedElementId(INNER, C)
  {
    assert NS == [97] && INNER == [97, 47, 98] && C == [99] && BC == [98, 47, 99];
    hide QualifiedElementId;
    QualifiedParts(NS, BC);
    QualifiedParts(INNER, C);
  }

  /** The one element that is asked for, and the request for it. */
  function Chosen(): set<ElementName> {
    {ElementName(INNER, C)}
  }

  function Request(): set<Text> {
    {QualifiedElementId(INNER, C)}
  }

  function Both(): Disclosed {
    map[NS := map[BC := BooleanValue(true)], INNER := map[C := BooleanValue(true)]]
  }

  function OnlyInner(): Disclosed {
    map[INNER := map[C := BooleanValue(true)]]
  }

  function BothCaptured(): RawDocumentItems {
    AmbiguousFine();
    map[NS := [Record(0, BC)], INNER := [Record(0, C)]]
  }

  function BothTables(digest: Digest): seq<Pair> {
    AmbiguousFine();
    [Table(NS, [digest(Span(0, BC))]), Table(INNER, [digest(Span(0, C))])]
  }

  function BothMso(digest: Digest): Value {
    Mso(BothTables(digest))
  }

  lemma BothIs()
    ensures NoEmptyGroup(Both()) && NoEmptyGroup(OnlyInner()) && OnlyInner() != Both()
    ensures Restrict(Both(), Request()) == Both()
    ensures forall t :: t in Triples(Both()) <==> t == Triple(NS, BC, BooleanValue(true)) || t == Triple(INNER, C, BooleanValue(true))
    ensures forall t :: t in Triples(OnlyInner()) <==> t == Triple(INNER, C, BooleanValue(true))
  {
    AmbiguousFine();
    SameQualified();
    hide Lit, QualifiedElementId, Fine, Representable;
    assert RestrictGroup(NS, Both()[NS], Request()) == Both()[NS] && BC in Both()[NS];
    assert RestrictGroup(INNER, Both()[INNER], Request()) == Both()[INNER] && C in Both()[INNER];
    assert Restrict(Both(), Request()).Keys == Both().Keys;
    var t, u := Triple(NS, BC, BooleanValue(true)), Triple(INNER, C, BooleanValue(true));
    assert t.ns in Both() && t.id in Both()[t.ns] && u.ns in Both() && u.id in Both()[u.ns];
    assert u.ns in OnlyInner() && u.id in OnlyInner()[u.ns];
    assert NS !in OnlyInner() && NS in Both();
  }

  lemma TablesFound(digest: Digest)
    ensures AmbiguousTables(BothTables(digest), digest)
  {
    AmbiguousFine();
    hide Lit, FindText, IdTable, Span, Fine, Representable;
    FindAt(BothTables(digest), NS, 0);
    FindAt(BothTables(digest), INNER, 1);
  }

  ghost predicate AmbiguousTables(tables: seq<Pair>, digest: Digest) {
    && Fine(0, C) && Fine(0, BC)
    && FindText(tables, NS) == Some(CborMap(IdTable([digest(Span(0, BC))])))
    && FindText(tables, INNER) == Some(CborMap(IdTable([digest(Span(0, C))])))
  }

  /** Listing one element under each name space, both records signed: accepted with both claims. */
  lemma BothAccepted(issuer: Value, v: Value, w: Value, digest: Digest)
    requires NameSpaces(issuer) == Some([Entry(NS, [v]), Entry(INNER, [w])])
    ensures VerifyValueDigests(issuer, Some(BothCaptured()), BothMso(digest), digest) == Ok(Both())
    ensures GetText(BothMso(digest), Lit("docType")) == Some(Lit("t"))
  {
    hide VerifyValueDigests, NameSpaces, Mso, IdTable, FindText, Triples, TheItem, Lit, Both, TripleOf, GetText, NoEmptyGroup,
      Span, Fine, NameSpaceSigned, ValueDigests, BothTables, Representable;
    AmbiguousFine();
    BothIs();
    MsoParts(BothTables(digest));
    TablesFound(digest);
    ElementFact(Span(0, BC), 0, BC, NS);
    ElementFact(Span(0, C), 0, C, INNER);
    var e, f := Entry(NS, [v]), Entry(INNER, [w]);
    var raw, entries := BothCaptured(), [e, f];
    assert InOrder(raw[NS], [digest(Span(0, BC))], digest) && InOrder(raw[INNER], [digest(Span(0, C))], digest);
    EntrySigned(e, raw, BothTables(digest), [digest(Span(0, BC))], digest);
    EntrySigned(f, raw, BothTables(digest), [digest(Span(0, C))], digest);
    forall t ensures t in Triples(Both()) <==> Disclosure.Listed(entries, raw, t) {
      assert e in entries && f in entries && raw[NS][0] in raw[NS] && raw[INNER][0] in raw[INNER];
    }
    DisclosureExact(issuer, Some(raw), BothMso(digest), digest, Both());
  }

  // ---------------------------------------------------------------------------------------------
  // More than was asked for
  // ---------------------------------------------------------------------------------------------

  function First(): Value {
    AmbiguousFine();
    Element(0, BC)
  }

  function Second(): Value {
    AmbiguousFine();
    Element(0, C)
  }

  lemma ElementsSeen(c: Codec)
    requires Lawful(c)
    ensures Fine(0, C) && Fine(0, BC)
    ensures Representable(First()) && UnwrapTagged(First()).Some? && ElementOf(First(), c.decode) == Some(Record(0, BC))
    ensures Representable(Second()) && UnwrapTagged(Second()).Some? && ElementOf(Second(), c.decode) == Some(Record(0, C))
    ensures ItemIdentifier(First(), c.decode) == Some(BC) && ItemIdentifier(Second(), c.decode) == Some(C)
    ensures Representable(NoElement()) && UnwrapTagged(NoElement()).Some? && ElementOf(NoElement(), c.decode) == None
    ensures ItemIdentifier(NoElement(), c.decode) == None
  {
    hide Lit, Representable, Element, NoElement, Fine, ElementOf, Small, Record, ItemIdentifier;
    AmbiguousFine();
    ElementSeen(c, 0, BC);
    ElementSeen(c, 0, C);
    NoElementSeen(c);
  }

  /** `{a: [b/c], a/b: [c]}`. */
  function Twins(): Listing {
    [Entry(NS, [First()]), Entry(INNER, [Second()])]
  }

  lemma ListingWritable(v: Value, w: Value)
    requires Representable(v) && Representable(w)
    ensures Representable(CborMap([Entry(NS, [v]), Entry(INNER, [w])]))
  {
    hide Representable, Lit, Fine;
    AmbiguousFine();
    EntryWritable(NS, [v]);
    EntryWritable(INNER, [w]);
    TwoWritable(Entry(NS, [v]), Entry(INNER, [w]));
  }

  /** Pruning such a listing keeps an element when it is asked for. */
  lemma ListingPruned(c: Codec, v: Value, w: Value)
    ensures var out := (if Keep(CborText(NS), v, Request(), c.decode) then [Entry(NS, [v])] else [])
                       + ((if Keep(CborText(INNER), w, Request(), c.decode) then [Entry(INNER, [w])] else []) + []);
            PruneEntries([Entry(NS, [v]), Entry(INNER, [w])], Request(), c.decode) == Ok(out)
  {
    hide Lit, Keep, KeptItems, PruneEntries, Request;
    OneKept(CborText(NS), v, Request(), c.decode);
    OneKept(CborText(INNER), w, Request(), c.decode);
    NonePruned(Request(), c.decode);
    EntryPruned(INNER, [w], [], [], Request(), c.decode);
    assert [Entry(INNER, [w])] + [] == [Entry(INNER, [w])];
    EntryPruned(NS, [v], [Entry(INNER, [w])], (if Keep(CborText(INNER), w, Request(), c.decode) then [Entry(INNER, [w])] else []) + [],
                Request(), c.decode);
    assert [Entry(NS, [v])] + [Entry(INNER, [w])] == [Entry(NS, [v]), Entry(INNER, [w])];
  }

  /** The scan of such a listing. */
  lemma ListingFold(v: Value, w: Value, acc: RawDocumentItems, rs: seq<RawIssuerItem>, qs: seq<RawIssuerItem>, decode: Decoder)
    requires AllRepresentable([v]) && AllRepresentable([w])
    requires ElementsOf([v], Captured(acc, NS), decode) == Some(rs) && ElementsOf([w], Captured(acc, INNER), decode) == Some(qs)
    ensures FoldPairs([Entry(NS, [v]), Entry(INNER, [w])], acc, ValueNameSpace(decode)) == Some(acc[NS := rs][INNER := qs])
  {
    hide FoldPairs, AllRepresentable, ElementsOf, Lit, Fine, Representable;
    AmbiguousFine();
    EntryFold(NS, [v], [Entry(INNER, [w])], acc, rs, decode);
    assert [Entry(NS, [v])] + [Entry(INNER, [w])] == [Entry(NS, [v]), Entry(INNER, [w])];
    OneEntryFold(INNER, [w], acc[NS := rs], qs, decode);
  }

  lemma RequestNamed(c: Codec, v: Value)
    requires Lawful(c)
    ensures Request() <= QualifiedAll(NamesInEntries([Entry(NS, [v]), Entry(INNER, [Second()])], c.decode))
    ensures ElementName(INNER, C) in NamesInEntries([Entry(NS, [v]), Entry(INNER, [Second()])], c.decode)
  {
    hide Lit, First, Second, ItemIdentifier, QualifiedElementId, NamesInEntries, NamesInEntry, Fine, Record, ElementOf,
      Representable;
    ElementsSeen(c);
    var entries := [Entry(NS, [v]), Entry(INNER, [Second()])];
    ElementNamed(INNER, Second(), C, [], c.decode);
    assert [Second()] + [] == [Second()];
    assert entries[1] in entries;
    NamedIn(entries[1], entries, c.decode, ElementName(INNER, C));
  }

  lemma TwinsPresentable(c: Codec)
    requires Lawful(c)
    ensures ListingsWritable([Twins()]) && ListingsPrune([Twins()], Request(), c.decode)
    ensures Keep(CborText(NS), First(), Request(), c.decode) && Keep(CborText(INNER), Second(), Request(), c.decode)
  {
    hide Lit, First, Second, ItemIdentifier, QualifiedElementId, PruneEntries, Fine, Record, ElementOf, Representable;
    ElementsSeen(c);
    SameQualified();
    ListingWritable(First(), Second());
    ListingPruned(c, First(), Second());
  }

  lemma TwinsCaptured(c: Codec)
    requires Lawful(c)
    ensures FoldListings([Twins()], map[], c.decode) == Some(BothCaptured())
  {
    hide Lit, First, Second, ItemIdentifier, Fine, Record, ElementOf, ElementsOf, AllRepresentable, Representable, FoldPairs,
      FoldListings;
    ElementsSeen(c);
    AmbiguousFine();
    OneOf(First(), [], c.decode);
    OneOf(Second(), [], c.decode);
    assert [] + [Record(0, BC)] == [Record(0, BC)] && [] + [Record(0, C)] == [Record(0, C)];
    ListingFold(First(), Second(), map[], [Record(0, BC)], [Record(0, C)], c.decode);
    assert map[][NS := [Record(0, BC)]][INNER := [Record(0, C)]] == BothCaptured();
    OneListing(Twins(), c.decode);
  }

  lemma TwinsCounts(c: Codec)
    requires Lawful(c)
    ensures CountsAgree(Twins(), BothCaptured(), Request(), c.decode)
  {
    hide Lit, First, Second, KeptItems, KeptRecords, Keep, TheItem, Span, QualifiedElementId, Fine, ListingsPrune,
      ListingsWritable, Representable;
    TwinsPresentable(c);
    SameQualified();
    AmbiguousFine();
    OneKept(CborText(NS), First(), Request(), c.decode);
    OneKept(CborText(INNER), Second(), Request(), c.decode);
    OneRecordKept(NS, Record(0, BC), Request());
    OneRecordKept(INNER, Record(0, C), Request());
    assert EntryAgrees(Twins()[0], Twins(), BothCaptured(), Request(), c.decode);
    assert EntryAgrees(Twins()[1], Twins(), BothCaptured(), Request(), c.decode);
  }

  lemma TwinsAmbiguous(c: Codec)
    requires Lawful(c)
    ensures !Unambiguous(IssuedElements(HeldResponse([Twins()], true), c.decode))
  {
    hide Lit, First, Second, ItemIdentifier, QualifiedElementId, NamesInEntries, NamesInEntry, Fine, Record, ElementOf,
      Representable, HeldResponse, IssuedElements;
    ElementsSeen(c);
    AmbiguousFine();
    SameQualified();
    HeldNames(c, [Twins()], true);
    ElementNamed(NS, First(), BC, [], c.decode);
    assert [First()] + [] == [First()];
    assert Twins()[0] in Twins();
    NamedIn(Twins()[0], Twins(), c.decode, ElementName(NS, BC));
    RequestNamed(c, First());
    assert Qualified(ElementName(NS, BC)) == Qualified(ElementName(INNER, C));
  }

  /**
    Asking for the element `c` of the name space `a/b` alone also discloses the element `b/c` of the name
    space `a`, and the verifier accepts both.
  */
  lemma SlashDisclosesMore(c: Codec, digest: Digest)
    requires Lawful(c)
    ensures Representable(HeldResponse([Twins()], true))
    ensures Chosen() <= IssuedElements(HeldResponse([Twins()], true), c.decode) && Request() == QualifiedAll(Chosen())
    ensures !Unambiguous(IssuedElements(HeldResponse([Twins()], true), c.decode))
    ensures Outcome(c, BothMso(digest), digest, Canonical(HeldResponse([Twins()], true)), Request())
         == Some(Ok(OneDocument(Lit("t"), Both(), [], 0)))
  {
    hide Lit, Representable, Canonical, NullBytes, HeldResponse, HeldDocument, Issuer, Request, CborWire.Valid, CborWire.Encode,
      ToWire, Both, Restrict, GetText, DeviceNameSpaces, BothMso, Staged, HeldOf, CaptureOf, First, Second, Outcome, CountsAgree,
      FramingSigned, ListedEntries, ListedNames, Separated, BothCaptured, VerifyValueDigests, Denotes, MinimalElements,
      FoldListings, ListingsWritable, ListingsPrune, NamesInEntries, QualifiedAll, NameSpaces, IssuedElements, Keep;
    TwinsPresentable(c);
    TwinsCaptured(c);
    TwinsCounts(c);
    TwinsAmbiguous(c);
    RequestNamed(c, First());
    IssuerLookups([Twins()]);
    BothAccepted(Issuer([Twins()]), First(), Second(), digest);
    WrittenCeremony(c, [Twins()], true, BothCaptured(), Request(), BothMso(digest), digest, Both());
    BothIs();
    HeldDocuments([Twins()], true);
    HeldLookups([Twins()], true);
    HeldNames(c, [Twins()], true);
    ChosenRequest();
    OutcomeVerifies(c, BothMso(digest), digest, ToWire(HeldResponse([Twins()], true)), Request(), Both());
  }

  lemma ChosenRequest()
    ensures Request() == QualifiedAll(Chosen())
  {
    hide QualifiedElementId, Lit;
    assert Qualified(ElementName(INNER, C)) == QualifiedElementId(INNER, C);
  }

  // ---------------------------------------------------------------------------------------------
  // Less than was asked for
  // ---------------------------------------------------------------------------------------------

  /** `nameSpaces` twice: `{a: [null], a/b: [c]}`, then `{a: [b/c]}`. */
  function Hidden(): seq<Listing> {
    [[Entry(NS, [NoElement()]), Entry(INNER, [Second()])], [Entry(NS, [First()])]]
  }

  lemma HiddenPresentable(c: Codec)
    requires Lawful(c)
    ensures ListingsWritable(Hidden()) && ListingsPrune(Hidden(), Request(), c.decode)
    ensures PruneEntries(Hidden()[0], Request(), c.decode) == Ok([Entry(INNER, [Second()])])
  {
    hide Lit, First, Second, NoElement, ItemIdentifier, QualifiedElementId, PruneEntries, Fine, Record, ElementOf, Representable;
    ElementsSeen(c);
    AmbiguousFine();
    ListingWritable(NoElement(), Second());
    OneEntryWritable(NS, [First()]);
    ListingPruned(c, NoElement(), Second());
    assert [] + ([Entry(INNER, [Second()])] + []) == [Entry(INNER, [Second()])];
    OneEntryPrunes(NS, [First()], Request(), c.decode);
  }

  lemma HiddenCaptured(c: Codec)
    requires Lawful(c)
    ensures FoldListings(Hidden(), map[], c.decode) == Some(BothCaptured())
  {
    hide Lit, First, Second, NoElement, ItemIdentifier, Fine, Record, ElementOf, ElementsOf, AllRepresentable, Representable,
      FoldPairs, FoldListings;
    ElementsSeen(c);
    AmbiguousFine();
    var r, q := Record(0, BC), Record(0, C);
    OneOf(NoElement(), [], c.decode);
    OneOf(Second(), [], c.decode);
    OneOf(First(), [], c.decode);
    assert [] + [r] == [r] && [] + [q] == [q];
    ListingFold(NoElement(), Second(), map[], [], [q], c.decode);
    var one: RawDocumentItems := map[NS := [], INNER := [q]];
    assert map[][NS := []][INNER := [q]] == one;
    OneEntryFold(NS, [First()], one, [r], c.decode);
    assert one[NS := [r]] == BothCaptured();
    TwoFolded(Hidden()[0], Hidden()[1], one, BothCaptured(), c.decode);
  }

  lemma HiddenCeremony(c: Codec, digest: Digest)
    requires Lawful(c)
    ensures Representable(HeldResponse(Hidden(), true))
    ensures Writes(ToWire(HeldResponse(Hidden(), true)), HeldResponse(Hidden(), true))
    ensures CborWire.Encode(ToWire(HeldResponse(Hidden(), true))) == Canonical(HeldResponse(Hidden(), true))
    ensures Staged(c, BothMso(digest), digest, ToWire(HeldResponse(Hidden(), true)), Request(), Both())
    ensures HeldOf(c, Canonical(HeldResponse(Hidden(), true))) == HeldDocument(Hidden(), true)
    ensures CaptureOf(c, Canonical(HeldResponse(Hidden(), true))) == BothCaptured()
  {
    hide Lit, Representable, Canonical, NullBytes, HeldResponse, HeldDocument, Issuer, Request, CborWire.Valid, CborWire.Encode,
      ToWire, Both, GetText, BothMso, Staged, HeldOf, CaptureOf, First, Second, NoElement, FramingSigned, BothCaptured,
      VerifyValueDigests, Denotes, MinimalElements, FoldListings, ListingsWritable, ListingsPrune, NamesInEntries, QualifiedAll,
      NameSpaces, PruneEntries;
    HiddenPresentable(c);
    HiddenCaptured(c);
    RequestNamed(c, NoElement());
    IssuerLookups(Hidden());
    BothAccepted(Issuer(Hidden()), NoElement(), Second(), digest);
    WrittenCeremony(c, Hidden(), true, BothCaptured(), Request(), BothMso(digest), digest, Both());
  }

  /** With only `a/b` listed and its record captured, only that claim is disclosed. */
  lemma InnerAccepted(issuer: Value, raw: RawDocumentItems, digest: Digest)
    requires NameSpaces(issuer) == Some([Entry(INNER, [Second()])]) && Fine(0, C) && INNER in raw && raw[INNER] == [Record(0, C)]
    ensures VerifyValueDigests(issuer, Some(raw), BothMso(digest), digest) == Ok(OnlyInner())
  {
    hide VerifyValueDigests, NameSpaces, Mso, IdTable, FindText, Triples, TheItem, Lit, OnlyInner, TripleOf, Span, Fine,
      BothTables, Second, NoEmptyGroup, Representable;
    BothIs();
    TablesFound(digest);
    ElementFact(Span(0, C), 0, C, INNER);
    assert InOrder(raw[INNER], [digest(Span(0, C))], digest) && raw[INNER][0] in raw[INNER];
    OneAccepted(issuer, Entry(INNER, [Second()]), raw, [digest(Span(0, C))], BothTables(digest), digest, OnlyInner());
  }

  lemma InnerRewritten(raw: RawDocumentItems)
    requires Rewritten(raw, BothCaptured(), Request())
    ensures Fine(0, C) && INNER in raw && raw[INNER] == [Record(0, C)]
  {
    hide Lit, TheItem, Span, Fine, KeptRecords, QualifiedElementId, Shortest, Representable;
    AmbiguousFine();
    OneRecordKept(INNER, Record(0, C), Request());
    SpanShortest(0, C);
    assert Captured(raw, INNER) == ReframedAll(KeptRecords(INNER, Captured(BothCaptured(), INNER), Request()));
    assert ReframedAll([Record(0, C)]) == [Record(0, C)];
  }

  lemma HiddenChecked(c: Codec, digest: Digest)
    requires Lawful(c)
    ensures PrunedCheck(c, HeldResponse(Hidden(), true), Request(), Issued(BothMso(digest), digest)) == Ok(OnlyInner())
  {
    hide Lit, Representable, Canonical, HeldResponse, HeldDocument, Issuer, Request, CborWire.Valid, CborWire.Encode, ToWire,
      OnlyInner, BothMso, First, Second, NoElement, BothCaptured, VerifyValueDigests, Denotes, MinimalElements, ListingsWritable,
      ListingsPrune, NameSpaces, PruneEntries, PruneIssuerSigned, ScanResponse, DocumentsIn, GetMapEntry, Rewritten, FoldListings,
      PrunedListings, Fine;
    HiddenPresentable(c);
    HiddenCaptured(c);
    HeldWritable(Hidden(), true);
    HeldPruned(Hidden(), true, Request(), c.decode);
    HeldLookups(Hidden(), true);
    IssuerLookups(Hidden());
    HeldCapture(Hidden(), true, c.decode, BothCaptured());
    var response := HeldResponse(Hidden(), true);
    var t := ToWire(response);
    WriterWrites(response);
    ScanOfShortest(t, response, c.decode);
    PrunedView(t, response, Request(), c.decode, 0);
    var pruned := PruneIssuerSigned(response, Request(), c.decode).value;
    var raw' := ScanResponse(Canonical(pruned), c.decode).value.acc[0];
    assert c.encode(pruned) == Canonical(pruned);
    InnerRewritten(raw');
    InnerAccepted(GetMapEntry(DocumentsIn(pruned).value[0], Lit("issuerSigned")).value, raw', digest);
  }

  /**
    When, besides, `nameSpaces` is repeated, a presentation can be accepted that discloses less than it
    was asked for: both claims have the requested identifier and only one is left.
  */
  lemma SlashLosesAClaim(c: Codec, digest: Digest)
    requires Lawful(c)
    ensures VerifyValueDigests(Issuer(Hidden()), Some(BothCaptured()), BothMso(digest), digest) == Ok(Both())
    ensures Restrict(Both(), Request()) == Both() != OnlyInner()
    ensures Representable(HeldResponse(Hidden(), true))
    ensures Outcome(c, BothMso(digest), digest, Canonical(HeldResponse(Hidden(), true)), Request())
         == Some(Ok(OneDocument(Lit("t"), OnlyInner(), [], 0)))
  {
    hide Lit, Representable, Canonical, NullBytes, HeldResponse, HeldDocument, Issuer, Request, CborWire.Valid, CborWire.Encode,
      ToWire, Both, Restrict, GetText, DeviceNameSpaces, BothMso, Staged, HeldOf, CaptureOf, First, Second, NoElement, Outcome,
      BothCaptured, VerifyValueDigests, Denotes, MinimalElements, NameSpaces, PrunedCheck, OnlyInner;
    HiddenCeremony(c, digest);
    HiddenChecked(c, digest);
    IssuerLookups(Hidden());
    BothAccepted(Issuer(Hidden()), NoElement(), Second(), digest);
    BothIs();
    HeldDocuments(Hidden(), true);
    HeldLookups(Hidden(), true);
    assert c.encode(HeldResponse(Hidden(), true)) == Canonical(HeldResponse(Hidden(), true));
    OutcomeIs(c, BothMso(digest), digest, ToWire(HeldResponse(Hidden(), true)), Request(), Both());
  }
}
