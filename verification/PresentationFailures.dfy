/**
  Held responses that pass the issuer-side checks and are prepared and finished, and whose presentation
  is then refused, discloses less than it was asked for, or discloses more.
*/
module PresentationFailures {
  import opened Prelude
  import CborWire
  import opened CborValue
  import opened IssuerItemScan
  import opened CborEncoding
  import opened Disclosure
  import opened DeviceAuthentication
  import opened Pruning
  import opened PrunedCapture
  import opened PrunedVerification
  import opened MdocVerify
  import opened Presentation
  import opened PresentationVerified
  import opened HeldResponses
  import opened Witnesses

  // ---------------------------------------------------------------------------------------------
  // Repeated keys
  // ---------------------------------------------------------------------------------------------

  function FirstItems(): (items: seq<Value>)
    ensures |items| == 2
  {
    NamesFine();
    [Element(0, X), NoElement()]
  }

  function SecondItems(): (items: seq<Value>)
    ensures |items| == 1
  {
    NamesFine();
    [Element(1, X)]
  }

  /** `nameSpaces` twice: `{a: [x, null]}`, then `{a: [x]}` under another digest id. */
  function Repeated(): seq<Listing> {
    [[Entry(NS, FirstItems())], [Entry(NS, SecondItems())]]
  }

  function RepeatedCapture(): RawDocumentItems {
    NamesFine();
    map[NS := [Record(0, X), Record(1, X)]]
  }

  function RepeatedMso(digest: Digest): Value {
    NamesFine();
    Mso([Table(NS, [digest(Span(0, X)), digest(Span(1, X))])])
  }

  /** The scan captures both elements, one from each listing. */
  lemma RepeatedCaptured(c: Codec)
    requires Lawful(c)
    ensures FoldListings(Repeated(), map[], c.decode) == Some(RepeatedCapture())
  {
    hide Lit, Representable, Element, NoElement, Fine, ElementOf, ElementsOf, AllRepresentable, FoldPairs, Record, ValueNameSpace,
      Small;
    NamesFine();
    ElementSeen(c, 0, X);
    ElementSeen(c, 1, X);
    NoElementSeen(c);
    var r0, r1 := Record(0, X), Record(1, X);
    assert [] + [r0] == [r0] && [r0] + [r1] == [r0, r1];
    TwoOf(Element(0, X), NoElement(), [], c.decode);
    OneEntryFold(NS, FirstItems(), map[], [r0], c.decode);
    var one: RawDocumentItems := map[NS := [r0]];
    assert map[][NS := [r0]] == one;
    OneOf(Element(1, X), [r0], c.decode);
    OneEntryFold(NS, SecondItems(), one, [r0, r1], c.decode);
    assert one[NS := [r0, r1]] == RepeatedCapture();
    TwoFolded([Entry(NS, FirstItems())], [Entry(NS, SecondItems())], one, RepeatedCapture(), c.decode);
  }

  lemma TwoFolded(l: Listing, m: Listing, d: RawDocumentItems, d': RawDocumentItems, decode: Decoder)
    requires FoldPairs(l, map[], ValueNameSpace(decode)) == Some(d) && FoldPairs(m, d, ValueNameSpace(decode)) == Some(d')
    ensures FoldListings([l, m], map[], decode) == Some(d')
  {
    hide FoldPairs;
    assert [l, m][1..] == [m] && [m][1..] == [];
    assert FoldListings([], d', decode) == Some(d');
    assert FoldListings([m], d, decode) == Some(d');
  }

  lemma RepeatedWritable(c: Codec)
    requires Lawful(c)
    ensures ListingsWritable(Repeated())
  {
    hide Lit, Representable, Element, NoElement, Fine, Small;
    NamesFine();
    ElementSeen(c, 0, X);
    ElementSeen(c, 1, X);
    NoElementSeen(c);
    OneEntryWritable(NS, FirstItems());
    OneEntryWritable(NS, SecondItems());
  }

  lemma RepeatedPresentable(c: Codec)
    requires Lawful(c)
    ensures ListingsWritable(Repeated()) && ListingsPrune(Repeated(), Wanted(), c.decode)
    ensures Wanted() <= QualifiedAll(NamesInEntries(Repeated()[0], c.decode))
    ensures |KeptItems(CborText(NS), FirstItems(), Wanted(), c.decode)| == 1
  {
    hide Lit, Element, NoElement, ItemIdentifier, Fine, QualifiedElementId, PruneEntries, KeptItems, NamesInEntries, NamesInEntry,
      Small, ListingsWritable, Representable;
    NamesFine();
    ElementSeen(c, 0, X);
    NoElementSeen(c);
    RepeatedWritable(c);
    var v, w := Element(0, X), NoElement();
    OneEntryPrunes(NS, FirstItems(), Wanted(), c.decode);
    OneEntryPrunes(NS, SecondItems(), Wanted(), c.decode);
    ElementNamed(NS, v, X, [w], c.decode);
    assert [v] + [w] == [v, w];
    NamedIn(Entry(NS, [v, w]), Repeated()[0], c.decode, ElementName(NS, X));
    TwoKept(CborText(NS), v, w, Wanted(), c.decode);
  }

  /** As it is held, every record is signed: two are listed and two are captured. */
  lemma RepeatedAccepted(digest: Digest)
    ensures VerifyValueDigests(Issuer(Repeated()), Some(RepeatedCapture()), RepeatedMso(digest), digest) == Ok(TheClaim())
    ensures GetText(RepeatedMso(digest), Lit("docType")) == Some(Lit("t"))
  {
    NamesFine();
    hide VerifyValueDigests, NameSpaces, Mso, IdTable, FindText, Triples, TheItem, FirstItems, SecondItems, Lit, TheClaim,
      TripleOf, Issuer, GetText, Span, Fine;
    ClaimIs();
    IssuerLookups(Repeated());
    var hashes := [digest(Span(0, X)), digest(Span(1, X))];
    var tables, rs := [Table(NS, hashes)], [Record(0, X), Record(1, X)];
    MsoParts(tables);
    FindAt(tables, NS, 0);
    ElementFact(Span(0, X), 0, X, NS);
    ElementFact(Span(1, X), 1, X, NS);
    assert InOrder(rs, hashes, digest);
    assert rs[0] in rs;
    OneAccepted(Issuer(Repeated()), Entry(NS, FirstItems()), RepeatedCapture(), hashes, tables, digest, TheClaim());
  }

  /** After pruning one element is listed where two are captured. */
  lemma RepeatedCounts(c: Codec)
    requires Lawful(c)
    ensures !CountsAgree(Repeated()[0], RepeatedCapture(), Wanted(), c.decode)
  {
    RepeatedPresentable(c);
    NamesFine();
    hide Lit, FirstItems, KeptItems, KeptRecords, TheItem, QualifiedElementId, Span, Fine;
    TwoRecordsKept(NS, Record(0, X), Record(1, X), Wanted());
    var e := Entry(NS, FirstItems());
    assert !EntryAgrees(e, Repeated()[0], RepeatedCapture(), Wanted(), c.decode);
    assert e in Repeated()[0];
  }

  lemma RepeatedCeremony(c: Codec, digest: Digest)
    requires Lawful(c)
    ensures Representable(HeldResponse(Repeated(), true))
    ensures CborWire.Valid(ToWire(HeldResponse(Repeated(), true)))
    ensures CborWire.Encode(ToWire(HeldResponse(Repeated(), true))) == Canonical(HeldResponse(Repeated(), true))
    ensures Staged(c, RepeatedMso(digest), digest, ToWire(HeldResponse(Repeated(), true)), Wanted(), TheClaim())
    ensures HeldOf(c, Canonical(HeldResponse(Repeated(), true))) == HeldDocument(Repeated(), true)
    ensures CaptureOf(c, Canonical(HeldResponse(Repeated(), true))) == RepeatedCapture()
  {
    hide Lit, Representable, Canonical, HeldResponse, HeldDocument, Issuer, VerifyValueDigests, NullBytes, CborWire.Valid,
      CborWire.Encode, Denotes, MinimalElements, ListingsPrune, ListingsWritable, NamesInEntries, QualifiedAll, Staged, HeldOf,
      CaptureOf, FramingSigned, FoldListings, ToWire, FirstItems, SecondItems, Wanted, TheClaim, RepeatedMso, GetText,
      RepeatedCapture;
    RepeatedCaptured(c);
    RepeatedPresentable(c);
    RepeatedAccepted(digest);
    WrittenCeremony(c, Repeated(), true, RepeatedCapture(), Wanted(), RepeatedMso(digest), digest, TheClaim());
  }

  /**
    A held response with the key `nameSpaces` twice passes the issuer-side checks with its claim, and is
    prepared and finished for that claim; the verifier refuses the presentation.
  */
  lemma RepeatedKeysLoseAcceptance(c: Codec, digest: Digest)
    requires Lawful(c)
    ensures VerifyValueDigests(Issuer(Repeated()), Some(RepeatedCapture()), RepeatedMso(digest), digest) == Ok(TheClaim())
    ensures Representable(HeldResponse(Repeated(), true))
    ensures Outcome(c, RepeatedMso(digest), digest, Canonical(HeldResponse(Repeated(), true)), Wanted())
         == Some(Err(DisclosureIntegrity))
  {
    hide Lit, Representable, Canonical, NullBytes, HeldResponse, HeldDocument, Issuer, Wanted, CborWire.Valid, CborWire.Encode,
      ToWire, TheClaim, Restrict, GetText, DeviceNameSpaces, RepeatedMso, Staged, HeldOf, CaptureOf, FirstItems, SecondItems,
      Outcome, CountsAgree, FramingSigned, ListedEntries, ListedNames, Separated, RepeatedCapture, VerifyValueDigests;
    RepeatedCeremony(c, digest);
    RepeatedAccepted(digest);
    RepeatedCounts(c);
    HeldDocuments(Repeated(), true);
    OneName(NS, FirstItems());
    OutcomeVerifies(c, RepeatedMso(digest), digest, ToWire(HeldResponse(Repeated(), true)), Wanted(), TheClaim());
  }

  // ---------------------------------------------------------------------------------------------
  // Long heads
  // ---------------------------------------------------------------------------------------------

  /** The entries as they are written, but for the value of entry `i`. */
  function PairsWith(entries: seq<Pair>, i: nat, t: CborWire.Item): seq<CborWire.Item>
    requires i < |entries|
  {
    ToWirePairs(entries)[2 * i + 1 := t]
  }

  function MapWith(entries: seq<Pair>, i: nat, t: CborWire.Item): CborWire.Item
    requires i < |entries|
  {
    CborWire.Map(MinWidth(|entries|), PairsWith(entries, i, t))
  }

  function OneItem(t: CborWire.Item): CborWire.Item {
    CborWire.Arr(CborWire.Direct, [t])
  }

  lemma PairsStep(entries: seq<Pair>)
    requires entries != []
    ensures ToWirePairs(entries) == [ToWire(entries[0].key), ToWire(entries[0].value)] + ToWirePairs(entries[1..])
  {
  }

  lemma PairsWithStep(entries: seq<Pair>, i: nat, t: CborWire.Item)
    requires i < |entries|
    ensures PairsWith(entries, i, t)
         == [ToWire(entries[0].key)]
            + ((if i == 0 then [t] else [ToWire(entries[0].value)])
               + (if i == 0 then ToWirePairs(entries[1..]) else PairsWith(entries[1..], i - 1, t)))
  {
    hide ToWire;
    var e, rest, all := entries[0], entries[1..], ToWirePairs(entries);
    PairsStep(entries);
    assert all == [ToWire(e.key)] + ([ToWire(e.value)] + ToWirePairs(rest));
    if i == 0 {
      assert all[1 := t] == [ToWire(e.key)] + ([t] + ToWirePairs(rest));
    } else {
      assert all[2 * i + 1 := t] == [ToWire(e.key)] + ([ToWire(e.value)] + ToWirePairs(rest)[2 * (i - 1) + 1 := t]);
    }
  }

  lemma PairSpelled(k: CborWire.Item, v: CborWire.Item, flat: seq<CborWire.Item>, e: Pair, entries: seq<Pair>)
    requires CborWire.Valid(k) && CborWire.Valid(v) && Denotes(k, e.key) && Denotes(v, e.value)
    requires CborWire.AllValid(flat) && DenotePairs(flat, entries)
    ensures CborWire.AllValid([k] + ([v] + flat)) && DenotePairs([k] + ([v] + flat), [e] + entries)
  {
    hide CborWire.Valid, Denotes;
    var all := [k] + ([v] + flat);
    assert all[1..] == [v] + flat && all[1..][1..] == flat && all[2..] == flat;
    assert ([e] + entries)[1..] == entries;
  }

  lemma {:induction false} PairsWithSpell(entries: seq<Pair>, i: nat, t: CborWire.Item)
    requires i < |entries| && PairsRepresentable(entries) && CborWire.Valid(t) && Denotes(t, entries[i].value)
    ensures CborWire.AllValid(PairsWith(entries, i, t)) && DenotePairs(PairsWith(entries, i, t), entries)
    decreases |entries|
  {
    hide CborWire.Valid, Denotes, ToWire, Representable, PairsWith, MinimalElements, CborWire.AllValid, DenotePairs, ToWirePairs,
      AllMinimal;
    var e, rest := entries[0], entries[1..];
    assert [e] + rest == entries;
    PairsWithStep(entries, i, t);
    WriterWrites(e.key);
    WriterWrites(e.value);
    if i == 0 {
      ToWirePairsExact(rest);
      PairSpelled(ToWire(e.key), t, ToWirePairs(rest), e, rest);
    } else {
      PairsWithSpell(rest, i - 1, t);
      PairSpelled(ToWire(e.key), ToWire(e.value), PairsWith(rest, i - 1, t), e, rest);
    }
  }

  lemma MapWithSpells(entries: seq<Pair>, i: nat, t: CborWire.Item)
    requires i < |entries| && Representable(CborMap(entries)) && CborWire.Valid(t) && Denotes(t, entries[i].value)
    ensures CborWire.Valid(MapWith(entries, i, t)) && Denotes(MapWith(entries, i, t), CborMap(entries))
  {
    PairsWithSpell(entries, i, t);
    FitsMin(|entries|);
    hide PairsWith, CborWire.AllValid, DenotePairs, CborWire.Fits, MinWidth;
  }

  lemma OneItemSpells(t: CborWire.Item, v: Value)
    requires CborWire.Valid(t) && Denotes(t, v)
    ensures CborWire.Valid(OneItem(t)) && Denotes(OneItem(t), CborArray([v]))
  {
    assert [t][1..] == [] && [v][1..] == [];
    assert CborWire.AllValid([t]) && DenoteAll([t], [v]);
  }

  lemma TextKey(x: Text)
    requires Representable(CborText(x))
    ensures KeyText(ToWire(CborText(x))) == Some(x)
  {
  }

  lemma {:induction false} FoldSkips<A(!new)>(entries: seq<Pair>, acc: A, key: Text, g: (Text, CborWire.Item, A) -> Option<A>)
    requires PairsRepresentable(entries) && forall e :: e in entries ==> e.key.CborText? && e.key.text != key
    requires forall k, x, a {:trigger g(k, x, a)} :: k != key ==> g(k, x, a) == Some(a)
    ensures FoldEntries(ToWirePairs(entries), acc, g) == Some(acc)
    decreases |entries|
  {
    hide Representable, ToWire, KeyText;
    if entries != [] {
      var e, rest := entries[0], entries[1..];
      assert e in entries;
      TextKey(e.key.text);
      FoldSkips(rest, acc, key, g);
      assert ToWirePairs(entries)[2..] == ToWirePairs(rest);
    }
  }

  /** A walk that looks at one key meets the tree that stands there. */
  lemma {:induction false} FoldWith<A(!new)>(entries: seq<Pair>, i: nat, t: CborWire.Item, acc: A,
                                             g: (Text, CborWire.Item, A) -> Option<A>)
    requires i < |entries| && PairsRepresentable(entries) && UniqueKeys(entries)
    requires forall e :: e in entries ==> e.key.CborText?
    requires entries[i] in entries
    requires forall k, x, a {:trigger g(k, x, a)} :: k != entries[i].key.text ==> g(k, x, a) == Some(a)
    ensures |PairsWith(entries, i, t)| % 2 == 0
    ensures FoldEntries(PairsWith(entries, i, t), acc, g) == g(entries[i].key.text, t, acc)
    decreases |entries|
  {
    hide Representable, ToWire, KeyText, PairsWith;
    var e, rest := entries[0], entries[1..];
    assert e in entries;
    TextKey(e.key.text);
    PairsWithStep(entries, i, t);
    UniqueTail(entries);
    var flat := PairsWith(entries, i, t);
    if i == 0 {
      assert flat[2..] == ToWirePairs(rest) && flat[1] == t;
      var r := g(e.key.text, t, acc);
      if r.Some? { FoldSkips(rest, r.value, e.key.text, g); }
    } else {
      assert flat[2..] == PairsWith(rest, i - 1, t) && flat[1] == ToWire(e.value);
      assert rest[i - 1] == entries[i] && rest[i - 1] in rest;
      FoldWith(rest, i - 1, t, acc, g);
    }
  }

  lemma MapWithFold<A(!new)>(entries: seq<Pair>, i: nat, t: CborWire.Item, acc: A, g: (Text, CborWire.Item, A) -> Option<A>)
    requires i < |entries| && Representable(CborMap(entries)) && UniqueKeys(entries)
    requires forall e :: e in entries ==> e.key.CborText?
    requires entries[i] in entries
    requires forall k, x, a {:trigger g(k, x, a)} :: k != entries[i].key.text ==> g(k, x, a) == Some(a)
    ensures FoldMap(MapWith(entries, i, t), acc, g) == g(entries[i].key.text, t, acc)
  {
    hide PairsWith, FoldEntries;
    FoldWith(entries, i, t, acc, g);
  }

  /** The element with its byte string's length in eight bytes. */
  function LongElement(): CborWire.Item {
    NamesFine();
    CborWire.Tag(CborWire.One, 24, CborWire.Str(2, CborWire.Eight, ItemBytes(0, X)))
  }

  function LongIssuer(): CborWire.Item {
    MapWith(IssuerEntries([Plain()]), 0, MapWith(Plain(), 0, OneItem(LongElement())))
  }

  function LongDocument(): CborWire.Item {
    MapWith(HeldDocument([Plain()], true).entries, 1, LongIssuer())
  }

  /** The plain response, written with that element. */
  function LongResponse(): CborWire.Item {
    MapWith(HeldResponse([Plain()], true).entries, 2, OneItem(LongDocument()))
  }

  lemma EightFits()
    ensures CborWire.Pow256(CborWire.Extra(CborWire.Eight)) > 1000 && CborWire.Pow256(CborWire.Extra(CborWire.One)) > 24
  {
    assert CborWire.Pow256(1) == 0x100 && CborWire.Pow256(2) == 0x1_0000 && CborWire.Pow256(4) == 0x1_0000_0000;
    assert CborWire.Pow256(8) == 0x1_0000_0000 * CborWire.Pow256(4);
  }

  lemma ElementSpells()
    ensures Fine(0, X) && CborWire.Valid(LongElement()) && IsElement(LongElement()) && Denotes(LongElement(), Element(0, X))
    ensures CborWire.Valid(OneItem(LongElement())) && Denotes(OneItem(LongElement()), CborArray(PlainItems()))
  {
    hide ItemBytes, Fine, CborWire.Valid, Denotes, IsElement, Small, Lit, Representable, OneItem;
    NamesFine();
    ItemShort(0, X);
    LongTagSpells(ItemBytes(0, X));
    OneItemSpells(LongElement(), Element(0, X));
  }

  lemma LongTagSpells(inner: Bytes)
    requires |inner| <= 1000
    ensures var t := CborWire.Tag(CborWire.One, 24, CborWire.Str(2, CborWire.Eight, inner));
            CborWire.Valid(t) && IsElement(t) && Denotes(t, WrapTagged(inner)) && t != ToWire(WrapTagged(inner))
  {
    EightFits();
    hide CborWire.Pow256;
  }

  lemma LongSpells(c: Codec)
    requires Lawful(c)
    ensures CborWire.Valid(LongResponse()) && Denotes(LongResponse(), HeldResponse([Plain()], true))
  {
    hide Lit, CborWire.Valid, Denotes, LongElement, PlainItems, OneItem, MapWith, Representable, DeviceSigned, IssuerEntries,
      ListingsWritable;
    ElementSpells();
    PlainPresentable(c);
    PlainWritable();
    IssuerCount([Plain()]);
    IssuerFirst([Plain()]);
    IssuerWritable([Plain()]);
    DocumentWritable([Plain()], true);
    HeldWritable([Plain()], true);
    MapWithSpells(Plain(), 0, OneItem(LongElement()));
    MapWithSpells(IssuerEntries([Plain()]), 0, MapWith(Plain(), 0, OneItem(LongElement())));
    MapWithSpells(HeldDocument([Plain()], true).entries, 1, LongIssuer());
    OneItemSpells(LongDocument(), HeldDocument([Plain()], true));
    MapWithSpells(HeldResponse([Plain()], true).entries, 2, OneItem(LongDocument()));
  }

  lemma PlainWritable()
    ensures Representable(CborMap(Plain())) && ListingsWritable([Plain()])
  {
    NamesFine();
    ItemSmall(0, X);
    WrapWritable(ItemBytes(0, X));
    hide Representable, ItemBytes, Lit, Canonical, Fine;
    OneEntryWritable(NS, [Element(0, X)]);
  }

  lemma IssuerFirst(ls: seq<Listing>)
    requires |ls| == 1
    ensures IssuerEntries(ls) == [Pair(Txt("nameSpaces"), CborMap(ls[0])), Pair(Txt("issuerAuth"), CborNull)]
  {
    hide Lit;
    assert ls[1..] == [];
    assert IssuerEntries([]) == [Pair(Txt("issuerAuth"), CborNull)];
  }

  function LongSpan(): Bytes {
    ElementSpells();
    CborWire.Encode(LongElement())
  }

  lemma LongShortest()
    ensures Fine(0, X) && Shortest(LongSpan()) == Span(0, X) != LongSpan()
  {
    ElementSpells();
    ItemSmall(0, X);
    WrapWritable(ItemBytes(0, X));
    WriterWrites(Element(0, X));
    LongIsLonger();
    hide ItemBytes, CborWire.Encode, Canonical, CborWire.Valid, Representable, Denotes, MinimalElements, Shortest, ToWire,
      LongElement, Fine, IsElement;
    ShortestIsCanonical(LongElement(), Element(0, X));
    if LongSpan() == Span(0, X) {
      CborWire.EncodeInjective(LongElement(), ToWire(Element(0, X)));
    }
  }

  lemma LongIsLonger()
    ensures Fine(0, X) && LongElement() != ToWire(Element(0, X))
  {
    hide ItemBytes, Fine, CborWire.Valid, Denotes, IsElement, Small, Lit, Representable, ToWire;
    NamesFine();
    ItemShort(0, X);
    LongTagSpells(ItemBytes(0, X));
  }

  lemma OneElementCollected(t: CborWire.Item, r: RawIssuerItem, decode: Decoder)
    requires CborWire.Valid(t) && IsElement(t) && DecodeRawIssuerItem(CborWire.Encode(t), t.item.content, decode) == Some(r)
    ensures CborWire.AllValid([t]) && CollectElements([t], [], decode) == Some([r])
  {
    hide CborWire.Encode, CborWire.Valid, DecodeRawIssuerItem;
    assert [t][1..] == [] && [] + [r] == [r];
    assert CborWire.AllValid([t]);
    assert CollectElements([], [r], decode) == Some([r]);
  }

  lemma LongListing(c: Codec)
    requires Lawful(c)
    ensures TreeNameSpace(c.decode)(NS, OneItem(LongElement()), map[]) == Some(map[NS := [TheRecord(LongSpan(), 0, X)]])
  {
    hide Lit, CborWire.Encode, CborWire.Valid, DecodeRawIssuerItem, ItemBytes, TheItem, Fine, Denotes, CollectElements, IsElement,
      Small, CborWire.AllValid;
    ElementSpells();
    RecordDecodes(LongSpan(), c, 0, X);
    var r := TheRecord(LongSpan(), 0, X);
    OneElementCollected(LongElement(), r, c.decode);
    assert map[][NS := [r]] == map[NS := [r]];
  }

  lemma OneDocumentCollected(doc: CborWire.Item, d: RawDocumentItems, decode: Decoder)
    requires CollectDocument(doc, decode) == Some(d)
    ensures CollectDocuments([doc], [], decode) == Some([d])
  {
    hide CollectDocument;
    assert [doc][1..] == [] && [] + [d] == [d];
  }

  lemma SingleUnique(e: Pair)
    ensures UniqueKeys([e])
  {
  }

  lemma TwoUnique(a: Pair, b: Pair)
    requires a.key != b.key
    ensures UniqueKeys([a, b])
  {
  }

  lemma LongDocumentCapture(c: Codec)
    requires Lawful(c)
    ensures CollectDocument(LongDocument(), c.decode) == Some(map[NS := [TheRecord(LongSpan(), 0, X)]])
  {
    hide Lit, CborWire.Encode, CborWire.Valid, LongElement, PlainItems, TheItem, FoldMap, TreeNameSpace, LongSpan, OneItem,
      Denotes, MapWith, Representable, DeviceSigned, IssuerEntries, UniqueKeys, ListingsWritable;
    ResponseNames();
    NamesFine();
    PlainWritable();
    IssuerFirst([Plain()]);
    IssuerWritable([Plain()]);
    DocumentWritable([Plain()], true);
    LongListing(c);
    var d: RawDocumentItems := map[NS := [TheRecord(LongSpan(), 0, X)]];
    var listing := MapWith(Plain(), 0, OneItem(LongElement()));
    var issuer, doc := IssuerEntries([Plain()]), HeldDocument([Plain()], true).entries;
    SingleUnique(Plain()[0]);
    OnlyEntryFold(Plain()[0], OneItem(LongElement()), map[], TreeNameSpace(c.decode));
    assert FoldMap(listing, map[], TreeNameSpace(c.decode)) == Some(d);
    TwoUnique(issuer[0], issuer[1]);
    assert issuer[0] in issuer;
    MapWithFold(issuer, 0, listing, map[], TreeIssuerSigned(c.decode));
    assert FoldMap(LongIssuer(), map[], TreeIssuerSigned(c.decode)) == Some(d);
    ThreeUnique(doc[0], doc[1], doc[2]);
    assert doc[1] in doc;
    MapWithFold(doc, 1, LongIssuer(), map[], TreeDocument(c.decode));
  }

  lemma OnlyEntryFold<A>(e: Pair, t: CborWire.Item, acc: A, g: (Text, CborWire.Item, A) -> Option<A>)
    requires e.key.CborText? && Representable(e.key)
    ensures FoldMap(MapWith([e], 0, t), acc, g) == g(e.key.text, t, acc)
  {
    TextKey(e.key.text);
    hide ToWire, KeyText, Representable;
    assert [e][1..] == [];
    PairsWithStep([e], 0, t);
    var flat := PairsWith([e], 0, t);
    assert flat == [ToWire(e.key), t] && flat[2..] == [];
    var r := g(e.key.text, t, acc);
    if r.Some? { assert FoldEntries([], r.value, g) == r; }
  }

  lemma LongCapture(c: Codec)
    requires Lawful(c)
    ensures CborWire.Valid(LongResponse())
    ensures ScanResponse(CborWire.Encode(LongResponse()), c.decode)
         == Some(Next([map[NS := [TheRecord(LongSpan(), 0, X)]]], |CborWire.Encode(LongResponse())|))
  {
    hide Lit, CborWire.Encode, CborWire.Valid, LongDocument, PlainItems, TheItem, FoldMap, CollectDocument, CollectDocuments,
      LongSpan, Denotes, MapWith, Representable, HeldDocument, UniqueKeys, ListingsWritable, ScanResponse;
    ResponseNames();
    LongSpells(c);
    PlainWritable();
    HeldWritable([Plain()], true);
    LongDocumentCapture(c);
    OneDocumentCollected(LongDocument(), map[NS := [TheRecord(LongSpan(), 0, X)]], c.decode);
    var entries := HeldResponse([Plain()], true).entries;
    ThreeUnique(entries[0], entries[1], entries[2]);
    assert entries[2] in entries;
    MapWithFold(entries, 2, OneItem(LongDocument()), [], TreeResponse(c.decode));
    ScanInvertsEncoding(LongResponse(), c.decode);
  }

  function LongMso(digest: Digest): Value {
    Mso([Table(NS, [digest(LongSpan())])])
  }

  lemma LongCeremony(c: Codec, digest: Digest)
    requires Lawful(c) && Tolerant(c)
    ensures CborWire.Valid(LongResponse())
    ensures Staged(c, LongMso(digest), digest, LongResponse(), Wanted(), TheClaim())
    ensures HeldOf(c, CborWire.Encode(LongResponse())) == HeldDocument([Plain()], true)
    ensures CaptureOf(c, CborWire.Encode(LongResponse())) == map[NS := [TheRecord(LongSpan(), 0, X)]]
  {
    hide Lit, HeldResponse, HeldDocument, Issuer, VerifyValueDigests, NullBytes, CborWire.Valid, CborWire.Encode, Denotes,
      ListingsPrune, ListingsWritable, NamesInEntries, QualifiedAll, Staged, HeldOf, CaptureOf, Plain, Wanted, TheClaim, Mso,
      GetText, TheItem, LongSpan, LongResponse, ScanResponse;
    LongSpells(c);
    LongCapture(c);
    PlainPresentable(c);
    PlainAccepted(LongSpan(), digest(LongSpan()), digest);
    HeldCeremony(c, LongResponse(), [Plain()], true, map[NS := [TheRecord(LongSpan(), 0, X)]], Wanted(),
                 LongMso(digest), digest, TheClaim());
  }

  lemma LongFraming(digest: Digest)
    requires Fine(0, X) && digest(LongSpan()) != digest(Span(0, X))
    ensures !FramingSigned(Plain(), map[NS := [TheRecord(LongSpan(), 0, X)]], Wanted(), digest)
  {
    LongShortest();
    hide Lit, PlainItems, TheItem, QualifiedElementId, Shortest, LongSpan, Span, Fine;
    var raw: RawDocumentItems := map[NS := [TheRecord(LongSpan(), 0, X)]];
    var e, r := Plain()[0], raw[NS][0];
    assert e in Plain() && r in Captured(raw, NS) && KeepRecord(NS, r, Wanted());
  }

  /**
    A held response whose one element has its length in eight bytes passes the issuer-side checks with
    its claim, and is prepared and finished for that claim; the verifier refuses the presentation, for
    every digest that tells the two framings apart.
  */
  lemma LongHeadsLoseAcceptance(c: Codec, digest: Digest)
    requires Lawful(c) && Tolerant(c)
    requires Fine(0, X) && digest(LongSpan()) != digest(Span(0, X))
    ensures VerifyValueDigests(Issuer([Plain()]), Some(map[NS := [TheRecord(LongSpan(), 0, X)]]), LongMso(digest), digest)
         == Ok(TheClaim())
    ensures CborWire.Valid(LongResponse()) && Denotes(LongResponse(), HeldResponse([Plain()], true))
    ensures Outcome(c, LongMso(digest), digest, CborWire.Encode(LongResponse()), Wanted())
         == Some(Err(DisclosureIntegrity))
    ensures LongSpan() != Span(0, X)
  {
    hide Lit, NullBytes, HeldResponse, HeldDocument, Issuer, Wanted, CborWire.Valid, CborWire.Encode, TheClaim, Restrict, GetText,
      Denotes, DeviceNameSpaces, LongMso, Staged, HeldOf, CaptureOf, PlainItems, Outcome, CountsAgree, FramingSigned,
      ListedEntries, ListedNames, Separated, VerifyValueDigests, LongSpan, Span, LongResponse, TheItem, Fine;
    LongSpells(c);
    LongCeremony(c, digest);
    PlainAccepted(LongSpan(), digest(LongSpan()), digest);
    LongFraming(digest);
    LongShortest();
    HeldDocuments([Plain()], true);
    OneName(NS, PlainItems());
    LongMsoIs(digest);
    OutcomeVerifies(c, LongMso(digest), digest, LongResponse(), Wanted(), TheClaim());
  }

  lemma LongMsoIs(digest: Digest)
    ensures LongMso(digest) == Mso([Table(NS, [digest(LongSpan())])])
  {
  }
}
