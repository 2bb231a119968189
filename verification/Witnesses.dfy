/**
  A lawful codec, the elements and listings that concrete responses are made of, and a plain held
  response that is presented and accepted, for every lawful CBOR codec and every digest.
*/
module Witnesses {
  import opened Prelude
  import CborWire
  import opened CborValue
  import opened IssuerItemScan
  import opened CborEncoding
  import opened Disclosure
  import opened DeviceAuthentication
  import opened Pruning
  import opened PrunedCapture
  import opened PrunedVerification
  import opened MdocVerify
  import opened Presentation
  import opened PresentationVerified
  import opened HeldResponses

  // ---------------------------------------------------------------------------------------------
  // A lawful codec
  // ---------------------------------------------------------------------------------------------

  /** `b` is a wire form of `v`, with any head widths. */
  ghost predicate Reading(b: Bytes, v: Value) {
    exists t :: CborWire.Valid(t) && Denotes(t, v) && CborWire.Encode(t) == b
  }

  ghost function ReadBack(b: Bytes): Option<Value> {
    if exists v :: Reading(b, v) then
      var v :| Reading(b, v);
      Some(v)
    else None
  }

  ghost function WriteOut(v: Value): Bytes {
    if Representable(v) then Canonical(v) else []
  }

  /** The codec that writes shortest heads and reads any. */
  ghost function ModelCodec(): Codec {
    Codec(v => WriteOut(v), b => ReadBack(b))
  }

  lemma ReadBackIs(t: CborWire.Item, v: Value)
    requires CborWire.Valid(t) && Denotes(t, v)
    ensures ReadBack(CborWire.Encode(t)) == Some(v)
  {
    hide Denotes, CborWire.Valid, CborWire.Encode;
    var b := CborWire.Encode(t);
    assert Reading(b, v);
    forall w | Reading(b, w) ensures w == v {
      var u :| CborWire.Valid(u) && Denotes(u, w) && CborWire.Encode(u) == b;
      CborWire.EncodeInjective(t, u);
      DenotesOne(t, v, w);
    }
  }

  /** The codec reads every wire form of a value. */
  ghost predicate Tolerant(c: Codec) {
    forall t, v :: CborWire.Valid(t) && Denotes(t, v) ==> c.decode(CborWire.Encode(t)) == Some(v)
  }

  /** The law assumed of the CBOR library is satisfiable, together with reading every head width. */
  lemma ModelCodecIsLawful()
    ensures Lawful(ModelCodec()) && Tolerant(ModelCodec())
  {
    hide Denotes, CborWire.Valid, CborWire.Encode, Representable, Canonical, ReadBack;
    var c := ModelCodec();
    forall t, v | CborWire.Valid(t) && Denotes(t, v) ensures c.decode(CborWire.Encode(t)) == Some(v) {
      ReadBackIs(t, v);
    }
    forall v | Representable(v) ensures c.encode(v) == Canonical(v) && c.decode(c.encode(v)) == Some(v) {
      WriterWrites(v);
    }
  }

  // ---------------------------------------------------------------------------------------------
  // Elements
  // ---------------------------------------------------------------------------------------------

  const NS: Text := Lit("a")
  const X: Text := Lit("x")

  /** An element's content: its digest id, its identifier and the value true. */
  function TheItem(n: nat, name: Text): Value {
    CborMap([Pair(Txt("digestID"), CborInteger(n)), Pair(Txt("elementIdentifier"), CborText(name)),
             Pair(Txt("elementValue"), CborBool(true))])
  }

  /** The record captured from an element with the span `raw`. */
  function TheRecord(raw: Bytes, n: nat, name: Text): RawIssuerItem {
    RawIssuerItem(raw, n, name, TheItem(n, name))
  }

  /** A value with a short encoding. */
  predicate Small(v: Value) {
    Representable(v) && |Canonical(v)| <= 100
  }

  predicate SmallPair(e: Pair) {
    Small(e.key) && Small(e.value)
  }

  lemma {:induction false} PairsLength(entries: seq<Pair>)
    requires forall e :: e in entries ==> SmallPair(e)
    ensures PairsRepresentable(entries)
    ensures CborWire.AllValid(ToWirePairs(entries)) && |CborWire.EncodeAll(ToWirePairs(entries))| <= 200 * |entries|
    decreases |entries|
  {
    hide Representable, CborWire.Encode, CborWire.EncodeAll, CborWire.Valid, ToWire, Canonical;
    if entries == [] {
      CborWire.EncodeNone();
    } else {
      var e, rest := entries[0], entries[1..];
      assert e in entries;
      PairsLength(rest);
      ToWirePairsExact(entries);
      WriterWrites(e.key);
      WriterWrites(e.value);
      var tail := ToWirePairs(rest);
      assert ToWirePairs(entries) == [ToWire(e.key)] + ([ToWire(e.value)] + tail);
      CborWire.EncodeCons(ToWire(e.value), tail);
      CborWire.EncodeCons(ToWire(e.key), [ToWire(e.value)] + tail);
    }
  }

  lemma MapOfThree(a: Pair, b: Pair, c: Pair)
    requires SmallPair(a) && SmallPair(b) && SmallPair(c)
    ensures Representable(CborMap([a, b, c])) && |Canonical(CborMap([a, b, c]))| <= 1000
  {
    var entries := [a, b, c];
    PairsLength(entries) by { hide SmallPair; }
    MapLength(entries);
  }

  lemma MapLength(entries: seq<Pair>)
    requires |entries| < 24 && PairsRepresentable(entries)
    requires CborWire.AllValid(ToWirePairs(entries))
    ensures Representable(CborMap(entries))
    ensures |Canonical(CborMap(entries))| == 1 + |CborWire.EncodeAll(ToWirePairs(entries))|
  {
    hide PairsRepresentable, CborWire.AllValid, ToWirePairs, CborWire.EncodeAll;
    assert Representable(CborMap(entries));
    ToWireExact(CborMap(entries));
  }

  lemma ScalarsSmall()
    ensures Small(CborNull) && Small(CborBool(true)) && Small(CborInteger(0))
  {
  }

  lemma TextSmall(s: string)
    requires |s| < 60 && forall c :: c in s ==> c as int < 128
    ensures Small(Txt(s))
  {
    LitRepresentable(s);
  }

  lemma FieldsSmall()
    ensures Small(Txt("digestID")) && Small(Txt("elementIdentifier")) && Small(Txt("elementValue"))
  {
    hide Small, Lit;
    TextSmall("digestID");
    TextSmall("elementIdentifier");
    TextSmall("elementValue");
  }

  lemma IntegerSmall(n: nat)
    requires n < 24
    ensures Small(CborInteger(n))
  {
  }

  /** An element this small can be written. */
  predicate Fine(n: nat, name: Text) {
    n < 24 && Small(CborText(name))
  }

  lemma ItemSmall(n: nat, name: Text)
    requires Fine(n, name)
    ensures Representable(TheItem(n, name)) && |Canonical(TheItem(n, name))| <= 1000
  {
    hide Representable, Canonical, Lit, Small;
    ScalarsSmall();
    FieldsSmall();
    IntegerSmall(n);
    MapOfThree(Pair(Txt("digestID"), CborInteger(n)), Pair(Txt("elementIdentifier"), CborText(name)),
               Pair(Txt("elementValue"), CborBool(true)));
  }

  function ItemBytes(n: nat, name: Text): Bytes
    requires Fine(n, name)
  {
    ItemSmall(n, name);
    Canonical(TheItem(n, name))
  }

  lemma ItemShort(n: nat, name: Text)
    requires Fine(n, name)
    ensures |ItemBytes(n, name)| <= 1000
  {
    ItemSmall(n, name);
  }

  /** An element with an item as its content, and one without. */
  function Element(n: nat, name: Text): Value
    requires Fine(n, name)
  {
    WrapTagged(ItemBytes(n, name))
  }

  function NoElement(): Value {
    WrapTagged(NullBytes())
  }

  lemma WrapWritable(inner: Bytes)
    requires |inner| <= 1000
    ensures Representable(WrapTagged(inner))
  {
  }

  lemma NullSmall()
    ensures |NullBytes()| <= 100
  {
  }

  /** The writer's span of an element. */
  function Span(n: nat, name: Text): Bytes
    requires Fine(n, name)
  {
    ItemSmall(n, name);
    WrapWritable(ItemBytes(n, name));
    Canonical(Element(n, name))
  }

  function Record(n: nat, name: Text): RawIssuerItem
    requires Fine(n, name)
  {
    TheRecord(Span(n, name), n, name)
  }

  lemma ItemNames()
    ensures Lit("digestID") != Lit("elementIdentifier") && Lit("digestID") != Lit("elementValue")
    ensures Lit("elementIdentifier") != Lit("elementValue")
  {
    assert |Lit("digestID")| == 8 && |Lit("elementIdentifier")| == 17 && |Lit("elementValue")| == 12;
  }

  lemma ItemFields(n: nat, name: Text)
    requires n < 24
    ensures GetInteger(TheItem(n, name), Lit("digestID")) == Some(n)
    ensures GetText(TheItem(n, name), Lit("elementIdentifier")) == Some(name)
    ensures GetMapEntry(TheItem(n, name), Lit("elementValue")) == Some(CborBool(true))
  {
    ItemNames();
    hide Lit, FindText;
    var entries := TheItem(n, name).entries;
    FindAt(entries, Lit("digestID"), 0);
    FindAt(entries, Lit("elementIdentifier"), 1);
    FindAt(entries, Lit("elementValue"), 2);
  }

  /** An element's fact, whatever its span. */
  lemma ElementFact(raw: Bytes, n: nat, name: Text, ns: Text)
    requires n < 24
    ensures TripleOf(ns, TheRecord(raw, n, name)) == Triple(ns, name, BooleanValue(true))
  {
    ItemFields(n, name);
    hide TheItem, Lit;
  }

  lemma ItemReads(c: Codec, n: nat, name: Text)
    requires Lawful(c) && Fine(n, name)
    ensures c.decode(ItemBytes(n, name)) == Some(TheItem(n, name))
  {
    ItemSmall(n, name);
    hide Canonical, Representable, Fine;
    assert c.encode(TheItem(n, name)) == ItemBytes(n, name);
  }

  lemma RecordDecodes(raw: Bytes, c: Codec, n: nat, name: Text)
    requires Lawful(c) && Fine(n, name)
    ensures DecodeRawIssuerItem(raw, ItemBytes(n, name), c.decode) == Some(TheRecord(raw, n, name))
  {
    ItemReads(c, n, name);
    ItemFields(n, name);
    hide Lit, ItemBytes, TheItem, Small;
  }

  /** What the pruner and the scan make of an element. */
  lemma ElementSeen(c: Codec, n: nat, name: Text)
    requires Lawful(c) && Fine(n, name)
    ensures Representable(Element(n, name)) && UnwrapTagged(Element(n, name)).Some?
    ensures ElementOf(Element(n, name), c.decode) == Some(Record(n, name))
    ensures ItemIdentifier(Element(n, name), c.decode) == Some(name)
  {
    ItemSmall(n, name);
    WrapWritable(ItemBytes(n, name));
    RecordDecodes(Span(n, name), c, n, name);
    ItemReads(c, n, name);
    ItemFields(n, name);
    hide Canonical, Representable, DecodeRawIssuerItem, ItemBytes, TheItem, Lit, Fine, Small;
  }

  lemma NoElementSeen(c: Codec)
    requires Lawful(c)
    ensures Representable(NoElement()) && UnwrapTagged(NoElement()).Some?
    ensures ElementOf(NoElement(), c.decode) == None && ItemIdentifier(NoElement(), c.decode) == None
  {
    NullSmall();
    WrapWritable(NullBytes());
    NullReads(c);
    hide Canonical, Representable, Lit, NullBytes;
  }

  /** The writer's span is its own shortest form. */
  lemma SpanShortest(n: nat, name: Text)
    requires Fine(n, name)
    ensures Shortest(Span(n, name)) == Span(n, name) && Reframed(Record(n, name)) == Record(n, name)
  {
    ItemSmall(n, name);
    WrapWritable(ItemBytes(n, name));
    WriterWrites(Element(n, name));
    ElementTree(n, name);
    hide Canonical, Representable, ItemBytes, Fine, Shortest, CborWire.Encode, Denotes, MinimalElements, TheItem, ToWire,
      CborWire.Valid, IsElement;
    ShortestIsCanonical(ToWire(Element(n, name)), Element(n, name));
  }

  lemma ElementTree(n: nat, name: Text)
    requires Fine(n, name)
    ensures IsElement(ToWire(Element(n, name)))
  {
  }

  // ---------------------------------------------------------------------------------------------
  // Listings of one or two elements
  // ---------------------------------------------------------------------------------------------

  function Entry(ns: Text, items: seq<Value>): Pair {
    Pair(CborText(ns), CborArray(items))
  }

  lemma OneOf(v: Value, acc: seq<RawIssuerItem>, decode: Decoder)
    requires Representable(v) && UnwrapTagged(v).Some?
    ensures AllRepresentable([v]) && ElementsOf([v], acc, decode) == Some(Push(acc, ElementOf(v, decode)))
  {
    hide Representable, ElementOf;
    assert [v][1..] == [];
    assert AllRepresentable([v]);
  }

  lemma TwoOf(v: Value, w: Value, acc: seq<RawIssuerItem>, decode: Decoder)
    requires Representable(v) && UnwrapTagged(v).Some? && Representable(w) && UnwrapTagged(w).Some?
    ensures AllRepresentable([v, w])
    ensures ElementsOf([v, w], acc, decode) == Some(Push(Push(acc, ElementOf(v, decode)), ElementOf(w, decode)))
  {
    hide Representable, ElementOf;
    OneOf(w, Push(acc, ElementOf(v, decode)), decode);
    assert [v, w][1..] == [w];
    assert AllRepresentable([v, w]);
  }

  lemma EntryFold(ns: Text, items: seq<Value>, rest: Listing, acc: RawDocumentItems, rs: seq<RawIssuerItem>, decode: Decoder)
    requires AllRepresentable(items) && ElementsOf(items, Captured(acc, ns), decode) == Some(rs)
    ensures FoldPairs([Entry(ns, items)] + rest, acc, ValueNameSpace(decode)) == FoldPairs(rest, acc[ns := rs], ValueNameSpace(decode))
  {
    hide FoldPairs, AllRepresentable, ElementsOf;
    FoldCons(ns, CborArray(items), rest, acc, ValueNameSpace(decode));
  }

  lemma OneEntryFold(ns: Text, items: seq<Value>, acc: RawDocumentItems, rs: seq<RawIssuerItem>, decode: Decoder)
    requires AllRepresentable(items) && ElementsOf(items, Captured(acc, ns), decode) == Some(rs)
    ensures FoldPairs([Entry(ns, items)], acc, ValueNameSpace(decode)) == Some(acc[ns := rs])
  {
    hide FoldPairs, AllRepresentable, ElementsOf;
    EntryFold(ns, items, [], acc, rs, decode);
    assert [Entry(ns, items)] + [] == [Entry(ns, items)];
    FoldNone(acc[ns := rs], ValueNameSpace(decode));
  }

  lemma OneKept(key: Value, item: Value, disclose: set<Text>, decode: Decoder)
    ensures KeptItems(key, [item], disclose, decode) == if Keep(key, item, disclose, decode) then [item] else []
  {
    hide Keep;
    assert [item][1..] == [];
    assert [item] + [] == [item];
  }

  lemma TwoKept(key: Value, v: Value, w: Value, disclose: set<Text>, decode: Decoder)
    requires Keep(key, v, disclose, decode) && !Keep(key, w, disclose, decode)
    ensures KeptItems(key, [v, w], disclose, decode) == [v]
  {
    hide Keep;
    OneKept(key, w, disclose, decode);
    assert [v, w][1..] == [w];
    assert [v] + [] == [v];
  }

  lemma EntryPruned(ns: Text, items: seq<Value>, rest: Listing, out: Listing, disclose: set<Text>, decode: Decoder)
    requires PruneEntries(rest, disclose, decode) == Ok(out)
    ensures PruneEntries([Entry(ns, items)] + rest, disclose, decode)
         == Ok((if KeptItems(CborText(ns), items, disclose, decode) == [] then []
                else [Entry(ns, KeptItems(CborText(ns), items, disclose, decode))]) + out)
  {
    hide KeptItems;
    assert ([Entry(ns, items)] + rest)[1..] == rest;
  }

  lemma OneEntryPrunes(ns: Text, items: seq<Value>, disclose: set<Text>, decode: Decoder)
    ensures PruneEntries([Entry(ns, items)], disclose, decode).Ok?
  {
    hide KeptItems, PruneEntries;
    NonePruned(disclose, decode);
    EntryPruned(ns, items, [], [], disclose, decode);
    assert [Entry(ns, items)] + [] == [Entry(ns, items)];
  }

  lemma NonePruned(disclose: set<Text>, decode: Decoder)
    ensures PruneEntries([], disclose, decode) == Ok([])
  {
  }

  lemma OneRecordKept(ns: Text, r: RawIssuerItem, disclose: set<Text>)
    requires QualifiedElementId(ns, r.identifier) in disclose
    ensures KeptRecords(ns, [r], disclose) == [r]
  {
    hide QualifiedElementId;
    assert [r][..0] == [] && [] + [r] == [r];
  }

  lemma TwoRecordsKept(ns: Text, r: RawIssuerItem, q: RawIssuerItem, disclose: set<Text>)
    requires QualifiedElementId(ns, r.identifier) in disclose && QualifiedElementId(ns, q.identifier) in disclose
    ensures KeptRecords(ns, [r, q], disclose) == [r, q]
  {
    hide QualifiedElementId;
    OneRecordKept(ns, r, disclose);
    assert [r, q][..1] == [r] && [r] + [q] == [r, q];
  }

  lemma EntryWritable(ns: Text, items: seq<Value>)
    requires Representable(CborText(ns)) && |items| < 100 && forall v :: v in items ==> Representable(v)
    ensures Representable(CborText(ns)) && Representable(Entry(ns, items).value)
  {
    hide Representable;
    ArrayWritable(items);
  }

  lemma OneEntryWritable(ns: Text, items: seq<Value>)
    requires Representable(CborText(ns)) && |items| < 100 && forall v :: v in items ==> Representable(v)
    ensures Representable(CborMap([Entry(ns, items)]))
  {
    hide Representable;
    EntryWritable(ns, items);
    OneEntryRepresentable(Entry(ns, items));
  }

  lemma ElementNamed(ns: Text, item: Value, id: Text, rest: seq<Value>, decode: Decoder)
    requires ItemIdentifier(item, decode) == Some(id)
    ensures ElementName(ns, id) in NamesInEntry(Entry(ns, [item] + rest), decode)
  {
    hide ItemIdentifier;
    assert item in [item] + rest;
  }

  lemma NamedIn(e: Pair, entries: Listing, decode: Decoder, n: ElementName)
    requires e in entries && n in NamesInEntry(e, decode)
    ensures n in NamesInEntries(entries, decode) && Qualified(n) in QualifiedAll(NamesInEntries(entries, decode))
  {
    hide NamesInEntry, Qualified;
  }

  // ---------------------------------------------------------------------------------------------
  // Signed digests
  // ---------------------------------------------------------------------------------------------

  /** The digests with the ids 0, 1, ... of one name space. */
  function IdTable(hashes: seq<Bytes>): seq<Pair> {
    seq(|hashes|, i requires 0 <= i < |hashes| => Pair(CborInteger(i), CborBytes(hashes[i])))
  }

  function Table(ns: Text, hashes: seq<Bytes>): Pair {
    Pair(CborText(ns), CborMap(IdTable(hashes)))
  }

  function Mso(tables: seq<Pair>): Value {
    CborMap([Pair(Txt("docType"), Txt("t")), Pair(Txt("valueDigests"), CborMap(tables))])
  }

  lemma MsoParts(tables: seq<Pair>)
    ensures ValueDigests(Mso(tables)) == Some(tables) && GetText(Mso(tables), Lit("docType")) == Some(Lit("t"))
  {
    ResponseNames();
    hide Lit, FindText;
    FindAt(Mso(tables).entries, Lit("valueDigests"), 1);
    FindAt(Mso(tables).entries, Lit("docType"), 0);
  }

  lemma {:induction false} IdsExpected(hashes: seq<Bytes>, n: nat)
    requires n < |hashes| < 24
    ensures n in ExpectedById(IdTable(hashes)) && ExpectedById(IdTable(hashes))[n] == hashes[n]
    decreases |hashes|
  {
    var last := |hashes| - 1;
    assert IdTable(hashes)[..last] == IdTable(hashes[..last]);
    if n < last {
      IdsExpected(hashes[..last], n);
    }
  }

  /** Every record is the one its digest id is signed for. */
  ghost predicate InOrder(rs: seq<RawIssuerItem>, hashes: seq<Bytes>, digest: Digest) {
    && |rs| == |hashes| < 24
    && forall i :: 0 <= i < |rs| ==> rs[i].digestId == i && hashes[i] == digest(rs[i].rawBytes)
  }

  lemma EntrySigned(e: Pair, raw: RawDocumentItems, tables: seq<Pair>, hashes: seq<Bytes>, digest: Digest)
    requires e.key.CborText? && e.value.CborArray? && e.key.text in raw && |raw[e.key.text]| == |e.value.items|
    requires FindText(tables, e.key.text) == Some(CborMap(IdTable(hashes))) && InOrder(raw[e.key.text], hashes, digest)
    ensures NameSpaceSigned(e, raw, tables, digest)
  {
    hide ExpectedById, IdTable, FindText;
    var rs, expected := raw[e.key.text], ExpectedById(IdTable(hashes));
    forall r | r in rs ensures DigestMatches(r, expected, digest) {
      var i :| 0 <= i < |rs| && rs[i] == r;
      IdsExpected(hashes, i);
    }
  }

  /** A listing of one entry, signed, discloses what its records say. */
  lemma OneAccepted(issuer: Value, e: Pair, raw: RawDocumentItems, hashes: seq<Bytes>, tables: seq<Pair>, digest: Digest, d: Disclosed)
    requires NameSpaces(issuer) == Some([e])
    requires e.key.CborText? && e.value.CborArray? && e.key.text in raw && |raw[e.key.text]| == |e.value.items|
    requires FindText(tables, e.key.text) == Some(CborMap(IdTable(hashes))) && InOrder(raw[e.key.text], hashes, digest)
    requires NoEmptyGroup(d)
    requires forall t :: t in Triples(d) <==> t.ns == e.key.text && exists r :: r in raw[e.key.text] && t == TripleOf(t.ns, r)
    ensures VerifyValueDigests(issuer, Some(raw), Mso(tables), digest) == Ok(d)
  {
    hide VerifyValueDigests, NameSpaces, Mso, IdTable, FindText, Triples, TripleOf, NoEmptyGroup, InOrder, NameSpaceSigned,
      ValueDigests;
    MsoParts(tables);
    EntrySigned(e, raw, tables, hashes, digest);
    forall t ensures t in Triples(d) <==> Disclosure.Listed([e], raw, t) {
      if t in Triples(d) {
        assert e in [e];
      }
    }
    DisclosureExact(issuer, Some(raw), Mso(tables), digest, d);
  }

  // ---------------------------------------------------------------------------------------------
  // One element
  // ---------------------------------------------------------------------------------------------

  lemma NamesFine()
    ensures Fine(0, X) && Fine(1, X) && Representable(CborText(NS))
  {
    hide Small, Lit, Representable;
    TextSmall("x");
    TextWritable("a");
  }

  function PlainItems(): (items: seq<Value>)
    ensures |items| == 1
  {
    NamesFine();
    [Element(0, X)]
  }

  /** `{a: [x]}`. */
  function Plain(): Listing {
    [Entry(NS, PlainItems())]
  }

  /** The request for `a/x`, and the claim it asks for. */
  function Wanted(): set<Text> {
    {QualifiedElementId(NS, X)}
  }

  function TheClaim(): Disclosed {
    map[NS := map[X := BooleanValue(true)]]
  }

  lemma ClaimIs()
    ensures NoEmptyGroup(TheClaim()) && Restrict(TheClaim(), Wanted()) == TheClaim()
    ensures forall t :: t in Triples(TheClaim()) <==> t == Triple(NS, X, BooleanValue(true))
  {
    hide Lit, QualifiedElementId;
    assert RestrictGroup(NS, TheClaim()[NS], Wanted()) == TheClaim()[NS];
    assert X in TheClaim()[NS];
    var t := Triple(NS, X, BooleanValue(true));
    assert t.ns in TheClaim() && t.id in TheClaim()[t.ns];
  }

  /** The plain listing, with the element's span `raw` and its digest signed. */
  lemma PlainAccepted(raw: Bytes, hash: Bytes, digest: Digest)
    requires hash == digest(raw)
    ensures VerifyValueDigests(Issuer([Plain()]), Some(map[NS := [TheRecord(raw, 0, X)]]), Mso([Table(NS, [hash])]), digest)
         == Ok(TheClaim())
    ensures GetText(Mso([Table(NS, [hash])]), Lit("docType")) == Some(Lit("t"))
  {
    hide VerifyValueDigests, NameSpaces, Mso, IdTable, FindText, Triples, TheItem, PlainItems, Lit, TheClaim, TripleOf, Issuer,
      GetText;
    ClaimIs();
    IssuerLookups([Plain()]);
    var tables, rs := [Table(NS, [hash])], [TheRecord(raw, 0, X)];
    MsoParts(tables);
    FindAt(tables, NS, 0);
    ElementFact(raw, 0, X, NS);
    assert InOrder(rs, [hash], digest);
    assert rs[0] in rs;
    OneAccepted(Issuer([Plain()]), Entry(NS, PlainItems()), map[NS := rs], [hash], tables, digest, TheClaim());
  }

  lemma PlainPresentable(c: Codec)
    requires Lawful(c)
    ensures ListingsWritable([Plain()]) && ListingsPrune([Plain()], Wanted(), c.decode)
    ensures Wanted() <= QualifiedAll(NamesInEntries(Plain(), c.decode))
    ensures KeptItems(CborText(NS), PlainItems(), Wanted(), c.decode) == PlainItems()
  {
    NamesFine();
    ElementSeen(c, 0, X);
    hide Lit, Representable, Element, ItemIdentifier, Fine, QualifiedElementId, PruneEntries, KeptItems, NamesInEntries,
      NamesInEntry;
    var item := Element(0, X);
    OneEntryWritable(NS, [item]);
    OneEntryPrunes(NS, [item], Wanted(), c.decode);
    ElementNamed(NS, item, X, [], c.decode);
    assert [item] + [] == [item];
    NamedIn(Entry(NS, [item]), Plain(), c.decode, ElementName(NS, X));
    OneKept(CborText(NS), item, Wanted(), c.decode);
  }

  lemma PlainCapture(c: Codec)
    requires Lawful(c)
    ensures Fine(0, X) && FoldListings([Plain()], map[], c.decode) == Some(map[NS := [Record(0, X)]])
  {
    NamesFine();
    ElementSeen(c, 0, X);
    hide Lit, Representable, Element, Fine, ElementOf, ElementsOf, AllRepresentable, FoldPairs, Record, ValueNameSpace;
    OneOf(Element(0, X), [], c.decode);
    assert [] + [Record(0, X)] == [Record(0, X)];
    OneEntryFold(NS, PlainItems(), map[], [Record(0, X)], c.decode);
    assert map[][NS := [Record(0, X)]] == map[NS := [Record(0, X)]];
    OneListing(Plain(), c.decode);
  }

  lemma OneListing(l: Listing, decode: Decoder)
    ensures FoldListings([l], map[], decode) == FoldPairs(l, map[], ValueNameSpace(decode))
  {
    hide FoldPairs;
    assert [l][1..] == [];
    var r := FoldPairs(l, map[], ValueNameSpace(decode));
    if r.Some? { assert FoldListings([], r.value, decode) == Some(r.value); }
  }

  /** The counts agree, whatever the framing of the element. */
  lemma PlainCounts(raw: Bytes, c: Codec)
    requires Lawful(c)
    ensures CountsAgree(Plain(), map[NS := [TheRecord(raw, 0, X)]], Wanted(), c.decode)
  {
    PlainPresentable(c);
    hide Lit, PlainItems, KeptItems, KeptRecords, TheItem, QualifiedElementId;
    OneRecordKept(NS, TheRecord(raw, 0, X), Wanted());
    assert EntryAgrees(Entry(NS, PlainItems()), Plain(), map[NS := [TheRecord(raw, 0, X)]], Wanted(), c.decode);
  }

  lemma OneName(ns: Text, items: seq<Value>)
    ensures Separated(ListedNames([Entry(ns, items)]))
  {
    assert ListedNames([Entry(ns, items)]) == {ns} by { assert Entry(ns, items) in [Entry(ns, items)]; }
  }

  function PlainMso(digest: Digest): Value {
    NamesFine();
    Mso([Table(NS, [digest(Span(0, X))])])
  }

  lemma PlainCeremony(c: Codec, ns: bool, digest: Digest)
    requires Lawful(c)
    ensures Representable(HeldResponse([Plain()], ns)) && Fine(0, X)
    ensures Writes(ToWire(HeldResponse([Plain()], ns)), HeldResponse([Plain()], ns))
    ensures CborWire.Encode(ToWire(HeldResponse([Plain()], ns))) == Canonical(HeldResponse([Plain()], ns))
    ensures Staged(c, PlainMso(digest), digest, ToWire(HeldResponse([Plain()], ns)), Wanted(), TheClaim())
    ensures HeldOf(c, Canonical(HeldResponse([Plain()], ns))) == HeldDocument([Plain()], ns)
    ensures CaptureOf(c, Canonical(HeldResponse([Plain()], ns))) == map[NS := [Record(0, X)]]
    ensures FramingSigned(Plain(), map[NS := [Record(0, X)]], Wanted(), digest)
  {
    hide Lit, Representable, Canonical, HeldResponse, HeldDocument, Issuer, VerifyValueDigests, NullBytes, CborWire.Valid,
      CborWire.Encode, Denotes, MinimalElements, ListingsPrune, ListingsWritable, NamesInEntries, QualifiedAll, Staged, HeldOf,
      CaptureOf, FramingSigned, FoldListings, ToWire, Plain, Wanted, TheClaim, Mso, GetText, TheItem, Span, Fine;
    PlainCapture(c);
    PlainPresentable(c);
    PlainAccepted(Span(0, X), digest(Span(0, X)), digest);
    WrittenCeremony(c, [Plain()], ns, map[NS := [Record(0, X)]], Wanted(), PlainMso(digest), digest, TheClaim());
  }

  /**
    With device namespaces the finished presentation is accepted with the claim; without them the holder
    prepares and finishes it all the same, and the verifier refuses it as malformed.
  */
  lemma RefusedWithoutNameSpaces(c: Codec, ns: bool, digest: Digest)
    requires Lawful(c)
    ensures Representable(HeldResponse([Plain()], ns))
    ensures Outcome(c, PlainMso(digest), digest, Canonical(HeldResponse([Plain()], ns)), Wanted())
         == Some(if ns then Ok(OneDocument(Lit("t"), TheClaim(), [], 0)) else Err(MalformedCredential))
  {
    hide Lit, Representable, Canonical, NullBytes, HeldResponse, HeldDocument, Wanted, CborWire.Valid, CborWire.Encode, Denotes,
      MinimalElements, TheItem, Span, ToWire, TheClaim, Restrict, GetMapEntry, DeviceNameSpaces, Mso, Staged, HeldOf, CaptureOf,
      Plain, Outcome, CountsAgree, FramingSigned, ListedEntries, ListedNames, Separated, Fine, Documents;
    PlainCeremony(c, ns, digest);
    PlainCounts(Span(0, X), c);
    HeldDocuments([Plain()], ns);
    HeldLookups([Plain()], ns);
    ClaimIs();
    OutcomeVerifies(c, PlainMso(digest), digest, ToWire(HeldResponse([Plain()], ns)), Wanted(), TheClaim());
  }
}
