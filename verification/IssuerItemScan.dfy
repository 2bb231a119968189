/**
  Capturing the on-wire span of every `IssuerSignedItem` of a `DeviceResponse`.

  The scan is given three times: over bytes (`ScanResponse`), over trees (`CollectResponse`) and as
  the cursor methods.  The methods compute the byte form; the theorems say that on the encoding of
  a tree the byte form captures what the tree form says, and stops where skipping would.
*/
module IssuerItemScan {
  import opened Prelude
  import opened Utf8
  import opened CborWire
  import opened CborCursor
  import opened CborValue

  /** One captured element: its exact wire span and what its own content decodes to. */
  datatype RawIssuerItem = RawIssuerItem(rawBytes: Bytes, digestId: int, identifier: Text, item: Value)

  type RawDocumentItems = map<Text, seq<RawIssuerItem>>

  /** An accumulator and the offset reached. */
  datatype Next<+A> = Next(acc: A, pos: nat)

  function DecodeRawIssuerItem(raw: Bytes, inner: Bytes, decode: Decoder): Option<RawIssuerItem> {
    match decode(inner)
    case None => None
    case Some(item) =>
      match (GetInteger(item, Lit("digestID")), GetText(item, Lit("elementIdentifier")),
             GetMapEntry(item, Lit("elementValue")))
      case (Some(id), Some(name), Some(_)) => Some(RawIssuerItem(raw, id, name, item))
      case _ => None
  }

  /** Append a record unless the element decoded to none. */
  function Push(records: seq<RawIssuerItem>, r: Option<RawIssuerItem>): seq<RawIssuerItem> {
    if r.Some? then records + [r.value] else records
  }

  function Captured(items: RawDocumentItems, ns: Text): seq<RawIssuerItem> {
    if ns in items then items[ns] else []
  }

  // ---------------------------------------------------------------------------------------------
  // Over bytes
  // ---------------------------------------------------------------------------------------------

  /** Walk `n` map entries: `f` gets each text key and the offset of its value; other entries are skipped. */
  function ForEachEntry<A>(s: Bytes, p: nat, n: nat, acc: A, f: (Text, nat, A) -> Option<Next<A>>): Option<Next<A>>
    decreases n
  {
    if n == 0 then Some(Next(acc, p))
    else
      match OneEntry(s, p, acc, f)
      case None => None
      case Some(Next(a, q)) => ForEachEntry(s, q, n - 1, a, f)
  }

  function OneEntry<A>(s: Bytes, p: nat, acc: A, f: (Text, nat, A) -> Option<Next<A>>): Option<Next<A>> {
    match TextFrom(s, p)
    case Some(TextAt(key, q)) => f(key, q, acc)
    case None =>
      match ItemEnd(s, p)
      case None => None
      case Some(q) => SkipTo(s, q, acc)
  }

  function SkipTo<A>(s: Bytes, p: nat, acc: A): Option<Next<A>> {
    match ItemEnd(s, p)
    case None => None
    case Some(q) => Some(Next(acc, q))
  }

  function MapWalk<A>(s: Bytes, p: nat, acc: A, f: (Text, nat, A) -> Option<Next<A>>): Option<Next<A>> {
    match LengthFrom(s, p, 5)
    case None => None
    case Some(HeadAt(h, q)) => ForEachEntry(s, q, h.arg, acc, f)
  }

  function ScanElements(s: Bytes, p: nat, n: nat, acc: seq<RawIssuerItem>, decode: Decoder): Option<Next<seq<RawIssuerItem>>>
    decreases n
  {
    if n == 0 then Some(Next(acc, p))
    else
      match TaggedFrom(s, p)
      case None => None
      case Some(TaggedAt(raw, inner, q)) =>
        ScanElements(s, q, n - 1, Push(acc, DecodeRawIssuerItem(raw, inner, decode)), decode)
  }

  function NameSpaceAt(s: Bytes, decode: Decoder, ns: Text, p: nat, acc: RawDocumentItems): Option<Next<RawDocumentItems>> {
    match LengthFrom(s, p, 4)
    case None => None
    case Some(HeadAt(h, q)) =>
      match ScanElements(s, q, h.arg, Captured(acc, ns), decode)
      case None => None
      case Some(Next(records, e)) => Some(Next(acc[ns := records], e))
  }

  function OnNameSpace(s: Bytes, decode: Decoder): (Text, nat, RawDocumentItems) -> Option<Next<RawDocumentItems>> {
    (ns, p, acc) => NameSpaceAt(s, decode, ns, p, acc)
  }

  function OnIssuerSigned(s: Bytes, decode: Decoder): (Text, nat, RawDocumentItems) -> Option<Next<RawDocumentItems>> {
    (key, p, acc) =>
      if key == Lit("nameSpaces") then MapWalk(s, p, acc, OnNameSpace(s, decode)) else SkipTo(s, p, acc)
  }

  function OnDocument(s: Bytes, decode: Decoder): (Text, nat, RawDocumentItems) -> Option<Next<RawDocumentItems>> {
    (key, p, acc) =>
      if key == Lit("issuerSigned") then MapWalk(s, p, acc, OnIssuerSigned(s, decode)) else SkipTo(s, p, acc)
  }

  function ScanDocument(s: Bytes, p: nat, decode: Decoder): Option<Next<RawDocumentItems>> {
    MapWalk(s, p, map[], OnDocument(s, decode))
  }

  function ScanDocuments(s: Bytes, p: nat, n: nat, acc: seq<RawDocumentItems>, decode: Decoder): Option<Next<seq<RawDocumentItems>>>
    decreases n
  {
    if n == 0 then Some(Next(acc, p))
    else
      match ScanDocument(s, p, decode)
      case None => None
      case Some(Next(doc, q)) => ScanDocuments(s, q, n - 1, acc + [doc], decode)
  }

  function OnResponse(s: Bytes, decode: Decoder): (Text, nat, seq<RawDocumentItems>) -> Option<Next<seq<RawDocumentItems>>> {
    (key, p, acc) =>
      if key == Lit("documents") then
        match LengthFrom(s, p, 4)
        case None => None
        case Some(HeadAt(h, q)) => ScanDocuments(s, q, h.arg, acc, decode)
      else SkipTo(s, p, acc)
  }

  function ScanResponse(s: Bytes, decode: Decoder): Option<Next<seq<RawDocumentItems>>> {
    MapWalk(s, 0, [], OnResponse(s, decode))
  }

  // ---------------------------------------------------------------------------------------------
  // Over trees
  // ---------------------------------------------------------------------------------------------

  /** The key a map entry is found under: a text string that is valid UTF-8. */
  function KeyText(t: Item): Option<Text> {
    if t.Str? && t.major == 3 && IsUtf8(t.content) then Some(t.content) else None
  }

  function FoldEntries<A>(flat: seq<Item>, acc: A, g: (Text, Item, A) -> Option<A>): Option<A>
    requires |flat| % 2 == 0
  {
    if flat == [] then Some(acc)
    else
      match KeyText(flat[0])
      case None => FoldEntries(flat[2..], acc, g)
      case Some(key) =>
        match g(key, flat[1], acc)
        case None => None
        case Some(a) => FoldEntries(flat[2..], a, g)
  }

  function FoldMap<A>(t: Item, acc: A, g: (Text, Item, A) -> Option<A>): Option<A> {
    if t.Map? && |t.flat| % 2 == 0 then FoldEntries(t.flat, acc, g) else None
  }

  /** `#6.24(bstr)`, framed with any head widths. */
  predicate IsElement(t: Item) {
    t.Tag? && t.number == 24 && t.item.Str? && t.item.major == 2
  }

  function CollectElements(items: seq<Item>, acc: seq<RawIssuerItem>, decode: Decoder): Option<seq<RawIssuerItem>>
    requires AllValid(items)
  {
    if items == [] then Some(acc)
    else if !IsElement(items[0]) then None
    else
      var r := DecodeRawIssuerItem(Encode(items[0]), items[0].item.content, decode);
      CollectElements(items[1..], Push(acc, r), decode)
  }

  function TreeNameSpace(decode: Decoder): (Text, Item, RawDocumentItems) -> Option<RawDocumentItems> {
    (ns, t: Item, acc) =>
      if t.Arr? && AllValid(t.items) then
        match CollectElements(t.items, Captured(acc, ns), decode)
        case None => None
        case Some(records) => Some(acc[ns := records])
      else None
  }

  function TreeIssuerSigned(decode: Decoder): (Text, Item, RawDocumentItems) -> Option<RawDocumentItems> {
    (key, t, acc) => if key == Lit("nameSpaces") then FoldMap(t, acc, TreeNameSpace(decode)) else Some(acc)
  }

  function TreeDocument(decode: Decoder): (Text, Item, RawDocumentItems) -> Option<RawDocumentItems> {
    (key, t, acc) => if key == Lit("issuerSigned") then FoldMap(t, acc, TreeIssuerSigned(decode)) else Some(acc)
  }

  function CollectDocument(t: Item, decode: Decoder): Option<RawDocumentItems> {
    FoldMap(t, map[], TreeDocument(decode))
  }

  function CollectDocuments(items: seq<Item>, acc: seq<RawDocumentItems>, decode: Decoder): Option<seq<RawDocumentItems>> {
    if items == [] then Some(acc)
    else
      match CollectDocument(items[0], decode)
      case None => None
      case Some(doc) => CollectDocuments(items[1..], acc + [doc], decode)
  }

  function TreeResponse(decode: Decoder): (Text, Item, seq<RawDocumentItems>) -> Option<seq<RawDocumentItems>> {
    (key, t: Item, acc) =>
      if key == Lit("documents") then
        if t.Arr? then CollectDocuments(t.items, acc, decode) else None
      else Some(acc)
  }

  function CollectResponse(t: Item, decode: Decoder): Option<seq<RawDocumentItems>> {
    FoldMap(t, [], TreeResponse(decode))
  }

  // ---------------------------------------------------------------------------------------------
  // The byte form on an encoded tree is the tree form, and it ends where the tree ends
  // ---------------------------------------------------------------------------------------------

  function Lift<A>(r: Option<A>, end: nat): Option<Next<A>> {
    if r.Some? then Some(Next(r.value, end)) else None
  }

  ghost predicate Agree<A(!new)>(s: Bytes, f: (Text, nat, A) -> Option<Next<A>>, g: (Text, Item, A) -> Option<A>) {
    forall key, t, p: nat, acc {:trigger f(key, p, acc), g(key, t, acc)} :: Valid(t) && At(s, p, Encode(t)) ==>
      f(key, p, acc) == Lift(g(key, t, acc), p + |Encode(t)|)
  }

  lemma TextOfKey(s: Bytes, p: nat, t: Item)
    requires Valid(t) && At(s, p, Encode(t))
    ensures TextFrom(s, p) == match KeyText(t) { case Some(k) => Some(TextAt(k, p + |Encode(t)|)) case None => None }
  {
    hide ItemEnd, ItemsEnd, ReadHead;
    NodeAt(s, p, t);
  }

  lemma EntryStep<A>(s: Bytes, p: nat, n: nat, acc: A, f: (Text, nat, A) -> Option<Next<A>>)
    ensures ForEachEntry(s, p, n, acc, f)
         == if n == 0 then Some(Next(acc, p))
            else match OneEntry(s, p, acc, f)
                 case None => None
                 case Some(Next(a, q)) => ForEachEntry(s, q, n - 1, a, f)
  {
  }

  lemma {:induction false} WalkIsFold<A(!new)>(s: Bytes, p: nat, flat: seq<Item>, acc: A,
                                         f: (Text, nat, A) -> Option<Next<A>>, g: (Text, Item, A) -> Option<A>)
    requires |flat| % 2 == 0 && AllValid(flat) && At(s, p, EncodeAll(flat))
    requires Agree(s, f, g)
    ensures ForEachEntry(s, p, |flat| / 2, acc, f) == Lift(FoldEntries(flat, acc, g), p + |EncodeAll(flat)|)
    decreases |flat|
  {
    hide ItemEnd, ItemsEnd, ReadHead, At, Encode, EncodeAll, Valid, AllValid, TextFrom, KeyText, ForEachEntry;
    EntryStep(s, p, |flat| / 2, acc, f);
    if flat == [] {
      EncodeNone();
    } else {
      var k, v, rest := flat[0], flat[1], flat[2..];
      FirstAt(s, p, flat);
      var q := p + |Encode(k)|;
      FirstAt(s, q, flat[1..]);
      assert flat[1..][0] == v && flat[1..][1..] == rest;
      var e := q + |Encode(v)|;
      TextOfKey(s, p, k);
      match KeyText(k) {
        case Some(key) =>
          assert f(key, q, acc) == Lift(g(key, v, acc), e);
          if g(key, v, acc).Some? {
            WalkIsFold(s, e, rest, g(key, v, acc).value, f, g);
          }
        case None =>
          ItemComplete(s, p, k);
          ItemComplete(s, q, v);
          WalkIsFold(s, e, rest, acc, f, g);
      }
    }
  }

  lemma MapWalkIsFold<A(!new)>(s: Bytes, p: nat, t: Item, acc: A,
                               f: (Text, nat, A) -> Option<Next<A>>, g: (Text, Item, A) -> Option<A>)
    requires Valid(t) && At(s, p, Encode(t)) && Agree(s, f, g)
    ensures MapWalk(s, p, acc, f) == Lift(FoldMap(t, acc, g), p + |Encode(t)|)
  {
    hide ItemEnd, ItemsEnd, ForEachEntry, FoldEntries;
    NodeAt(s, p, t);
    if t.Map? {
      WalkIsFold(s, p + 1 + Extra(t.width), t.flat, acc, f, g);
    }
  }

  lemma {:induction false} ElementsAreCollected(s: Bytes, p: nat, items: seq<Item>, acc: seq<RawIssuerItem>, decode: Decoder)
    requires AllValid(items) && At(s, p, EncodeAll(items))
    ensures ScanElements(s, p, |items|, acc, decode) == Lift(CollectElements(items, acc, decode), p + |EncodeAll(items)|)
    decreases |items|
  {
    hide ItemEnd, ItemsEnd, DecodeRawIssuerItem, ReadHead, At, Encode, Valid, TaggedFrom;
    if items != [] {
      var t := items[0];
      FirstAt(s, p, items);
      ElementAt(s, p, t);
      if IsElement(t) {
        var r := DecodeRawIssuerItem(Encode(t), t.item.content, decode);
        ElementsAreCollected(s, p + |Encode(t)|, items[1..], Push(acc, r), decode);
      }
    }
  }

  /** The parts of a tree that a tagged byte string is read by. */
  lemma PartsOf(t: Item)
    requires Valid(t)
    ensures |Encode(t)| == 1 + Extra(t.width) + |Body(t)|
    ensures Major(t) == 6 <==> t.Tag?
    ensures t.Tag? ==> Valid(t.item) && Body(t) == Encode(t.item) && Arg(t) == t.number
    ensures Major(t) == 2 <==> t.Str? && t.major == 2
    ensures t.Str? ==> Body(t) == t.content && Arg(t) == |t.content|
  {
  }

  /** The captured span of an element is its whole encoding, whatever its head widths. */
  lemma ElementAt(s: Bytes, p: nat, t: Item)
    requires Valid(t) && At(s, p, Encode(t))
    ensures TaggedFrom(s, p) == if IsElement(t) then Some(TaggedAt(Encode(t), t.item.content, p + |Encode(t)|)) else None
  {
    hide ItemEnd, ItemsEnd, ReadHead, Encode, Valid, Body, Major, Arg, Extra;
    NodeAt(s, p, t);
    PartsOf(t);
    if t.Tag? {
      NodeAt(s, p + 1 + Extra(t.width), t.item);
      PartsOf(t.item);
    }
  }

  lemma ChildrenOf(t: Item)
    requires Valid(t)
    ensures t.Arr? ==> AllValid(t.items) && Body(t) == EncodeAll(t.items) && Arg(t) == |t.items| && Major(t) == 4
    ensures !t.Arr? ==> Major(t) != 4
  {
  }

  lemma NameSpaceAgrees(s: Bytes, p: nat, t: Item, decode: Decoder, ns: Text, acc: RawDocumentItems)
    requires Valid(t) && At(s, p, Encode(t))
    ensures NameSpaceAt(s, decode, ns, p, acc) == Lift(TreeNameSpace(decode)(ns, t, acc), p + |Encode(t)|)
  {
    hide ItemEnd, ItemsEnd, ReadHead, ScanElements, CollectElements, At, Encode, Valid, Fits, Extra;
    NodeAt(s, p, t);
    ChildrenOf(t);
    if t.Arr? {
      ElementsAreCollected(s, p + 1 + Extra(t.width), t.items, Captured(acc, ns), decode);
    }
  }

  lemma NameSpacesAgree(s: Bytes, decode: Decoder)
    ensures Agree(s, OnNameSpace(s, decode), TreeNameSpace(decode))
  {
    hide At, Encode, Valid, NameSpaceAt, TreeNameSpace, Lift;
    var f, g := OnNameSpace(s, decode), TreeNameSpace(decode);
    forall ns, t: Item, p: nat, acc: RawDocumentItems | Valid(t) && At(s, p, Encode(t))
      ensures f(ns, p, acc) == Lift(g(ns, t, acc), p + |Encode(t)|)
    {
      NameSpaceAgrees(s, p, t, decode, ns, acc);
    }
  }

  lemma SkipAgrees<A>(s: Bytes, p: nat, t: Item, acc: A)
    requires Valid(t) && At(s, p, Encode(t))
    ensures SkipTo(s, p, acc) == Some(Next(acc, p + |Encode(t)|))
  {
    ItemComplete(s, p, t);
  }

  lemma IssuerSignedEntryAgrees(s: Bytes, p: nat, t: Item, decode: Decoder, key: Text, acc: RawDocumentItems)
    requires Valid(t) && At(s, p, Encode(t))
    ensures OnIssuerSigned(s, decode)(key, p, acc) == Lift(TreeIssuerSigned(decode)(key, t, acc), p + |Encode(t)|)
  {
    hide MapWalk, FoldMap, SkipTo, At, Encode, Valid, Agree;
    SkipAgrees(s, p, t, acc);
    NameSpacesAgree(s, decode);
    MapWalkIsFold(s, p, t, acc, OnNameSpace(s, decode), TreeNameSpace(decode));
  }

  lemma IssuerSignedAgrees(s: Bytes, decode: Decoder)
    ensures Agree(s, OnIssuerSigned(s, decode), TreeIssuerSigned(decode))
  {
    hide At, Encode, Valid, OnIssuerSigned, TreeIssuerSigned, Lift;
    var f, g := OnIssuerSigned(s, decode), TreeIssuerSigned(decode);
    forall key, t: Item, p: nat, acc: RawDocumentItems | Valid(t) && At(s, p, Encode(t))
      ensures f(key, p, acc) == Lift(g(key, t, acc), p + |Encode(t)|)
    {
      IssuerSignedEntryAgrees(s, p, t, decode, key, acc);
    }
  }

  lemma DocumentEntryAgrees(s: Bytes, p: nat, t: Item, decode: Decoder, key: Text, acc: RawDocumentItems)
    requires Valid(t) && At(s, p, Encode(t))
    ensures OnDocument(s, decode)(key, p, acc) == Lift(TreeDocument(decode)(key, t, acc), p + |Encode(t)|)
  {
    hide MapWalk, FoldMap, SkipTo, At, Encode, Valid, Agree;
    SkipAgrees(s, p, t, acc);
    IssuerSignedAgrees(s, decode);
    MapWalkIsFold(s, p, t, acc, OnIssuerSigned(s, decode), TreeIssuerSigned(decode));
  }

  lemma DocumentAgrees(s: Bytes, decode: Decoder)
    ensures Agree(s, OnDocument(s, decode), TreeDocument(decode))
  {
    hide At, Encode, Valid, OnDocument, TreeDocument, Lift;
    var f, g := OnDocument(s, decode), TreeDocument(decode);
    forall key, t: Item, p: nat, acc: RawDocumentItems | Valid(t) && At(s, p, Encode(t))
      ensures f(key, p, acc) == Lift(g(key, t, acc), p + |Encode(t)|)
    {
      DocumentEntryAgrees(s, p, t, decode, key, acc);
    }
  }

  /** One document: the capture and the end position, or failure exactly when the shape is wrong. */
  lemma DocumentScanExact(s: Bytes, p: nat, t: Item, decode: Decoder)
    requires Valid(t) && At(s, p, Encode(t))
    ensures ScanDocument(s, p, decode) == Lift(CollectDocument(t, decode), p + |Encode(t)|)
  {
    hide MapWalk, FoldMap, Agree, Encode, Valid, At, OnDocument, TreeDocument;
    DocumentAgrees(s, decode);
    MapWalkIsFold(s, p, t, map[], OnDocument(s, decode), TreeDocument(decode));
  }

  lemma {:induction false} DocumentsAreCollected(s: Bytes, p: nat, items: seq<Item>, acc: seq<RawDocumentItems>, decode: Decoder)
    requires AllValid(items) && At(s, p, EncodeAll(items))
    ensures ScanDocuments(s, p, |items|, acc, decode) == Lift(CollectDocuments(items, acc, decode), p + |EncodeAll(items)|)
    decreases |items|
  {
    hide ScanDocument, CollectDocument, Encode, At, Valid, EncodeAll;
    if items == [] {
      EncodeNone();
    } else {
      var t := items[0];
      FirstAt(s, p, items);
      DocumentScanExact(s, p, t, decode);
      if CollectDocument(t, decode).Some? {
        DocumentsAreCollected(s, p + |Encode(t)|, items[1..], acc + [CollectDocument(t, decode).value], decode);
      }
    }
  }

  lemma ResponseEntryAgrees(s: Bytes, p: nat, t: Item, decode: Decoder, key: Text, acc: seq<RawDocumentItems>)
    requires Valid(t) && At(s, p, Encode(t))
    ensures OnResponse(s, decode)(key, p, acc) == Lift(TreeResponse(decode)(key, t, acc), p + |Encode(t)|)
  {
    hide ScanDocuments, CollectDocuments, SkipTo, ReadHead, At, Encode, Valid, ItemEnd, ItemsEnd, Fits, Extra;
    SkipAgrees(s, p, t, acc);
    NodeAt(s, p, t);
    ChildrenOf(t);
    if t.Arr? {
      DocumentsAreCollected(s, p + 1 + Extra(t.width), t.items, acc, decode);
    }
  }

  lemma ResponseAgrees(s: Bytes, decode: Decoder)
    ensures Agree(s, OnResponse(s, decode), TreeResponse(decode))
  {
    hide At, Encode, Valid, OnResponse, TreeResponse, Lift;
    var f, g := OnResponse(s, decode), TreeResponse(decode);
    forall key, t: Item, p: nat, acc: seq<RawDocumentItems> | Valid(t) && At(s, p, Encode(t))
      ensures f(key, p, acc) == Lift(g(key, t, acc), p + |Encode(t)|)
    {
      ResponseEntryAgrees(s, p, t, decode, key, acc);
    }
  }

  /** Scanning inverts encoding, for every tree, with any head widths and any keys. */
  lemma ScanInvertsEncoding(t: Item, decode: Decoder)
    requires Valid(t)
    ensures ScanResponse(Encode(t), decode) == Lift(CollectResponse(t, decode), |Encode(t)|)
  {
    hide MapWalk, FoldMap, Agree, Encode, Valid, OnResponse, TreeResponse;
    var s := Encode(t);
    Whole(s);
    ResponseAgrees(s, decode);
    MapWalkIsFold(s, 0, t, [], OnResponse(s, decode), TreeResponse(decode));
  }

  function ElementRecord(t: Item, decode: Decoder): Option<RawIssuerItem>
    requires Valid(t)
  {
    if IsElement(t) then DecodeRawIssuerItem(Encode(t), t.item.content, decode) else None
  }

  predicate AllDecode(items: seq<Item>, decode: Decoder) {
    forall i :: 0 <= i < |items| ==> Valid(items[i]) && ElementRecord(items[i], decode).Some?
  }

  /** The records of a list of elements, in wire order. */
  function RecordsOf(items: seq<Item>, decode: Decoder): seq<RawIssuerItem>
    requires AllDecode(items, decode)
  {
    seq(|items|, i requires 0 <= i < |items| => ElementRecord(items[i], decode).value)
  }

  /** When every element decodes, record `i` is element `i`'s own, holding its whole slice. */
  lemma {:induction false} OneRecordPerElement(items: seq<Item>, acc: seq<RawIssuerItem>, decode: Decoder)
    requires AllValid(items)
    requires AllDecode(items, decode)
    ensures CollectElements(items, acc, decode) == Some(acc + RecordsOf(items, decode))
    decreases |items|
  {
    hide Encode, Valid, DecodeRawIssuerItem;
    if items != [] {
      var t, rest := items[0], items[1..];
      var first := ElementRecord(t, decode).value;
      OneRecordPerElement(rest, acc + [first], decode);
      assert CollectElements(items, acc, decode) == CollectElements(rest, acc + [first], decode);
      assert RecordsOf(items, decode) == [first] + RecordsOf(rest, decode);
      assert acc + RecordsOf(items, decode) == acc + [first] + RecordsOf(rest, decode);
    } else {
      assert acc + RecordsOf(items, decode) == acc;
    }
  }

  // ---------------------------------------------------------------------------------------------
  // The scan as the cursor runs it
  // ---------------------------------------------------------------------------------------------

  /** A walk that ended as `r` says. */
  ghost predicate Reached<A>(ok: bool, acc: A, pos: nat, r: Option<Next<A>>) {
    if r.Some? then ok && acc == r.value.acc && pos == r.value.pos else !ok
  }

  /** `r` is the record of one element of `s`: that element's whole span, and what its own content decodes to. */
  ghost predicate Genuine(s: Bytes, r: RawIssuerItem, decode: Decoder) {
    exists p: nat {:trigger TaggedFrom(s, p)} ::
      TaggedFrom(s, p).Some? && DecodeRawIssuerItem(TaggedFrom(s, p).value.raw, TaggedFrom(s, p).value.inner, decode) == Some(r)
  }

  ghost predicate AllGenuine(s: Bytes, rs: seq<RawIssuerItem>, decode: Decoder) {
    forall r :: r in rs ==> Genuine(s, r, decode)
  }

  ghost predicate ItemsGenuine(s: Bytes, items: RawDocumentItems, decode: Decoder) {
    forall ns :: ns in items ==> AllGenuine(s, items[ns], decode)
  }

  ghost predicate CaptureGenuine(s: Bytes, perDocument: seq<RawDocumentItems>, decode: Decoder) {
    forall d :: d in perDocument ==> ItemsGenuine(s, d, decode)
  }

  /** A pushed record is the one of the element just read. */
  lemma PushGenuine(s: Bytes, p: nat, rs: seq<RawIssuerItem>, decode: Decoder)
    requires AllGenuine(s, rs, decode) && TaggedFrom(s, p).Some?
    ensures AllGenuine(s, Push(rs, DecodeRawIssuerItem(TaggedFrom(s, p).value.raw, TaggedFrom(s, p).value.inner, decode)), decode)
  {
    hide DecodeRawIssuerItem, TaggedFrom;
    var r := DecodeRawIssuerItem(TaggedFrom(s, p).value.raw, TaggedFrom(s, p).value.inner, decode);
    if r.Some? {
      assert Genuine(s, r.value, decode);
    }
  }

  lemma CapturedGenuine(s: Bytes, items: RawDocumentItems, ns: Text, decode: Decoder)
    requires ItemsGenuine(s, items, decode)
    ensures AllGenuine(s, Captured(items, ns), decode)
  {
  }

  lemma UpdateGenuine(s: Bytes, items: RawDocumentItems, ns: Text, rs: seq<RawIssuerItem>, decode: Decoder)
    requires ItemsGenuine(s, items, decode) && AllGenuine(s, rs, decode)
    ensures ItemsGenuine(s, items[ns := rs], decode)
  {
    hide AllGenuine;
  }

  lemma AppendGenuine(s: Bytes, perDocument: seq<RawDocumentItems>, items: RawDocumentItems, decode: Decoder)
    requires CaptureGenuine(s, perDocument, decode) && ItemsGenuine(s, items, decode)
    ensures CaptureGenuine(s, perDocument + [items], decode)
  {
    hide ItemsGenuine;
  }

  lemma NothingGenuine(s: Bytes, decode: Decoder)
    ensures ItemsGenuine(s, map[], decode) && CaptureGenuine(s, [], decode)
  {
  }

  lemma ElementStep(s: Bytes, p: nat, n: nat, acc: seq<RawIssuerItem>, decode: Decoder)
    ensures ScanElements(s, p, n, acc, decode)
         == if n == 0 then Some(Next(acc, p))
            else match TaggedFrom(s, p)
                 case None => None
                 case Some(TaggedAt(raw, inner, q)) =>
                   ScanElements(s, q, n - 1, Push(acc, DecodeRawIssuerItem(raw, inner, decode)), decode)
  {
  }

  /** Read a text key, or step over an entry whose key is not text. */
  method TakeKey(c: Cursor) returns (ok: bool, key: Option<Text>)
    requires c.Valid()
    modifies c`pos
    ensures c.Valid()
    ensures match TextFrom(c.input, old(c.pos))
            case Some(TextAt(t, q)) => ok && key == Some(t) && c.pos == q
            case None =>
              key == None && (match ItemEnd(c.input, old(c.pos))
                              case None => !ok
                              case Some(q) => Reached(ok, (), c.pos, SkipTo(c.input, q, ())))
  {
    var keyStart := c.pos;
    key := c.TakeText();
    ok := key.Some?;
    if !ok {
      c.pos := keyStart;
      ok := c.SkipItem();
      if ok { ok := c.SkipItem(); }
    }
  }

  /** One `nameSpaces` entry: each element's span and content come from one structural pass. */
  method ScanNameSpace(c: Cursor, ns: Text, items0: RawDocumentItems, decode: Decoder) returns (ok: bool, items: RawDocumentItems)
    requires c.Valid()
    modifies c`pos
    ensures c.Valid()
    ensures Reached(ok, items, c.pos, NameSpaceAt(c.input, decode, ns, old(c.pos), items0))
    ensures ItemsGenuine(c.input, items0, decode) ==> ItemsGenuine(c.input, items, decode)
  {
    hide ScanElements, ReadHead, TaggedFrom, DecodeRawIssuerItem, AllGenuine, ItemsGenuine;
    ok, items := false, items0;
    var records := Captured(items0, ns);
    ghost var sound := ItemsGenuine(c.input, items0, decode);
    if sound { CapturedGenuine(c.input, items0, ns, decode); }
    var len := c.ReadLen(4);
    if len.None? { return; }
    ghost var start := c.pos;
    for i := 0 to len.value
      invariant c.Valid()
      invariant ScanElements(c.input, c.pos, len.value - i, records, decode)
             == ScanElements(c.input, start, len.value, Captured(items0, ns), decode)
      invariant sound ==> AllGenuine(c.input, records, decode)
    {
      ElementStep(c.input, c.pos, len.value - i, records, decode);
      ghost var p := c.pos;
      var raw, inner, found := c.TakeTaggedBstrItem();
      if !found { return; }
      if sound { PushGenuine(c.input, p, records, decode); }
      records := Push(records, DecodeRawIssuerItem(raw, inner, decode));
    }
    ElementStep(c.input, c.pos, 0, records, decode);
    if sound { UpdateGenuine(c.input, items0, ns, records, decode); }
    ok, items := true, items0[ns := records];
  }

  method ScanNameSpaces(c: Cursor, items0: RawDocumentItems, decode: Decoder) returns (ok: bool, items: RawDocumentItems)
    requires c.Valid()
    modifies c`pos
    ensures c.Valid()
    ensures Reached(ok, items, c.pos, MapWalk(c.input, old(c.pos), items0, OnNameSpace(c.input, decode)))
    ensures ItemsGenuine(c.input, items0, decode) ==> ItemsGenuine(c.input, items, decode)
  {
    hide ForEachEntry, ItemEnd, ItemsEnd, ReadHead, TextFrom, ItemsGenuine;
    ok, items := false, items0;
    var len := c.ReadLen(5);
    if len.None? { return; }
    ghost var start, f := c.pos, OnNameSpace(c.input, decode);
    for i := 0 to len.value
      invariant c.Valid()
      invariant ForEachEntry(c.input, c.pos, len.value - i, items, f) == ForEachEntry(c.input, start, len.value, items0, f)
      invariant ItemsGenuine(c.input, items0, decode) ==> ItemsGenuine(c.input, items, decode)
    {
      EntryStep(c.input, c.pos, len.value - i, items, f);
      var done, key := TakeKey(c);
      if key.Some? {
        done, items := ScanNameSpace(c, key.value, items, decode);
      }
      if !done { return; }
    }
    EntryStep(c.input, c.pos, 0, items, f);
    ok := true;
  }

  method ScanIssuerSigned(c: Cursor, items0: RawDocumentItems, decode: Decoder) returns (ok: bool, items: RawDocumentItems)
    requires c.Valid()
    modifies c`pos
    ensures c.Valid()
    ensures Reached(ok, items, c.pos, MapWalk(c.input, old(c.pos), items0, OnIssuerSigned(c.input, decode)))
    ensures ItemsGenuine(c.input, items0, decode) ==> ItemsGenuine(c.input, items, decode)
  {
    hide ForEachEntry, ItemEnd, ItemsEnd, ReadHead, TextFrom, ItemsGenuine;
    ok, items := false, items0;
    var len := c.ReadLen(5);
    if len.None? { return; }
    ghost var start, f := c.pos, OnIssuerSigned(c.input, decode);
    for i := 0 to len.value
      invariant c.Valid()
      invariant ForEachEntry(c.input, c.pos, len.value - i, items, f) == ForEachEntry(c.input, start, len.value, items0, f)
      invariant ItemsGenuine(c.input, items0, decode) ==> ItemsGenuine(c.input, items, decode)
    {
      EntryStep(c.input, c.pos, len.value - i, items, f);
      var done, key := TakeKey(c);
      if key.Some? {
        if key.value == Lit("nameSpaces") {
          done, items := ScanNameSpaces(c, items, decode);
        } else {
          done := c.SkipItem();
        }
      }
      if !done { return; }
    }
    EntryStep(c.input, c.pos, 0, items, f);
    ok := true;
  }

  method ScanDocumentIssuerItems(c: Cursor, decode: Decoder) returns (ok: bool, items: RawDocumentItems)
    requires c.Valid()
    modifies c`pos
    ensures c.Valid()
    ensures Reached(ok, items, c.pos, ScanDocument(c.input, old(c.pos), decode))
    ensures ItemsGenuine(c.input, items, decode)
  {
    hide ForEachEntry, ItemEnd, ItemsEnd, ReadHead, TextFrom, ItemsGenuine;
    ok, items := false, map[];
    NothingGenuine(c.input, decode);
    var len := c.ReadLen(5);
    if len.None? { return; }
    ghost var start, f := c.pos, OnDocument(c.input, decode);
    for i := 0 to len.value
      invariant c.Valid()
      invariant ForEachEntry(c.input, c.pos, len.value - i, items, f) == ForEachEntry(c.input, start, len.value, map[], f)
      invariant ItemsGenuine(c.input, items, decode)
    {
      EntryStep(c.input, c.pos, len.value - i, items, f);
      var done, key := TakeKey(c);
      if key.Some? {
        if key.value == Lit("issuerSigned") {
          done, items := ScanIssuerSigned(c, items, decode);
        } else {
          done := c.SkipItem();
        }
      }
      if !done { return; }
    }
    EntryStep(c.input, c.pos, 0, items, f);
    ok := true;
  }

  lemma DocumentStep(s: Bytes, p: nat, n: nat, acc: seq<RawDocumentItems>, decode: Decoder)
    ensures ScanDocuments(s, p, n, acc, decode)
         == if n == 0 then Some(Next(acc, p))
            else match ScanDocument(s, p, decode)
                 case None => None
                 case Some(Next(doc, q)) => ScanDocuments(s, q, n - 1, acc + [doc], decode)
  {
    hide ScanDocument;
  }

  /** The `documents` array: a document that cannot be navigated contributes an empty capture. */
  method ScanDocumentArray(c: Cursor, perDocument0: seq<RawDocumentItems>, decode: Decoder)
    returns (ok: bool, perDocument: seq<RawDocumentItems>)
    requires c.Valid()
    modifies c`pos
    ensures c.Valid()
    ensures var r := OnResponse(c.input, decode)(Lit("documents"), old(c.pos), perDocument0);
            r.Some? ==> Reached(ok, perDocument, c.pos, r)
    ensures CaptureGenuine(c.input, perDocument0, decode) ==> CaptureGenuine(c.input, perDocument, decode)
  {
    hide ItemsGenuine, CaptureGenuine, ScanDocuments, ScanDocument, ReadHead, ItemEnd, ItemsEnd;
    ok, perDocument := false, perDocument0;
    NothingGenuine(c.input, decode);
    ghost var sound := CaptureGenuine(c.input, perDocument0, decode);
    var len := c.ReadLen(4);
    if len.None? { return; }
    ghost var start := c.pos;
    for i := 0 to len.value
      invariant c.Valid()
      invariant var r := ScanDocuments(c.input, start, len.value, perDocument0, decode);
                r.Some? ==> ScanDocuments(c.input, c.pos, len.value - i, perDocument, decode) == r
      invariant sound ==> CaptureGenuine(c.input, perDocument, decode)
    {
      DocumentStep(c.input, c.pos, len.value - i, perDocument, decode);
      var done, items := ScanDocumentIssuerItems(c, decode);
      if sound { AppendGenuine(c.input, perDocument, if done then items else map[], decode); }
      perDocument := perDocument + [if done then items else map[]];
    }
    DocumentStep(c.input, c.pos, 0, perDocument, decode);
    ok := true;
  }

  method ScanRawIssuerItems(deviceResponse: Bytes, decode: Decoder) returns (perDocument: seq<RawDocumentItems>)
    requires |deviceResponse| <= SLICE_MAX
    ensures var r := ScanResponse(deviceResponse, decode); r.Some? ==> perDocument == r.value.acc
    ensures CaptureGenuine(deviceResponse, perDocument, decode)
  {
    hide ForEachEntry, ItemEnd, ItemsEnd, ReadHead, TextFrom, CaptureGenuine;
    perDocument := [];
    NothingGenuine(deviceResponse, decode);
    var c := new Cursor(deviceResponse);
    var len := c.ReadLen(5);
    if len.None? { return; }
    ghost var start, f := c.pos, OnResponse(deviceResponse, decode);
    for i := 0 to len.value
      invariant c.Valid()
      invariant var r := ForEachEntry(deviceResponse, start, len.value, [], f);
                r.Some? ==> ForEachEntry(deviceResponse, c.pos, len.value - i, perDocument, f) == r
      invariant CaptureGenuine(deviceResponse, perDocument, decode)
    {
      EntryStep(c.input, c.pos, len.value - i, perDocument, f);
      var done, key := TakeKey(c);
      if key.Some? {
        if key.value == Lit("documents") {
          done, perDocument := ScanDocumentArray(c, perDocument, decode);
        } else {
          done := c.SkipItem();
        }
      }
      if !done { return; }
    }
    EntryStep(c.input, c.pos, 0, perDocument, f);
  }
}
