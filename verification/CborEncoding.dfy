/**
  Values and wire trees: which trees denote a value, and the minimal tree a value is written as.
  The capture of a response can then be read off its decoded value.
*/
module CborEncoding {
  import opened Prelude
  import opened Utf8
  import opened CborWire
  import opened CborCursor
  import opened CborValue
  import opened IssuerItemScan

  function MinWidth(n: nat): Width {
    if n < 24 then Direct
    else if n < 0x100 then One
    else if n < 0x1_0000 then Two
    else if n < 0x1_0000_0000 then Four
    else Eight
  }

  /** Tags 2 and 3 on a byte string: the decoder turns these into integers, so they are kept out. */
  predicate IsBignum(number: nat, inner: Value) {
    (number == 2 || number == 3) && inner.CborBytes?
  }

  /** The values the writer can represent: 64-bit arguments, UTF-8 text, floats of 2, 4 or 8 bytes. */
  predicate Representable(v: Value) {
    match v
    case CborInteger(n) => -0x1_0000_0000_0000_0000 <= n < U64_RANGE
    case CborBytes(b) => |b| < U64_RANGE
    case CborText(t) => |t| < U64_RANGE && IsUtf8(t)
    case CborBool(_) => true
    case CborNull => true
    case CborFloat(size, bits) => (size == 2 || size == 4 || size == 8) && bits < Pow256(size)
    case CborArray(items) => |items| < U64_RANGE && AllRepresentable(items)
    case CborMap(entries) => |entries| < U64_RANGE && PairsRepresentable(entries)
    case CborTag(number, inner) => number < U64_RANGE && !IsBignum(number, inner) && Representable(inner)
  }

  predicate AllRepresentable(items: seq<Value>) {
    items == [] || (Representable(items[0]) && AllRepresentable(items[1..]))
  }

  predicate PairsRepresentable(entries: seq<Pair>) {
    entries == [] || (PairRepresentable(entries[0]) && PairsRepresentable(entries[1..]))
  }

  predicate PairRepresentable(e: Pair) {
    Representable(e.key) && Representable(e.value)
  }

  /** The text of a short ASCII literal can be written. */
  lemma LitRepresentable(s: string)
    requires |s| < 0x1_0000 && forall c :: c in s ==> c as int < 128
    ensures Representable(CborText(Lit(s)))
  {
    forall i | 0 <= i < |s| ensures Lit(s)[i] < 0x80 {
      assert s[i] in s;
    }
    AsciiIsUtf8(Lit(s));
  }

  /** The tree a value is written as: every head in its shortest form. */
  function ToWire(v: Value): Item {
    match v
    case CborInteger(n) => if n >= 0 then Atom(0, MinWidth(n), n) else Atom(1, MinWidth(-1 - n), -1 - n)
    case CborBytes(b) => Str(2, MinWidth(|b|), b)
    case CborText(t) => Str(3, MinWidth(|t|), t)
    case CborBool(b) => Atom(7, Direct, if b then 21 else 20)
    case CborNull => Atom(7, Direct, 22)
    case CborFloat(size, bits) => Atom(7, if size == 2 then Two else if size == 4 then Four else Eight, bits)
    case CborArray(items) => Arr(MinWidth(|items|), ToWireAll(items))
    case CborMap(entries) => Map(MinWidth(|entries|), ToWirePairs(entries))
    case CborTag(number, inner) => Tag(MinWidth(number), number, ToWire(inner))
  }

  function ToWireAll(items: seq<Value>): (ts: seq<Item>)
    ensures |ts| == |items|
  {
    if items == [] then [] else [ToWire(items[0])] + ToWireAll(items[1..])
  }

  function ToWirePairs(entries: seq<Pair>): (flat: seq<Item>)
    ensures |flat| == 2 * |entries|
  {
    if entries == [] then [] else ToWirePair(entries[0]) + ToWirePairs(entries[1..])
  }

  function ToWirePair(e: Pair): (flat: seq<Item>)
    ensures |flat| == 2
  {
    [ToWire(e.key), ToWire(e.value)]
  }

  function Canonical(v: Value): Bytes
    requires Representable(v)
  {
    ToWireExact(v);
    Encode(ToWire(v))
  }

  /** `t` is a way of writing `v`; head widths do not matter, and "undefined" (simple value 23) reads as null. */
  predicate Denotes(t: Item, v: Value)
    decreases v
  {
    match v
    case CborInteger(n) => t.Atom? && (if n >= 0 then t.major == 0 && t.arg == n else t.major == 1 && t.arg == -1 - n)
    case CborBytes(b) => t.Str? && t.major == 2 && t.content == b
    case CborText(x) => t.Str? && t.major == 3 && t.content == x && IsUtf8(x)
    case CborBool(b) => t.Atom? && t.major == 7 && t.width == Direct && t.arg == (if b then 21 else 20)
    case CborNull => t.Atom? && t.major == 7 && t.width == Direct && (t.arg == 22 || t.arg == 23)
    case CborFloat(size, bits) => t.Atom? && t.major == 7 && Extra(t.width) == size >= 2 && t.arg == bits
    case CborArray(items) => t.Arr? && DenoteAll(t.items, items)
    case CborMap(entries) => t.Map? && DenotePairs(t.flat, entries)
    case CborTag(number, inner) => t.Tag? && t.number == number && !IsBignum(number, inner) && Denotes(t.item, inner)
  }

  predicate DenoteAll(ts: seq<Item>, items: seq<Value>)
    decreases items
  {
    if items == [] then ts == []
    else ts != [] && Denotes(ts[0], items[0]) && DenoteAll(ts[1..], items[1..])
  }

  predicate DenotePairs(flat: seq<Item>, entries: seq<Pair>)
    decreases entries
  {
    if entries == [] then flat == []
    else |flat| >= 2 && DenotePair(flat[0], flat[1], entries[0]) && DenotePairs(flat[2..], entries[1..])
  }

  predicate DenotePair(k: Item, v: Item, e: Pair)
    decreases e
  {
    Denotes(k, e.key) && Denotes(v, e.value)
  }

  /** Every `#6.24(bstr)` in the tree has shortest heads. */
  predicate MinimalElements(t: Item) {
    match t
    case Atom(_, _, _) => true
    case Str(_, _, _) => true
    case Arr(_, items) => AllMinimal(items)
    case Map(_, flat) => AllMinimal(flat)
    case Tag(w, number, item) =>
      (IsElement(t) ==> w == MinWidth(number) && item.width == MinWidth(|item.content|)) && MinimalElements(item)
  }

  predicate AllMinimal(ts: seq<Item>) {
    ts == [] || (MinimalElements(ts[0]) && AllMinimal(ts[1..]))
  }

  lemma FitsMin(n: nat)
    requires n < U64_RANGE
    ensures Fits(MinWidth(n), n)
  {
    assert Pow256(1) == 0x100 && Pow256(2) == 0x1_0000 && Pow256(4) == 0x1_0000_0000;
    assert Pow256(8) == 0x1_0000_0000 * Pow256(4) == U64_RANGE;
  }

  /** A representable value is written as a valid tree that denotes it, with shortest elements. */
  lemma {:induction false} ToWireExact(v: Value)
    requires Representable(v)
    ensures Valid(ToWire(v)) && Denotes(ToWire(v), v) && MinimalElements(ToWire(v))
    decreases v, 0
  {
    match v
    case CborInteger(n) => FitsMin(if n >= 0 then n else -1 - n);
    case CborBytes(b) => FitsMin(|b|);
    case CborText(t) => FitsMin(|t|);
    case CborBool(_) =>
    case CborNull =>
    case CborFloat(_, _) =>
    case CborArray(items) => FitsMin(|items|); ToWireAllExact(items);
    case CborMap(entries) => FitsMin(|entries|); ToWirePairsExact(entries);
    case CborTag(number, inner) => FitsMin(number); ToWireExact(inner);
  }

  lemma {:induction false} ToWireAllExact(items: seq<Value>)
    requires AllRepresentable(items)
    ensures AllValid(ToWireAll(items)) && DenoteAll(ToWireAll(items), items) && AllMinimal(ToWireAll(items))
    decreases items, 1
  {
    hide Valid, Denotes, MinimalElements, ToWire;
    if items != [] {
      ToWireExact(items[0]);
      ToWireAllExact(items[1..]);
      assert ToWireAll(items)[1..] == ToWireAll(items[1..]);
    }
  }

  lemma {:induction false} ToWirePairsExact(entries: seq<Pair>)
    requires PairsRepresentable(entries)
    ensures AllValid(ToWirePairs(entries)) && DenotePairs(ToWirePairs(entries), entries) && AllMinimal(ToWirePairs(entries))
    decreases entries, 1
  {
    hide Valid, Denotes, MinimalElements, ToWire;
    if entries != [] {
      var flat, rest := ToWirePairs(entries), ToWirePairs(entries[1..]);
      ToWirePairExact(entries[0]);
      ToWirePairsExact(entries[1..]);
      assert flat[1..][0] == flat[1] && flat[1..][1..] == flat[2..] == rest;
    }
  }

  lemma {:induction false} ToWirePairExact(e: Pair)
    requires PairRepresentable(e)
    ensures var ts := ToWirePair(e);
            Valid(ts[0]) && Valid(ts[1]) && MinimalElements(ts[0]) && MinimalElements(ts[1]) && DenotePair(ts[0], ts[1], e)
    decreases e, 1
  {
    ToWireExact(e.key);
    ToWireExact(e.value);
  }

  lemma {:induction false} RepresentableOfDenotes(t: Item, v: Value)
    requires Valid(t) && Denotes(t, v)
    ensures Representable(v)
    decreases v, 0
  {
    ArgBound(t);
    match v
    case CborInteger(_) =>
    case CborBytes(_) =>
    case CborText(_) =>
    case CborBool(_) =>
    case CborNull =>
    case CborFloat(_, _) =>
    case CborArray(items) => RepresentableOfAll(t.items, items);
    case CborMap(entries) => RepresentableOfPairs(t.flat, entries);
    case CborTag(_, inner) => RepresentableOfDenotes(t.item, inner);
  }

  lemma ArgBound(t: Item)
    requires Valid(t)
    ensures Arg(t) < U64_RANGE
  {
    assert Pow256(1) == 0x100 && Pow256(2) == 0x1_0000 && Pow256(4) == 0x1_0000_0000;
    assert Pow256(8) == 0x1_0000_0000 * Pow256(4) == U64_RANGE;
  }

  lemma {:induction false} RepresentableOfAll(ts: seq<Item>, items: seq<Value>)
    requires AllValid(ts) && DenoteAll(ts, items)
    ensures |ts| == |items| && AllRepresentable(items)
    decreases items, 1
  {
    hide Valid, Denotes, Representable;
    if items != [] {
      RepresentableOfDenotes(ts[0], items[0]);
      RepresentableOfAll(ts[1..], items[1..]);
    }
  }

  lemma {:induction false} RepresentableOfPairs(flat: seq<Item>, entries: seq<Pair>)
    requires AllValid(flat) && DenotePairs(flat, entries)
    ensures |flat| == 2 * |entries| && PairsRepresentable(entries)
    decreases entries, 1
  {
    hide Valid, Denotes, Representable;
    if entries != [] {
      assert flat[1..][0] == flat[1] && flat[1..][1..] == flat[2..];
      RepresentableOfPair(flat[0], flat[1], entries[0]);
      RepresentableOfPairs(flat[2..], entries[1..]);
    }
  }

  lemma {:induction false} RepresentableOfPair(k: Item, v: Item, e: Pair)
    requires Valid(k) && Valid(v) && DenotePair(k, v, e)
    ensures PairRepresentable(e)
    decreases e, 1
  {
    RepresentableOfDenotes(k, e.key);
    RepresentableOfDenotes(v, e.value);
  }

  // ---------------------------------------------------------------------------------------------
  // The capture, read off the decoded value
  // ---------------------------------------------------------------------------------------------

  function FoldPairs<A>(entries: seq<Pair>, acc: A, h: (Text, Value, A) -> Option<A>): Option<A> {
    if entries == [] then Some(acc)
    else if entries[0].key.CborText? then
      match h(entries[0].key.text, entries[0].value, acc)
      case None => None
      case Some(a) => FoldPairs(entries[1..], a, h)
    else FoldPairs(entries[1..], acc, h)
  }

  function FoldMapValue<A>(v: Value, acc: A, h: (Text, Value, A) -> Option<A>): Option<A> {
    if v.CborMap? then FoldPairs(v.entries, acc, h) else None
  }

  /** The record of an element written in its shortest form. */
  function ElementOf(v: Value, decode: Decoder): Option<RawIssuerItem>
    requires Representable(v) && UnwrapTagged(v).Some?
  {
    DecodeRawIssuerItem(Canonical(v), UnwrapTagged(v).value, decode)
  }

  function ElementsOf(items: seq<Value>, acc: seq<RawIssuerItem>, decode: Decoder): Option<seq<RawIssuerItem>>
    requires AllRepresentable(items)
  {
    if items == [] then Some(acc)
    else if UnwrapTagged(items[0]).None? then None
    else ElementsOf(items[1..], Push(acc, ElementOf(items[0], decode)), decode)
  }

  function ValueNameSpace(decode: Decoder): (Text, Value, RawDocumentItems) -> Option<RawDocumentItems> {
    (ns, v: Value, acc) =>
      if v.CborArray? && AllRepresentable(v.items) then
        match ElementsOf(v.items, Captured(acc, ns), decode)
        case None => None
        case Some(records) => Some(acc[ns := records])
      else None
  }

  function ValueIssuerSigned(decode: Decoder): (Text, Value, RawDocumentItems) -> Option<RawDocumentItems> {
    (key, v, acc) => if key == Lit("nameSpaces") then FoldMapValue(v, acc, ValueNameSpace(decode)) else Some(acc)
  }

  function ValueDocument(decode: Decoder): (Text, Value, RawDocumentItems) -> Option<RawDocumentItems> {
    (key, v, acc) => if key == Lit("issuerSigned") then FoldMapValue(v, acc, ValueIssuerSigned(decode)) else Some(acc)
  }

  function DocumentOf(v: Value, decode: Decoder): Option<RawDocumentItems> {
    FoldMapValue(v, map[], ValueDocument(decode))
  }

  function DocumentsOf(items: seq<Value>, acc: seq<RawDocumentItems>, decode: Decoder): Option<seq<RawDocumentItems>> {
    if items == [] then Some(acc)
    else
      match DocumentOf(items[0], decode)
      case None => None
      case Some(doc) => DocumentsOf(items[1..], acc + [doc], decode)
  }

  function ValueResponse(decode: Decoder): (Text, Value, seq<RawDocumentItems>) -> Option<seq<RawDocumentItems>> {
    (key, v: Value, acc) =>
      if key == Lit("documents") then
        if v.CborArray? then DocumentsOf(v.items, acc, decode) else None
      else Some(acc)
  }

  function ResponseOf(v: Value, decode: Decoder): Option<seq<RawDocumentItems>> {
    FoldMapValue(v, [], ValueResponse(decode))
  }

  /** A tree that denotes `v` and writes its elements in shortest form. */
  predicate Writes(t: Item, v: Value) {
    Valid(t) && Denotes(t, v) && MinimalElements(t)
  }

  // ---------------------------------------------------------------------------------------------
  // Captured spans, as they were framed and as the writer would frame them
  // ---------------------------------------------------------------------------------------------

  /** The span of an element with both its heads in shortest form. */
  function Shortest(raw: Bytes): Bytes {
    match TaggedFrom(raw, 0)
    case Some(at) => if |at.inner| < U64_RANGE then Canonical(WrapTagged(at.inner)) else raw
    case None => raw
  }

  function Reframed(r: RawIssuerItem): RawIssuerItem {
    r.(rawBytes := Shortest(r.rawBytes))
  }

  function ReframedAll(rs: seq<RawIssuerItem>): (out: seq<RawIssuerItem>)
    ensures |out| == |rs| && forall i :: 0 <= i < |rs| ==> out[i] == Reframed(rs[i])
  {
    seq(|rs|, i requires 0 <= i < |rs| => Reframed(rs[i]))
  }

  /** A capture as the value determines it: as it is when the framing is known to be shortest, reframed otherwise. */
  function Seen(shortest: bool, rs: seq<RawIssuerItem>): (out: seq<RawIssuerItem>)
    ensures |out| == |rs|
  {
    if shortest then rs else ReframedAll(rs)
  }

  function SeenItems(shortest: bool, d: RawDocumentItems): RawDocumentItems {
    map ns | ns in d :: Seen(shortest, d[ns])
  }

  function SeenDocuments(shortest: bool, docs: seq<RawDocumentItems>): (out: seq<RawDocumentItems>)
    ensures |out| == |docs| && forall i :: 0 <= i < |docs| ==> out[i] == SeenItems(shortest, docs[i])
  {
    seq(|docs|, i requires 0 <= i < |docs| => SeenItems(shortest, docs[i]))
  }

  function SeenItemsBy(shortest: bool): RawDocumentItems -> RawDocumentItems {
    d => SeenItems(shortest, d)
  }

  function SeenDocumentsBy(shortest: bool): seq<RawDocumentItems> -> seq<RawDocumentItems> {
    docs => SeenDocuments(shortest, docs)
  }

  /** `t` is a wire form of `v`; `shortest` says that its elements are known to have shortest heads. */
  predicate Spells(t: Item, v: Value, shortest: bool) {
    Valid(t) && Denotes(t, v) && (shortest ==> MinimalElements(t))
  }

  function Through<A>(re: A -> A, r: Option<A>): Option<A> {
    if r.Some? then Some(re(r.value)) else None
  }

  /** On wire forms of a value, `h` on the value does what `g` does on the tree, up to `re`. */
  ghost predicate Reads<A(!new)>(shortest: bool, g: (Text, Item, A) -> Option<A>, h: (Text, Value, A) -> Option<A>, re: A -> A) {
    forall key, t, v, acc {:trigger g(key, t, acc), h(key, v, re(acc))} ::
      Spells(t, v, shortest) ==> h(key, v, re(acc)) == Through(re, g(key, t, acc))
  }

  lemma KeyOf(t: Item, v: Value)
    requires Denotes(t, v)
    ensures KeyText(t) == if v.CborText? then Some(v.text) else None
  {
  }

  lemma {:induction false} FoldReads<A(!new)>(shortest: bool, flat: seq<Item>, entries: seq<Pair>, acc: A,
                                        g: (Text, Item, A) -> Option<A>, h: (Text, Value, A) -> Option<A>, re: A -> A)
    requires AllValid(flat) && DenotePairs(flat, entries) && (shortest ==> AllMinimal(flat))
    requires Reads(shortest, g, h, re)
    ensures |flat| % 2 == 0 && FoldPairs(entries, re(acc), h) == Through(re, FoldEntries(flat, acc, g))
    decreases |entries|
  {
    hide Valid, Denotes, MinimalElements, KeyText;
    if entries != [] {
      var k, v, e := flat[0], flat[1], entries[0];
      assert flat[1..][0] == v && flat[1..][1..] == flat[2..];
      KeyOf(k, e.key);
      if e.key.CborText? {
        assert Spells(v, e.value, shortest);
        assert h(e.key.text, e.value, re(acc)) == Through(re, g(e.key.text, v, acc));
        if g(e.key.text, v, acc).Some? {
          FoldReads(shortest, flat[2..], entries[1..], g(e.key.text, v, acc).value, g, h, re);
        } else {
          FoldReads(shortest, flat[2..], entries[1..], acc, g, h, re);
        }
      } else {
        FoldReads(shortest, flat[2..], entries[1..], acc, g, h, re);
      }
    }
  }

  lemma MapReads<A(!new)>(shortest: bool, t: Item, v: Value, acc: A, g: (Text, Item, A) -> Option<A>,
                          h: (Text, Value, A) -> Option<A>, re: A -> A)
    requires Spells(t, v, shortest) && Reads(shortest, g, h, re)
    ensures FoldMapValue(v, re(acc), h) == Through(re, FoldMap(t, acc, g))
  {
    hide FoldEntries, FoldPairs, AllValid, DenotePairs, AllMinimal;
    if v.CborMap? {
      FoldReads(shortest, t.flat, v.entries, acc, g, h, re);
    }
  }

  lemma KindOf(t: Item, v: Value)
    requires Denotes(t, v)
    ensures t.Str? && t.major == 2 <==> v.CborBytes?
    ensures v.CborBytes? ==> t.content == v.bytes
  {
  }

  lemma ElementKind(t: Item, v: Value)
    requires Valid(t) && Denotes(t, v)
    ensures Representable(v) && (IsElement(t) <==> UnwrapTagged(v).Some?)
    ensures IsElement(t) ==> v == WrapTagged(t.item.content)
  {
    RepresentableOfDenotes(t, v);
    if v.CborTag? {
      KindOf(t.item, v.inner);
    }
  }

  /** The shortest form of a captured span is what the writer writes, whatever the head widths. */
  lemma ShortestIsCanonical(t: Item, v: Value)
    requires Valid(t) && Denotes(t, v) && IsElement(t)
    ensures Representable(v) && Shortest(Encode(t)) == Canonical(v)
  {
    ElementKind(t, v);
    ArgBound(t.item);
    hide Encode, Denotes, Canonical, Representable;
    var s := Encode(t);
    assert s[0..|s|] == s;
    ElementAt(s, 0, t);
  }

  /** An element in shortest form is written in exactly one way. */
  lemma ElementReads(t: Item, v: Value)
    requires Writes(t, v) && IsElement(t)
    ensures Representable(v) && Encode(t) == Canonical(v)
  {
    ElementKind(t, v);
    assert t == ToWire(v);
  }

  /** The record of a captured element, as the value determines it. */
  lemma RecordReads(t: Item, v: Value, acc: seq<RawIssuerItem>, decode: Decoder, shortest: bool)
    requires Spells(t, v, shortest) && IsElement(t)
    ensures Representable(v) && UnwrapTagged(v) == Some(t.item.content)
    ensures Seen(shortest, Push(acc, DecodeRawIssuerItem(Encode(t), t.item.content, decode)))
         == Push(Seen(shortest, acc), ElementOf(v, decode))
  {
    ElementKind(t, v);
    ShortestIsCanonical(t, v);
    if shortest { ElementReads(t, v); }
    hide Encode, Denotes, Canonical, Representable, MinimalElements, Shortest;
    var r := DecodeRawIssuerItem(Encode(t), t.item.content, decode);
    if r.Some? && !shortest {
      assert ReframedAll(acc + [r.value]) == ReframedAll(acc) + [Reframed(r.value)];
    }
  }

  lemma {:induction false} ElementsRead(ts: seq<Item>, items: seq<Value>, acc: seq<RawIssuerItem>, decode: Decoder, shortest: bool)
    requires AllValid(ts) && DenoteAll(ts, items) && (shortest ==> AllMinimal(ts))
    ensures AllRepresentable(items)
    ensures ElementsOf(items, Seen(shortest, acc), decode)
         == match CollectElements(ts, acc, decode) { case Some(rs) => Some(Seen(shortest, rs)) case None => None }
    decreases |items|
  {
    hide Valid, Denotes, MinimalElements, Representable, Encode, Canonical, DecodeRawIssuerItem, Seen, ElementOf;
    RepresentableOfAll(ts, items);
    if items != [] {
      assert Spells(ts[0], items[0], shortest);
      ElementKind(ts[0], items[0]);
      if IsElement(ts[0]) {
        RecordReads(ts[0], items[0], acc, decode, shortest);
        ElementsRead(ts[1..], items[1..], Push(acc, DecodeRawIssuerItem(Encode(ts[0]), ts[0].item.content, decode)), decode, shortest);
      }
    }
  }

  lemma SeenUpdate(shortest: bool, d: RawDocumentItems, ns: Text, rs: seq<RawIssuerItem>)
    ensures SeenItems(shortest, d[ns := rs]) == SeenItems(shortest, d)[ns := Seen(shortest, rs)]
    ensures Captured(SeenItems(shortest, d), ns) == Seen(shortest, Captured(d, ns))
  {
    assert Seen(shortest, []) == [];
  }

  lemma NameSpaceReads(decode: Decoder, shortest: bool)
    ensures Reads(shortest, TreeNameSpace(decode), ValueNameSpace(decode), SeenItemsBy(shortest))
  {
    hide CollectElements, ElementsOf, AllValid, AllMinimal, DenoteAll, AllRepresentable, SeenItems, Seen;
    var g, h, re := TreeNameSpace(decode), ValueNameSpace(decode), SeenItemsBy(shortest);
    forall ns, t: Item, v: Value, acc: RawDocumentItems | Spells(t, v, shortest)
      ensures h(ns, v, re(acc)) == Through(re, g(ns, t, acc))
    {
      SeenUpdate(shortest, acc, ns, []);
      if v.CborArray? {
        ElementsRead(t.items, v.items, Captured(acc, ns), decode, shortest);
        if CollectElements(t.items, Captured(acc, ns), decode).Some? {
          SeenUpdate(shortest, acc, ns, CollectElements(t.items, Captured(acc, ns), decode).value);
        }
      }
    }
  }

  lemma IssuerSignedReads(decode: Decoder, shortest: bool)
    ensures Reads(shortest, TreeIssuerSigned(decode), ValueIssuerSigned(decode), SeenItemsBy(shortest))
  {
    hide FoldMap, FoldMapValue, Spells, SeenItems;
    NameSpaceReads(decode, shortest);
    var g, h, re := TreeIssuerSigned(decode), ValueIssuerSigned(decode), SeenItemsBy(shortest);
    forall key, t: Item, v: Value, acc: RawDocumentItems | Spells(t, v, shortest)
      ensures h(key, v, re(acc)) == Through(re, g(key, t, acc))
    {
      MapReads(shortest, t, v, acc, TreeNameSpace(decode), ValueNameSpace(decode), re);
    }
  }

  lemma DocumentReads(decode: Decoder, shortest: bool)
    ensures Reads(shortest, TreeDocument(decode), ValueDocument(decode), SeenItemsBy(shortest))
  {
    hide FoldMap, FoldMapValue, Spells, SeenItems;
    IssuerSignedReads(decode, shortest);
    var g, h, re := TreeDocument(decode), ValueDocument(decode), SeenItemsBy(shortest);
    forall key, t: Item, v: Value, acc: RawDocumentItems | Spells(t, v, shortest)
      ensures h(key, v, re(acc)) == Through(re, g(key, t, acc))
    {
      MapReads(shortest, t, v, acc, TreeIssuerSigned(decode), ValueIssuerSigned(decode), re);
    }
  }

  lemma NothingSeen(shortest: bool)
    ensures SeenItems(shortest, map[]) == map[] && SeenDocuments(shortest, []) == []
  {
  }

  lemma SeenSnoc(shortest: bool, docs: seq<RawDocumentItems>, doc: RawDocumentItems)
    ensures SeenDocuments(shortest, docs + [doc]) == SeenDocuments(shortest, docs) + [SeenItems(shortest, doc)]
  {
  }

  lemma {:induction false} DocumentsRead(ts: seq<Item>, items: seq<Value>, acc: seq<RawDocumentItems>, decode: Decoder, shortest: bool)
    requires AllValid(ts) && DenoteAll(ts, items) && (shortest ==> AllMinimal(ts))
    ensures DocumentsOf(items, SeenDocuments(shortest, acc), decode)
         == Through(SeenDocumentsBy(shortest), CollectDocuments(ts, acc, decode))
    decreases |items|
  {
    hide Valid, Denotes, MinimalElements, FoldMap, FoldMapValue, SeenItems, SeenDocuments;
    if items != [] {
      assert Spells(ts[0], items[0], shortest);
      DocumentReads(decode, shortest);
      NothingSeen(shortest);
      MapReads(shortest, ts[0], items[0], map[], TreeDocument(decode), ValueDocument(decode), SeenItemsBy(shortest));
      assert DocumentOf(items[0], decode) == Through(SeenItemsBy(shortest), CollectDocument(ts[0], decode));
      if CollectDocument(ts[0], decode).Some? {
        var doc := CollectDocument(ts[0], decode).value;
        SeenSnoc(shortest, acc, doc);
        DocumentsRead(ts[1..], items[1..], acc + [doc], decode, shortest);
      }
    }
  }

  lemma ResponseReads(decode: Decoder, shortest: bool)
    ensures Reads(shortest, TreeResponse(decode), ValueResponse(decode), SeenDocumentsBy(shortest))
  {
    hide CollectDocuments, DocumentsOf, AllValid, AllMinimal, DenoteAll, SeenDocuments;
    var g, h, re := TreeResponse(decode), ValueResponse(decode), SeenDocumentsBy(shortest);
    forall key, t: Item, v: Value, acc: seq<RawDocumentItems> | Spells(t, v, shortest)
      ensures h(key, v, re(acc)) == Through(re, g(key, t, acc))
    {
      if v.CborArray? {
        DocumentsRead(t.items, v.items, acc, decode, shortest);
      }
    }
  }

  lemma ScanSeen(t: Item, v: Value, decode: Decoder, shortest: bool)
    requires Spells(t, v, shortest)
    ensures ScanResponse(Encode(t), decode) == Lift(CollectResponse(t, decode), |Encode(t)|)
    ensures ResponseOf(v, decode) == Through(SeenDocumentsBy(shortest), CollectResponse(t, decode))
  {
    hide FoldMap, FoldMapValue, Denotes, MinimalElements, SeenDocuments;
    ScanInvertsEncoding(t, decode);
    ResponseReads(decode, shortest);
    NothingSeen(shortest);
    MapReads(shortest, t, v, [], TreeResponse(decode), ValueResponse(decode), SeenDocumentsBy(shortest));
  }

  /**
    What the scan captures from any wire form of a response is determined by its value, up to the
    framing of each span: with every span in shortest form it is what the value says.
  */
  lemma ScanOfValue(t: Item, v: Value, decode: Decoder)
    requires Valid(t) && Denotes(t, v)
    ensures var scanned := ScanResponse(Encode(t), decode);
            && (scanned.Some? ==> scanned.value.pos == |Encode(t)|)
            && ResponseOf(v, decode) == if scanned.Some? then Some(SeenDocuments(false, scanned.value.acc)) else None
  {
    hide Denotes, SeenDocuments;
    ScanSeen(t, v, decode, false);
  }

  /** With shortest elements nothing is lost. */
  lemma ScanOfShortest(t: Item, v: Value, decode: Decoder)
    requires Writes(t, v)
    ensures ScanResponse(Encode(t), decode) == Lift(ResponseOf(v, decode), |Encode(t)|)
  {
    hide Denotes, MinimalElements;
    ScanSeen(t, v, decode, true);
    if CollectResponse(t, decode).Some? {
      SeenAsIs(CollectResponse(t, decode).value);
    }
  }

  lemma SeenAsIs(docs: seq<RawDocumentItems>)
    ensures SeenDocuments(true, docs) == docs
  {
    forall i | 0 <= i < |docs| ensures SeenItems(true, docs[i]) == docs[i] {
    }
  }

  // ---------------------------------------------------------------------------------------------
  // A tree denotes at most one value, so the shortest encoding is injective
  // ---------------------------------------------------------------------------------------------

  lemma {:induction false} DenotesOne(t: Item, v: Value, w: Value)
    requires Denotes(t, v) && Denotes(t, w)
    ensures v == w
    decreases v, 0
  {
    match v
    case CborInteger(_) =>
    case CborBytes(_) =>
    case CborText(_) =>
    case CborBool(_) =>
    case CborNull =>
    case CborFloat(_, _) =>
    case CborArray(items) => DenoteAllOne(t.items, items, w.items);
    case CborMap(entries) => DenotePairsOne(t.flat, entries, w.entries);
    case CborTag(_, inner) => DenotesOne(t.item, inner, w.inner);
  }

  lemma {:induction false} DenoteAllOne(ts: seq<Item>, items: seq<Value>, others: seq<Value>)
    requires DenoteAll(ts, items) && DenoteAll(ts, others)
    ensures items == others
    decreases items, 1
  {
    hide Denotes;
    if items != [] {
      DenotesOne(ts[0], items[0], others[0]);
      DenoteAllOne(ts[1..], items[1..], others[1..]);
      assert items == [items[0]] + items[1..] && others == [others[0]] + others[1..];
    }
  }

  lemma {:induction false} DenotePairsOne(flat: seq<Item>, entries: seq<Pair>, others: seq<Pair>)
    requires DenotePairs(flat, entries) && DenotePairs(flat, others)
    ensures entries == others
    decreases entries, 1
  {
    hide Denotes;
    if entries != [] {
      DenotePairOne(flat[0], flat[1], entries[0], others[0]);
      DenotePairsOne(flat[2..], entries[1..], others[1..]);
      assert entries == [entries[0]] + entries[1..] && others == [others[0]] + others[1..];
    }
  }

  lemma {:induction false} DenotePairOne(k: Item, v: Item, e: Pair, f: Pair)
    requires DenotePair(k, v, e) && DenotePair(k, v, f)
    ensures e == f
    decreases e, 1
  {
    DenotesOne(k, e.key, f.key);
    DenotesOne(v, e.value, f.value);
  }

  /** Different values are written differently, so a decoder can undo the writer. */
  lemma CanonicalInjective(v: Value, w: Value)
    requires Representable(v) && Representable(w) && Canonical(v) == Canonical(w)
    ensures v == w
  {
    ToWireExact(v);
    ToWireExact(w);
    EncodeInjective(ToWire(v), ToWire(w));
    DenotesOne(ToWire(v), v, w);
  }
}
