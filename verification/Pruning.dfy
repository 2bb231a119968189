/**
  The holder's selective disclosure: drop the undisclosed items of a response and keep everything
  else as it is.  The theorems say what the verifier captures and discloses from the result.
*/
module Pruning {
  import opened Prelude
  import CborWire
  import opened CborValue
  import opened IssuerItemScan
  import opened CborEncoding
  import opened Disclosure
  import Splitting

  datatype PresentError =
    | MalformedInput
    | UndisclosableClaim
    | MultiDocumentMdoc(count: nat)
    | Build

  type Transform = Value -> Result<Value, PresentError>

  /** `namespace/elementIdentifier`. */
  function QualifiedElementId(ns: Text, id: Text): Text {
    ns + Lit("/") + id
  }

  // ---------------------------------------------------------------------------------------------
  // What a qualified identifier tells apart
  // ---------------------------------------------------------------------------------------------

  const SLASH: byte := 47

  /** `a` and a slash begin `b`. */
  predicate Within(a: Text, b: Text) {
    a + [SLASH] <= b
  }

  lemma QualifiedParts(ns: Text, id: Text)
    ensures QualifiedElementId(ns, id) == ns + [SLASH] + id
  {
    assert Lit("/") == [SLASH];
  }

  /** Two name spaces can yield one qualified identifier exactly when they are equal or one is within the other. */
  lemma QualifiedClash(ns: Text, ns': Text)
    ensures (exists id, id' :: QualifiedElementId(ns, id) == QualifiedElementId(ns', id'))
       <==> ns == ns' || Within(ns, ns') || Within(ns', ns)
  {
    hide QualifiedElementId;
    if id, id' :| QualifiedElementId(ns, id) == QualifiedElementId(ns', id') {
      QualifiedParts(ns, id);
      QualifiedParts(ns', id');
      PrefixClash(ns, id, ns', id');
    }
    if ns == ns' {
      assert QualifiedElementId(ns, []) == QualifiedElementId(ns', []);
    } else if Within(ns, ns') {
      WithinClash(ns, ns');
    } else if Within(ns', ns) {
      WithinClash(ns', ns);
      assert QualifiedElementId(ns, []) == QualifiedElementId(ns', ns[|ns'| + 1..] + [SLASH]);
    }
  }

  lemma WithinClash(ns: Text, ns': Text)
    requires Within(ns, ns')
    ensures QualifiedElementId(ns, ns'[|ns| + 1..] + [SLASH]) == QualifiedElementId(ns', [])
  {
    hide QualifiedElementId;
    var rest := ns'[|ns| + 1..];
    QualifiedParts(ns, rest + [SLASH]);
    QualifiedParts(ns', []);
    assert ns' == ns + [SLASH] + rest;
    assert ns + [SLASH] + (rest + [SLASH]) == ns' + [SLASH] + [];
  }

  lemma PrefixClash(ns: Text, id: Text, ns': Text, id': Text)
    requires ns + [SLASH] + id == ns' + [SLASH] + id'
    ensures ns == ns' || Within(ns, ns') || Within(ns', ns)
    ensures ns == ns' ==> id == id'
  {
    var s, s' := ns + [SLASH] + id, ns' + [SLASH] + id';
    if |ns| == |ns'| {
      assert ns == s[..|ns|] && ns' == s'[..|ns|];
      assert id == s[|ns| + 1..] && id' == s'[|ns| + 1..];
    } else if |ns| < |ns'| {
      assert ns + [SLASH] == s[..|ns| + 1] && s'[..|ns| + 1] == ns'[..|ns| + 1];
    } else {
      assert ns' + [SLASH] == s'[..|ns'| + 1] && s[..|ns'| + 1] == ns[..|ns'| + 1];
    }
  }

  /** No name space is within another. */
  predicate Separated(names: set<Text>) {
    forall a, b :: a in names && b in names ==> !Within(a, b)
  }

  /** Between separated name spaces the qualified identifier determines name space and identifier. */
  lemma QualifiedInjective(names: set<Text>, ns: Text, id: Text, ns': Text, id': Text)
    requires Separated(names) && ns in names && ns' in names
    requires QualifiedElementId(ns, id) == QualifiedElementId(ns', id')
    ensures ns == ns' && id == id'
  {
    hide QualifiedElementId;
    QualifiedParts(ns, id);
    QualifiedParts(ns', id');
    PrefixClash(ns, id, ns', id');
  }

  lemma WithinHasSlash(a: Text, b: Text)
    ensures Within(a, b) ==> SLASH in b
  {
    if Within(a, b) {
      assert b[|a|] == SLASH;
    }
  }

  /** Name spaces without a slash, as reverse domain names are, are separated. */
  lemma SlashFreeSeparated(names: set<Text>)
    requires forall ns :: ns in names ==> SLASH !in ns
    ensures Separated(names)
  {
    forall a, b | a in names && b in names ensures !Within(a, b) {
      WithinHasSlash(a, b);
    }
  }

  /** Splitting at the first slash recovers name space and identifier exactly when the name space has none. */
  lemma SplitRecovers(ns: Text, id: Text)
    ensures Splitting.SplitOnce(QualifiedElementId(ns, id), SLASH) == Some((ns, id)) <==> SLASH !in ns
  {
    hide QualifiedElementId, Splitting.SplitOnce;
    QualifiedParts(ns, id);
    ConcatAssoc(ns, [SLASH], id);
    Splitting.SplitOnceSound(QualifiedElementId(ns, id), SLASH);
    if SLASH !in ns {
      Splitting.SplitOnceComplete(ns, SLASH, id);
    }
  }

  /** The `elementIdentifier` inside a `#6.24(bstr)` element. */
  function ItemIdentifier(item: Value, decode: Decoder): Option<Text> {
    match UnwrapTagged(item)
    case None => None
    case Some(inner) =>
      match decode(inner)
      case None => None
      case Some(v) => GetText(v, Lit("elementIdentifier"))
  }

  predicate Keep(key: Value, item: Value, disclose: set<Text>, decode: Decoder) {
    && key.CborText?
    && ItemIdentifier(item, decode).Some?
    && QualifiedElementId(key.text, ItemIdentifier(item, decode).value) in disclose
  }

  function KeptItems(key: Value, items: seq<Value>, disclose: set<Text>, decode: Decoder): (kept: seq<Value>)
    ensures |kept| <= |items|
  {
    if items == [] then []
    else (if Keep(key, items[0], disclose, decode) then [items[0]] else []) + KeptItems(key, items[1..], disclose, decode)
  }

  function PruneEntries(entries: seq<Pair>, disclose: set<Text>, decode: Decoder): Result<seq<Pair>, PresentError> {
    if entries == [] then Ok([])
    else if !entries[0].value.CborArray? then Err(MalformedInput)
    else
      match PruneEntries(entries[1..], disclose, decode)
      case Err(e) => Err(e)
      case Ok(rest) =>
        var kept := KeptItems(entries[0].key, entries[0].value.items, disclose, decode);
        Ok((if kept == [] then [] else [Pair(entries[0].key, CborArray(kept))]) + rest)
  }

  function PruneNameSpaces(disclose: set<Text>, decode: Decoder): Transform {
    (v: Value) =>
      if !v.CborMap? then Err(MalformedInput)
      else
        match PruneEntries(v.entries, disclose, decode)
        case Err(e) => Err(e)
        case Ok(entries) => Ok(CborMap(entries))
  }

  function ReplaceEntries(entries: seq<Pair>, key: Text, f: Transform): Result<seq<Pair>, PresentError> {
    if entries == [] then Ok([])
    else
      var e := entries[0];
      match if e.key == CborText(key) then f(e.value) else Ok(e.value)
      case Err(x) => Err(x)
      case Ok(v) =>
        match ReplaceEntries(entries[1..], key, f)
        case Err(x) => Err(x)
        case Ok(rest) => Ok([Pair(e.key, v)] + rest)
  }

  /** Rebuild a map with every value under `key` transformed. */
  function ReplaceMapEntry(v: Value, key: Text, required: bool, f: Transform): Result<Value, PresentError> {
    if !v.CborMap? then Err(MalformedInput)
    else
      match ReplaceEntries(v.entries, key, f)
      case Err(x) => Err(x)
      case Ok(entries) => if required && !HasKey(v.entries, key) then Err(MalformedInput) else Ok(CborMap(entries))
  }

  function Replacing(key: Text, required: bool, f: Transform): Transform {
    v => ReplaceMapEntry(v, key, required, f)
  }

  function MapItems(items: seq<Value>, f: Transform): Result<seq<Value>, PresentError> {
    if items == [] then Ok([])
    else
      match f(items[0])
      case Err(x) => Err(x)
      case Ok(v) =>
        match MapItems(items[1..], f)
        case Err(x) => Err(x)
        case Ok(rest) => Ok([v] + rest)
  }

  function PruneDocument(disclose: set<Text>, decode: Decoder): Transform {
    Replacing(Lit("issuerSigned"), false, Replacing(Lit("nameSpaces"), false, PruneNameSpaces(disclose, decode)))
  }

  function PruneDocuments(disclose: set<Text>, decode: Decoder): Transform {
    (v: Value) =>
      if !v.CborArray? then Err(MalformedInput)
      else
        match MapItems(v.items, PruneDocument(disclose, decode))
        case Err(x) => Err(x)
        case Ok(items) => Ok(CborArray(items))
  }

  function PruneIssuerSigned(response: Value, disclose: set<Text>, decode: Decoder): Result<Value, PresentError> {
    ReplaceMapEntry(response, Lit("documents"), false, PruneDocuments(disclose, decode))
  }

  // ---------------------------------------------------------------------------------------------
  // Refusals
  // ---------------------------------------------------------------------------------------------

  /** The transform fails on malformed input only. */
  ghost predicate Malforms(f: Transform) {
    forall v :: f(v).Err? ==> f(v).error == MalformedInput
  }

  lemma {:induction false} ReplaceMalforms(entries: seq<Pair>, key: Text, f: Transform)
    requires Malforms(f)
    ensures ReplaceEntries(entries, key, f).Err? ==> ReplaceEntries(entries, key, f).error == MalformedInput
  {
    if entries != [] { ReplaceMalforms(entries[1..], key, f); }
  }

  lemma ReplacingMalforms(key: Text, required: bool, f: Transform)
    requires Malforms(f)
    ensures Malforms(Replacing(key, required, f))
  {
    hide ReplaceEntries;
    forall v | Replacing(key, required, f)(v).Err? ensures Replacing(key, required, f)(v).error == MalformedInput {
      if v.CborMap? { ReplaceMalforms(v.entries, key, f); }
    }
  }

  lemma {:induction false} MapMalforms(items: seq<Value>, f: Transform)
    requires Malforms(f)
    ensures MapItems(items, f).Err? ==> MapItems(items, f).error == MalformedInput
  {
    if items != [] { MapMalforms(items[1..], f); }
  }

  lemma {:induction false} EntriesMalform(entries: seq<Pair>, disclose: set<Text>, decode: Decoder)
    ensures PruneEntries(entries, disclose, decode).Err? ==> PruneEntries(entries, disclose, decode).error == MalformedInput
  {
    hide KeptItems;
    if entries != [] { EntriesMalform(entries[1..], disclose, decode); }
  }

  /** Pruning has one failure. */
  lemma PruneMalforms(response: Value, disclose: set<Text>, decode: Decoder)
    ensures PruneIssuerSigned(response, disclose, decode).Err? ==>
              PruneIssuerSigned(response, disclose, decode).error == MalformedInput
  {
    hide ReplaceEntries, MapItems, PruneEntries, Malforms;
    assert Malforms(PruneNameSpaces(disclose, decode)) by { NameSpacesMalform(disclose, decode); }
    ReplacingMalforms(Lit("nameSpaces"), false, PruneNameSpaces(disclose, decode));
    ReplacingMalforms(Lit("issuerSigned"), false, Replacing(Lit("nameSpaces"), false, PruneNameSpaces(disclose, decode)));
    DocumentsMalform(disclose, decode);
    if response.CborMap? { ReplaceMalforms(response.entries, Lit("documents"), PruneDocuments(disclose, decode)); }
  }

  lemma NameSpacesMalform(disclose: set<Text>, decode: Decoder)
    ensures Malforms(PruneNameSpaces(disclose, decode))
  {
    hide PruneEntries;
    forall v | PruneNameSpaces(disclose, decode)(v).Err? ensures PruneNameSpaces(disclose, decode)(v).error == MalformedInput {
      if v.CborMap? { EntriesMalform(v.entries, disclose, decode); }
    }
  }

  lemma DocumentsMalform(disclose: set<Text>, decode: Decoder)
    requires Malforms(PruneDocument(disclose, decode))
    ensures Malforms(PruneDocuments(disclose, decode))
  {
    hide MapItems, PruneDocument;
    forall v | PruneDocuments(disclose, decode)(v).Err? ensures PruneDocuments(disclose, decode)(v).error == MalformedInput {
      if v.CborArray? { MapMalforms(v.items, PruneDocument(disclose, decode)); }
    }
  }

  // ---------------------------------------------------------------------------------------------
  // The two loops
  // ---------------------------------------------------------------------------------------------

  /** The entries already rebuilt, before what is still to come. */
  function After(out: seq<Pair>, r: Result<seq<Pair>, PresentError>): Result<seq<Pair>, PresentError> {
    match r
    case Err(e) => Err(e)
    case Ok(rest) => Ok(out + rest)
  }

  lemma AfterAssociates(a: seq<Pair>, b: seq<Pair>, r: Result<seq<Pair>, PresentError>)
    ensures After(a, After(b, r)) == After(a + b, r)
    ensures After([], r) == r
  {
    if r.Ok? {
      assert a + (b + r.value) == a + b + r.value;
      assert [] + r.value == r.value;
    }
  }

  method KeepItems(key: Value, items: seq<Value>, disclose: set<Text>, decode: Decoder) returns (kept: seq<Value>)
    ensures kept == KeptItems(key, items, disclose, decode)
  {
    kept := [];
    for j := 0 to |items|
      invariant kept + KeptItems(key, items[j..], disclose, decode) == KeptItems(key, items, disclose, decode)
    {
      assert items[j..][0] == items[j] && items[j..][1..] == items[j + 1..];
      if Keep(key, items[j], disclose, decode) { kept := kept + [items[j]]; }
    }
  }

  method PruneNameSpacesLoop(nameSpaces: Value, disclose: set<Text>, decode: Decoder) returns (r: Result<Value, PresentError>)
    ensures r == PruneNameSpaces(disclose, decode)(nameSpaces)
  {
    if !nameSpaces.CborMap? { return Err(MalformedInput); }
    var entries := nameSpaces.entries;
    var out: seq<Pair> := [];
    AfterAssociates([], [], PruneEntries(entries, disclose, decode));
    for i := 0 to |entries|
      invariant After(out, PruneEntries(entries[i..], disclose, decode)) == PruneEntries(entries, disclose, decode)
    {
      hide Keep, KeptItems;
      var e := entries[i];
      assert entries[i..][0] == e && entries[i..][1..] == entries[i + 1..];
      if !e.value.CborArray? { return Err(MalformedInput); }
      var kept := KeepItems(e.key, e.value.items, disclose, decode);
      var piece := if kept != [] then [Pair(e.key, CborArray(kept))] else [];
      AfterAssociates(out, piece, PruneEntries(entries[i + 1..], disclose, decode));
      out := out + piece;
    }
    assert entries[|entries|..] == [] && out + [] == out;
    return Ok(CborMap(out));
  }

  method ReplaceMapEntryInner(value: Value, key: Text, required: bool, f: Transform) returns (r: Result<Value, PresentError>)
    ensures r == ReplaceMapEntry(value, key, required, f)
  {
    if !value.CborMap? { return Err(MalformedInput); }
    var entries := value.entries;
    var out: seq<Pair> := [];
    var found := false;
    AfterAssociates([], [], ReplaceEntries(entries, key, f));
    for i := 0 to |entries|
      invariant found <==> HasKey(entries[..i], key)
      invariant After(out, ReplaceEntries(entries[i..], key, f)) == ReplaceEntries(entries, key, f)
    {
      var e := entries[i];
      assert entries[i..][0] == e && entries[i..][1..] == entries[i + 1..];
      assert entries[..i + 1] == entries[..i] + [e];
      var v := e.value;
      if e.key == CborText(key) {
        found := true;
        match f(e.value) {
          case Err(x) => return Err(x);
          case Ok(w) => v := w;
        }
      }
      AfterAssociates(out, [Pair(e.key, v)], ReplaceEntries(entries[i + 1..], key, f));
      out := out + [Pair(e.key, v)];
    }
    assert entries[..|entries|] == entries && entries[|entries|..] == [] && out + [] == out;
    if required && !found { return Err(MalformedInput); }
    return Ok(CborMap(out));
  }

  // ---------------------------------------------------------------------------------------------
  // What a replacement does to lookups
  // ---------------------------------------------------------------------------------------------

  /** Only lookups of the replaced key change, and they read the transformed value. */
  lemma {:induction false} FindReplaced(entries: seq<Pair>, key: Text, f: Transform, k: Text)
    requires ReplaceEntries(entries, key, f).Ok?
    ensures FindText(ReplaceEntries(entries, key, f).value, k)
         == (match FindText(entries, k)
             case None => None
             case Some(v) => if k == key && f(v).Ok? then Some(f(v).value) else if k == key then None else Some(v))
    ensures FindText(entries, key).Some? ==> f(FindText(entries, key).value).Ok?
    ensures HasKey(entries, key) <==> FindText(entries, key).Some?
    decreases |entries|
  {
    if entries != [] {
      var rest := ReplaceEntries(entries[1..], key, f).value;
      FindReplaced(entries[1..], key, f, k);
      assert ReplaceEntries(entries, key, f).value[1..] == rest;
      assert entries == [entries[0]] + entries[1..];
    }
  }

  lemma {:induction false} MapItemsAt(items: seq<Value>, f: Transform, i: nat)
    requires MapItems(items, f).Ok? && i < |items|
    ensures |MapItems(items, f).value| == |items| && f(items[i]) == Ok(MapItems(items, f).value[i])
    decreases |items|
  {
    if i > 0 {
      MapItemsAt(items[1..], f, i - 1);
    } else if |items| > 1 {
      MapItemsAt(items[1..], f, 0);
    }
  }
}
