/**
  What the verifier captures from a pruned response: per namespace, the captured records whose
  qualified identifier is disclosed.
*/
module PrunedCapture {
  import opened Prelude
  import opened CborValue
  import opened IssuerItemScan
  import opened CborEncoding
  import opened Pruning

  predicate KeepRecord(ns: Text, r: RawIssuerItem, disclose: set<Text>) {
    QualifiedElementId(ns, r.identifier) in disclose
  }

  function KeptRecords(ns: Text, rs: seq<RawIssuerItem>, disclose: set<Text>): (kept: seq<RawIssuerItem>)
    ensures |kept| <= |rs|
  {
    if rs == [] then []
    else KeptRecords(ns, rs[..|rs| - 1], disclose)
         + (if KeepRecord(ns, rs[|rs| - 1], disclose) then [rs[|rs| - 1]] else [])
  }

  /** `after` is `before` with the undisclosed records dropped. */
  ghost predicate Filtered(after: RawDocumentItems, before: RawDocumentItems, disclose: set<Text>) {
    forall ns :: Captured(after, ns) == KeptRecords(ns, Captured(before, ns), disclose)
  }

  ghost predicate AllFiltered(after: seq<RawDocumentItems>, before: seq<RawDocumentItems>, disclose: set<Text>) {
    |after| == |before| && forall i :: 0 <= i < |before| ==> Filtered(after[i], before[i], disclose)
  }

  lemma KeptPush(ns: Text, rs: seq<RawIssuerItem>, r: RawIssuerItem, disclose: set<Text>)
    ensures KeptRecords(ns, rs + [r], disclose)
         == KeptRecords(ns, rs, disclose) + (if KeepRecord(ns, r, disclose) then [r] else [])
  {
    assert (rs + [r])[..|rs|] == rs;
  }

  /** A record is kept exactly when its element is. */
  lemma RecordKept(key: Value, item: Value, disclose: set<Text>, decode: Decoder)
    requires key.CborText? && Representable(item) && UnwrapTagged(item).Some? && ElementOf(item, decode).Some?
    ensures Keep(key, item, disclose, decode) <==> KeepRecord(key.text, ElementOf(item, decode).value, disclose)
  {
    hide Canonical, Representable;
  }

  lemma {:induction false} ElementsKept(key: Value, items: seq<Value>, acc: seq<RawIssuerItem>, disclose: set<Text>, decode: Decoder)
    requires key.CborText? && AllRepresentable(items) && ElementsOf(items, acc, decode).Some?
    ensures var kept := KeptItems(key, items, disclose, decode);
            && AllRepresentable(kept)
            && ElementsOf(kept, KeptRecords(key.text, acc, disclose), decode)
               == Some(KeptRecords(key.text, ElementsOf(items, acc, decode).value, disclose))
    decreases |items|
  {
    hide Representable, ElementOf, Keep, KeptRecords, KeepRecord;
    if items != [] {
      var item, rest := items[0], items[1..];
      var r := ElementOf(item, decode);
      var before := KeptRecords(key.text, acc, disclose);
      ElementsKept(key, rest, Push(acc, r), disclose, decode);
      var kept := KeptItems(key, rest, disclose, decode);
      if r.Some? {
        RecordKept(key, item, disclose, decode);
        KeptPush(key.text, acc, r.value, disclose);
      }
      if Keep(key, item, disclose, decode) {
        assert ([item] + kept)[1..] == kept;
        assert KeptItems(key, items, disclose, decode) == [item] + kept;
      } else {
        assert KeptItems(key, items, disclose, decode) == kept;
        assert before + [] == before;
      }
    }
  }

  /** One namespace entry, kept or dropped. */
  lemma NameSpaceKept(e: Pair, acc: RawDocumentItems, acc': RawDocumentItems, disclose: set<Text>, decode: Decoder)
    requires e.key.CborText? && e.value.CborArray? && Filtered(acc', acc, disclose)
    requires ValueNameSpace(decode)(e.key.text, e.value, acc).Some?
    ensures var after := ValueNameSpace(decode)(e.key.text, e.value, acc).value;
            var kept := KeptItems(e.key, e.value.items, disclose, decode);
            && AllRepresentable(kept)
            && (kept == [] ==> Filtered(acc', after, disclose))
            && ValueNameSpace(decode)(e.key.text, CborArray(kept), acc').Some?
            && Filtered(ValueNameSpace(decode)(e.key.text, CborArray(kept), acc').value, after, disclose)
  {
    hide ElementsOf, KeptItems, KeptRecords, AllRepresentable;
    var ns := e.key.text;
    ElementsKept(e.key, e.value.items, Captured(acc, ns), disclose, decode);
    NoElements(Captured(acc', ns), decode);
    var kept := KeptItems(e.key, e.value.items, disclose, decode);
    var after := ValueNameSpace(decode)(ns, e.value, acc).value;
    var after' := ValueNameSpace(decode)(ns, CborArray(kept), acc').value;
    assert Captured(after, ns) == ElementsOf(e.value.items, Captured(acc, ns), decode).value;
    forall n ensures Captured(after', n) == KeptRecords(n, Captured(after, n), disclose) {
      assert n != ns ==> Captured(after, n) == Captured(acc, n) && Captured(after', n) == Captured(acc', n);
    }
  }

  lemma NoElements(acc: seq<RawIssuerItem>, decode: Decoder)
    ensures AllRepresentable([]) && ElementsOf([], acc, decode) == Some(acc)
  {
  }

  lemma {:induction false} NameSpacesKept(entries: seq<Pair>, acc: RawDocumentItems, acc': RawDocumentItems,
                                    disclose: set<Text>, decode: Decoder)
    requires PruneEntries(entries, disclose, decode).Ok? && Filtered(acc', acc, disclose)
    requires FoldPairs(entries, acc, ValueNameSpace(decode)).Some?
    ensures var after := FoldPairs(PruneEntries(entries, disclose, decode).value, acc', ValueNameSpace(decode));
            after.Some? && Filtered(after.value, FoldPairs(entries, acc, ValueNameSpace(decode)).value, disclose)
    decreases |entries|
  {
    hide Filtered, ValueNameSpace, KeptItems;
    if entries != [] {
      var e, rest := entries[0], entries[1..];
      var h := ValueNameSpace(decode);
      var pruned := PruneEntries(rest, disclose, decode).value;
      var kept := KeptItems(e.key, e.value.items, disclose, decode);
      if e.key.CborText? {
        NameSpaceKept(e, acc, acc', disclose, decode);
        var next := h(e.key.text, e.value, acc).value;
        if kept == [] {
          assert [] + pruned == pruned;
          NameSpacesKept(rest, next, acc', disclose, decode);
        } else {
          var one := [Pair(e.key, CborArray(kept))];
          assert (one + pruned)[0] == one[0] && (one + pruned)[1..] == pruned;
          NameSpacesKept(rest, next, h(e.key.text, CborArray(kept), acc').value, disclose, decode);
        }
      } else {
        NothingKept(e.key, e.value.items, disclose, decode);
        assert [] + pruned == pruned;
        NameSpacesKept(rest, acc, acc', disclose, decode);
      }
    }
  }

  lemma {:induction false} NothingKept(key: Value, items: seq<Value>, disclose: set<Text>, decode: Decoder)
    requires !key.CborText?
    ensures KeptItems(key, items, disclose, decode) == []
  {
    if items != [] {
      NothingKept(key, items[1..], disclose, decode);
    }
  }

  // ---------------------------------------------------------------------------------------------
  // Replacing the value under one key commutes with folding over the map
  // ---------------------------------------------------------------------------------------------

  /** `h` looks only at `key`, and on it respects `rel` when the value is transformed. */
  ghost predicate Commutes<A(!new)>(key: Text, f: Transform, h: (Text, Value, A) -> Option<A>, rel: (A, A) -> bool) {
    && (forall k, v, a {:trigger h(k, v, a)} :: k != key ==> h(k, v, a) == Some(a))
    && (forall v, a, a' {:trigger h(key, v, a), rel(a', a)} :: rel(a', a) && f(v).Ok? && h(key, v, a).Some? ==>
          h(key, f(v).value, a').Some? && rel(h(key, f(v).value, a').value, h(key, v, a).value))
  }

  lemma {:induction false} FoldReplaced<A(!new)>(entries: seq<Pair>, key: Text, f: Transform, h: (Text, Value, A) -> Option<A>,
                                           rel: (A, A) -> bool, acc: A, acc': A)
    requires ReplaceEntries(entries, key, f).Ok? && FoldPairs(entries, acc, h).Some?
    requires Commutes(key, f, h, rel) && rel(acc', acc)
    ensures var after := FoldPairs(ReplaceEntries(entries, key, f).value, acc', h);
            after.Some? && rel(after.value, FoldPairs(entries, acc, h).value)
    decreases |entries|
  {
    if entries != [] {
      var e, rest := entries[0], entries[1..];
      var v := if e.key == CborText(key) then f(e.value).value else e.value;
      var out := ReplaceEntries(rest, key, f).value;
      assert ([Pair(e.key, v)] + out)[1..] == out;
      if e.key.CborText? {
        var k := e.key.text;
        assert h(k, e.value, acc).Some?;
        assert h(k, v, acc').Some? && rel(h(k, v, acc').value, h(k, e.value, acc).value);
        FoldReplaced(rest, key, f, h, rel, h(k, e.value, acc).value, h(k, v, acc').value);
      } else {
        FoldReplaced(rest, key, f, h, rel, acc, acc');
      }
    }
  }

  ghost function FilteredBy(disclose: set<Text>): (RawDocumentItems, RawDocumentItems) -> bool {
    (a, b) => Filtered(a, b, disclose)
  }

  ghost function AllFilteredBy(disclose: set<Text>): (seq<RawDocumentItems>, seq<RawDocumentItems>) -> bool {
    (a, b) => AllFiltered(a, b, disclose)
  }

  lemma IssuerSignedCommutes(disclose: set<Text>, decode: Decoder)
    ensures Commutes(Lit("nameSpaces"), PruneNameSpaces(disclose, decode), ValueIssuerSigned(decode), FilteredBy(disclose))
  {
    hide Filtered, PruneEntries, FoldPairs, ValueNameSpace;
    var key, f, h, rel := Lit("nameSpaces"), PruneNameSpaces(disclose, decode), ValueIssuerSigned(decode), FilteredBy(disclose);
    forall v: Value, a: RawDocumentItems, a': RawDocumentItems | rel(a', a) && f(v).Ok? && h(key, v, a).Some?
      ensures h(key, f(v).value, a').Some? && rel(h(key, f(v).value, a').value, h(key, v, a).value)
    {
      NameSpacesKept(v.entries, a, a', disclose, decode);
    }
  }

  lemma DocumentCommutes(disclose: set<Text>, decode: Decoder)
    ensures Commutes(Lit("issuerSigned"), Replacing(Lit("nameSpaces"), false, PruneNameSpaces(disclose, decode)),
                     ValueDocument(decode), FilteredBy(disclose))
  {
    hide Filtered, ReplaceEntries, FoldPairs, ValueIssuerSigned, PruneNameSpaces, HasKey;
    var inner := PruneNameSpaces(disclose, decode);
    var key, f, h, rel := Lit("issuerSigned"), Replacing(Lit("nameSpaces"), false, inner), ValueDocument(decode), FilteredBy(disclose);
    IssuerSignedCommutes(disclose, decode);
    forall v: Value, a: RawDocumentItems, a': RawDocumentItems | rel(a', a) && f(v).Ok? && h(key, v, a).Some?
      ensures h(key, f(v).value, a').Some? && rel(h(key, f(v).value, a').value, h(key, v, a).value)
    {
      FoldReplaced(v.entries, Lit("nameSpaces"), inner, ValueIssuerSigned(decode), rel, a, a');
    }
  }

  lemma DocumentKept(doc: Value, disclose: set<Text>, decode: Decoder)
    requires PruneDocument(disclose, decode)(doc).Ok? && DocumentOf(doc, decode).Some?
    ensures var after := DocumentOf(PruneDocument(disclose, decode)(doc).value, decode);
            after.Some? && Filtered(after.value, DocumentOf(doc, decode).value, disclose)
  {
    hide ReplaceEntries, FoldPairs, ValueDocument, PruneNameSpaces, HasKey;
    var inner := Replacing(Lit("nameSpaces"), false, PruneNameSpaces(disclose, decode));
    DocumentCommutes(disclose, decode);
    assert FilteredBy(disclose)(map[], map[]);
    FoldReplaced(doc.entries, Lit("issuerSigned"), inner, ValueDocument(decode), FilteredBy(disclose), map[], map[]);
  }

  lemma {:induction false} DocumentsKept(docs: seq<Value>, acc: seq<RawDocumentItems>, acc': seq<RawDocumentItems>,
                                   disclose: set<Text>, decode: Decoder)
    requires MapItems(docs, PruneDocument(disclose, decode)).Ok? && DocumentsOf(docs, acc, decode).Some?
    requires AllFiltered(acc', acc, disclose)
    ensures var after := DocumentsOf(MapItems(docs, PruneDocument(disclose, decode)).value, acc', decode);
            after.Some? && AllFiltered(after.value, DocumentsOf(docs, acc, decode).value, disclose)
    decreases |docs|
  {
    hide PruneDocument, DocumentOf, Filtered;
    if docs != [] {
      var rest := MapItems(docs[1..], PruneDocument(disclose, decode)).value;
      var doc' := PruneDocument(disclose, decode)(docs[0]).value;
      assert ([doc'] + rest)[1..] == rest;
      DocumentKept(docs[0], disclose, decode);
      DocumentsKept(docs[1..], acc + [DocumentOf(docs[0], decode).value], acc' + [DocumentOf(doc', decode).value], disclose, decode);
    }
  }

  lemma ResponseCommutes(disclose: set<Text>, decode: Decoder)
    ensures Commutes(Lit("documents"), PruneDocuments(disclose, decode), ValueResponse(decode), AllFilteredBy(disclose))
  {
    hide AllFiltered, MapItems, DocumentsOf, PruneDocument;
    var key, f, h, rel := Lit("documents"), PruneDocuments(disclose, decode), ValueResponse(decode), AllFilteredBy(disclose);
    forall v: Value, a: seq<RawDocumentItems>, a': seq<RawDocumentItems> | rel(a', a) && f(v).Ok? && h(key, v, a).Some?
      ensures h(key, f(v).value, a').Some? && rel(h(key, f(v).value, a').value, h(key, v, a).value)
    {
      DocumentsKept(v.items, a, a', disclose, decode);
    }
  }

  /** Pruning filters the capture of every document and changes nothing else in it. */
  lemma ResponseKept(response: Value, disclose: set<Text>, decode: Decoder)
    requires PruneIssuerSigned(response, disclose, decode).Ok? && ResponseOf(response, decode).Some?
    ensures var after := ResponseOf(PruneIssuerSigned(response, disclose, decode).value, decode);
            after.Some? && AllFiltered(after.value, ResponseOf(response, decode).value, disclose)
  {
    hide ReplaceEntries, FoldPairs, ValueResponse, PruneDocuments, HasKey;
    ResponseCommutes(disclose, decode);
    assert AllFilteredBy(disclose)([], []);
    FoldReplaced(response.entries, Lit("documents"), PruneDocuments(disclose, decode), ValueResponse(decode),
                 AllFilteredBy(disclose), [], []);
  }

  // ---------------------------------------------------------------------------------------------
  // The pruned response can be written
  // ---------------------------------------------------------------------------------------------

  ghost predicate KeepsRepresentable(f: Transform) {
    forall v :: Representable(v) && f(v).Ok? ==> Representable(f(v).value)
  }

  lemma {:induction false} ReplaceRepresentable(entries: seq<Pair>, key: Text, f: Transform)
    requires PairsRepresentable(entries) && ReplaceEntries(entries, key, f).Ok? && KeepsRepresentable(f)
    ensures PairsRepresentable(ReplaceEntries(entries, key, f).value) && |ReplaceEntries(entries, key, f).value| == |entries|
    decreases |entries|
  {
    hide Representable;
    if entries != [] {
      var rest := ReplaceEntries(entries[1..], key, f).value;
      ReplaceRepresentable(entries[1..], key, f);
      var out := ReplaceEntries(entries, key, f).value;
      assert out[1..] == rest;
    }
  }

  lemma ReplacingRepresentable(key: Text, required: bool, f: Transform)
    requires KeepsRepresentable(f)
    ensures KeepsRepresentable(Replacing(key, required, f))
  {
    hide ReplaceEntries, PairsRepresentable, KeepsRepresentable, HasKey;
    var g := Replacing(key, required, f);
    forall v | Representable(v) && g(v).Ok? ensures Representable(g(v).value) {
      ReplaceRepresentable(v.entries, key, f);
    }
    KeepsIntro(g);
  }

  lemma KeepsIntro(g: Transform)
    requires forall v :: Representable(v) && g(v).Ok? ==> Representable(g(v).value)
    ensures KeepsRepresentable(g)
  {
  }

  lemma {:induction false} ItemsRepresentable(items: seq<Value>, f: Transform)
    requires AllRepresentable(items) && MapItems(items, f).Ok? && KeepsRepresentable(f)
    ensures AllRepresentable(MapItems(items, f).value) && |MapItems(items, f).value| == |items|
    decreases |items|
  {
    hide Representable;
    if items != [] {
      ItemsRepresentable(items[1..], f);
      var out := MapItems(items, f).value;
      assert out[1..] == MapItems(items[1..], f).value;
    }
  }

  lemma {:induction false} KeptRepresentable(key: Value, items: seq<Value>, disclose: set<Text>, decode: Decoder)
    requires AllRepresentable(items)
    ensures AllRepresentable(KeptItems(key, items, disclose, decode))
    decreases |items|
  {
    hide Representable, Keep;
    if items != [] {
      KeptRepresentable(key, items[1..], disclose, decode);
      var rest := KeptItems(key, items[1..], disclose, decode);
      assert ([items[0]] + rest)[1..] == rest && [] + rest == rest;
    }
  }

  lemma {:induction false} EntriesRepresentable(entries: seq<Pair>, disclose: set<Text>, decode: Decoder)
    requires PairsRepresentable(entries) && PruneEntries(entries, disclose, decode).Ok?
    ensures var out := PruneEntries(entries, disclose, decode).value;
            PairsRepresentable(out) && |out| <= |entries|
    decreases |entries|
  {
    hide KeptItems;
    if entries != [] {
      var e := entries[0];
      var rest := PruneEntries(entries[1..], disclose, decode).value;
      EntriesRepresentable(entries[1..], disclose, decode);
      assert PairRepresentable(e) && Representable(e.value);
      KeptRepresentable(e.key, e.value.items, disclose, decode);
      var one := [Pair(e.key, CborArray(KeptItems(e.key, e.value.items, disclose, decode)))];
      assert PairRepresentable(one[0]);
      assert (one + rest)[1..] == rest && [] + rest == rest;
    }
  }

  lemma PruneRepresentable(response: Value, disclose: set<Text>, decode: Decoder)
    requires Representable(response) && PruneIssuerSigned(response, disclose, decode).Ok?
    ensures Representable(PruneIssuerSigned(response, disclose, decode).value)
  {
    hide ReplaceEntries, PairsRepresentable, AllRepresentable, PruneEntries, MapItems, HasKey;
    var f0 := PruneNameSpaces(disclose, decode);
    forall v | Representable(v) && f0(v).Ok? ensures Representable(f0(v).value) {
      EntriesRepresentable(v.entries, disclose, decode);
    }
    KeepsIntro(f0);
    var f1 := Replacing(Lit("nameSpaces"), false, f0);
    ReplacingRepresentable(Lit("nameSpaces"), false, f0);
    ReplacingRepresentable(Lit("issuerSigned"), false, f1);
    var f2 := PruneDocuments(disclose, decode);
    forall v | Representable(v) && f2(v).Ok? ensures Representable(f2(v).value) {
      ItemsRepresentable(v.items, PruneDocument(disclose, decode));
    }
    KeepsIntro(f2);
    ReplacingRepresentable(Lit("documents"), false, f2);
    assert Replacing(Lit("documents"), false, f2)(response) == PruneIssuerSigned(response, disclose, decode);
  }
}
