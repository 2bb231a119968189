/**
  Pruning preserves verification.  The verifier accepts the pruned response under the same signed
  digests and discloses exactly the original facts restricted to the disclosed identifiers, provided
  the decoded and the captured item counts still agree; unique map keys guarantee that they do.
*/
module PrunedVerification {
  import opened Prelude
  import CborWire
  import opened CborValue
  import opened IssuerItemScan
  import opened CborEncoding
  import opened Disclosure
  import opened Pruning
  import opened PrunedCapture

  function RestrictGroup(ns: Text, group: map<Text, AttributeValue>, disclose: set<Text>): map<Text, AttributeValue> {
    map id | id in group && QualifiedElementId(ns, id) in disclose :: group[id]
  }

  function Restrict(d: Disclosed, disclose: set<Text>): Disclosed {
    map ns | ns in d && RestrictGroup(ns, d[ns], disclose) != map[] :: RestrictGroup(ns, d[ns], disclose)
  }

  predicate Qualifies(t: Triple, disclose: set<Text>) {
    QualifiedElementId(t.ns, t.id) in disclose
  }

  lemma RestrictExact(d: Disclosed, disclose: set<Text>)
    ensures NoEmptyGroup(Restrict(d, disclose))
    ensures forall t :: t in Triples(Restrict(d, disclose)) <==> t in Triples(d) && Qualifies(t, disclose)
  {
    var r := Restrict(d, disclose);
    forall t | t in Triples(d) && Qualifies(t, disclose) ensures t in Triples(r) {
      var group := RestrictGroup(t.ns, d[t.ns], disclose);
      assert t.id in group;
      assert group != map[];
      assert t.ns in r && t.id in r[t.ns] && r[t.ns][t.id] == t.value;
    }
  }

  // ---------------------------------------------------------------------------------------------
  // Kept records and pruned entries
  // ---------------------------------------------------------------------------------------------

  lemma {:induction false} KeptMember(ns: Text, rs: seq<RawIssuerItem>, disclose: set<Text>, r: RawIssuerItem)
    ensures r in KeptRecords(ns, rs, disclose) <==> r in rs && KeepRecord(ns, r, disclose)
    decreases |rs|
  {
    if rs != [] {
      var last := |rs| - 1;
      KeptMember(ns, rs[..last], disclose, r);
      assert rs == rs[..last] + [rs[last]];
    }
  }

  lemma {:induction false} KeptDistinct(ns: Text, rs: seq<RawIssuerItem>, disclose: set<Text>)
    requires DistinctIds(rs)
    ensures DistinctIds(KeptRecords(ns, rs, disclose))
    decreases |rs|
  {
    if rs != [] {
      var last := |rs| - 1;
      var before := rs[..last];
      forall i, j | 0 <= i < j < |before| ensures before[i].digestId != before[j].digestId {
      }
      KeptDistinct(ns, before, disclose);
      var kept := KeptRecords(ns, before, disclose);
      forall k | 0 <= k < |kept| ensures kept[k].digestId != rs[last].digestId {
        KeptMember(ns, before, disclose, kept[k]);
        var i :| 0 <= i < last && before[i] == kept[k];
        assert rs[i] == kept[k];
      }
    }
  }

  ghost predicate PrunedTo(e: Pair, e': Pair, disclose: set<Text>, decode: Decoder) {
    && e.value.CborArray?
    && KeptItems(e.key, e.value.items, disclose, decode) != []
    && e' == Pair(e.key, CborArray(KeptItems(e.key, e.value.items, disclose, decode)))
  }

  lemma {:induction false} PrunedEntries(entries: seq<Pair>, disclose: set<Text>, decode: Decoder)
    requires PruneEntries(entries, disclose, decode).Ok?
    ensures var out := PruneEntries(entries, disclose, decode).value;
            && (forall e' :: e' in out ==> exists e :: e in entries && PrunedTo(e, e', disclose, decode))
            && (forall e, e' :: e in entries && PrunedTo(e, e', disclose, decode) ==> e' in out)
    decreases |entries|
  {
    hide KeptItems;
    if entries != [] {
      var first, rest := entries[0], entries[1..];
      PrunedEntries(rest, disclose, decode);
      assert entries == [first] + rest;
      var out := PruneEntries(entries, disclose, decode).value;
      forall e' | e' in out ensures exists e :: e in entries && PrunedTo(e, e', disclose, decode) {
        if e' in PruneEntries(rest, disclose, decode).value {
          var e :| e in rest && PrunedTo(e, e', disclose, decode);
          assert e in entries;
        } else {
          assert PrunedTo(first, e', disclose, decode);
        }
      }
      forall e, e' | e in entries && PrunedTo(e, e', disclose, decode) ensures e' in out {
        if e != first { assert e in rest; }
      }
    }
  }

  /** The item and record counts of every listed namespace agree after pruning. */
  ghost predicate CountsAgree(entries: seq<Pair>, raw: RawDocumentItems, disclose: set<Text>, decode: Decoder) {
    forall e :: e in entries ==> EntryAgrees(e, entries, raw, disclose, decode)
  }

  ghost predicate EntryAgrees(e: Pair, entries: seq<Pair>, raw: RawDocumentItems, disclose: set<Text>, decode: Decoder) {
    e.key.CborText? && e.value.CborArray? ==>
      var records := KeptRecords(e.key.text, Captured(raw, e.key.text), disclose);
      var kept := KeptItems(e.key, e.value.items, disclose, decode);
      if kept == [] then records == [] || KeptElsewhere(e.key, entries, disclose, decode) else |kept| == |records|
  }

  ghost predicate KeptElsewhere(key: Value, entries: seq<Pair>, disclose: set<Text>, decode: Decoder) {
    exists e, e' :: e in entries && e.key == key && PrunedTo(e, e', disclose, decode)
  }

  // ---------------------------------------------------------------------------------------------
  // Kept records, rewritten
  // ---------------------------------------------------------------------------------------------

  /** `after` holds the disclosed records of `before`, each with its span in shortest form. */
  ghost predicate Rewritten(after: RawDocumentItems, before: RawDocumentItems, disclose: set<Text>) {
    forall ns :: Captured(after, ns) == ReframedAll(KeptRecords(ns, Captured(before, ns), disclose))
  }

  lemma {:induction false} KeptReframed(ns: Text, rs: seq<RawIssuerItem>, disclose: set<Text>)
    ensures KeptRecords(ns, ReframedAll(rs), disclose) == ReframedAll(KeptRecords(ns, rs, disclose))
    decreases |rs|
  {
    hide Shortest;
    if rs != [] {
      var last := |rs| - 1;
      KeptReframed(ns, rs[..last], disclose);
      assert ReframedAll(rs)[..last] == ReframedAll(rs[..last]);
    }
  }

  lemma FilteredIsRewritten(after: RawDocumentItems, before: RawDocumentItems, disclose: set<Text>)
    requires Filtered(after, SeenItems(false, before), disclose)
    ensures Rewritten(after, before, disclose)
  {
    hide KeptRecords, SeenItems;
    forall ns ensures Captured(after, ns) == ReframedAll(KeptRecords(ns, Captured(before, ns), disclose)) {
      SeenUpdate(false, before, ns, []);
      KeptReframed(ns, Captured(before, ns), disclose);
    }
  }

  /** Rewriting the heads of a kept element in shortest form leaves its digest the signed one. */
  ghost predicate FramingSigned(entries: seq<Pair>, raw: RawDocumentItems, disclose: set<Text>, digest: Digest) {
    forall e, r :: e in entries && e.key.CborText? && r in Captured(raw, e.key.text) && KeepRecord(e.key.text, r, disclose) ==>
      digest(Shortest(r.rawBytes)) == digest(r.rawBytes)
  }

  /** A kept record, as it is captured after pruning. */
  lemma InRewritten(ns: Text, rs: seq<RawIssuerItem>, disclose: set<Text>, r': RawIssuerItem) returns (r: RawIssuerItem)
    requires r' in ReframedAll(KeptRecords(ns, rs, disclose))
    ensures r in rs && KeepRecord(ns, r, disclose) && r' == Reframed(r)
  {
    hide Shortest, KeptRecords, KeepRecord;
    var kept := KeptRecords(ns, rs, disclose);
    var i :| 0 <= i < |kept| && ReframedAll(kept)[i] == r';
    r := kept[i];
    KeptMember(ns, rs, disclose, r);
  }

  lemma RewrittenHas(ns: Text, rs: seq<RawIssuerItem>, disclose: set<Text>, r: RawIssuerItem)
    requires r in rs && KeepRecord(ns, r, disclose)
    ensures Reframed(r) in ReframedAll(KeptRecords(ns, rs, disclose))
  {
    hide Shortest, KeptRecords, KeepRecord;
    KeptMember(ns, rs, disclose, r);
    var kept := KeptRecords(ns, rs, disclose);
    var i :| 0 <= i < |kept| && kept[i] == r;
    assert ReframedAll(kept)[i] == Reframed(r);
  }

  lemma RewrittenDistinct(ns: Text, rs: seq<RawIssuerItem>, disclose: set<Text>)
    requires DistinctIds(rs)
    ensures DistinctIds(ReframedAll(KeptRecords(ns, rs, disclose)))
  {
    hide Shortest, KeptRecords;
    KeptDistinct(ns, rs, disclose);
  }

  lemma SameFact(ns: Text, r: RawIssuerItem)
    ensures TripleOf(ns, Reframed(r)) == TripleOf(ns, r) && Reframed(r).digestId == r.digestId
  {
  }

  // ---------------------------------------------------------------------------------------------
  // One document
  // ---------------------------------------------------------------------------------------------

  lemma PrunedSigned(entries: seq<Pair>, raw: RawDocumentItems, raw': RawDocumentItems, valueDigests: seq<Pair>, digest: Digest,
                     disclose: set<Text>, decode: Decoder)
    requires AllSigned(entries, raw, valueDigests, digest) && PruneEntries(entries, disclose, decode).Ok?
    requires Rewritten(raw', raw, disclose) && CountsAgree(entries, raw, disclose, decode)
    requires FramingSigned(entries, raw, disclose, digest)
    ensures AllSigned(PruneEntries(entries, disclose, decode).value, raw', valueDigests, digest)
  {
    hide PruneEntries, KeptItems, KeptRecords, ExpectedById, KeepRecord, Shortest, ReframedAll, DistinctIds;
    var out := PruneEntries(entries, disclose, decode).value;
    PrunedEntries(entries, disclose, decode);
    forall e' | e' in out ensures NameSpaceSigned(e', raw', valueDigests, digest) {
      var e :| e in entries && PrunedTo(e, e', disclose, decode);
      assert NameSpaceSigned(e, raw, valueDigests, digest);
      var ns := e.key.text;
      assert EntryAgrees(e, entries, raw, disclose, decode);
      assert Captured(raw', ns) == ReframedAll(KeptRecords(ns, raw[ns], disclose));
      assert ns in raw' && |raw'[ns]| == |e'.value.items|;
      RewrittenDistinct(ns, raw[ns], disclose);
      var expected := ExpectedById(AsMap(FindText(valueDigests, ns)).value);
      forall r' | r' in raw'[ns] ensures DigestMatches(r', expected, digest) {
        var r := InRewritten(ns, raw[ns], disclose, r');
        assert DigestMatches(r, expected, digest);
        SameFact(ns, r);
      }
    }
  }

  /** What the pruned document lists was listed and is disclosed. */
  lemma OnlyDisclosedListed(entries: seq<Pair>, raw: RawDocumentItems, raw': RawDocumentItems, disclose: set<Text>,
                            decode: Decoder, t: Triple)
    requires PruneEntries(entries, disclose, decode).Ok? && Rewritten(raw', raw, disclose)
    requires Listed(PruneEntries(entries, disclose, decode).value, raw', t)
    ensures Listed(entries, raw, t) && Qualifies(t, disclose)
  {
    hide PruneEntries, KeptItems, KeptRecords, TripleOf, ReframedAll, Reframed;
    var out := PruneEntries(entries, disclose, decode).value;
    PrunedEntries(entries, disclose, decode);
    assert Captured(raw', t.ns) == ReframedAll(KeptRecords(t.ns, Captured(raw, t.ns), disclose));
    var e', r' :| e' in out && e'.key == CborText(t.ns) && t.ns in raw' && r' in raw'[t.ns] && t == TripleOf(t.ns, r');
    var e :| e in entries && PrunedTo(e, e', disclose, decode);
    var r := InRewritten(t.ns, Captured(raw, t.ns), disclose, r');
    SameFact(t.ns, r);
    FactQualifies(t.ns, r, disclose);
    assert Listed(entries, raw, t);
  }

  /** A disclosed fact stays listed if some entry of its name space keeps an element. */
  lemma StaysListed(entries: seq<Pair>, raw: RawDocumentItems, raw': RawDocumentItems, disclose: set<Text>, decode: Decoder, t: Triple)
    requires PruneEntries(entries, disclose, decode).Ok? && Rewritten(raw', raw, disclose)
    requires Listed(entries, raw, t) && Qualifies(t, disclose) && KeptElsewhere(CborText(t.ns), entries, disclose, decode)
    ensures Listed(PruneEntries(entries, disclose, decode).value, raw', t)
  {
    hide PruneEntries, KeptItems, KeptRecords, TripleOf, ReframedAll, Reframed;
    var out := PruneEntries(entries, disclose, decode).value;
    PrunedEntries(entries, disclose, decode);
    assert Captured(raw', t.ns) == ReframedAll(KeptRecords(t.ns, Captured(raw, t.ns), disclose));
    var e, r :| e in entries && e.key == CborText(t.ns) && t.ns in raw && r in raw[t.ns] && t == TripleOf(t.ns, r);
    FactQualifies(t.ns, r, disclose);
    RewrittenHas(t.ns, raw[t.ns], disclose, r);
    SameFact(t.ns, r);
    assert Reframed(r) in raw'[t.ns];
    var e2, e' :| e2 in entries && e2.key == CborText(t.ns) && PrunedTo(e2, e', disclose, decode);
    assert e' in out;
  }

  lemma PrunedListed(entries: seq<Pair>, raw: RawDocumentItems, raw': RawDocumentItems, disclose: set<Text>, decode: Decoder, t: Triple)
    requires PruneEntries(entries, disclose, decode).Ok? && Rewritten(raw', raw, disclose)
    requires forall e :: e in entries ==> e.value.CborArray?
    requires CountsAgree(entries, raw, disclose, decode)
    ensures Listed(PruneEntries(entries, disclose, decode).value, raw', t) <==> Listed(entries, raw, t) && Qualifies(t, disclose)
  {
    hide PruneEntries, KeptItems, KeptRecords, TripleOf, Rewritten, Qualifies;
    if Listed(PruneEntries(entries, disclose, decode).value, raw', t) {
      OnlyDisclosedListed(entries, raw, raw', disclose, decode, t);
    }
    if Listed(entries, raw, t) && Qualifies(t, disclose) {
      var e, r :| e in entries && e.key == CborText(t.ns) && t.ns in raw && r in raw[t.ns] && t == TripleOf(t.ns, r);
      FactQualifies(t.ns, r, disclose);
      KeptMember(t.ns, raw[t.ns], disclose, r);
      assert EntryAgrees(e, entries, raw, disclose, decode);
      var kept := KeptItems(e.key, e.value.items, disclose, decode);
      if kept != [] {
        assert PrunedTo(e, Pair(e.key, CborArray(kept)), disclose, decode);
      }
      assert KeptElsewhere(e.key, entries, disclose, decode);
      StaysListed(entries, raw, raw', disclose, decode, t);
    }
  }

  lemma FactQualifies(ns: Text, r: RawIssuerItem, disclose: set<Text>)
    ensures KeepRecord(ns, r, disclose) <==> Qualifies(TripleOf(ns, r), disclose)
    ensures TripleOf(ns, r).ns == ns
  {
  }

  /** A kept record's namespace is still listed, with the record rewritten in it. */
  lemma StillListed(entries: seq<Pair>, raw: RawDocumentItems, raw': RawDocumentItems, disclose: set<Text>, decode: Decoder,
                    e: Pair, r: RawIssuerItem) returns (e': Pair)
    requires PruneEntries(entries, disclose, decode).Ok? && Rewritten(raw', raw, disclose)
    requires var out := PruneEntries(entries, disclose, decode).value;
             forall t :: Listed(entries, raw, t) && Qualifies(t, disclose) ==> Listed(out, raw', t)
    requires e in entries && e.key.CborText? && r in Captured(raw, e.key.text) && KeepRecord(e.key.text, r, disclose)
    ensures e' in PruneEntries(entries, disclose, decode).value && e'.key == e.key
    ensures Reframed(r) in Captured(raw', e.key.text)
  {
    hide PruneEntries, KeptRecords, TripleOf, ReframedAll, Reframed;
    var ns := e.key.text;
    FactQualifies(ns, r, disclose);
    RewrittenHas(ns, Captured(raw, ns), disclose, r);
    var t := TripleOf(ns, r);
    assert Listed(entries, raw, t);
    assert Listed(PruneEntries(entries, disclose, decode).value, raw', t);
    e' :| e' in PruneEntries(entries, disclose, decode).value && e'.key == CborText(ns);
  }

  lemma CountsFollow(entries: seq<Pair>, raw: RawDocumentItems, raw': RawDocumentItems, disclose: set<Text>, decode: Decoder,
                     valueDigests: seq<Pair>, digest: Digest)
    requires PruneEntries(entries, disclose, decode).Ok? && Rewritten(raw', raw, disclose)
    requires var out := PruneEntries(entries, disclose, decode).value;
             && AllSigned(out, raw', valueDigests, digest)
             && forall t :: Listed(entries, raw, t) && Qualifies(t, disclose) ==> Listed(out, raw', t)
    ensures CountsAgree(entries, raw, disclose, decode)
  {
    hide PruneEntries, KeptItems, KeptRecords, ExpectedById, DigestMatches, TripleOf, ReframedAll, KeepRecord;
    var out := PruneEntries(entries, disclose, decode).value;
    PrunedEntries(entries, disclose, decode);
    forall e | e in entries ensures EntryAgrees(e, entries, raw, disclose, decode) {
      if e.key.CborText? && e.value.CborArray? {
        var ns := e.key.text;
        var records, kept := KeptRecords(ns, Captured(raw, ns), disclose), KeptItems(e.key, e.value.items, disclose, decode);
        if kept != [] {
          var e' := Pair(e.key, CborArray(kept));
          assert PrunedTo(e, e', disclose, decode);
          assert NameSpaceSigned(e', raw', valueDigests, digest);
          assert Captured(raw', ns) == ReframedAll(records);
        } else if records != [] {
          KeptMember(ns, Captured(raw, ns), disclose, records[0]);
          var e' := StillListed(entries, raw, raw', disclose, decode, e, records[0]);
          var e2 :| e2 in entries && PrunedTo(e2, e', disclose, decode);
          assert KeptElsewhere(e.key, entries, disclose, decode);
        }
      }
    }
  }

  lemma FramingFollows(entries: seq<Pair>, raw: RawDocumentItems, raw': RawDocumentItems, disclose: set<Text>, decode: Decoder,
                       valueDigests: seq<Pair>, digest: Digest)
    requires PruneEntries(entries, disclose, decode).Ok? && Rewritten(raw', raw, disclose)
    requires AllSigned(entries, raw, valueDigests, digest)
    requires var out := PruneEntries(entries, disclose, decode).value;
             && AllSigned(out, raw', valueDigests, digest)
             && forall t :: Listed(entries, raw, t) && Qualifies(t, disclose) ==> Listed(out, raw', t)
    ensures FramingSigned(entries, raw, disclose, digest)
  {
    hide PruneEntries, KeptRecords, ExpectedById, TripleOf, ReframedAll, KeepRecord, DistinctIds, Shortest;
    forall e, r | e in entries && e.key.CborText? && r in Captured(raw, e.key.text) && KeepRecord(e.key.text, r, disclose)
      ensures digest(Shortest(r.rawBytes)) == digest(r.rawBytes)
    {
      var ns := e.key.text;
      var e' := StillListed(entries, raw, raw', disclose, decode, e, r);
      assert NameSpaceSigned(e, raw, valueDigests, digest) && NameSpaceSigned(e', raw', valueDigests, digest);
      var expected := ExpectedById(AsMap(FindText(valueDigests, ns)).value);
      assert DigestMatches(r, expected, digest) && DigestMatches(Reframed(r), expected, digest);
    }
  }

  /**
    For an accepted document: the pruned one discloses the restricted facts exactly when the counts
    agree and every kept element's shortest form has its signed digest.
  */
  lemma PrunedDisclosure(issuerSigned: Value, issuerSigned': Value, raw: RawDocumentItems, raw': RawDocumentItems,
                         mso: Value, digest: Digest, disclose: set<Text>, decode: Decoder, d: Disclosed)
    requires VerifyValueDigests(issuerSigned, Some(raw), mso, digest) == Ok(d)
    requires NameSpaces(issuerSigned).Some? && PruneEntries(NameSpaces(issuerSigned).value, disclose, decode).Ok?
    requires NameSpaces(issuerSigned') == Some(PruneEntries(NameSpaces(issuerSigned).value, disclose, decode).value)
    requires Rewritten(raw', raw, disclose)
    ensures VerifyValueDigests(issuerSigned', Some(raw'), mso, digest) == Ok(Restrict(d, disclose))
       <==> && CountsAgree(NameSpaces(issuerSigned).value, raw, disclose, decode)
            && FramingSigned(NameSpaces(issuerSigned).value, raw, disclose, digest)
  {
    hide VerifyValueDigests, PruneEntries, NameSpaces, ValueDigests, Listed, AllSigned, Triples, Rewritten, CountsAgree, Qualifies,
      Restrict, FramingSigned;
    var entries := NameSpaces(issuerSigned).value;
    var out := PruneEntries(entries, disclose, decode).value;
    DisclosureExact(issuerSigned, Some(raw), mso, digest, d);
    DisclosureExact(issuerSigned', Some(raw'), mso, digest, Restrict(d, disclose));
    RestrictExact(d, disclose);
    var vd := ValueDigests(mso).value;
    SignedShape(entries, raw, vd, digest);
    if CountsAgree(entries, raw, disclose, decode) && FramingSigned(entries, raw, disclose, digest) {
      PrunedSigned(entries, raw, raw', vd, digest, disclose, decode);
      forall t ensures t in Triples(Restrict(d, disclose)) <==> Listed(out, raw', t) {
        PrunedListed(entries, raw, raw', disclose, decode, t);
      }
    }
    if VerifyValueDigests(issuerSigned', Some(raw'), mso, digest) == Ok(Restrict(d, disclose)) {
      forall t | Listed(entries, raw, t) && Qualifies(t, disclose) ensures Listed(out, raw', t) {
        assert t in Triples(d);
      }
      CountsFollow(entries, raw, raw', disclose, decode, vd, digest);
      FramingFollows(entries, raw, raw', disclose, decode, vd, digest);
    }
  }

  lemma SignedShape(entries: seq<Pair>, raw: RawDocumentItems, valueDigests: seq<Pair>, digest: Digest)
    requires AllSigned(entries, raw, valueDigests, digest)
    ensures forall e :: e in entries ==> e.key.CborText? && e.value.CborArray? && e.key.text in raw
                                         && |raw[e.key.text]| == |e.value.items|
  {
    forall e | e in entries ensures e.key.CborText? && e.value.CborArray? && e.key.text in raw && |raw[e.key.text]| == |e.value.items| {
      assert NameSpaceSigned(e, raw, valueDigests, digest);
    }
  }

  // ---------------------------------------------------------------------------------------------
  // The whole response
  // ---------------------------------------------------------------------------------------------

  function DocumentsIn(response: Value): Option<seq<Value>> {
    AsArray(GetMapEntry(response, Lit("documents")))
  }

  /** Where the pruner leaves document `i` and its issuer-signed part. */
  lemma PrunedParts(response: Value, disclose: set<Text>, decode: Decoder, i: nat)
    requires PruneIssuerSigned(response, disclose, decode).Ok?
    requires DocumentsIn(response).Some? && i < |DocumentsIn(response).value|
    requires var issuerSigned := GetMapEntry(DocumentsIn(response).value[i], Lit("issuerSigned"));
             issuerSigned.Some? && NameSpaces(issuerSigned.value).Some?
    ensures var docs' := DocumentsIn(PruneIssuerSigned(response, disclose, decode).value);
            var issuerSigned := GetMapEntry(DocumentsIn(response).value[i], Lit("issuerSigned")).value;
            && docs'.Some? && |docs'.value| == |DocumentsIn(response).value|
            && PruneEntries(NameSpaces(issuerSigned).value, disclose, decode).Ok?
            && GetMapEntry(docs'.value[i], Lit("issuerSigned")).Some?
            && NameSpaces(GetMapEntry(docs'.value[i], Lit("issuerSigned")).value)
               == Some(PruneEntries(NameSpaces(issuerSigned).value, disclose, decode).value)
  {
    hide ReplaceEntries, FindText, HasKey, PruneEntries, MapItems, Lit;
    var docs := DocumentsIn(response).value;
    FindReplaced(response.entries, Lit("documents"), PruneDocuments(disclose, decode), Lit("documents"));
    MapItemsAt(docs, PruneDocument(disclose, decode), i);
    var inner := Replacing(Lit("nameSpaces"), false, PruneNameSpaces(disclose, decode));
    FindReplaced(docs[i].entries, Lit("issuerSigned"), inner, Lit("issuerSigned"));
    var issuerSigned := GetMapEntry(docs[i], Lit("issuerSigned")).value;
    FindReplaced(issuerSigned.entries, Lit("nameSpaces"), PruneNameSpaces(disclose, decode), Lit("nameSpaces"));
  }

  /** Document `i` after pruning: its listing is pruned, and the scan captures its kept records rewritten. */
  lemma PrunedView(t: CborWire.Item, response: Value, disclose: set<Text>, decode: Decoder, i: nat)
    requires CborWire.Valid(t) && Denotes(t, response)
    requires ScanResponse(CborWire.Encode(t), decode).Some?
    requires DocumentsIn(response).Some? && i < |DocumentsIn(response).value|
    requires i < |ScanResponse(CborWire.Encode(t), decode).value.acc|
    requires var issuerSigned := GetMapEntry(DocumentsIn(response).value[i], Lit("issuerSigned"));
             issuerSigned.Some? && NameSpaces(issuerSigned.value).Some?
    requires PruneIssuerSigned(response, disclose, decode).Ok?
    ensures var pruned := PruneIssuerSigned(response, disclose, decode).value;
            var raw := ScanResponse(CborWire.Encode(t), decode).value.acc;
            var entries := NameSpaces(GetMapEntry(DocumentsIn(response).value[i], Lit("issuerSigned")).value).value;
            && Representable(pruned)
            && DocumentsIn(pruned).Some? && |DocumentsIn(pruned).value| == |DocumentsIn(response).value|
            && GetMapEntry(DocumentsIn(pruned).value[i], Lit("issuerSigned")).Some?
            && PruneEntries(entries, disclose, decode).Ok?
            && NameSpaces(GetMapEntry(DocumentsIn(pruned).value[i], Lit("issuerSigned")).value)
               == Some(PruneEntries(entries, disclose, decode).value)
            && ScanResponse(Canonical(pruned), decode).Some?
            && (var raw' := ScanResponse(Canonical(pruned), decode).value.acc;
                |raw'| == |raw| && Rewritten(raw'[i], raw[i], disclose))
  {
    hide PruneIssuerSigned, ResponseOf, Representable, PruneEntries, GetMapEntry, DocumentsIn, ScanResponse, Filtered, SeenItems,
      Rewritten;
    var raw := ScanResponse(CborWire.Encode(t), decode).value.acc;
    PrunedParts(response, disclose, decode, i);
    var pruned := PruneIssuerSigned(response, disclose, decode).value;
    RepresentableOfDenotes(t, response);
    PruneRepresentable(response, disclose, decode);
    ScanOfValue(t, response, decode);
    ResponseKept(response, disclose, decode);
    WriterWrites(pruned);
    ScanOfShortest(ToWire(pruned), pruned, decode);
    var raw' := ScanResponse(Canonical(pruned), decode).value.acc;
    FilteredIsRewritten(raw'[i], raw[i], disclose);
  }

  /**
    Pruning preserves verification.  `t` is any wire form of the response, with any head widths.  The
    scan of the pruned bytes succeeds, and document `i` discloses exactly the restricted facts if and
    only if its counts agree and the shortest form of every kept element has its signed digest.
  */
  lemma PruningPreservesVerification(t: CborWire.Item, response: Value, disclose: set<Text>, decode: Decoder,
                                     i: nat, mso: Value, digest: Digest, d: Disclosed)
    requires CborWire.Valid(t) && Denotes(t, response)
    requires ScanResponse(CborWire.Encode(t), decode).Some?
    requires DocumentsIn(response).Some? && i < |DocumentsIn(response).value|
    requires i < |ScanResponse(CborWire.Encode(t), decode).value.acc|
    requires GetMapEntry(DocumentsIn(response).value[i], Lit("issuerSigned")).Some?
    requires VerifyValueDigests(GetMapEntry(DocumentsIn(response).value[i], Lit("issuerSigned")).value,
                                Some(ScanResponse(CborWire.Encode(t), decode).value.acc[i]), mso, digest) == Ok(d)
    requires PruneIssuerSigned(response, disclose, decode).Ok?
    ensures var pruned := PruneIssuerSigned(response, disclose, decode).value;
            var raw := ScanResponse(CborWire.Encode(t), decode).value.acc;
            && Representable(pruned)
            && DocumentsIn(pruned).Some? && |DocumentsIn(pruned).value| == |DocumentsIn(response).value|
            && GetMapEntry(DocumentsIn(pruned).value[i], Lit("issuerSigned")).Some?
            && ScanResponse(Canonical(pruned), decode).Some?
            && (var raw' := ScanResponse(Canonical(pruned), decode).value.acc;
                && |raw'| == |raw|
                && (VerifyValueDigests(GetMapEntry(DocumentsIn(pruned).value[i], Lit("issuerSigned")).value,
                                       Some(raw'[i]), mso, digest) == Ok(Restrict(d, disclose))
                    <==> var entries := NameSpaces(GetMapEntry(DocumentsIn(response).value[i], Lit("issuerSigned")).value).value;
                         CountsAgree(entries, raw[i], disclose, decode) && FramingSigned(entries, raw[i], disclose, digest)))
  {
    hide PruneIssuerSigned, VerifyValueDigests, Representable, CountsAgree, Restrict, PruneEntries, FramingSigned, GetMapEntry,
      DocumentsIn, ScanResponse, Rewritten;
    var issuerSigned := GetMapEntry(DocumentsIn(response).value[i], Lit("issuerSigned")).value;
    var raw := ScanResponse(CborWire.Encode(t), decode).value.acc;
    AcceptedShape(issuerSigned, raw[i], mso, digest);
    PrunedView(t, response, disclose, decode, i);
    var pruned := PruneIssuerSigned(response, disclose, decode).value;
    PrunedDisclosure(issuerSigned, GetMapEntry(DocumentsIn(pruned).value[i], Lit("issuerSigned")).value,
                     raw[i], ScanResponse(Canonical(pruned), decode).value.acc[i], mso, digest, disclose, decode, d);
  }

  lemma AcceptedShape(issuerSigned: Value, raw: RawDocumentItems, mso: Value, digest: Digest)
    requires VerifyValueDigests(issuerSigned, Some(raw), mso, digest).Ok?
    ensures NameSpaces(issuerSigned).Some?
  {
  }

  lemma WriterWrites(v: Value)
    requires Representable(v)
    ensures Writes(ToWire(v), v) && Canonical(v) == CborWire.Encode(ToWire(v))
  {
    ToWireExact(v);
  }

  // ---------------------------------------------------------------------------------------------
  // Unique keys make the counts agree
  // ---------------------------------------------------------------------------------------------

  predicate UniqueKeys(entries: seq<Pair>) {
    forall i, j :: 0 <= i < j < |entries| ==> entries[i].key != entries[j].key
  }

  lemma UniqueTail(entries: seq<Pair>)
    requires entries != [] && UniqueKeys(entries)
    ensures UniqueKeys(entries[1..]) && forall e :: e in entries[1..] ==> e.key != entries[0].key
  {
    var rest := entries[1..];
    forall i, j | 0 <= i < j < |rest| ensures rest[i].key != rest[j].key {
      assert rest[i] == entries[i + 1] && rest[j] == entries[j + 1];
    }
    forall e | e in rest ensures e.key != entries[0].key {
      var j :| 0 <= j < |rest| && rest[j] == e;
      assert entries[j + 1] == e;
    }
  }

  /** A fold that looks at one key of a map with unique keys sees that key's value once. */
  lemma {:induction false} FoldOnce<A(!new)>(entries: seq<Pair>, key: Text, acc: A, h: (Text, Value, A) -> Option<A>)
    requires UniqueKeys(entries)
    requires forall k, v, a {:trigger h(k, v, a)} :: k != key ==> h(k, v, a) == Some(a)
    ensures FoldPairs(entries, acc, h) == match FindText(entries, key) { case None => Some(acc) case Some(v) => h(key, v, acc) }
    decreases |entries|
  {
    if entries != [] {
      UniqueTail(entries);
      var e, rest := entries[0], entries[1..];
      if e.key == CborText(key) {
        NotFound(rest, key);
        if h(key, e.value, acc).Some? {
          FoldOnce(rest, key, h(key, e.value, acc).value, h);
        }
      } else {
        FoldOnce(rest, key, acc, h);
      }
    }
  }

  lemma {:induction false} NotFound(entries: seq<Pair>, key: Text)
    requires forall e :: e in entries ==> e.key != CborText(key)
    ensures FindText(entries, key) == None
    decreases |entries|
  {
    if entries != [] {
      assert entries[0] in entries;
      NotFound(entries[1..], key);
    }
  }

  /** With unique namespaces, each namespace's records are those of its own entry. */
  lemma {:induction false} OwnRecords(entries: seq<Pair>, acc: RawDocumentItems, e: Pair, decode: Decoder)
    requires UniqueKeys(entries) && e in entries && e.key.CborText?
    requires FoldPairs(entries, acc, ValueNameSpace(decode)).Some?
    ensures e.value.CborArray? && AllRepresentable(e.value.items)
    ensures ElementsOf(e.value.items, Captured(acc, e.key.text), decode)
         == Some(Captured(FoldPairs(entries, acc, ValueNameSpace(decode)).value, e.key.text))
    decreases |entries|
  {
    hide ElementsOf, AllRepresentable;
    UniqueTail(entries);
    var first, rest := entries[0], entries[1..];
    var h := ValueNameSpace(decode);
    if e == first {
      Untouched(rest, h(e.key.text, e.value, acc).value, e.key, decode);
    } else {
      assert e in rest;
      if first.key.CborText? {
        var next := h(first.key.text, first.value, acc).value;
        assert Captured(next, e.key.text) == Captured(acc, e.key.text);
        OwnRecords(rest, next, e, decode);
      } else {
        OwnRecords(rest, acc, e, decode);
      }
    }
  }

  lemma {:induction false} Untouched(entries: seq<Pair>, acc: RawDocumentItems, key: Value, decode: Decoder)
    requires key.CborText? && forall e :: e in entries ==> e.key != key
    requires FoldPairs(entries, acc, ValueNameSpace(decode)).Some?
    ensures Captured(FoldPairs(entries, acc, ValueNameSpace(decode)).value, key.text) == Captured(acc, key.text)
    decreases |entries|
  {
    hide ElementsOf, AllRepresentable;
    if entries != [] {
      var first := entries[0];
      assert first in entries;
      if first.key.CborText? {
        Untouched(entries[1..], ValueNameSpace(decode)(first.key.text, first.value, acc).value, key, decode);
      } else {
        Untouched(entries[1..], acc, key, decode);
      }
    }
  }

  /** When every element of an entry was captured, as many records are kept as elements. */
  lemma {:induction false} SameCounts(key: Value, items: seq<Value>, acc: seq<RawIssuerItem>, disclose: set<Text>, decode: Decoder)
    requires key.CborText? && AllRepresentable(items) && ElementsOf(items, acc, decode).Some?
    ensures var rs := ElementsOf(items, acc, decode).value;
            && |rs| <= |acc| + |items|
            && (|rs| == |acc| + |items| ==>
                  |KeptRecords(key.text, rs, disclose)|
                  == |KeptRecords(key.text, acc, disclose)| + |KeptItems(key, items, disclose, decode)|)
    decreases |items|
  {
    hide Representable, ElementOf, Keep, KeptRecords, KeepRecord;
    if items != [] {
      var r := ElementOf(items[0], decode);
      SameCounts(key, items[1..], Push(acc, r), disclose, decode);
      if r.Some? {
        RecordKept(key, items[0], disclose, decode);
        KeptPush(key.text, acc, r.value, disclose);
      }
    }
  }

  /** Unique keys in the document, its `issuerSigned` and its `nameSpaces` suffice. */
  lemma UniqueKeysAgree(doc: Value, raw: RawDocumentItems, mso: Value, digest: Digest, disclose: set<Text>, decode: Decoder)
    requires DocumentOf(doc, decode) == Some(SeenItems(false, raw)) && UniqueKeys(doc.entries)
    requires var issuerSigned := GetMapEntry(doc, Lit("issuerSigned"));
             issuerSigned.Some? && issuerSigned.value.CborMap? && UniqueKeys(issuerSigned.value.entries)
             && NameSpaces(issuerSigned.value).Some? && UniqueKeys(NameSpaces(issuerSigned.value).value)
             && VerifyValueDigests(issuerSigned.value, Some(raw), mso, digest).Ok?
    ensures CountsAgree(NameSpaces(GetMapEntry(doc, Lit("issuerSigned")).value).value, raw, disclose, decode)
  {
    hide FoldPairs, FindText, VerifyValueDigests, ValueNameSpace, KeptItems, KeptRecords, ElementsOf, UniqueKeys, Lit,
      AllRepresentable, AllSigned, SeenItems;
    var issuerSigned := GetMapEntry(doc, Lit("issuerSigned")).value;
    var entries, seen := NameSpaces(issuerSigned).value, SeenItems(false, raw);
    FoldOnce(doc.entries, Lit("issuerSigned"), map[], ValueDocument(decode));
    FoldOnce(issuerSigned.entries, Lit("nameSpaces"), map[], ValueIssuerSigned(decode));
    assert FoldPairs(entries, map[], ValueNameSpace(decode)) == Some(seen);
    var d := VerifyValueDigests(issuerSigned, Some(raw), mso, digest).value;
    DisclosureExact(issuerSigned, Some(raw), mso, digest, d);
    SignedShape(entries, raw, ValueDigests(mso).value, digest);
    forall e | e in entries ensures EntryAgrees(e, entries, raw, disclose, decode) {
      var ns := e.key.text;
      OwnRecords(entries, map[], e, decode);
      SeenUpdate(false, raw, ns, []);
      KeptReframed(ns, raw[ns], disclose);
      SameCounts(e.key, e.value.items, [], disclose, decode);
      NoneKept(ns, disclose);
    }
  }

  lemma NoneKept(ns: Text, disclose: set<Text>)
    ensures KeptRecords(ns, [], disclose) == []
  {
  }

  /** Elements that came in shortest form keep their digests. */
  lemma ShortestFramingSigned(t: CborWire.Item, response: Value, decode: Decoder, i: nat, entries: seq<Pair>, disclose: set<Text>,
                              digest: Digest)
    requires Writes(t, response)
    requires ScanResponse(CborWire.Encode(t), decode).Some? && i < |ScanResponse(CborWire.Encode(t), decode).value.acc|
    ensures FramingSigned(entries, ScanResponse(CborWire.Encode(t), decode).value.acc[i], disclose, digest)
  {
    hide ScanResponse, Denotes, MinimalElements, SeenItems, Shortest;
    ScanOfValue(t, response, decode);
    ScanOfShortest(t, response, decode);
    var raw := ScanResponse(CborWire.Encode(t), decode).value.acc[i];
    assert SeenItems(false, raw) == raw;
    forall ns, r | r in Captured(raw, ns) ensures Shortest(r.rawBytes) == r.rawBytes {
      SeenUpdate(false, raw, ns, []);
      var rs := Captured(raw, ns);
      var k :| 0 <= k < |rs| && rs[k] == r;
      assert ReframedAll(rs)[k] == rs[k];
    }
  }
}
