/**
  Selective-disclosure integrity: the captured records are hashed, matched to the signed digest
  table and merged without shadowing.
*/
module Disclosure {
  import opened Prelude
  import opened CborValue
  import opened IssuerItemScan

  datatype Reason =
    | MalformedCredential
    | DisclosureIntegrity
    | HolderBinding
    | MissingRequestBinding
    | Revoked
    | StatusUnavailable
    | StatusUntrusted
    | Tamper
    | IssuerRejected

  /** Namespace to element identifier to value. */
  type Disclosed = map<Text, map<Text, AttributeValue>>

  datatype Triple = Triple(ns: Text, id: Text, value: AttributeValue)

  // ---------------------------------------------------------------------------------------------
  // Merging without shadowing
  // ---------------------------------------------------------------------------------------------

  function Group(m: Disclosed, ns: Text): map<Text, AttributeValue> {
    if ns in m then m[ns] else map[]
  }

  /** Refuse a second, different value for one namespace and identifier. */
  function InsertNoShadow(m: Disclosed, t: Triple): Option<Disclosed> {
    var group := Group(m, t.ns);
    if t.id in group && group[t.id] != t.value then None
    else Some(m[t.ns := group[t.id := t.value]])
  }

  function MergeAll(m: Disclosed, ts: seq<Triple>): Option<Disclosed>
    decreases |ts|
  {
    if ts == [] then Some(m)
    else
      match InsertNoShadow(m, ts[0])
      case None => None
      case Some(next) => MergeAll(next, ts[1..])
  }

  /** What a disclosure says, as a set of facts. */
  ghost function Triples(m: Disclosed): set<Triple> {
    set ns, id | ns in m && id in m[ns] :: Triple(ns, id, m[ns][id])
  }

  ghost predicate Functional(s: set<Triple>) {
    forall a, b :: a in s && b in s && a.ns == b.ns && a.id == b.id ==> a.value == b.value
  }

  predicate NoEmptyGroup(m: Disclosed) {
    forall ns :: ns in m ==> m[ns] != map[]
  }

  ghost function SetOf(ts: seq<Triple>): set<Triple> {
    set t | t in ts
  }

  /** A disclosure without empty groups is determined by its facts. */
  lemma TriplesDetermine(a: Disclosed, b: Disclosed)
    requires NoEmptyGroup(a) && NoEmptyGroup(b) && Triples(a) == Triples(b)
    ensures a == b
  {
    TriplesInclude(a, b);
    TriplesInclude(b, a);
    assert a.Keys == b.Keys;
    forall ns | ns in a ensures a[ns] == b[ns] {
      assert a[ns].Keys == b[ns].Keys;
    }
  }

  lemma TriplesInclude(a: Disclosed, b: Disclosed)
    requires NoEmptyGroup(a) && Triples(a) <= Triples(b)
    ensures forall ns :: ns in a ==> ns in b
    ensures forall ns, id :: ns in a && id in a[ns] ==> id in b[ns] && b[ns][id] == a[ns][id]
  {
    forall ns, id | ns in a && id in a[ns] ensures ns in b && id in b[ns] && b[ns][id] == a[ns][id] {
      assert Triple(ns, id, a[ns][id]) in Triples(a);
      assert Triple(ns, id, a[ns][id]) in Triples(b);
    }
    forall ns | ns in a ensures ns in b {
      var id :| id in a[ns];
    }
  }

  lemma TriplesFunctional(m: Disclosed)
    ensures Functional(Triples(m))
  {
  }

  /** Insertion succeeds exactly when the facts stay functional, and adds exactly that fact. */
  lemma InsertExact(m: Disclosed, t: Triple)
    requires NoEmptyGroup(m)
    ensures InsertNoShadow(m, t).Some? <==> Functional(Triples(m) + {t})
    ensures match InsertNoShadow(m, t)
            case Some(next) => Triples(next) == Triples(m) + {t} && NoEmptyGroup(next)
            case None => true
  {
    var group := Group(m, t.ns);
    if t.id in group {
      assert Triple(t.ns, t.id, group[t.id]) in Triples(m);
    }
    if InsertNoShadow(m, t).Some? {
      var next := InsertNoShadow(m, t).value;
      forall x | x in Triples(m) + {t} ensures x in Triples(next) {
        assert x.ns in next && x.id in next[x.ns] && next[x.ns][x.id] == x.value;
      }
      forall x | x in Triples(next) ensures x in Triples(m) + {t} {
        if !(x.ns == t.ns && x.id == t.id) {
          assert x.ns in m && x.id in m[x.ns] && m[x.ns][x.id] == x.value;
        }
      }
      TriplesFunctional(next);
    }
  }

  lemma FunctionalSubset(s: set<Triple>, u: set<Triple>)
    requires s <= u && Functional(u)
    ensures Functional(s)
  {
  }

  /** Folding succeeds exactly when all facts together are functional, and then holds exactly them. */
  lemma {:induction false} MergeExact(m: Disclosed, ts: seq<Triple>)
    requires NoEmptyGroup(m)
    ensures MergeAll(m, ts).Some? <==> Functional(Triples(m) + SetOf(ts))
    ensures match MergeAll(m, ts)
            case Some(d) => Triples(d) == Triples(m) + SetOf(ts) && NoEmptyGroup(d)
            case None => true
    decreases |ts|
  {
    hide InsertNoShadow, Triples, Functional, NoEmptyGroup;
    if ts == [] {
      assert SetOf(ts) == {};
      assert Triples(m) + SetOf(ts) == Triples(m);
      TriplesFunctional(m);
    } else {
      var t, rest := ts[0], ts[1..];
      assert SetOf(ts) == {t} + SetOf(rest);
      var all := Triples(m) + SetOf(ts);
      InsertExact(m, t);
      match InsertNoShadow(m, t) {
        case Some(next) =>
          MergeExact(next, rest);
          assert Triples(next) + SetOf(rest) == all;
        case None =>
          if Functional(all) {
            FunctionalSubset(Triples(m) + {t}, all);
          }
      }
    }
  }

  /** The merge does not depend on the order in which the facts arrive. */
  lemma MergeOrderIndependent(ts: seq<Triple>, us: seq<Triple>)
    requires SetOf(ts) == SetOf(us)
    ensures MergeAll(map[], ts) == MergeAll(map[], us)
  {
    hide MergeAll, Triples, Functional;
    MergeExact(map[], ts);
    MergeExact(map[], us);
    if MergeAll(map[], ts).Some? {
      TriplesDetermine(MergeAll(map[], ts).value, MergeAll(map[], us).value);
    }
  }

  lemma {:induction false} MergeAppend(m: Disclosed, ts: seq<Triple>, us: seq<Triple>)
    ensures MergeAll(m, ts + us)
         == match MergeAll(m, ts) { case None => None case Some(d) => MergeAll(d, us) }
    decreases |ts|
  {
    if ts == [] {
      assert ts + us == us;
    } else {
      assert (ts + us)[0] == ts[0] && (ts + us)[1..] == ts[1..] + us;
      if InsertNoShadow(m, ts[0]).Some? {
        MergeAppend(InsertNoShadow(m, ts[0]).value, ts[1..], us);
      }
    }
  }

  /** The map being filled; an insertion that would shadow changes nothing. */
  class DisclosedSet {
    var groups: Disclosed

    constructor ()
      ensures groups == map[]
    {
      groups := map[];
    }

    method Insert(ns: Text, id: Text, value: AttributeValue) returns (ok: bool)
      requires NoEmptyGroup(groups)
      modifies this
      ensures NoEmptyGroup(groups)
      ensures match InsertNoShadow(old(groups), Triple(ns, id, value))
              case Some(m) => ok && groups == m
              case None => !ok && groups == old(groups)
      ensures ok <==> Functional(Triples(old(groups)) + {Triple(ns, id, value)})
      ensures ok ==> Triples(groups) == Triples(old(groups)) + {Triple(ns, id, value)}
    {
      hide Triples, Functional, NoEmptyGroup;
      ghost var before := groups;
      InsertExact(before, Triple(ns, id, value));
      if ns !in groups {
        groups := groups[ns := map[]];
      }
      var group := groups[ns];
      assert group == Group(before, ns);
      if id in group {
        ok := group[id] == value;
        assert ok ==> group[id := value] == group && before[ns := group] == before;
      } else {
        groups := groups[ns := group[id := value]];
        ok := true;
        assert groups == before[ns := group[id := value]];
      }
    }
  }

  // ---------------------------------------------------------------------------------------------
  // Digest matching
  // ---------------------------------------------------------------------------------------------

  type Digest = Bytes -> Bytes

  function ElementValue(r: RawIssuerItem): AttributeValue {
    match GetMapEntry(r.item, Lit("elementValue"))
    case Some(v) => CborToAttribute(v)
    case None => NullValue
  }

  function TripleOf(ns: Text, r: RawIssuerItem): Triple {
    Triple(ns, r.identifier, ElementValue(r))
  }

  function TriplesOf(ns: Text, rs: seq<RawIssuerItem>): (ts: seq<Triple>)
    ensures |ts| == |rs| && forall i :: 0 <= i < |rs| ==> ts[i] == TripleOf(ns, rs[i])
  {
    seq(|rs|, i requires 0 <= i < |rs| => TripleOf(ns, rs[i]))
  }

  /** The digest table of one namespace; entries that are not integer to bytes are ignored. */
  function ExpectedById(entries: seq<Pair>): map<int, Bytes> {
    if entries == [] then map[]
    else
      var before := ExpectedById(entries[..|entries| - 1]);
      var e := entries[|entries| - 1];
      if IntegerLabel(e.key).Some? && e.value.CborBytes? then before[IntegerLabel(e.key).value := e.value.bytes]
      else before
  }

  /** Entry `i` is the last one that gives a digest for `id`. */
  predicate GivesDigest(entries: seq<Pair>, id: int, i: nat) {
    && i < |entries| && entries[i].key == CborInteger(id) && I64_MIN <= id <= I64_MAX && entries[i].value.CborBytes?
    && forall j :: i < j < |entries| ==> !(entries[j].key == CborInteger(id) && entries[j].value.CborBytes?)
  }

  /** The table holds, for each id, the last digest given for it. */
  lemma {:induction false} ExpectedExact(entries: seq<Pair>, id: int, digest: Bytes)
    ensures (id in ExpectedById(entries) && ExpectedById(entries)[id] == digest)
       <==> exists i: nat :: GivesDigest(entries, id, i) && entries[i].value.bytes == digest
    decreases |entries|
  {
    if entries != [] {
      var n := |entries| - 1;
      var init, e := entries[..n], entries[n];
      ExpectedExact(init, id, digest);
      if e.key == CborInteger(id) && InI64(id) && e.value.CborBytes? {
        assert GivesDigest(entries, id, n);
        forall i: nat | GivesDigest(entries, id, i) ensures i == n {
        }
      } else {
        forall i: nat ensures GivesDigest(entries, id, i) <==> GivesDigest(init, id, i) {
        }
      }
    }
  }

  function CheckRecords(rs: seq<RawIssuerItem>, expected: map<int, Bytes>, seen: set<int>, ns: Text,
                        digest: Digest, acc: Disclosed): Result<Disclosed, Reason>
  {
    if rs == [] then Ok(acc)
    else
      var r := rs[0];
      if r.digestId in seen then Err(DisclosureIntegrity)
      else if r.digestId !in expected || expected[r.digestId] != digest(r.rawBytes) then Err(DisclosureIntegrity)
      else
        match InsertNoShadow(acc, TripleOf(ns, r))
        case None => Err(DisclosureIntegrity)
        case Some(next) => CheckRecords(rs[1..], expected, seen + {r.digestId}, ns, digest, next)
  }

  function CheckNameSpace(e: Pair, raw: RawDocumentItems, valueDigests: seq<Pair>, digest: Digest,
                          acc: Disclosed): Result<Disclosed, Reason>
  {
    if !e.key.CborText? || !e.value.CborArray? then Err(MalformedCredential)
    else
      var ns := e.key.text;
      if ns !in raw || |raw[ns]| != |e.value.items| then Err(DisclosureIntegrity)
      else
        match AsMap(FindText(valueDigests, ns))
        case None => Err(DisclosureIntegrity)
        case Some(table) => CheckRecords(raw[ns], ExpectedById(table), {}, ns, digest, acc)
  }

  function CheckNameSpaces(entries: seq<Pair>, raw: RawDocumentItems, valueDigests: seq<Pair>, digest: Digest,
                           acc: Disclosed): Result<Disclosed, Reason>
  {
    if entries == [] then Ok(acc)
    else
      match CheckNameSpace(entries[0], raw, valueDigests, digest, acc)
      case Err(e) => Err(e)
      case Ok(next) => CheckNameSpaces(entries[1..], raw, valueDigests, digest, next)
  }

  function NameSpaces(issuerSigned: Value): Option<seq<Pair>> {
    AsMap(GetMapEntry(issuerSigned, Lit("nameSpaces")))
  }

  function ValueDigests(mso: Value): Option<seq<Pair>> {
    AsMap(GetMapEntry(mso, Lit("valueDigests")))
  }

  function VerifyValueDigests(issuerSigned: Value, raw: Option<RawDocumentItems>, mso: Value, digest: Digest): Result<Disclosed, Reason> {
    match (NameSpaces(issuerSigned), ValueDigests(mso))
    case (Some(entries), Some(valueDigests)) =>
      if raw.None? then Err(DisclosureIntegrity)
      else CheckNameSpaces(entries, raw.value, valueDigests, digest, map[])
    case _ => Err(MalformedCredential)
  }

  // ---------------------------------------------------------------------------------------------
  // What acceptance means
  // ---------------------------------------------------------------------------------------------

  predicate DistinctIds(rs: seq<RawIssuerItem>) {
    forall i, j :: 0 <= i < j < |rs| ==> rs[i].digestId != rs[j].digestId
  }

  /** The record's own bytes hash to the signed digest at its own index. */
  predicate DigestMatches(r: RawIssuerItem, expected: map<int, Bytes>, digest: Digest) {
    r.digestId in expected && expected[r.digestId] == digest(r.rawBytes)
  }

  /** One listed namespace is fully captured and every record of it is signed. */
  ghost predicate NameSpaceSigned(e: Pair, raw: RawDocumentItems, valueDigests: seq<Pair>, digest: Digest) {
    && e.key.CborText? && e.value.CborArray?
    && e.key.text in raw && |raw[e.key.text]| == |e.value.items|
    && AsMap(FindText(valueDigests, e.key.text)).Some?
    && DistinctIds(raw[e.key.text])
    && (var expected := ExpectedById(AsMap(FindText(valueDigests, e.key.text)).value);
        forall r :: r in raw[e.key.text] ==> DigestMatches(r, expected, digest))
  }

  ghost predicate AllSigned(entries: seq<Pair>, raw: RawDocumentItems, valueDigests: seq<Pair>, digest: Digest) {
    forall e :: e in entries ==> NameSpaceSigned(e, raw, valueDigests, digest)
  }

  /** `t` is the fact of one captured record of one listed namespace. */
  ghost predicate Listed(entries: seq<Pair>, raw: RawDocumentItems, t: Triple) {
    exists e, r :: e in entries && e.key == CborText(t.ns) && t.ns in raw && r in raw[t.ns] && t == TripleOf(t.ns, r)
  }

  function AllTriples(entries: seq<Pair>, raw: RawDocumentItems): seq<Triple> {
    if entries == [] then []
    else
      var e := entries[0];
      (if e.key.CborText? && e.key.text in raw then TriplesOf(e.key.text, raw[e.key.text]) else [])
      + AllTriples(entries[1..], raw)
  }

  lemma {:induction false} AllTriplesAreListed(entries: seq<Pair>, raw: RawDocumentItems, t: Triple)
    ensures t in AllTriples(entries, raw) <==> Listed(entries, raw, t)
    decreases |entries|
  {
    if entries != [] {
      var e, rest := entries[0], entries[1..];
      AllTriplesAreListed(rest, raw, t);
      if e.key.CborText? && e.key.text in raw {
        var ts := TriplesOf(e.key.text, raw[e.key.text]);
        if t in ts {
          var i :| 0 <= i < |ts| && ts[i] == t;
          assert raw[e.key.text][i] in raw[t.ns];
          assert e in entries;
        }
        if t.ns == e.key.text && exists r :: r in raw[t.ns] && t == TripleOf(t.ns, r) {
          var r :| r in raw[t.ns] && t == TripleOf(t.ns, r);
          var i :| 0 <= i < |raw[t.ns]| && raw[t.ns][i] == r;
          assert ts[i] == t;
        }
      }
      if Listed(rest, raw, t) {
        var e', r :| e' in rest && e'.key == CborText(t.ns) && t.ns in raw && r in raw[t.ns] && t == TripleOf(t.ns, r);
        assert e' in entries;
      }
      if Listed(entries, raw, t) {
        var e', r :| e' in entries && e'.key == CborText(t.ns) && t.ns in raw && r in raw[t.ns] && t == TripleOf(t.ns, r);
        if e' != e { assert e' in rest; }
      }
    }
  }

  ghost predicate FreshIds(rs: seq<RawIssuerItem>, seen: set<int>) {
    DistinctIds(rs) && forall r :: r in rs ==> r.digestId !in seen
  }

  lemma FreshIdsStep(rs: seq<RawIssuerItem>, seen: set<int>)
    requires rs != []
    ensures FreshIds(rs, seen) <==> rs[0].digestId !in seen && FreshIds(rs[1..], seen + {rs[0].digestId})
  {
    var rest, ids := rs[1..], seen + {rs[0].digestId};
    if FreshIds(rs, seen) {
      forall i, j | 0 <= i < j < |rest| ensures rest[i].digestId != rest[j].digestId {
        assert rest[i] == rs[i + 1] && rest[j] == rs[j + 1];
      }
      forall r | r in rest ensures r.digestId !in ids {
        var j :| 0 <= j < |rest| && rest[j] == r;
        assert rs[j + 1] == r;
      }
    }
    if rs[0].digestId !in seen && FreshIds(rest, ids) {
      forall i, j | 0 <= i < j < |rs| ensures rs[i].digestId != rs[j].digestId {
        assert rs[j] == rest[j - 1];
        if i > 0 { assert rs[i] == rest[i - 1]; }
      }
      forall r | r in rs ensures r.digestId !in seen {
        if r != rs[0] { assert r in rest; }
      }
    }
  }

  lemma RecordStep(rs: seq<RawIssuerItem>, expected: map<int, Bytes>, seen: set<int>, ns: Text, digest: Digest, acc: Disclosed)
    ensures CheckRecords(rs, expected, seen, ns, digest, acc)
         == if rs == [] then Ok(acc)
            else if rs[0].digestId in seen || !DigestMatches(rs[0], expected, digest) then Err(DisclosureIntegrity)
            else match InsertNoShadow(acc, TripleOf(ns, rs[0]))
                 case None => Err(DisclosureIntegrity)
                 case Some(next) => CheckRecords(rs[1..], expected, seen + {rs[0].digestId}, ns, digest, next)
  {
    hide InsertNoShadow, TripleOf;
  }

  lemma {:induction false} CheckRecordsExact(rs: seq<RawIssuerItem>, expected: map<int, Bytes>, seen: set<int>, ns: Text,
                                       digest: Digest, acc: Disclosed)
    ensures var r := CheckRecords(rs, expected, seen, ns, digest, acc);
            var merged := MergeAll(acc, TriplesOf(ns, rs));
            if FreshIds(rs, seen) && (forall x :: x in rs ==> DigestMatches(x, expected, digest)) && merged.Some?
            then r == Ok(merged.value)
            else r == Err(DisclosureIntegrity)
    decreases |rs|
  {
    hide FreshIds, InsertNoShadow, TripleOf, DigestMatches, CheckRecords;
    RecordStep(rs, expected, seen, ns, digest, acc);
    if rs == [] {
      assert FreshIds(rs, seen) by { NoneFresh(seen); }
    } else {
      var first, rest := rs[0], rs[1..];
      FreshIdsStep(rs, seen);
      assert TriplesOf(ns, rs)[0] == TripleOf(ns, first);
      assert TriplesOf(ns, rs)[1..] == TriplesOf(ns, rest);
      assert (forall x :: x in rs ==> DigestMatches(x, expected, digest))
        <==> DigestMatches(first, expected, digest) && forall x :: x in rest ==> DigestMatches(x, expected, digest) by {
        assert rs == [first] + rest;
      }
      if InsertNoShadow(acc, TripleOf(ns, first)).Some? {
        CheckRecordsExact(rest, expected, seen + {first.digestId}, ns, digest, InsertNoShadow(acc, TripleOf(ns, first)).value);
      }
    }
  }

  lemma NoneFresh(seen: set<int>)
    ensures FreshIds([], seen)
  {
  }

  lemma CheckNameSpaceExact(e: Pair, raw: RawDocumentItems, valueDigests: seq<Pair>, digest: Digest, acc: Disclosed)
    ensures CheckNameSpace(e, raw, valueDigests, digest, acc).Ok?
       <==> NameSpaceSigned(e, raw, valueDigests, digest) && MergeAll(acc, TriplesOf(e.key.text, raw[e.key.text])).Some?
    ensures CheckNameSpace(e, raw, valueDigests, digest, acc).Ok? ==>
              MergeAll(acc, TriplesOf(e.key.text, raw[e.key.text]))
              == Some(CheckNameSpace(e, raw, valueDigests, digest, acc).value)
  {
    hide MergeAll, CheckRecords, ExpectedById;
    if e.key.CborText? && e.key.text in raw && AsMap(FindText(valueDigests, e.key.text)).Some? {
      var ns := e.key.text;
      CheckRecordsExact(raw[ns], ExpectedById(AsMap(FindText(valueDigests, ns)).value), {}, ns, digest, acc);
    }
  }

  lemma {:induction false} CheckNameSpacesExact(entries: seq<Pair>, raw: RawDocumentItems, valueDigests: seq<Pair>,
                                          digest: Digest, acc: Disclosed)
    ensures var r := CheckNameSpaces(entries, raw, valueDigests, digest, acc);
            var merged := MergeAll(acc, AllTriples(entries, raw));
            && (r.Ok? <==> AllSigned(entries, raw, valueDigests, digest) && merged.Some?)
            && (r.Ok? ==> merged == Some(r.value))
    decreases |entries|
  {
    hide MergeAll, CheckNameSpace, NameSpaceSigned;
    if entries == [] {
      MergeNothing(acc);
    } else {
      var e, rest := entries[0], entries[1..];
      assert entries == [e] + rest;
      CheckNameSpaceExact(e, raw, valueDigests, digest, acc);
      assert AllSigned(entries, raw, valueDigests, digest)
        <==> NameSpaceSigned(e, raw, valueDigests, digest) && AllSigned(rest, raw, valueDigests, digest);
      if NameSpaceSigned(e, raw, valueDigests, digest) {
        SignedIsCaptured(e, raw, valueDigests, digest);
        MergeAppend(acc, TriplesOf(e.key.text, raw[e.key.text]), AllTriples(rest, raw));
        var r := CheckNameSpace(e, raw, valueDigests, digest, acc);
        if r.Ok? {
          CheckNameSpacesExact(rest, raw, valueDigests, digest, r.value);
        }
      }
    }
  }

  lemma MergeNothing(acc: Disclosed)
    ensures MergeAll(acc, []) == Some(acc)
  {
  }

  lemma SignedIsCaptured(e: Pair, raw: RawDocumentItems, valueDigests: seq<Pair>, digest: Digest)
    requires NameSpaceSigned(e, raw, valueDigests, digest)
    ensures e.key.CborText? && e.key.text in raw
  {
  }

  /**
    Soundness and completeness: verification succeeds exactly when every listed namespace is fully
    captured and signed and no two records conflict, and the result is exactly the captured facts.
  */
  lemma DisclosureExact(issuerSigned: Value, raw: Option<RawDocumentItems>, mso: Value, digest: Digest, d: Disclosed)
    ensures VerifyValueDigests(issuerSigned, raw, mso, digest) == Ok(d)
       <==> && NameSpaces(issuerSigned).Some? && ValueDigests(mso).Some? && raw.Some?
            && AllSigned(NameSpaces(issuerSigned).value, raw.value, ValueDigests(mso).value, digest)
            && NoEmptyGroup(d)
            && forall t :: t in Triples(d) <==> Listed(NameSpaces(issuerSigned).value, raw.value, t)
  {
    hide Triples, Listed, AllSigned, CheckNameSpaces, NoEmptyGroup, MergeAll;
    if NameSpaces(issuerSigned).Some? && ValueDigests(mso).Some? && raw.Some? {
      var entries, vd := NameSpaces(issuerSigned).value, ValueDigests(mso).value;
      var ts := AllTriples(entries, raw.value);
      CheckNameSpacesExact(entries, raw.value, vd, digest, map[]);
      EmptyDisclosure();
      MergeExact(map[], ts);
      assert Triples(map[]) + SetOf(ts) == SetOf(ts);
      forall t ensures t in SetOf(ts) <==> Listed(entries, raw.value, t) {
        AllTriplesAreListed(entries, raw.value, t);
      }
      if NoEmptyGroup(d) && forall t :: t in Triples(d) <==> Listed(entries, raw.value, t) {
        assert Triples(d) == SetOf(ts);
        TriplesFunctional(d);
        TriplesDetermine(d, MergeAll(map[], ts).value);
      }
    }
  }

  lemma EmptyDisclosure()
    ensures Triples(map[]) == {} && NoEmptyGroup(map[])
  {
  }

  // ---------------------------------------------------------------------------------------------
  // The verifier's loops
  // ---------------------------------------------------------------------------------------------

  /** `ExpectedById`, as the loop that collects the table. */
  method IndexDigests(entries: seq<Pair>) returns (expected: map<int, Bytes>)
    ensures expected == ExpectedById(entries)
  {
    expected := map[];
    for i := 0 to |entries|
      invariant expected == ExpectedById(entries[..i])
    {
      assert entries[..i + 1][..i] == entries[..i];
      var key := IntegerLabel(entries[i].key);
      if key.Some? && entries[i].value.CborBytes? {
        expected := expected[key.value := entries[i].value.bytes];
      }
    }
    assert entries[..|entries|] == entries;
  }

  method CheckRecordLoop(rs: seq<RawIssuerItem>, expected: map<int, Bytes>, ns: Text, digest: Digest, disclosed: DisclosedSet)
    returns (failure: Option<Reason>)
    requires NoEmptyGroup(disclosed.groups)
    modifies disclosed
    ensures NoEmptyGroup(disclosed.groups)
    ensures match CheckRecords(rs, expected, {}, ns, digest, old(disclosed.groups))
            case Ok(d) => failure == None && disclosed.groups == d
            case Err(e) => failure == Some(e)
  {
    var seen: set<int> := {};
    for i := 0 to |rs|
      invariant NoEmptyGroup(disclosed.groups)
      invariant CheckRecords(rs[i..], expected, seen, ns, digest, disclosed.groups)
             == CheckRecords(rs, expected, {}, ns, digest, old(disclosed.groups))
    {
      var r := rs[i];
      assert rs[i..][0] == r && rs[i..][1..] == rs[i + 1..];
      if r.digestId in seen { return Some(DisclosureIntegrity); }
      seen := seen + {r.digestId};
      if r.digestId !in expected || expected[r.digestId] != digest(r.rawBytes) { return Some(DisclosureIntegrity); }
      var ok := disclosed.Insert(ns, r.identifier, ElementValue(r));
      if !ok { return Some(DisclosureIntegrity); }
    }
    return None;
  }

  method VerifyValueDigestsLoop(issuerSigned: Value, raw: Option<RawDocumentItems>, mso: Value, digest: Digest)
    returns (result: Result<Disclosed, Reason>)
    ensures result == VerifyValueDigests(issuerSigned, raw, mso, digest)
  {
    var nameSpaces, valueDigests := NameSpaces(issuerSigned), ValueDigests(mso);
    if nameSpaces.None? || valueDigests.None? { return Err(MalformedCredential); }
    if raw.None? { return Err(DisclosureIntegrity); }
    var entries, captured := nameSpaces.value, raw.value;
    var disclosed := new DisclosedSet();
    for i := 0 to |entries|
      invariant fresh(disclosed) && NoEmptyGroup(disclosed.groups)
      invariant CheckNameSpaces(entries[i..], captured, valueDigests.value, digest, disclosed.groups)
             == CheckNameSpaces(entries, captured, valueDigests.value, digest, map[])
    {
      var e := entries[i];
      assert entries[i..][0] == e && entries[i..][1..] == entries[i + 1..];
      if !e.key.CborText? || !e.value.CborArray? { return Err(MalformedCredential); }
      var ns := e.key.text;
      if ns !in captured || |captured[ns]| != |e.value.items| { return Err(DisclosureIntegrity); }
      var table := AsMap(FindText(valueDigests.value, ns));
      if table.None? { return Err(DisclosureIntegrity); }
      var expected := IndexDigests(table.value);
      var failure := CheckRecordLoop(captured[ns], expected, ns, digest, disclosed);
      if failure.Some? { return Err(failure.value); }
    }
    return Ok(disclosed.groups);
  }
}
