/**
  Evaluating a DCQL query against a verified presentation: one credential query, the single
  presentation gate, the set-level rule and the issuer role a query implies.
*/
module DcqlEvaluation {
  import opened Prelude
  import opened Json
  import opened CborValue
  import opened ClaimsPath
  import opened Dcql

  datatype CredentialType = Vct(vct: Option<Text>) | DocTypes(docTypes: seq<Text>)

  datatype DcqlGate = Inactive | Satisfied | NotSatisfied

  // ---------------------------------------------------------------------------------------------
  // Claims
  // ---------------------------------------------------------------------------------------------

  predicate ValueMatches(v: AttributeValue, c: ClaimValue) {
    match (c, v)
    case (TextClaim(t), TextValue(actual)) => t == actual
    case (IntegerClaim(n), IntegerValue(actual)) => n == actual
    case (BooleanClaim(b), BooleanValue(actual)) => b == actual
    case _ => false
  }

  predicate MatchesOne(v: AttributeValue, expected: seq<ClaimValue>) {
    exists i :: 0 <= i < |expected| && ValueMatches(v, expected[i])
  }

  predicate ClaimResolves(claim: ClaimsQuery, presented: Presented) {
    var selected := Resolved(presented, claim.path);
    selected != [] && (claim.values.None? || exists i :: 0 <= i < |selected| && MatchesOne(selected[i], claim.values.value))
  }

  /** No two claims with an id share it. */
  predicate ClaimIdsDistinct(claims: seq<ClaimsQuery>) {
    forall i, j :: 0 <= i < j < |claims| && claims[i].id.Some? ==> claims[i].id != claims[j].id
  }

  predicate IdResolves(claims: seq<ClaimsQuery>, id: Text, presented: Presented) {
    exists i :: 0 <= i < |claims| && claims[i].id == Some(id) && ClaimResolves(claims[i], presented)
  }

  predicate SetResolves(claims: seq<ClaimsQuery>, ids: seq<Text>, presented: Presented) {
    ids != [] && forall k :: 0 <= k < |ids| ==> IdResolves(claims, ids[k], presented)
  }

  /** Without claim sets every claim; with them, one non-empty option, and never an ambiguous id. */
  predicate ClaimsMet(q: CredentialQuery, presented: Presented) {
    if q.claims == [] then true
    else if q.claimSets == [] then forall i :: 0 <= i < |q.claims| ==> ClaimResolves(q.claims[i], presented)
    else
      && ClaimIdsDistinct(q.claims)
      && exists s :: 0 <= s < |q.claimSets| && SetResolves(q.claims, q.claimSets[s], presented)
  }

  /** `claims_satisfied`, with the `by_id` table it fills. */
  method ClaimsSatisfied(q: CredentialQuery, presented: Presented) returns (ok: bool)
    ensures ok == ClaimsMet(q, presented)
  {
    hide ClaimResolves;
    if q.claims == [] { return true; }
    if q.claimSets == [] {
      return forall i :: 0 <= i < |q.claims| ==> ClaimResolves(q.claims[i], presented);
    }
    var byId: map<Text, ClaimsQuery> := map[];
    for i := 0 to |q.claims|
      invariant forall id :: id in byId <==> exists j :: 0 <= j < i && q.claims[j].id == Some(id)
      invariant forall id :: id in byId ==> byId[id] in q.claims && byId[id].id == Some(id)
      invariant ClaimIdsDistinct(q.claims[..i])
    {
      var claim := q.claims[i];
      assert q.claims[..i + 1] == q.claims[..i] + [claim];
      if claim.id.None? { continue; }
      var id := claim.id.value;
      if id in byId {
        var j :| 0 <= j < i && q.claims[j].id == Some(id);
        assert !ClaimIdsDistinct(q.claims);
        return false;
      }
      byId := byId[id := claim];
    }
    assert q.claims[..|q.claims|] == q.claims;
    forall id ensures (id in byId && ClaimResolves(byId[id], presented)) <==> IdResolves(q.claims, id, presented) {
      TableIsScan(q.claims, byId, id, presented);
    }
    ok := exists s :: 0 <= s < |q.claimSets| && q.claimSets[s] != []
            && forall k :: 0 <= k < |q.claimSets[s]| ==>
                 q.claimSets[s][k] in byId && ClaimResolves(byId[q.claimSets[s][k]], presented);
    assert ok == exists s :: 0 <= s < |q.claimSets| && SetResolves(q.claims, q.claimSets[s], presented);
  }

  lemma TableIsScan(claims: seq<ClaimsQuery>, byId: map<Text, ClaimsQuery>, id: Text, presented: Presented)
    requires ClaimIdsDistinct(claims)
    requires forall x :: x in byId <==> exists j :: 0 <= j < |claims| && claims[j].id == Some(x)
    requires forall x :: x in byId ==> byId[x] in claims && byId[x].id == Some(x)
    ensures (id in byId && ClaimResolves(byId[id], presented)) <==> IdResolves(claims, id, presented)
  {
    hide ClaimResolves;
    if IdResolves(claims, id, presented) {
      var i :| 0 <= i < |claims| && claims[i].id == Some(id) && ClaimResolves(claims[i], presented);
      var j :| 0 <= j < |claims| && claims[j] == byId[id];
      assert i == j;
    }
  }

  // ---------------------------------------------------------------------------------------------
  // One query, the gate, the set level
  // ---------------------------------------------------------------------------------------------

  predicate FormatAndMetaMatch(q: CredentialQuery, format: Format, t: CredentialType) {
    && q.format == format
    && match (q.meta, t)
       case (VctMeta(allowed), Vct(vct)) => allowed.None? || (vct.Some? && vct.value in allowed.value)
       case (DocTypeMeta(expected), DocTypes(docTypes)) =>
         docTypes != [] && (expected.None? || forall i :: 0 <= i < |docTypes| ==> docTypes[i] == expected.value)
       case _ => false
  }

  predicate QuerySatisfiedBy(q: CredentialQuery, format: Format, t: CredentialType, presented: Presented) {
    FormatAndMetaMatch(q, format, t) && ClaimsMet(q, presented)
  }

  /** `evaluate_single`; `isBlank` is the trimmed-empty test of the query text. */
  function EvaluateSingle(json: Text, fromJson: Text -> Option<Json>, isBlank: Text -> bool,
                          format: Format, t: CredentialType, presented: Presented): DcqlGate {
    if isBlank(json) then Inactive
    else
      match Parsed(json, fromJson)
      case Err(_) => NotSatisfied
      case Ok(q) =>
        if q.credentials == [] then Inactive
        else if exists i :: 0 <= i < |q.credentials| && QuerySatisfiedBy(q.credentials[i], format, t, presented) then Satisfied
        else NotSatisfied
  }

  predicate OptionMet(option: seq<Text>, satisfied: set<Text>) {
    option != [] && forall i :: 0 <= i < |option| ==> option[i] in satisfied
  }

  predicate SetMet(s: CredentialSetQuery, satisfied: set<Text>) {
    s.required ==> exists i :: 0 <= i < |s.options| && OptionMet(s.options[i], satisfied)
  }

  predicate CredentialSetsSatisfied(q: DcqlQuery, satisfied: set<Text>) {
    if q.credentialSets == [] then
      q.credentials != [] && forall i :: 0 <= i < |q.credentials| ==> q.credentials[i].id in satisfied
    else
      forall i :: 0 <= i < |q.credentialSets| ==> SetMet(q.credentialSets[i], satisfied)
  }

  // ---------------------------------------------------------------------------------------------
  // Monotonicity
  // ---------------------------------------------------------------------------------------------

  lemma MatchesExtended(x: AttributeValue, y: AttributeValue, expected: seq<ClaimValue>)
    requires Extends(x, y) && MatchesOne(x, expected)
    ensures MatchesOne(y, expected)
  {
    var i :| 0 <= i < |expected| && ValueMatches(x, expected[i]);
    assert x == y;
  }

  lemma ResolvesExtended(claim: ClaimsQuery, a: Presented, b: Presented)
    requires ExtendsRoot(a, b) && ClaimResolves(claim, a)
    ensures ClaimResolves(claim, b)
  {
    hide Resolved, ExtendsRoot, Extends, MatchesOne;
    var selected := Resolved(a, claim.path);
    var i := 0;
    if claim.values.Some? {
      i :| 0 <= i < |selected| && MatchesOne(selected[i], claim.values.value);
    }
    var y := SelectionExtends(a, b, claim.path, selected[i]);
    if claim.values.Some? { MatchesExtended(selected[i], y, claim.values.value); }
    var j :| 0 <= j < |Resolved(b, claim.path)| && Resolved(b, claim.path)[j] == y;
  }

  lemma ClaimsMetExtended(q: CredentialQuery, a: Presented, b: Presented)
    requires ExtendsRoot(a, b) && ClaimsMet(q, a)
    ensures ClaimsMet(q, b)
  {
    hide ClaimResolves, ExtendsRoot;
    forall i | 0 <= i < |q.claims| && ClaimResolves(q.claims[i], a) ensures ClaimResolves(q.claims[i], b) {
      ResolvesExtended(q.claims[i], a, b);
    }
    forall id | IdResolves(q.claims, id, a) ensures IdResolves(q.claims, id, b) {
    }
    if q.claims != [] && q.claimSets != [] {
      var s :| 0 <= s < |q.claimSets| && SetResolves(q.claims, q.claimSets[s], a);
      assert SetResolves(q.claims, q.claimSets[s], b);
    }
  }

  /** What satisfies a query still satisfies it with more claims presented. */
  lemma EvaluationMonotone(json: Text, fromJson: Text -> Option<Json>, isBlank: Text -> bool,
                           format: Format, t: CredentialType, a: Presented, b: Presented)
    requires ExtendsRoot(a, b) && EvaluateSingle(json, fromJson, isBlank, format, t, a) == Satisfied
    ensures EvaluateSingle(json, fromJson, isBlank, format, t, b) == Satisfied
  {
    hide Parsed, ClaimsMet, FormatAndMetaMatch, ExtendsRoot;
    var cs := Parsed(json, fromJson).value.credentials;
    var i :| 0 <= i < |cs| && QuerySatisfiedBy(cs[i], format, t, a);
    ClaimsMetExtended(cs[i], a, b);
    assert QuerySatisfiedBy(cs[i], format, t, b);
  }

  /** A larger set of satisfied ids never falsifies the set-level rule. */
  lemma SetsMonotone(q: DcqlQuery, a: set<Text>, b: set<Text>)
    requires a <= b && CredentialSetsSatisfied(q, a)
    ensures CredentialSetsSatisfied(q, b)
  {
    forall s | SetMet(s, a) ensures SetMet(s, b) {
      if s.required {
        var i :| 0 <= i < |s.options| && OptionMet(s.options[i], a);
        assert OptionMet(s.options[i], b);
      }
    }
  }

  /** With nothing satisfied, only a query whose credential sets are all optional is met. */
  lemma NothingSatisfies(q: DcqlQuery)
    ensures CredentialSetsSatisfied(q, {})
       <==> q.credentialSets != [] && forall i :: 0 <= i < |q.credentialSets| ==> !q.credentialSets[i].required
  {
    var none: set<Text> := {};
    forall option ensures !OptionMet(option, none) {
      if option != [] { assert option[0] !in none; }
    }
    if q.credentialSets == [] && q.credentials != [] {
      assert q.credentials[0].id !in none;
    }
    forall i | 0 <= i < |q.credentialSets| ensures SetMet(q.credentialSets[i], none) <==> !q.credentialSets[i].required {
    }
  }

  predicate IsStringList(v: Json) {
    v.Arr? && forall i :: 0 <= i < |v.items| ==> v.items[i].Str?
  }

  /** A `credential_sets` entry the parser keeps: its options are a non-empty array of arrays of strings. */
  predicate GoodCredentialSet(v: Json) {
    match Dcql.AsArray(Get(v, Lit("options")))
    case None => false
    case Some(options) => options != [] && forall i :: 0 <= i < |options| ==> IsStringList(options[i])
  }

  predicate Optional(v: Json) {
    Get(v, Lit("required")) == Some(Bool(false))
  }

  lemma GoodSetExact(v: Json)
    ensures ParseCredentialSet(v).Some? <==> GoodCredentialSet(v)
    ensures ParseCredentialSet(v).Some? ==> (ParseCredentialSet(v).value.required <==> !Optional(v))
  {
    hide Lit, Lookup;
    if Dcql.AsArray(Get(v, Lit("options"))).Some? {
      var options := Dcql.AsArray(Get(v, Lit("options"))).value;
      forall i | 0 <= i < |options| ensures ParseIdList(options[i]).Some? <==> IsStringList(options[i]) {
      }
    }
  }

  /**
    On the JSON: the empty presentation satisfies a query exactly when some entry of `credential_sets` is
    well formed and every well-formed one says `"required": false`.  Malformed entries count for nothing,
    required or not.
  */
  lemma NothingSatisfiesJson(json: Text, fromJson: Text -> Option<Json>)
    requires Parsed(json, fromJson).Ok?
    ensures CredentialSetsSatisfied(Parsed(json, fromJson).value, {})
       <==> var sets := Entries(fromJson(json).value, Lit("credential_sets"));
            && (exists v :: v in sets && GoodCredentialSet(v))
            && (forall v :: v in sets && GoodCredentialSet(v) ==> Optional(v))
  {
    hide Lit, Entries, ParseCredential, ParseCredentialSet, GoodCredentialSet, Optional, CredentialSetsSatisfied, IdsDistinct,
      FilterMapped;
    var sets, q := Entries(fromJson(json).value, Lit("credential_sets")), Parsed(json, fromJson).value;
    NothingSatisfies(q);
    if CredentialSetsSatisfied(q, {}) {
      var first := KeptFrom(sets, q.credentialSets[0]);
      forall v | v in sets && GoodCredentialSet(v) ensures Optional(v) {
        KeptSet(sets, v);
        var i :| 0 <= i < |q.credentialSets| && q.credentialSets[i] == ParseCredentialSet(v).value;
      }
    }
    if v :| v in sets && GoodCredentialSet(v) {
      KeptSet(sets, v);
      if forall w :: w in sets && GoodCredentialSet(w) ==> Optional(w) {
        forall i | 0 <= i < |q.credentialSets| ensures !q.credentialSets[i].required {
          var w := KeptFrom(sets, q.credentialSets[i]);
        }
      }
    }
  }

  /** A well-formed entry is kept. */
  lemma KeptSet(sets: seq<Json>, v: Json)
    requires v in sets && GoodCredentialSet(v)
    ensures ParseCredentialSet(v).Some? && ParseCredentialSet(v).value in FilterMapped(ParseCredentialSet, sets)
    ensures ParseCredentialSet(v).value.required <==> !Optional(v)
  {
    hide ParseCredentialSet, GoodCredentialSet, Optional, FilterMapped;
    GoodSetExact(v);
    var k :| 0 <= k < |sets| && sets[k] == v;
    InFilterMapped(ParseCredentialSet, sets, ParseCredentialSet(v).value);
  }

  /** What is kept comes from a well-formed entry. */
  lemma KeptFrom(sets: seq<Json>, s: CredentialSetQuery) returns (v: Json)
    requires s in FilterMapped(ParseCredentialSet, sets)
    ensures v in sets && GoodCredentialSet(v) && (s.required <==> !Optional(v))
  {
    hide ParseCredentialSet, GoodCredentialSet, Optional, FilterMapped;
    InFilterMapped(ParseCredentialSet, sets, s);
    var k :| 0 <= k < |sets| && ParseCredentialSet(sets[k]) == Some(s);
    v := sets[k];
    GoodSetExact(v);
  }

  /** A required set whose options are not an array, beside an optional one: nothing need be presented. */
  function DroppedRequiredSet(): Json {
    Obj([Entry(Lit("credential_sets"),
               Arr([Obj([Entry(Lit("options"), Str(Lit("pid")))]),
                    Obj([Entry(Lit("options"), Arr([Arr([Str(Lit("pid"))])])), Entry(Lit("required"), Bool(false))])]))])
  }

  lemma RequiredSetDropped(json: Text, fromJson: Text -> Option<Json>)
    requires fromJson(json) == Some(DroppedRequiredSet())
    ensures Parsed(json, fromJson).Ok? && CredentialSetsSatisfied(Parsed(json, fromJson).value, {})
    ensures var sets := Entries(DroppedRequiredSet(), Lit("credential_sets")); |sets| == 2 && !Optional(sets[0])
  {
    assert |Lit("options")| == 7 && |Lit("required")| == 8 && |Lit("credentials")| == 11 && |Lit("credential_sets")| == 15;
    hide Lit;
    var sets := Entries(DroppedRequiredSet(), Lit("credential_sets"));
    assert Entries(DroppedRequiredSet(), Lit("credentials")) == [];
    var item := Arr([Str(Lit("pid"))]);
    assert IsStringList(item);
    assert Get(sets[1], Lit("options")) == Some(Arr([item]));
    LookupAt(sets[1].entries, 1);
    assert GoodCredentialSet(sets[1]) && Optional(sets[1]);
    assert Get(sets[0], Lit("options")) == Some(Str(Lit("pid")));
    assert !GoodCredentialSet(sets[0]);
    assert sets[1] in sets;
    NothingSatisfiesJson(json, fromJson);
  }

  // ---------------------------------------------------------------------------------------------
  // Malformed input fails closed
  // ---------------------------------------------------------------------------------------------

  predicate GoodComponent(v: Json) {
    v.Str? || v.Null? || (v.Num? && v.number.Integer? && 0 <= v.number.value < U64_RANGE)
  }

  predicate GoodValue(v: Json) {
    v.Str? || v.Bool? || (v.Num? && v.number.Integer? && InI64(v.number.value))
  }

  predicate GoodPath(v: Json) {
    && v.Arr? && v.items != [] && v.items[0].Str?
    && forall i :: 0 <= i < |v.items| ==> GoodComponent(v.items[i])
  }

  predicate GoodValues(v: Json) {
    v.Arr? && exists i :: 0 <= i < |v.items| && GoodValue(v.items[i])
  }

  /** A Claims Query entry that some presentation can meet, judged on its JSON alone. */
  predicate GoodClaim(v: Json) {
    && Get(v, Lit("path")).Some? && GoodPath(Get(v, Lit("path")).value)
    && (Get(v, Lit("values")).Some? ==> GoodValues(Get(v, Lit("values")).value))
  }

  lemma PathExact(v: Json)
    ensures GoodPath(v) <==> ParsePath(v)[0].Key? && Unrepresentable !in ParsePath(v)
  {
    if v.Arr? && v.items != [] {
      forall i | 0 <= i < |v.items| ensures GoodComponent(v.items[i]) <==> ParsePath(v)[i] != Unrepresentable {
      }
    }
  }

  /** The value a well-formed expected value matches. */
  function LeafOf(c: ClaimValue): AttributeValue {
    match c
    case TextClaim(t) => TextValue(t)
    case IntegerClaim(n) => IntegerValue(n)
    case BooleanClaim(b) => BooleanValue(b)
    case NeverMatches => NullValue
  }

  lemma ValuesExact(v: Json, leaf: AttributeValue)
    ensures MatchesOne(leaf, ParseValues(v)) ==> GoodValues(v)
    ensures GoodValues(v) ==> exists i :: 0 <= i < |ParseValues(v)| && MatchesOne(LeafOf(ParseValues(v)[i]), ParseValues(v))
  {
    if MatchesOne(leaf, ParseValues(v)) {
      var i :| 0 <= i < |ParseValues(v)| && ValueMatches(leaf, ParseValues(v)[i]);
      assert GoodValue(v.items[i]);
    }
    if GoodValues(v) {
      var i :| 0 <= i < |v.items| && GoodValue(v.items[i]);
      assert ValueMatches(LeafOf(ParseValues(v)[i]), ParseValues(v)[i]);
      assert MatchesOne(LeafOf(ParseValues(v)[i]), ParseValues(v));
    }
  }

  /** A parsed claim can be met by some presentation exactly when its JSON is well formed. */
  lemma ClaimSatisfiableExact(v: Json)
    ensures (exists presented: Presented :: ClaimResolves(ParseClaim(v), presented)) <==> GoodClaim(v)
  {
    hide Resolved, MatchesOne, GoodPath, GoodValues, ParsePath, ParseValues, Lookup;
    var c := ParseClaim(v);
    GetOfObject(v, Lit("path"));
    PathOfClaim(v);
    if presented: Presented :| ClaimResolves(c, presented) {
      var selected := Resolved(presented, c.path);
      SelectableExact(c.path, selected[0]);
      assert selected[0] in Resolved(presented, c.path);
      if c.values.Some? {
        var i :| 0 <= i < |selected| && MatchesOne(selected[i], c.values.value);
        ValuesExact(Get(v, Lit("values")).value, selected[i]);
      }
    }
    if GoodClaim(v) {
      var leaf := NullValue;
      if c.values.Some? {
        ValuesExact(Get(v, Lit("values")).value, NullValue);
        var i :| 0 <= i < |c.values.value| && MatchesOne(LeafOf(c.values.value[i]), c.values.value);
        leaf := LeafOf(c.values.value[i]);
      }
      SelectableExact(c.path, leaf);
      var presented: Presented :| leaf in Resolved(presented, c.path);
      assert ClaimResolves(c, presented);
    }
  }

  lemma PathOfClaim(v: Json)
    ensures Get(v, Lit("path")).Some? ==>
              (GoodPath(Get(v, Lit("path")).value) <==> ParseClaim(v).path[0].Key? && Unrepresentable !in ParseClaim(v).path)
    ensures ParseClaim(v).path != []
    ensures Get(v, Lit("path")).None? ==> ParseClaim(v).path == [Unrepresentable]
    ensures ParseClaim(v).values == match Get(v, Lit("values")) case Some(vs) => Some(ParseValues(vs)) case None => None
  {
    hide GoodPath, ParseValues, Lookup;
    if Get(v, Lit("path")).Some? { PathExact(Get(v, Lit("path")).value); }
  }

  /** `claims` is present and not a non-empty array of well-formed Claims Queries. */
  predicate BadClaims(v: Json) {
    var claims := Get(v, Lit("claims"));
    claims.Some? && !(claims.value.Arr? && claims.value.items != []
                      && forall i :: 0 <= i < |claims.value.items| ==> GoodClaim(claims.value.items[i]))
  }

  predicate NoClaimSets(v: Json) {
    var sets := Get(v, Lit("claim_sets"));
    sets.None? || sets.value == Arr([])
  }

  /** An option that is not an array of strings, or that asks for nothing. */
  predicate BadOption(v: Json) {
    ParseIdList(v).None? || v == Arr([])
  }

  predicate BadClaimSets(v: Json) {
    var sets := Get(v, Lit("claim_sets"));
    && sets.Some? && sets.value != Arr([])
    && (sets.value.Arr? ==> forall i :: 0 <= i < |sets.value.items| ==> BadOption(sets.value.items[i]))
  }

  lemma ClaimHasNonEmptyId(claims: Option<Json>, i: nat)
    requires i < |ParseClaims(claims)|
    ensures ParseClaims(claims)[i].id != Some([])
  {
    hide Lookup, ParsePath, ParseValues;
  }

  lemma BadOptionFails(v: Json, claims: Option<Json>, presented: Presented)
    requires BadOption(v)
    ensures !SetResolves(ParseClaims(claims), ParseClaimSet(v), presented)
  {
    var ids, cs := ParseClaimSet(v), ParseClaims(claims);
    hide ClaimResolves, ParseClaims;
    if ids != [] {
      forall i | 0 <= i < |cs| ensures cs[i].id != Some([]) {
        ClaimHasNonEmptyId(claims, i);
      }
      assert ids[0] == [];
      assert !IdResolves(cs, [], presented);
    }
  }

  /**
    A kept query with a malformed claim and no claim sets, or whose claim sets are all malformed, is
    satisfied by no presentation.
  */
  lemma FailsClosed(v: Json, q: CredentialQuery, presented: Presented)
    requires ParseCredential(v) == Some(q)
    requires (NoClaimSets(v) && BadClaims(v)) || BadClaimSets(v)
    ensures !ClaimsMet(q, presented)
  {
    var claims := Get(v, Lit("claims"));
    CredentialFields(v, q);
    hide Get, ParseCredential, ParseClaim, ClaimResolves, GoodClaim, BadOption, SetResolves, ParseClaimSet;
    if NoClaimSets(v) && BadClaims(v) {
      var i := BadClaimAt(claims, presented);
    } else if q.claims != [] && ClaimsMet(q, presented) {
      var sets := Get(v, Lit("claim_sets")).value;
      var s :| 0 <= s < |q.claimSets| && SetResolves(q.claims, q.claimSets[s], presented);
      if sets.Arr? {
        BadOptionFails(sets.items[s], claims, presented);
      } else {
        NotAList(sets);
        BadOptionFails(sets, claims, presented);
      }
    }
  }

  lemma NotAList(v: Json)
    requires !v.Arr?
    ensures BadOption(v) && ParseClaimSet(v) == [[]]
  {
  }

  lemma CredentialFields(v: Json, q: CredentialQuery)
    requires ParseCredential(v) == Some(q)
    ensures q.claims == ParseClaims(Get(v, Lit("claims")))
    ensures q.claimSets == match Get(v, Lit("claim_sets")) case Some(s) => ParseClaimSets(s) case None => []
    ensures q.claimSets != [] ==> q.claims != []
  {
    hide Lookup, ParseMeta, ParseClaims, ParseClaimSets;
  }

  lemma BadClaimAt(claims: Option<Json>, presented: Presented) returns (i: nat)
    requires claims.Some?
    requires !(claims.value.Arr? && claims.value.items != []
               && forall i :: 0 <= i < |claims.value.items| ==> GoodClaim(claims.value.items[i]))
    ensures i < |ParseClaims(claims)| && !ClaimResolves(ParseClaims(claims)[i], presented)
  {
    hide ParseClaim, GoodClaim, ClaimResolves;
    i := 0;
    if claims.value.Arr? && claims.value.items != [] {
      i :| 0 <= i < |claims.value.items| && !GoodClaim(claims.value.items[i]);
      ClaimSatisfiableExact(claims.value.items[i]);
    } else {
      UnsatisfiableNeverResolves(presented);
    }
  }

  lemma UnsatisfiableNeverResolves(presented: Presented)
    ensures !ClaimResolves(UNSATISFIABLE, presented)
  {
    UnrepresentableSelectsNothing(presented, [Unrepresentable]);
  }

  /** The gate imposes nothing only on a blank query or one without an enforceable entry. */
  lemma InactiveExact(json: Text, fromJson: Text -> Option<Json>, isBlank: Text -> bool,
                      format: Format, t: CredentialType, presented: Presented)
    ensures EvaluateSingle(json, fromJson, isBlank, format, t, presented) == Inactive
       <==> || isBlank(json)
            || (&& fromJson(json).Some? && fromJson(json).value.Obj?
                && forall v :: v in Entries(fromJson(json).value, Lit("credentials")) ==> !Supported(v) || ReferencesNothing(v))
  {
    hide Supported, ReferencesNothing, ParseCredential, QuerySatisfiedBy;
    if fromJson(json).Some? && fromJson(json).value.Obj? {
      var entries := Entries(fromJson(json).value, Lit("credentials"));
      var cs := FilterMapped(ParseCredential, entries);
      forall v | v in entries ensures ParseCredential(v).Some? <==> Supported(v) && !ReferencesNothing(v) {
        KeptExactly(v);
      }
      forall v | v in entries && ParseCredential(v).Some? ensures cs != [] {
        InFilterMapped(ParseCredential, entries, ParseCredential(v).value);
      }
      if cs != [] {
        InFilterMapped(ParseCredential, entries, cs[0]);
      }
    }
  }

  // ---------------------------------------------------------------------------------------------
  // The issuer role of a query
  // ---------------------------------------------------------------------------------------------

  datatype IssuerRole = Qeaa | Pid | PubEaa | NonQualifiedEaa

  function RoleFromType(format: Format, typeId: Text): Option<IssuerRole> {
    var isPid := match format
                 case SdJwtVc => typeId == Lit("urn:eudi:pid:1") || typeId == Lit("eu.europa.ec.eudi.pid.1")
                 case Mdoc => typeId == Lit("eu.europa.ec.eudi.pid.1");
    if isPid then Some(Pid) else None
  }

  /** The types of the PID: one for both formats, and the URN of the SD-JWT VC. */
  predicate IsPid(format: Format, typeId: Text) {
    typeId == Lit("eu.europa.ec.eudi.pid.1") || (format == SdJwtVc && typeId == Lit("urn:eudi:pid:1"))
  }

  lemma RoleExact(format: Format, typeId: Text, role: IssuerRole)
    ensures RoleFromType(format, typeId) == Some(role) <==> role == Pid && IsPid(format, typeId)
  {
  }

  function RoleFromMeta(meta: CredentialMeta): Option<IssuerRole> {
    match meta
    case VctMeta(None) => None
    case VctMeta(Some(vcts)) =>
      if vcts == [] then None
      else
        var first := RoleFromType(SdJwtVc, vcts[0]);
        if forall i :: 1 <= i < |vcts| ==> RoleFromType(SdJwtVc, vcts[i]) == first then first else None
    case DocTypeMeta(None) => None
    case DocTypeMeta(Some(d)) => RoleFromType(Mdoc, d)
  }

  /** A type the query's constraint admits. */
  predicate Admits(meta: CredentialMeta, format: Format, typeId: Text) {
    match meta
    case VctMeta(Some(vcts)) => format == SdJwtVc && typeId in vcts
    case DocTypeMeta(Some(d)) => format == Mdoc && typeId == d
    case VctMeta(None) => format == SdJwtVc
    case DocTypeMeta(None) => format == Mdoc
  }

  /**
    A role is derived exactly when the constraint admits some type and every admitted type is one of
    the PID, so an admitted credential is never anchored under a role its own type contradicts.
  */
  lemma RoleFromMetaExact(meta: CredentialMeta, role: IssuerRole)
    ensures RoleFromMeta(meta) == Some(role)
       <==> role == Pid && exists f, t :: Admits(meta, f, t) && forall g, u :: Admits(meta, g, u) ==> IsPid(g, u)
  {
    RoleOfTypes(meta, role);
    forall g, u ensures RoleFromType(g, u) == Some(role) <==> role == Pid && IsPid(g, u) {
      RoleExact(g, u, role);
    }
    hide RoleFromMeta, RoleFromType, Admits, IsPid;
  }

  lemma RoleOfTypes(meta: CredentialMeta, role: IssuerRole)
    ensures RoleFromMeta(meta) == Some(role)
       <==> exists f, t :: Admits(meta, f, t) && forall g, u :: Admits(meta, g, u) ==> RoleFromType(g, u) == Some(role)
  {
    match meta {
      case VctMeta(None) =>
        assert Admits(meta, SdJwtVc, []) && RoleFromType(SdJwtVc, []) == None;
      case DocTypeMeta(None) =>
        assert Admits(meta, Mdoc, []) && RoleFromType(Mdoc, []) == None;
      case VctMeta(Some(vcts)) =>
        hide RoleFromType;
        if vcts != [] {
          assert Admits(meta, SdJwtVc, vcts[0]);
          if RoleFromMeta(meta) == Some(role) {
            forall g, u | Admits(meta, g, u) ensures RoleFromType(g, u) == Some(role) {
              var i :| 0 <= i < |vcts| && vcts[i] == u;
            }
          }
          if forall g, u :: Admits(meta, g, u) ==> RoleFromType(g, u) == Some(role) {
            forall i | 0 <= i < |vcts| ensures RoleFromType(SdJwtVc, vcts[i]) == Some(role) {
              assert Admits(meta, SdJwtVc, vcts[i]);
            }
          }
        }
      case DocTypeMeta(Some(d)) =>
        hide RoleFromType;
        assert Admits(meta, Mdoc, d);
    }
  }

  /** The types of the verified credential. */
  function TypesOf(t: CredentialType): seq<Text> {
    match t
    case Vct(vct) => if vct.Some? then [vct.value] else []
    case DocTypes(docTypes) => docTypes
  }

  lemma MetaKind(v: Json, q: CredentialQuery)
    requires ParseCredential(v) == Some(q)
    ensures q.format == SdJwtVc <==> q.meta.VctMeta?
  {
    hide Lookup, ParseClaims, ParseClaimSets, FilterMapped;
  }

  /** A query is satisfied only by credentials of types it admits, and a role it implies is the role of each of them. */
  lemma SatisfiedIsAdmitted(v: Json, q: CredentialQuery, format: Format, t: CredentialType, presented: Presented)
    requires ParseCredential(v) == Some(q) && QuerySatisfiedBy(q, format, t, presented)
    ensures forall i :: 0 <= i < |TypesOf(t)| ==> Admits(q.meta, format, TypesOf(t)[i])
    ensures RoleFromMeta(q.meta).Some? ==>
              && TypesOf(t) != []
              && forall i :: 0 <= i < |TypesOf(t)| ==> RoleFromType(format, TypesOf(t)[i]) == RoleFromMeta(q.meta)
  {
    hide ParseCredential, ClaimsMet, RoleFromType;
    MetaKind(v, q);
    if RoleFromMeta(q.meta).Some? {
      RoleOfTypes(q.meta, RoleFromMeta(q.meta).value);
    }
  }

  /** For every required set, a non-empty option that the host picked for it and that is satisfied whole. */
  predicate Picks(q: DcqlQuery, choice: seq<nat>, satisfied: set<Text>) {
    && |choice| == |q.credentialSets|
    && forall i :: 0 <= i < |choice| && q.credentialSets[i].required ==>
         && choice[i] < |q.credentialSets[i].options|
         && q.credentialSets[i].options[choice[i]] != []
         && forall id :: id in q.credentialSets[i].options[choice[i]] ==> id in satisfied
  }

  lemma {:induction false} PickEach(sets: seq<CredentialSetQuery>, satisfied: set<Text>) returns (choice: seq<nat>)
    requires forall i :: 0 <= i < |sets| ==> SetMet(sets[i], satisfied)
    ensures |choice| == |sets|
    ensures forall i :: 0 <= i < |sets| && sets[i].required ==>
              choice[i] < |sets[i].options| && OptionMet(sets[i].options[choice[i]], satisfied)
  {
    if sets == [] {
      choice := [];
    } else {
      var n := |sets| - 1;
      choice := PickEach(sets[..n], satisfied);
      assert SetMet(sets[n], satisfied);
      if o :| 0 <= o < |sets[n].options| && OptionMet(sets[n].options[o], satisfied) {
        choice := choice + [o];
      } else {
        choice := choice + [0];
      }
    }
  }

  /** With credential sets, the rule holds exactly when one option can be picked for every required set. */
  lemma SetsNeedOnePick(q: DcqlQuery, satisfied: set<Text>)
    requires q.credentialSets != []
    ensures CredentialSetsSatisfied(q, satisfied) <==> exists choice :: Picks(q, choice, satisfied)
  {
    if CredentialSetsSatisfied(q, satisfied) {
      var choice := PickEach(q.credentialSets, satisfied);
      assert Picks(q, choice, satisfied);
    }
    if choice :| Picks(q, choice, satisfied) {
      forall i | 0 <= i < |q.credentialSets| ensures SetMet(q.credentialSets[i], satisfied) {
      }
    }
  }

  /** The types that the `meta` of a credential entry lists, in JSON. */
  function MetaJson(v: Json): Json {
    if Get(v, Lit("meta")).Some? then Get(v, Lit("meta")).value else Null
  }

  /** The types a query admits are those its JSON lists, or all of its format when it lists none. */
  lemma AdmittedTypesAreListed(v: Json, q: CredentialQuery, t: Text)
    requires ParseCredential(v) == Some(q)
    ensures Admits(q.meta, q.format, t)
       <==> match q.format
            case SdJwtVc =>
              || Str(t) in Entries(MetaJson(v), Lit("vct_values"))
              || forall j :: j in Entries(MetaJson(v), Lit("vct_values")) ==> !j.Str?
            case Mdoc =>
              var d := Get(MetaJson(v), Lit("doctype_value"));
              d == Some(Str(t)) || !(d.Some? && d.value.Str?)
  {
    MetaOf(v, q);
    var meta := MetaJson(v);
    MetaFields(meta);
    hide ParseCredential, Lookup, FilterMapped, ParseMeta, Lit, MetaJson;
    var vcts := Entries(meta, Lit("vct_values"));
    var texts := FilterMapped(TextOf, vcts);
    InFilterMapped(TextOf, vcts, t);
    forall j | j in vcts && j.Str? ensures j.text in texts {
      InFilterMapped(TextOf, vcts, j.text);
    }
    if texts != [] {
      InFilterMapped(TextOf, vcts, texts[0]);
    }
  }

  lemma MetaFields(meta: Json)
    ensures ParseMeta(SdJwtVc, Some(meta))
         == VctMeta(if FilterMapped(TextOf, Entries(meta, Lit("vct_values"))) == [] then None
                    else Some(FilterMapped(TextOf, Entries(meta, Lit("vct_values")))))
    ensures ParseMeta(Mdoc, Some(meta)) == DocTypeMeta(Dcql.AsText(Get(meta, Lit("doctype_value"))))
  {
    hide Lookup;
  }

  lemma MetaOf(v: Json, q: CredentialQuery)
    requires ParseCredential(v) == Some(q)
    ensures q.meta == ParseMeta(q.format, Some(MetaJson(v)))
  {
    hide Lookup, ParseClaims, ParseClaimSets, FilterMapped;
  }
}
