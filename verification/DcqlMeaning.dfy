/**
  What a DCQL query asks, read off its JSON without the parser: one claim, the claims of an entry, a
  whole credential entry and the credential sets.  The evaluation decides exactly that.
*/
module DcqlMeaning {
  import opened Prelude
  import opened Json
  import opened CborValue
  import opened ClaimsPath
  import opened Dcql
  import opened DcqlEvaluation

  // ---------------------------------------------------------------------------------------------
  // One claim
  // ---------------------------------------------------------------------------------------------

  /** A path component denotes a field by name, an element by index, or any element. */
  predicate Denotes(j: Json, p: Place) {
    match (j, p)
    case (Str(k), Field(n)) => k == n
    case (Null, Element(_)) => true
    case (Num(Integer(i)), Element(at)) => i == at < U64_RANGE
    case _ => false
  }

  predicate AllDenote(path: Json, places: seq<Place>) {
    && path.Arr? && |path.items| == |places|
    && forall i :: 0 <= i < |places| ==> Denotes(path.items[i], places[i])
  }

  predicate SameScalar(j: Json, v: AttributeValue) {
    match (j, v)
    case (Str(t), TextValue(actual)) => t == actual
    case (Num(Integer(n)), IntegerValue(actual)) => n == actual && InI64(n)
    case (Bool(b), BooleanValue(actual)) => b == actual
    case _ => false
  }

  /** The value is among the expected ones, if any are given. */
  predicate Expected(v: Json, x: AttributeValue) {
    var values := Get(v, Lit("values"));
    values.None? || (values.value.Arr? && exists i :: 0 <= i < |values.value.items| && SameScalar(values.value.items[i], x))
  }

  lemma ComponentExact(j: Json, p: Place)
    ensures Matches(ParsePathComponent(j), p) <==> Denotes(j, p)
  {
  }

  lemma PathDenotes(path: Json, places: seq<Place>)
    requires places != []
    ensures AllMatch(ParsePath(path), places) <==> AllDenote(path, places)
  {
    if path.Arr? && path.items != [] {
      forall i | 0 <= i < |path.items| && i < |places|
        ensures Matches(ParsePath(path)[i], places[i]) <==> Denotes(path.items[i], places[i])
      {
        ComponentExact(path.items[i], places[i]);
      }
      if AllDenote(path, places) {
        forall i | 0 <= i < |places| ensures Matches(ParsePath(path)[i], places[i]) {
          assert Denotes(path.items[i], places[i]);
        }
      }
    } else {
      assert !Matches(ParsePath(path)[0], places[0]);
    }
  }

  lemma ExpectedExact(v: Json, x: AttributeValue)
    ensures Expected(v, x) <==> ParseClaim(v).values.None? || MatchesOne(x, ParseClaim(v).values.value)
  {
    PathOfClaim(v);
    hide ParseClaim, Lookup;
    if Get(v, Lit("values")).Some? {
      var values := Get(v, Lit("values")).value;
      if values.Arr? && values.items != [] {
        forall i | 0 <= i < |values.items| ensures ValueMatches(x, ParseValues(values)[i]) <==> SameScalar(values.items[i], x) {
        }
      } else {
        assert ParseValues(values) == [NeverMatches];
      }
    }
  }

  /**
    The path of the claim denotes a place of the presentation, starting at a key, whose value is among
    the expected ones.
  */
  ghost predicate Shown(v: Json, presented: Presented) {
    && Get(v, Lit("path")).Some?
    && exists places: seq<Place> ::
         && places != [] && places[0].Field? && AllDenote(Get(v, Lit("path")).value, places)
         && ValueAt(MapValue(presented), places).Some?
         && Expected(v, ValueAt(MapValue(presented), places).value)
  }

  /** A parsed claim resolves exactly when its JSON is shown. */
  lemma ClaimMeaning(v: Json, presented: Presented)
    ensures ClaimResolves(ParseClaim(v), presented) <==> Shown(v, presented)
  {
    var c := ParseClaim(v);
    PathOfClaim(v);
    ClaimPath(v);
    hide ParseClaim, Resolved, Expected, MatchesOne, AllMatch, AllDenote, ParsePath, Get, Lit;
    var selected := Resolved(presented, c.path);
    if ClaimResolves(c, presented) {
      var i := 0;
      if c.values.Some? { i :| 0 <= i < |selected| && MatchesOne(selected[i], c.values.value); }
      ExpectedExact(v, selected[i]);
      SelectionExact(presented, c.path, selected[i]);
      var places: seq<Place> :|
        places != [] && places[0].Field? && AllMatch(c.path, places) && ValueAt(MapValue(presented), places) == Some(selected[i]);
      if Get(v, Lit("path")).Some? {
        PathDenotes(Get(v, Lit("path")).value, places);
      } else {
        SentinelMatchesNothing(places);
      }
    }
    if Get(v, Lit("path")).Some? {
      if places: seq<Place> :|
           places != [] && places[0].Field? && AllDenote(Get(v, Lit("path")).value, places)
           && ValueAt(MapValue(presented), places).Some? && Expected(v, ValueAt(MapValue(presented), places).value)
      {
        var x := ValueAt(MapValue(presented), places).value;
        PathDenotes(Get(v, Lit("path")).value, places);
        ExpectedExact(v, x);
        SelectionExact(presented, c.path, x);
        assert x in selected;
        var i :| 0 <= i < |selected| && selected[i] == x;
      }
    }
  }

  lemma ClaimPath(v: Json)
    ensures Get(v, Lit("path")).Some? ==> ParseClaim(v).path == ParsePath(Get(v, Lit("path")).value)
  {
    hide Lookup, ParsePath, ParseValues;
    GetOfObject(v, Lit("path"));
  }

  lemma SentinelMatchesNothing(places: seq<Place>)
    ensures !AllMatch([Unrepresentable], places)
  {
    if |places| == 1 {
      assert [Unrepresentable][0] == Unrepresentable && !Matches([Unrepresentable][0], places[0]);
    }
  }

  // ---------------------------------------------------------------------------------------------
  // The claims of an entry
  // ---------------------------------------------------------------------------------------------

  ghost predicate NamesDistinct(vs: seq<Json>) {
    forall i, j, id :: 0 <= i < j < |vs| && Named(vs[i], id) ==> !Named(vs[j], id)
  }

  /** A non-empty array of strings, each the id of a claim that is shown. */
  ghost predicate SetShown(s: Json, claims: seq<Json>, presented: Presented) {
    && s.Arr? && s.items != []
    && forall i :: 0 <= i < |s.items| ==> s.items[i].Str? && NameShown(claims, s.items[i].text, presented)
  }

  ghost predicate NameShown(claims: seq<Json>, id: Text, presented: Presented) {
    exists c :: c in claims && Named(c, id) && Shown(c, presented)
  }

  /**
    Without `claims` nothing is asked; without `claim_sets` every claim; with them, the claims of one
    set, and no id may name two claims.
  */
  ghost predicate ClaimsShown(v: Json, presented: Presented) {
    if Get(v, Lit("claims")).None? then true
    else
      var claims := Entries(v, Lit("claims"));
      if NoClaimSets(v) then claims != [] && forall c :: c in claims ==> Shown(c, presented)
      else NamesDistinct(claims) && exists s :: s in Entries(v, Lit("claim_sets")) && SetShown(s, claims, presented)
  }

  /** The entries of an array; anything else counts as one malformed entry. */
  function Items(v: Json): (items: seq<Json>)
    ensures items != []
  {
    if v.Arr? && v.items != [] then v.items else [Null]
  }

  lemma NullSaysNothing(claims: seq<Json>, presented: Presented)
    ensures !Shown(Null, presented) && !SetShown(Null, claims, presented)
    ensures forall id :: !Named(Null, id)
  {
    hide Lit;
  }

  lemma ClaimsAreItems(v: Json)
    ensures ParseClaims(Some(v)) == Mapped(ParseClaim, Items(v))
  {
  }

  lemma ClaimSetsAreItems(v: Json)
    requires v != Arr([])
    ensures ParseClaimSets(v) == Mapped(ParseClaimSet, Items(v))
  {
    assert !v.Arr? ==> ParseClaimSets(v) == [ParseClaimSet(Null)];
  }

  lemma NameMeaning(v: Json, id: Text)
    ensures ParseClaim(v).id == Some(id) <==> Named(v, id)
  {
    hide Lookup, ParsePath, ParseValues, Lit;
  }

  lemma NamesMeaning(vs: seq<Json>)
    ensures ClaimIdsDistinct(Mapped(ParseClaim, vs)) <==> NamesDistinct(vs)
  {
    hide ParseClaim, Named;
    forall i, id | 0 <= i < |vs| ensures ParseClaim(vs[i]).id == Some(id) <==> Named(vs[i], id) {
      NameMeaning(vs[i], id);
    }
    var cs := Mapped(ParseClaim, vs);
    if NamesDistinct(vs) {
      forall i, j | 0 <= i < j < |cs| && cs[i].id.Some? ensures cs[i].id != cs[j].id {
        assert Named(vs[i], cs[i].id.value);
      }
    }
    if ClaimIdsDistinct(cs) {
      forall i, j, id | 0 <= i < j < |vs| && Named(vs[i], id) ensures !Named(vs[j], id) {
        assert cs[i].id == Some(id) && cs[i].id != cs[j].id;
      }
    }
  }

  lemma IdMeaning(vs: seq<Json>, id: Text, presented: Presented)
    ensures IdResolves(Mapped(ParseClaim, vs), id, presented) <==> NameShown(vs, id, presented)
  {
    hide ParseClaim, Named, ClaimResolves, Shown;
    forall i | 0 <= i < |vs|
      ensures ParseClaim(vs[i]).id == Some(id) <==> Named(vs[i], id)
      ensures ClaimResolves(ParseClaim(vs[i]), presented) <==> Shown(vs[i], presented)
    {
      NameMeaning(vs[i], id);
      ClaimMeaning(vs[i], presented);
    }
  }

  lemma SetMeaning(vs: seq<Json>, s: Json, presented: Presented)
    ensures SetResolves(Mapped(ParseClaim, vs), ParseClaimSet(s), presented) <==> SetShown(s, vs, presented)
  {
    hide ParseClaim, IdResolves, NameShown, Named;
    IdMeaning(vs, [], presented);
    NoEmptyName(vs, presented);
    if ParseIdList(s).Some? {
      forall i | 0 <= i < |s.items|
        ensures IdResolves(Mapped(ParseClaim, vs), s.items[i].text, presented) <==> NameShown(vs, s.items[i].text, presented)
      {
        IdMeaning(vs, s.items[i].text, presented);
      }
    } else {
      assert ParseClaimSet(s)[0] == [];
    }
  }

  lemma NoEmptyName(vs: seq<Json>, presented: Presented)
    ensures !NameShown(vs, [], presented)
  {
    hide Shown, Lit;
  }

  /** The claim rule decides exactly whether the JSON of a kept entry is shown. */
  lemma ClaimsExact(v: Json, q: CredentialQuery, presented: Presented)
    requires ParseCredential(v) == Some(q)
    ensures ClaimsMet(q, presented) <==> ClaimsShown(v, presented)
  {
    CredentialFields(v, q);
    hide Get, Lit, ParseCredential, ParseClaim, ParseClaims, ParseClaimSet, ParseClaimSets, Shown, SetShown, NamesDistinct, ClaimResolves,
      SetResolves, ClaimIdsDistinct, Items;
    var claims, sets := Get(v, Lit("claims")), Get(v, Lit("claim_sets"));
    if claims.Some? {
      AllClaims(v, q, presented);
      if !NoClaimSets(v) { SomeSet(v, q, presented); }
    }
  }

  lemma AllClaims(v: Json, q: CredentialQuery, presented: Presented)
    requires ParseCredential(v) == Some(q) && Get(v, Lit("claims")).Some?
    ensures q.claims != [] && (NoClaimSets(v) <==> q.claimSets == [])
    ensures (forall i :: 0 <= i < |q.claims| ==> ClaimResolves(q.claims[i], presented))
       <==> Entries(v, Lit("claims")) != [] && forall c :: c in Entries(v, Lit("claims")) ==> Shown(c, presented)
  {
    CredentialFields(v, q);
    hide Get, Lit, ParseCredential, ParseClaim, ParseClaimSet, Shown, ClaimResolves;
    var items := Items(Get(v, Lit("claims")).value);
    ClaimsAreItems(Get(v, Lit("claims")).value);
    NullSaysNothing([], presented);
    forall i | 0 <= i < |items| ensures ClaimResolves(q.claims[i], presented) <==> Shown(items[i], presented) {
      ClaimMeaning(items[i], presented);
    }
    if forall i :: 0 <= i < |q.claims| ==> ClaimResolves(q.claims[i], presented) {
      forall c | c in items ensures Shown(c, presented) {
        var i :| 0 <= i < |items| && items[i] == c;
        assert ClaimResolves(q.claims[i], presented);
      }
    }
  }

  lemma SomeSet(v: Json, q: CredentialQuery, presented: Presented)
    requires ParseCredential(v) == Some(q) && Get(v, Lit("claims")).Some? && !NoClaimSets(v)
    ensures && ClaimIdsDistinct(q.claims)
            && (exists s :: 0 <= s < |q.claimSets| && SetResolves(q.claims, q.claimSets[s], presented))
       <==> && NamesDistinct(Entries(v, Lit("claims")))
            && exists s :: s in Entries(v, Lit("claim_sets")) && SetShown(s, Entries(v, Lit("claims")), presented)
  {
    CredentialFields(v, q);
    hide Get, Lit, ParseCredential, ParseClaim, ParseClaimSet, SetShown, SetResolves, NamesDistinct, ClaimIdsDistinct;
    var claims, sets := Get(v, Lit("claims")).value, Get(v, Lit("claim_sets")).value;
    var cs, ss := Items(claims), Items(sets);
    ClaimsAreItems(claims);
    ClaimSetsAreItems(sets);
    NamesMeaning(cs);
    NullSaysNothing(cs, presented);
    forall s | 0 <= s < |ss| ensures SetResolves(q.claims, q.claimSets[s], presented) <==> SetShown(ss[s], cs, presented) {
      SetMeaning(cs, ss[s], presented);
    }
    forall s | s in ss ensures exists i :: 0 <= i < |ss| && ss[i] == s {
    }
    if cs != Entries(v, Lit("claims")) { NothingListed(Entries(v, Lit("claims")), cs, presented); }
  }

  /** Of malformed claims no set is shown. */
  lemma NothingListed(listed: seq<Json>, cs: seq<Json>, presented: Presented)
    requires listed == [] && cs == [Null]
    ensures NamesDistinct(listed) && NamesDistinct(cs)
    ensures forall s :: !SetShown(s, listed, presented) && !SetShown(s, cs, presented)
  {
    hide Shown;
    forall s ensures !SetShown(s, listed, presented) && !SetShown(s, cs, presented) {
      if s.Arr? && s.items != [] && s.items[0].Str? {
        assert !NameShown(listed, s.items[0].text, presented);
        NullSaysNothing(cs, presented);
        assert !NameShown(cs, s.items[0].text, presented);
      }
    }
  }

  // ---------------------------------------------------------------------------------------------
  // A whole entry, and the gate
  // ---------------------------------------------------------------------------------------------

  /** An entry that imposes something: a supported format, an id, and `claims` for its `claim_sets` to refer to. */
  ghost predicate Kept(v: Json) {
    Supported(v) && !ReferencesNothing(v)
  }

  /** The credential is of the entry's format, and of a type the entry lists if it lists any. */
  ghost predicate OfType(v: Json, format: Format, t: CredentialType) {
    && OfFormat(v, format)
    && match t
       case Vct(vct) =>
         var listed := Entries(MetaJson(v), Lit("vct_values"));
         format == SdJwtVc && ((exists j :: j in listed && j.Str?) ==> vct.Some? && Str(vct.value) in listed)
       case DocTypes(docTypes) =>
         var asked := Get(MetaJson(v), Lit("doctype_value"));
         && format == Mdoc && docTypes != []
         && (asked.Some? && asked.value.Str? ==> forall d :: d in docTypes ==> d == asked.value.text)
  }

  /** No id names two kept entries. */
  ghost predicate KeptDistinct(vs: seq<Json>) {
    forall i, j, id :: 0 <= i < j < |vs| && Kept(vs[i]) && Kept(vs[j]) && Named(vs[i], id) ==> !Named(vs[j], id)
  }

  lemma KeptParses(v: Json)
    ensures Kept(v) <==> ParseCredential(v).Some?
  {
    hide Supported, ReferencesNothing, ParseCredential;
    KeptExactly(v);
  }

  lemma EntryFields(v: Json, q: CredentialQuery)
    requires ParseCredential(v) == Some(q)
    ensures Named(v, q.id) && OfFormat(v, q.format) && Kept(v)
    ensures q.multiple <==> Get(v, Lit("multiple")) == Some(Bool(true))
  {
    KeptExactly(v);
    IdRead(v);
    FormatRead(v);
    hide Get, Lit, ParseMeta, ParseClaims, ParseClaimSets, FormatFromIdentifier, Named, OfFormat;
  }

  lemma OneFormat(v: Json, f: Format, g: Format)
    requires OfFormat(v, f) && OfFormat(v, g)
    ensures f == g
  {
    FormatsDiffer();
    hide Get, Lit;
  }

  lemma OneName(v: Json, a: Text, b: Text)
    requires Named(v, a) && Named(v, b)
    ensures a == b
  {
    hide Get, Lit;
  }

  lemma TypeExact(v: Json, q: CredentialQuery, format: Format, t: CredentialType)
    requires ParseCredential(v) == Some(q)
    ensures FormatAndMetaMatch(q, format, t) <==> OfType(v, format, t)
  {
    EntryFields(v, q);
    MetaOf(v, q);
    MetaFields(MetaJson(v));
    if OfFormat(v, format) { OneFormat(v, q.format, format); }
    hide Get, Lit, ParseCredential, ParseMeta, FilterMapped, OfFormat, Kept, Named, MetaJson;
    ListedTexts(Entries(MetaJson(v), Lit("vct_values")));
    var asked := Get(MetaJson(v), Lit("doctype_value"));
    if t.DocTypes? && asked.Some? && asked.value.Str? { AllAre(t.docTypes, asked.value.text); }
  }

  lemma AllAre(ts: seq<Text>, expected: Text)
    ensures (forall i :: 0 <= i < |ts| ==> ts[i] == expected) <==> forall d :: d in ts ==> d == expected
  {
    if forall d :: d in ts ==> d == expected {
      forall i | 0 <= i < |ts| ensures ts[i] == expected {
        assert ts[i] in ts;
      }
    }
  }

  lemma ListedTexts(vs: seq<Json>)
    ensures FilterMapped(TextOf, vs) == [] <==> !exists j :: j in vs && j.Str?
    ensures forall t :: t in FilterMapped(TextOf, vs) <==> Str(t) in vs
  {
    hide FilterMapped;
    var texts := FilterMapped(TextOf, vs);
    forall t ensures t in texts <==> Str(t) in vs {
      InFilterMapped(TextOf, vs, t);
    }
    if j :| j in vs && j.Str? { assert Str(j.text) in vs; }
    if texts != [] { assert texts[0] in texts; }
  }

  lemma {:induction false} KeptDistinctExact(vs: seq<Json>)
    ensures IdsDistinct(FilterMapped(ParseCredential, vs)) <==> KeptDistinct(vs)
  {
    hide ParseCredential, Kept, Named;
    if vs != [] {
      var first, rest := vs[0], vs[1..];
      KeptDistinctExact(rest);
      KeptDistinctStep(vs);
      KeptParses(first);
      if Kept(first) {
        var q, qs := ParseCredential(first).value, FilterMapped(ParseCredential, rest);
        FirstDistinct(first, rest);
        assert FilterMapped(ParseCredential, vs) == [q] + qs;
      } else {
        assert FilterMapped(ParseCredential, vs) == FilterMapped(ParseCredential, rest);
      }
    }
  }

  ghost predicate Clashes(v: Json, w: Json) {
    Kept(v) && Kept(w) && exists id :: Named(v, id) && Named(w, id)
  }

  lemma KeptDistinctStep(vs: seq<Json>)
    requires vs != []
    ensures KeptDistinct(vs) <==> KeptDistinct(vs[1..]) && forall w :: w in vs[1..] ==> !Clashes(vs[0], w)
  {
    hide Kept, Named;
    var rest := vs[1..];
    if KeptDistinct(vs) {
      forall i, j, id | 0 <= i < j < |rest| && Kept(rest[i]) && Kept(rest[j]) && Named(rest[i], id) ensures !Named(rest[j], id) {
        assert rest[i] == vs[i + 1] && rest[j] == vs[j + 1];
      }
      forall w | w in rest ensures !Clashes(vs[0], w) {
        var j :| 0 <= j < |rest| && rest[j] == w;
        assert vs[j + 1] == w;
      }
    }
    if KeptDistinct(rest) && forall w :: w in rest ==> !Clashes(vs[0], w) {
      forall i, j, id | 0 <= i < j < |vs| && Kept(vs[i]) && Kept(vs[j]) && Named(vs[i], id) ensures !Named(vs[j], id) {
        assert vs[j] == rest[j - 1];
        if i == 0 {
          assert rest[j - 1] in rest;
        } else {
          assert vs[i] == rest[i - 1];
        }
      }
    }
  }

  lemma FirstDistinct(first: Json, rest: seq<Json>)
    requires Kept(first) && ParseCredential(first).Some?
    ensures var q, qs := ParseCredential(first).value, FilterMapped(ParseCredential, rest);
            IdsDistinct([q] + qs) <==> IdsDistinct(qs) && forall w :: w in rest ==> !Clashes(first, w)
  {
    hide ParseCredential, Kept, Named, FilterMapped;
    var q, qs := ParseCredential(first).value, FilterMapped(ParseCredential, rest);
    var all := [q] + qs;
    EntryFields(first, q);
    forall w | w in rest && Kept(w) ensures ParseCredential(w).Some? && (Clashes(first, w) <==> ParseCredential(w).value.id == q.id) {
      KeptParses(w);
      EntryFields(w, ParseCredential(w).value);
      forall id | Named(first, id) ensures id == q.id { OneName(first, id, q.id); }
      forall id | Named(w, id) ensures id == ParseCredential(w).value.id { OneName(w, id, ParseCredential(w).value.id); }
    }
    if IdsDistinct(all) {
      forall i, j | 0 <= i < j < |qs| ensures qs[i].id != qs[j].id {
        assert all[i + 1] == qs[i] && all[j + 1] == qs[j];
      }
      forall w | w in rest ensures !Clashes(first, w) {
        if Kept(w) {
          KeptParses(w);
          var c := ParseCredential(w).value;
          InFilterMapped(ParseCredential, rest, c);
          var k :| 0 <= k < |rest| && rest[k] == w;
          assert ParseCredential(rest[k]) == Some(c);
          var j :| 0 <= j < |qs| && qs[j] == c;
          assert all[0] == q && all[j + 1] == c;
        }
      }
    }
    if IdsDistinct(qs) && forall w :: w in rest ==> !Clashes(first, w) {
      forall i, j | 0 <= i < j < |all| ensures all[i].id != all[j].id {
        if i == 0 {
          InFilterMapped(ParseCredential, rest, all[j]);
          var k :| 0 <= k < |rest| && ParseCredential(rest[k]) == Some(all[j]);
          KeptParses(rest[k]);
        } else {
          assert all[i] == qs[i - 1] && all[j] == qs[j - 1];
        }
      }
    }
  }

  /** The text parses to an object in which no id names two kept entries. */
  ghost predicate Readable(json: Text, fromJson: Text -> Option<Json>) {
    fromJson(json).Some? && fromJson(json).value.Obj? && KeptDistinct(Entries(fromJson(json).value, Lit("credentials")))
  }

  lemma ReadableExact(json: Text, fromJson: Text -> Option<Json>)
    ensures Parsed(json, fromJson).Ok? <==> Readable(json, fromJson)
    ensures Parsed(json, fromJson).Ok? ==>
              Parsed(json, fromJson).value.credentials == FilterMapped(ParseCredential, Entries(fromJson(json).value, Lit("credentials")))
  {
    hide KeptDistinct, IdsDistinct, Entries, Lit, FilterMapped, ParseCredential;
    if fromJson(json).Some? {
      KeptDistinctExact(Entries(fromJson(json).value, Lit("credentials")));
    }
  }

  /**
    The gate says "satisfied" exactly when the query is readable and some kept entry is of the presented
    type and has its claims shown.  With `InactiveExact` this decides all three answers.
  */
  lemma SatisfiedExact(json: Text, fromJson: Text -> Option<Json>, isBlank: Text -> bool,
                       format: Format, t: CredentialType, presented: Presented)
    ensures EvaluateSingle(json, fromJson, isBlank, format, t, presented) == Satisfied
       <==> && !isBlank(json) && Readable(json, fromJson)
            && exists v :: v in Entries(fromJson(json).value, Lit("credentials")) && Kept(v) && OfType(v, format, t)
                           && ClaimsShown(v, presented)
  {
    ReadableExact(json, fromJson);
    hide Parsed, KeptDistinct, Entries, Lit, FilterMapped, ParseCredential, FormatAndMetaMatch, ClaimsMet, OfType, ClaimsShown, Kept;
    if !isBlank(json) && Readable(json, fromJson) {
      var vs := Entries(fromJson(json).value, Lit("credentials"));
      var cs := FilterMapped(ParseCredential, vs);
      if i :| 0 <= i < |cs| && QuerySatisfiedBy(cs[i], format, t, presented) {
        InFilterMapped(ParseCredential, vs, cs[i]);
        var k :| 0 <= k < |vs| && ParseCredential(vs[k]) == Some(cs[i]);
        EntryFields(vs[k], cs[i]);
        TypeExact(vs[k], cs[i], format, t);
        ClaimsExact(vs[k], cs[i], presented);
        assert vs[k] in vs;
      }
      if v :| v in vs && Kept(v) && OfType(v, format, t) && ClaimsShown(v, presented) {
        KeptParses(v);
        var c := ParseCredential(v).value;
        TypeExact(v, c, format, t);
        ClaimsExact(v, c, presented);
        InFilterMapped(ParseCredential, vs, c);
        var i :| 0 <= i < |cs| && cs[i] == c;
        assert QuerySatisfiedBy(cs[i], format, t, presented);
      }
    }
  }

  // ---------------------------------------------------------------------------------------------
  // Credential sets
  // ---------------------------------------------------------------------------------------------

  /** A non-empty array of ids, every one satisfied. */
  predicate OptionShown(option: Json, satisfied: set<Text>) {
    option.Arr? && option.items != [] && forall j :: j in option.items ==> j.Str? && j.text in satisfied
  }

  predicate SomeOptionShown(s: Json, satisfied: set<Text>) {
    exists option :: option in Entries(s, Lit("options")) && OptionShown(option, satisfied)
  }

  ghost predicate IdIn(v: Json, satisfied: set<Text>) {
    exists id :: id in satisfied && Named(v, id)
  }

  /**
    The set-level rule on the JSON: every well-formed set that is not `"required": false` has an option
    all of whose ids are satisfied; without a well-formed set, some entry is kept and all kept ones are
    satisfied.
  */
  ghost predicate SetsShown(v: Json, satisfied: set<Text>) {
    var sets, entries := Entries(v, Lit("credential_sets")), Entries(v, Lit("credentials"));
    if exists s :: s in sets && GoodCredentialSet(s) then
      forall s :: s in sets && GoodCredentialSet(s) && !Optional(s) ==> SomeOptionShown(s, satisfied)
    else
      (exists e :: e in entries && Kept(e)) && forall e :: e in entries && Kept(e) ==> IdIn(e, satisfied)
  }

  lemma OptionExact(option: Json, satisfied: set<Text>)
    requires IsStringList(option)
    ensures OptionMet(ParseClaimSet(option), satisfied) <==> OptionShown(option, satisfied)
  {
    var ids := ParseClaimSet(option);
    assert |ids| == |option.items| && forall i :: 0 <= i < |ids| ==> ids[i] == option.items[i].text;
    if OptionShown(option, satisfied) {
      forall i | 0 <= i < |ids| ensures ids[i] in satisfied {
        assert option.items[i] in option.items;
      }
    }
  }

  lemma SetExact(s: Json, satisfied: set<Text>)
    requires GoodCredentialSet(s) && ParseCredentialSet(s).Some?
    ensures SetMet(ParseCredentialSet(s).value, satisfied) <==> Optional(s) || SomeOptionShown(s, satisfied)
  {
    GoodSetExact(s);
    hide Lookup, Lit, ParseClaimSet, IsStringList, OptionMet, OptionShown;
    var options, q := Entries(s, Lit("options")), ParseCredentialSet(s).value;
    assert q.options == Mapped(ParseClaimSet, options);
    forall i | 0 <= i < |options| ensures OptionMet(q.options[i], satisfied) <==> OptionShown(options[i], satisfied) {
      OptionExact(options[i], satisfied);
    }
  }

  lemma SetsExact(json: Text, fromJson: Text -> Option<Json>, satisfied: set<Text>)
    requires Parsed(json, fromJson).Ok?
    ensures CredentialSetsSatisfied(Parsed(json, fromJson).value, satisfied) <==> SetsShown(fromJson(json).value, satisfied)
  {
    hide Lit, Entries, ParseCredential, ParseCredentialSet, GoodCredentialSet, Optional, IdsDistinct, FilterMapped, SetMet,
      SomeOptionShown, Kept, IdIn;
    var v, q := fromJson(json).value, Parsed(json, fromJson).value;
    var sets := Entries(v, Lit("credential_sets"));
    if q.credentialSets == [] {
      forall s | s in sets ensures !GoodCredentialSet(s) {
        if GoodCredentialSet(s) { KeptSet(sets, s); }
      }
      EntriesIn(Entries(v, Lit("credentials")), q.credentials, satisfied);
    } else {
      var first := KeptFrom(sets, q.credentialSets[0]);
      SetsIn(sets, q.credentialSets, satisfied);
    }
  }

  lemma SetsIn(sets: seq<Json>, parsed: seq<CredentialSetQuery>, satisfied: set<Text>)
    requires parsed == FilterMapped(ParseCredentialSet, sets)
    ensures (forall i :: 0 <= i < |parsed| ==> SetMet(parsed[i], satisfied))
       <==> forall s :: s in sets && GoodCredentialSet(s) && !Optional(s) ==> SomeOptionShown(s, satisfied)
  {
    hide ParseCredentialSet, GoodCredentialSet, Optional, FilterMapped, SetMet, SomeOptionShown;
    if forall i :: 0 <= i < |parsed| ==> SetMet(parsed[i], satisfied) {
      forall s | s in sets && GoodCredentialSet(s) && !Optional(s) ensures SomeOptionShown(s, satisfied) {
        KeptSet(sets, s);
        var i :| 0 <= i < |parsed| && parsed[i] == ParseCredentialSet(s).value;
        SetExact(s, satisfied);
      }
    }
    if forall s :: s in sets && GoodCredentialSet(s) && !Optional(s) ==> SomeOptionShown(s, satisfied) {
      forall i | 0 <= i < |parsed| ensures SetMet(parsed[i], satisfied) {
        InFilterMapped(ParseCredentialSet, sets, parsed[i]);
        var k :| 0 <= k < |sets| && ParseCredentialSet(sets[k]) == Some(parsed[i]);
        GoodSetExact(sets[k]);
        SetExact(sets[k], satisfied);
      }
    }
  }

  lemma EntriesIn(entries: seq<Json>, parsed: seq<CredentialQuery>, satisfied: set<Text>)
    requires parsed == FilterMapped(ParseCredential, entries)
    ensures parsed != [] <==> exists e :: e in entries && Kept(e)
    ensures (forall i :: 0 <= i < |parsed| ==> parsed[i].id in satisfied)
       <==> forall e :: e in entries && Kept(e) ==> IdIn(e, satisfied)
  {
    hide ParseCredential, Kept, FilterMapped, Named;
    forall e | e in entries && Kept(e)
      ensures ParseCredential(e).Some? && (IdIn(e, satisfied) <==> ParseCredential(e).value.id in satisfied)
      ensures exists i :: 0 <= i < |parsed| && parsed[i] == ParseCredential(e).value
    {
      KeptParses(e);
      var c := ParseCredential(e).value;
      EntryFields(e, c);
      forall id | Named(e, id) ensures id == c.id { OneName(e, id, c.id); }
      InFilterMapped(ParseCredential, entries, c);
      var k :| 0 <= k < |entries| && entries[k] == e;
      assert ParseCredential(entries[k]) == Some(c);
      var i :| 0 <= i < |parsed| && parsed[i] == c;
    }
    forall i | 0 <= i < |parsed| ensures exists e :: e in entries && Kept(e) && ParseCredential(e) == Some(parsed[i]) {
      InFilterMapped(ParseCredential, entries, parsed[i]);
      var k :| 0 <= k < |entries| && ParseCredential(entries[k]) == Some(parsed[i]);
      EntryFields(entries[k], parsed[i]);
      assert entries[k] in entries;
    }
    if parsed != [] { assert parsed[0] in parsed; }
  }
}
