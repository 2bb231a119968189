/**
  The DCQL query model (section 6 of OpenID4VP 1.0) and its lenient parser.  Parsing the JSON text
  itself is a parameter.
*/
module Dcql {
  import opened Prelude
  import opened Json
  import opened ClaimsPath

  datatype Format = SdJwtVc | Mdoc

  datatype CredentialMeta = VctMeta(vctValues: Option<seq<Text>>) | DocTypeMeta(doctypeValue: Option<Text>)

  datatype ClaimValue = TextClaim(text: Text) | IntegerClaim(n: int) | BooleanClaim(b: bool) | NeverMatches

  datatype ClaimsQuery = ClaimsQuery(id: Option<Text>, path: seq<PathComponent>, values: Option<seq<ClaimValue>>)

  datatype CredentialQuery = CredentialQuery(
    id: Text, format: Format, meta: CredentialMeta, claims: seq<ClaimsQuery>, claimSets: seq<seq<Text>>, multiple: bool)

  datatype CredentialSetQuery = CredentialSetQuery(options: seq<seq<Text>>, required: bool)

  datatype DcqlQuery = DcqlQuery(credentials: seq<CredentialQuery>, credentialSets: seq<CredentialSetQuery>)

  datatype DcqlError = NotJson | NotAnObject | DuplicateCredentialId

  // ---------------------------------------------------------------------------------------------
  // Iterators
  // ---------------------------------------------------------------------------------------------

  function Mapped<A, B>(f: A -> B, xs: seq<A>): (ys: seq<B>)
    ensures |ys| == |xs| && forall i :: 0 <= i < |xs| ==> ys[i] == f(xs[i])
  {
    seq(|xs|, i requires 0 <= i < |xs| => f(xs[i]))
  }

  function FilterMapped<A, B>(f: A -> Option<B>, xs: seq<A>): seq<B> {
    if xs == [] then []
    else (match f(xs[0]) case Some(y) => [y] case None => []) + FilterMapped(f, xs[1..])
  }

  lemma {:induction false} InFilterMapped<A, B>(f: A -> Option<B>, xs: seq<A>, y: B)
    ensures y in FilterMapped(f, xs) <==> exists i :: 0 <= i < |xs| && f(xs[i]) == Some(y)
  {
    if xs == [] {
    } else {
      InFilterMapped(f, xs[1..], y);
      if i :| 0 <= i < |xs| && f(xs[i]) == Some(y) {
        if i > 0 { assert f(xs[1..][i - 1]) == Some(y); }
      }
      if y in FilterMapped(f, xs) && f(xs[0]) != Some(y) {
        var i :| 0 <= i < |xs[1..]| && f(xs[1..][i]) == Some(y);
        assert f(xs[i + 1]) == Some(y);
      }
    }
  }

  function AsText(v: Option<Json>): Option<Text> {
    match v
    case Some(Str(t)) => Some(t)
    case _ => None
  }

  function TextOf(v: Json): Option<Text> {
    AsText(Some(v))
  }

  function AsArray(v: Option<Json>): Option<seq<Json>> {
    match v
    case Some(Arr(items)) => Some(items)
    case _ => None
  }

  function AsBool(v: Option<Json>, default: bool): bool {
    match v
    case Some(Bool(b)) => b
    case _ => default
  }

  function NonEmpty(t: Option<Text>): Option<Text> {
    if t.Some? && t.value != [] then t else None
  }

  // ---------------------------------------------------------------------------------------------
  // Claims queries
  // ---------------------------------------------------------------------------------------------

  function ParsePathComponent(v: Json): PathComponent {
    match v
    case Str(key) => Key(key)
    case Null => AllElements
    case Num(Integer(n)) => if 0 <= n < U64_RANGE then Index(n) else Unrepresentable
    case _ => Unrepresentable
  }

  /** A non-array or an empty array is one component that never resolves. */
  function ParsePath(v: Json): seq<PathComponent> {
    if v.Arr? && v.items != [] then Mapped(ParsePathComponent, v.items) else [Unrepresentable]
  }

  function ParseClaimValue(v: Json): ClaimValue {
    match v
    case Str(t) => TextClaim(t)
    case Bool(b) => BooleanClaim(b)
    case Num(Integer(n)) => if InI64(n) then IntegerClaim(n) else NeverMatches
    case _ => NeverMatches
  }

  function ParseValues(v: Json): seq<ClaimValue> {
    if v.Arr? && v.items != [] then Mapped(ParseClaimValue, v.items) else [NeverMatches]
  }

  const UNSATISFIABLE: ClaimsQuery := ClaimsQuery(None, [Unrepresentable], None)

  /** Never fails: a malformed entry becomes a claim that never resolves. */
  function ParseClaim(v: Json): ClaimsQuery {
    if !v.Obj? then UNSATISFIABLE
    else
      ClaimsQuery(
        NonEmpty(AsText(Get(v, Lit("id")))),
        match Get(v, Lit("path")) case Some(p) => ParsePath(p) case None => [Unrepresentable],
        match Get(v, Lit("values")) case Some(vs) => Some(ParseValues(vs)) case None => None)
  }

  /** The strings of an array of strings. */
  function ParseIdList(v: Json): Option<seq<Text>> {
    if v.Arr? && forall i :: 0 <= i < |v.items| ==> v.items[i].Str? then
      Some(Mapped((j: Json) => if j.Str? then j.text else [], v.items))
    else None
  }

  /** A malformed option becomes one that asks for the impossible empty id. */
  function ParseClaimSet(v: Json): seq<Text> {
    match ParseIdList(v)
    case Some(ids) => ids
    case None => [[]]
  }

  function ParseClaimSets(v: Json): seq<seq<Text>> {
    if v.Arr? then Mapped(ParseClaimSet, v.items) else [[[]]]
  }

  // ---------------------------------------------------------------------------------------------
  // Credential queries
  // ---------------------------------------------------------------------------------------------

  function FormatFromIdentifier(id: Text): Option<Format> {
    if id == Lit("dc+sd-jwt") || id == Lit("vc+sd-jwt") then Some(SdJwtVc)
    else if id == Lit("mso_mdoc") then Some(Mdoc)
    else None
  }

  function ParseMeta(format: Format, meta: Option<Json>): CredentialMeta {
    var field := (name: Text) => if meta.Some? then Get(meta.value, name) else None;
    match format
    case SdJwtVc =>
      (match AsArray(field(Lit("vct_values")))
       case Some(vs) =>
         var texts := FilterMapped(TextOf, vs);
         VctMeta(if texts == [] then None else Some(texts))
       case None => VctMeta(None))
    case Mdoc => DocTypeMeta(AsText(field(Lit("doctype_value"))))
  }

  function ParseClaims(claims: Option<Json>): seq<ClaimsQuery> {
    match claims
    case None => []
    case Some(v) => if v.Arr? && v.items != [] then Mapped(ParseClaim, v.items) else [UNSATISFIABLE]
  }

  function ParseCredential(v: Json): Option<CredentialQuery> {
    if !v.Obj? then None
    else
      match NonEmpty(AsText(Get(v, Lit("id"))))
      case None => None
      case Some(id) =>
        match AsText(Get(v, Lit("format")))
        case None => None
        case Some(identifier) =>
          match FormatFromIdentifier(identifier)
          case None => None
          case Some(format) =>
            var claims := ParseClaims(Get(v, Lit("claims")));
            var claimSets := match Get(v, Lit("claim_sets")) case Some(s) => ParseClaimSets(s) case None => [];
            if claimSets != [] && claims == [] then None
            else
              Some(CredentialQuery(id, format, ParseMeta(format, Get(v, Lit("meta"))), claims, claimSets,
                                   AsBool(Get(v, Lit("multiple")), false)))
  }

  function ParseCredentialSet(v: Json): Option<CredentialSetQuery> {
    if !v.Obj? then None
    else
      match AsArray(Get(v, Lit("options")))
      case None => None
      case Some(options) =>
        if options == [] || exists i :: 0 <= i < |options| && ParseIdList(options[i]).None? then None
        else Some(CredentialSetQuery(Mapped(ParseClaimSet, options), AsBool(Get(v, Lit("required")), true)))
  }

  // ---------------------------------------------------------------------------------------------
  // The query
  // ---------------------------------------------------------------------------------------------

  function Entries(v: Json, name: Text): seq<Json> {
    match AsArray(Get(v, name))
    case Some(items) => items
    case None => []
  }

  predicate IdsDistinct(cs: seq<CredentialQuery>) {
    forall i, j :: 0 <= i < j < |cs| ==> cs[i].id != cs[j].id
  }

  function Parsed(json: Text, fromJson: Text -> Option<Json>): Result<DcqlQuery, DcqlError> {
    match fromJson(json)
    case None => Err(NotJson)
    case Some(v) =>
      if !v.Obj? then Err(NotAnObject)
      else
        var credentials := FilterMapped(ParseCredential, Entries(v, Lit("credentials")));
        if !IdsDistinct(credentials) then Err(DuplicateCredentialId)
        else Ok(DcqlQuery(credentials, FilterMapped(ParseCredentialSet, Entries(v, Lit("credential_sets")))))
  }

  method Parse(json: Text, fromJson: Text -> Option<Json>) returns (r: Result<DcqlQuery, DcqlError>)
    ensures r == Parsed(json, fromJson)
  {
    hide ParseCredential, ParseCredentialSet, FilterMapped, Entries;
    var v := fromJson(json);
    if v.None? { return Err(NotJson); }
    if !v.value.Obj? { return Err(NotAnObject); }
    var credentials := FilterMapped(ParseCredential, Entries(v.value, Lit("credentials")));
    var seenIds: set<Text> := {};
    for i := 0 to |credentials|
      invariant seenIds == set c | c in credentials[..i] :: c.id
      invariant IdsDistinct(credentials[..i])
    {
      var c := credentials[i];
      if c.id in seenIds {
        assert !IdsDistinct(credentials);
        return Err(DuplicateCredentialId);
      }
      seenIds := seenIds + {c.id};
      assert credentials[..i + 1] == credentials[..i] + [c];
    }
    assert credentials[..|credentials|] == credentials;
    return Ok(DcqlQuery(credentials, FilterMapped(ParseCredentialSet, Entries(v.value, Lit("credential_sets")))));
  }

  // ---------------------------------------------------------------------------------------------
  // What is kept
  // ---------------------------------------------------------------------------------------------

  /** A member `id` that is a non-empty string. */
  predicate Named(v: Json, id: Text) {
    id != [] && Get(v, Lit("id")) == Some(Str(id))
  }

  predicate OfFormat(v: Json, format: Format) {
    match format
    case SdJwtVc => Get(v, Lit("format")) == Some(Str(Lit("dc+sd-jwt"))) || Get(v, Lit("format")) == Some(Str(Lit("vc+sd-jwt")))
    case Mdoc => Get(v, Lit("format")) == Some(Str(Lit("mso_mdoc")))
  }

  /** A supported format and a non-empty id. */
  ghost predicate Supported(v: Json) {
    (exists id :: Named(v, id)) && exists format :: OfFormat(v, format)
  }

  /** `claim_sets` other than `[]` without `claims`. */
  predicate ReferencesNothing(v: Json) {
    && Get(v, Lit("claims")).None?
    && Get(v, Lit("claim_sets")).Some? && Get(v, Lit("claim_sets")).value != Arr([])
  }

  /** An entry is dropped exactly when it is unsupported or its `claim_sets` reference nothing. */
  lemma KeptExactly(v: Json)
    ensures ParseCredential(v).Some? <==> Supported(v) && !ReferencesNothing(v)
  {
    hide Lookup, FormatFromIdentifier, ParseMeta, Named, OfFormat, Lit;
    GetOfObject(v, Lit("id"));
    IdRead(v);
    FormatRead(v);
    ClaimsEmptyExactly(Get(v, Lit("claims")));
    if Get(v, Lit("claim_sets")).Some? { ClaimSetsEmptyExactly(Get(v, Lit("claim_sets")).value); }
  }

  lemma IdRead(v: Json)
    ensures forall id :: NonEmpty(AsText(Get(v, Lit("id")))) == Some(id) <==> Named(v, id)
  {
    hide Get, Lit;
  }

  lemma FormatRead(v: Json)
    ensures var f := AsText(Get(v, Lit("format")));
            forall format :: OfFormat(v, format) <==> f.Some? && FormatFromIdentifier(f.value) == Some(format)
  {
    FormatsDiffer();
    hide Get, Lit;
  }

  lemma FormatsDiffer()
    ensures Lit("mso_mdoc") != Lit("dc+sd-jwt") && Lit("mso_mdoc") != Lit("vc+sd-jwt")
  {
    assert |Lit("mso_mdoc")| == 8 && |Lit("dc+sd-jwt")| == 9 && |Lit("vc+sd-jwt")| == 9;
  }

  lemma GetOfObject(v: Json, key: Text)
    ensures Get(v, key).Some? ==> v.Obj?
  {
  }

  lemma ClaimsEmptyExactly(claims: Option<Json>)
    ensures ParseClaims(claims) == [] <==> claims.None?
  {
  }

  lemma ClaimSetsEmptyExactly(v: Json)
    ensures ParseClaimSets(v) == [] <==> v == Arr([])
  {
  }

  /** Every kept entry is in the parsed query with its id and format, and nothing else is. */
  lemma CredentialsExact(json: Text, fromJson: Text -> Option<Json>, c: CredentialQuery)
    requires Parsed(json, fromJson).Ok?
    ensures c in Parsed(json, fromJson).value.credentials
       <==> exists v :: v in Entries(fromJson(json).value, Lit("credentials")) && Supported(v) && !ReferencesNothing(v)
                        && ParseCredential(v) == Some(c)
  {
    hide ParseCredential, Supported, ReferencesNothing;
    var entries := Entries(fromJson(json).value, Lit("credentials"));
    InFilterMapped(ParseCredential, entries, c);
    forall v | v in entries ensures ParseCredential(v).Some? <==> Supported(v) && !ReferencesNothing(v) {
      KeptExactly(v);
    }
  }

  // ---------------------------------------------------------------------------------------------
  // Credential sets
  // ---------------------------------------------------------------------------------------------

  /** `ids` are the strings of the JSON array. */
  predicate IsIdList(v: Json, ids: seq<Text>) {
    && v.Arr? && |v.items| == |ids|
    && forall i :: 0 <= i < |ids| ==> v.items[i] == Str(ids[i])
  }

  lemma IdListExact(v: Json, ids: seq<Text>)
    ensures ParseIdList(v) == Some(ids) <==> IsIdList(v, ids)
  {
    if ParseIdList(v).Some? && IsIdList(v, ids) {
      assert ParseIdList(v).value == ids;
    }
  }

  /** A set query is kept exactly when its options are a non-empty array of arrays of strings, and then has those options. */
  lemma CredentialSetExact(v: Json, s: CredentialSetQuery)
    ensures ParseCredentialSet(v) == Some(s)
       <==> && AsArray(Get(v, Lit("options"))).Some?
            && (var options := AsArray(Get(v, Lit("options"))).value;
                && options != [] && |options| == |s.options|
                && forall i :: 0 <= i < |options| ==> IsIdList(options[i], s.options[i]))
            && s.required == AsBool(Get(v, Lit("required")), true)
  {
    hide Lookup, ParseIdList, IsIdList;
    if AsArray(Get(v, Lit("options"))).Some? {
      var options := AsArray(Get(v, Lit("options"))).value;
      if |options| == |s.options| {
        forall i | 0 <= i < |options|
          ensures IsIdList(options[i], s.options[i]) <==> ParseIdList(options[i]).Some? && ParseClaimSet(options[i]) == s.options[i]
        {
          IdListExact(options[i], s.options[i]);
        }
        if forall i :: 0 <= i < |options| ==> IsIdList(options[i], s.options[i]) {
          assert Mapped(ParseClaimSet, options) == s.options;
        }
      }
    }
  }
}
