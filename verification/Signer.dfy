/**
  The proof-of-possession JWT (appendix F.1 of OpenID4VCI 1.0): the bytes the holder signs, and the
  compact form the signature is spliced into.
*/
module Signer {
  import opened Prelude
  import opened Utf8
  import opened Json
  import opened Base64
  import opened Splitting

  const DOT: byte := 46
  const ES256_SIG_LEN: nat := 64

  datatype SigningInput = SigningInput(toBeSigned: Bytes, audience: Text, nonce: Text)

  datatype SignerError = BadSignatureLength(got: nat) | Serialize

  // ---------------------------------------------------------------------------------------------
  // The public key that travels
  // ---------------------------------------------------------------------------------------------

  /** The members that carry private or symmetric key material. */
  const JWK_PRIVATE_MEMBERS: seq<Text> :=
    [Lit("d"), Lit("p"), Lit("q"), Lit("dp"), Lit("dq"), Lit("qi"), Lit("k"), Lit("oth")]

  function Remove(es: seq<Entry>, key: Text): seq<Entry> {
    if es == [] then [] else (if es[0].key == key then [] else [es[0]]) + Remove(es[1..], key)
  }

  lemma {:induction false} LookupRemoved(es: seq<Entry>, key: Text, k: Text)
    ensures Lookup(Remove(es, key), k) == if k == key then None else Lookup(es, k)
  {
    if es == [] {
    } else {
      LookupRemoved(es[1..], key, k);
      var rest := Remove(es[1..], key);
      assert ([es[0]] + rest)[1..] == rest && [] + rest == rest;
    }
  }

  function Stripped(es: seq<Entry>, members: seq<Text>): seq<Entry> {
    if members == [] then es else Remove(Stripped(es, members[..|members| - 1]), members[|members| - 1])
  }

  function PublicJwk(jwk: Json): Json {
    if jwk.Obj? then Obj(Stripped(jwk.entries, JWK_PRIVATE_MEMBERS)) else jwk
  }

  method PublicJwkOnly(jwk: Json) returns (r: Json)
    ensures r == PublicJwk(jwk)
  {
    if !jwk.Obj? { return jwk; }
    var es := jwk.entries;
    var ms := JWK_PRIVATE_MEMBERS;
    assert ms[..0] == [];
    for i := 0 to |ms|
      invariant es == Stripped(jwk.entries, ms[..i])
    {
      assert ms[..i + 1][..i] == ms[..i];
      es := Remove(es, ms[i]);
    }
    assert ms[..|ms|] == ms;
    r := Obj(es);
  }

  lemma {:induction false} LookupStripped(es: seq<Entry>, members: seq<Text>, k: Text)
    ensures Lookup(Stripped(es, members), k) == if k in members then None else Lookup(es, k)
  {
    if members == [] {
    } else {
      var init, last := members[..|members| - 1], members[|members| - 1];
      LookupStripped(es, init, k);
      LookupRemoved(Stripped(es, init), last, k);
      assert members == init + [last];
    }
  }

  /** The members of RFC 7518, section 6, that a public key does not have. */
  predicate IsPrivate(member: Text) {
    member in {Lit("d"), Lit("p"), Lit("q"), Lit("dp"), Lit("dq"), Lit("qi"), Lit("k"), Lit("oth")}
  }

  /** `key` is `jwk` without its private members: each other member is as it was. */
  ghost predicate PublicPart(key: Json, jwk: Json) {
    forall member :: Get(key, member) == if IsPrivate(member) then None else Get(jwk, member)
  }

  lemma PublicJwkExact(jwk: Json)
    ensures PublicPart(PublicJwk(jwk), jwk)
    ensures jwk.Obj? <==> PublicJwk(jwk).Obj?
    ensures !jwk.Obj? ==> PublicJwk(jwk) == jwk
  {
    hide Stripped, Lookup, Lit;
    if jwk.Obj? {
      forall member ensures Get(PublicJwk(jwk), member) == if IsPrivate(member) then None else Get(jwk, member) {
        LookupStripped(jwk.entries, JWK_PRIVATE_MEMBERS, member);
      }
    }
  }

  // ---------------------------------------------------------------------------------------------
  // The signing input
  // ---------------------------------------------------------------------------------------------

  function PopHeader(holderJwk: Json): Json {
    Obj([Entry(Lit("alg"), Str(Lit("ES256"))),
         Entry(Lit("jwk"), PublicJwk(holderJwk)),
         Entry(Lit("typ"), Str(Lit("openid4vci-proof+jwt")))])
  }

  function PopPayload(audience: Text, nonce: Text, iat: int): Json {
    Obj([Entry(Lit("aud"), Str(audience)), Entry(Lit("iat"), Num(Integer(iat))), Entry(Lit("nonce"), Str(nonce))])
  }

  function JwsSigningInput(codec: JsonCodec, header: Json, payload: Json): Result<Bytes, SignerError> {
    match codec.encode(header)
    case None => Err(Serialize)
    case Some(h) =>
      match codec.encode(payload)
      case None => Err(Serialize)
      case Some(p) => Ok(Base64UrlNoPad(h) + [DOT] + Base64UrlNoPad(p))
  }

  function BuildPopJwt(codec: JsonCodec, holderJwk: Json, audience: Text, nonce: Text, iat: int): Result<SigningInput, SignerError> {
    match JwsSigningInput(codec, PopHeader(holderJwk), PopPayload(audience, nonce, iat))
    case Err(e) => Err(e)
    case Ok(toBeSigned) => Ok(SigningInput(toBeSigned, audience, nonce))
  }

  /** The signature goes after the signed bytes, verbatim. */
  function Assemble(input: SigningInput, signature: Bytes): Result<Text, SignerError> {
    if |signature| != ES256_SIG_LEN then Err(BadSignatureLength(|signature|))
    else if !IsUtf8(input.toBeSigned) then Err(Serialize)
    else Ok(input.toBeSigned + [DOT] + Base64UrlNoPad(signature))
  }

  // ---------------------------------------------------------------------------------------------
  // What a receiver reads back
  // ---------------------------------------------------------------------------------------------

  /** The URL-safe text has letters, digits, `-` and `_` only. */
  lemma UrlText(x: Bytes)
    ensures Ascii(Base64UrlNoPad(x)) && DOT !in Base64UrlNoPad(x)
  {
    var t := TrimPad(Encode(x));
    EncodeIsStandard(x);
    TrimKeepsMeaning(Encode(x));
    assert t == Encode(x)[..|t|];
    hide TrimPad, Encode;
    forall i | 0 <= i < |t| ensures ToUrl(t[i]) < 128 && ToUrl(t[i]) != DOT {
      assert Standard(t[i]);
      StandardIsPlain(t[i]);
    }
  }

  lemma StandardIsPlain(c: byte)
    requires Standard(c)
    ensures ToUrl(c) < 128 && ToUrl(c) != DOT
  {
  }

  lemma PayloadCanonical(audience: Text, nonce: Text, iat: int)
    requires InI64(iat)
    ensures Canonical(PopPayload(audience, nonce, iat))
  {
    assert Lit("aud")[0] == 97 && Lit("iat")[0] == 105 && Lit("nonce")[0] == 110;
  }

  lemma PayloadMembers(audience: Text, nonce: Text, iat: int)
    ensures Get(PopPayload(audience, nonce, iat), Lit("aud")) == Some(Str(audience))
    ensures Get(PopPayload(audience, nonce, iat), Lit("nonce")) == Some(Str(nonce))
    ensures Get(PopPayload(audience, nonce, iat), Lit("iat")) == Some(Num(Integer(iat)))
  {
    assert Lit("aud")[0] == 97 && Lit("iat")[0] == 105 && Lit("nonce")[0] == 110;
    var es := PopPayload(audience, nonce, iat).entries;
    LookupAt(es, 0);
    LookupAt(es, 1);
    LookupAt(es, 2);
  }

  /** The bytes of one segment of a compact JWS. */
  function Segment(jws: Text, i: nat): Option<Bytes> {
    var ps := Split(jws, '.' as byte);
    if i < |ps| then Decode(MapText(ps[i], FromUrl)) else None
  }

  lemma ThreeSegments(h: Bytes, p: Bytes, s: Bytes)
    ensures var jws := Base64UrlNoPad(h) + [DOT] + Base64UrlNoPad(p) + [DOT] + Base64UrlNoPad(s);
            |Split(jws, DOT)| == 3 && Segment(jws, 0) == Some(h) && Segment(jws, 1) == Some(p) && Segment(jws, 2) == Some(s)
  {
    UrlText(h);
    UrlText(p);
    UrlText(s);
    UrlRoundTrip(h);
    UrlRoundTrip(p);
    UrlRoundTrip(s);
    hide Base64UrlNoPad, Decode, MapText, Split, Ascii;
    var a, b, c := Base64UrlNoPad(h), Base64UrlNoPad(p), Base64UrlNoPad(s);
    SplitNone(c, DOT);
    SplitCons(b, DOT, c);
    SplitCons(a, DOT, b + [DOT] + c);
    assert a + [DOT] + (b + [DOT] + c) == a + [DOT] + b + [DOT] + c;
  }

  /** An assembled proof is the signed bytes and the signature, as three segments. */
  lemma Assembled(codec: JsonCodec, holderJwk: Json, audience: Text, nonce: Text, iat: int, signature: Bytes)
    requires |signature| == 64 && BuildPopJwt(codec, holderJwk, audience, nonce, iat).Ok?
    ensures var input := BuildPopJwt(codec, holderJwk, audience, nonce, iat).value;
            && Assemble(input, signature) == Ok(input.toBeSigned + [DOT] + Base64UrlNoPad(signature))
            && Segment(Assemble(input, signature).value, 0) == codec.encode(PopHeader(holderJwk))
            && Segment(Assemble(input, signature).value, 1) == codec.encode(PopPayload(audience, nonce, iat))
            && Segment(Assemble(input, signature).value, 2) == Some(signature)
  {
    hide PopHeader, PopPayload, Base64UrlNoPad, Segment, IsUtf8;
    var h, p := codec.encode(PopHeader(holderJwk)).value, codec.encode(PopPayload(audience, nonce, iat)).value;
    ThreeSegments(h, p, signature);
    UrlText(h);
    UrlText(p);
    AsciiIsUtf8(Base64UrlNoPad(h) + [DOT] + Base64UrlNoPad(p));
  }

  /** The proof's payload names this audience and nonce. */
  lemma ProofCarries(codec: JsonCodec, holderJwk: Json, audience: Text, nonce: Text, iat: int, signature: Bytes)
    requires Lawful(codec) && InI64(iat) && |signature| == 64
    requires BuildPopJwt(codec, holderJwk, audience, nonce, iat).Ok?
    ensures var input := BuildPopJwt(codec, holderJwk, audience, nonce, iat).value;
            && Assemble(input, signature).Ok?
            && input.toBeSigned <= Assemble(input, signature).value
            && Segment(Assemble(input, signature).value, 2) == Some(signature)
            && ClaimsAre(codec, Assemble(input, signature).value, audience, nonce, iat)
  {
    Assembled(codec, holderJwk, audience, nonce, iat, signature);
    PayloadCanonical(audience, nonce, iat);
    PayloadMembers(audience, nonce, iat);
    hide PopPayload, Canonical, Get, Segment, BuildPopJwt, Assemble, Base64UrlNoPad;
  }

  /** The payload segment decodes to an object with these members. */
  ghost predicate ClaimsAre(codec: JsonCodec, jwt: Text, audience: Text, nonce: Text, iat: int) {
    var payload := Segment(jwt, 1);
    && payload.Some? && codec.decode(payload.value).Some?
    && var claims := codec.decode(payload.value).value;
       && Get(claims, Lit("aud")) == Some(Str(audience))
       && Get(claims, Lit("nonce")) == Some(Str(nonce))
       && Get(claims, Lit("iat")) == Some(Num(Integer(iat)))
  }

  // ---------------------------------------------------------------------------------------------
  // The header
  // ---------------------------------------------------------------------------------------------

  lemma {:induction false} BeforeTransitive(a: Text, b: Text, c: Text)
    requires Before(a, b) && Before(b, c)
    ensures Before(a, c)
    decreases |a|
  {
    if a != [] && a[0] == b[0] == c[0] {
      BeforeTransitive(a[1..], b[1..], c[1..]);
    }
  }

  /** Entries in key order with canonical values. */
  predicate InOrder(es: seq<Entry>) {
    && (forall i :: 0 <= i < |es| - 1 ==> Before(es[i].key, es[i + 1].key))
    && (forall i :: 0 <= i < |es| ==> Canonical(es[i].value))
  }

  lemma {:induction false} RemoveKeepsOrder(es: seq<Entry>, key: Text)
    requires InOrder(es)
    ensures InOrder(Remove(es, key))
    ensures es != [] && Remove(es, key) != [] ==>
              Remove(es, key)[0].key == es[0].key || Before(es[0].key, Remove(es, key)[0].key)
  {
    hide Canonical, Before;
    if es != [] {
      var rest := es[1..];
      assert InOrder(rest) by {
        forall i | 0 <= i < |rest| - 1 ensures Before(rest[i].key, rest[i + 1].key) {
          assert Before(es[i + 1].key, es[i + 2].key);
        }
      }
      RemoveKeepsOrder(rest, key);
      var kept := Remove(rest, key);
      if rest != [] && kept != [] {
        assert Before(es[0].key, es[1].key);
        if kept[0].key != rest[0].key { BeforeTransitive(es[0].key, rest[0].key, kept[0].key); }
        assert Before(es[0].key, kept[0].key);
      }
      if es[0].key == key {
        assert Remove(es, key) == kept;
      } else {
        assert Remove(es, key) == [es[0]] + kept;
      }
    }
  }

  lemma {:induction false} StrippedKeepsOrder(es: seq<Entry>, members: seq<Text>)
    requires InOrder(es)
    ensures InOrder(Stripped(es, members))
  {
    hide InOrder;
    if members != [] {
      StrippedKeepsOrder(es, members[..|members| - 1]);
      RemoveKeepsOrder(Stripped(es, members[..|members| - 1]), members[|members| - 1]);
    }
  }

  lemma PublicJwkCanonical(jwk: Json)
    requires Canonical(jwk)
    ensures Canonical(PublicJwk(jwk))
  {
    if jwk.Obj? {
      StrippedKeepsOrder(jwk.entries, JWK_PRIVATE_MEMBERS);
    }
  }

  lemma HeaderKeysInOrder()
    ensures Before(Lit("alg"), Lit("jwk")) && Before(Lit("jwk"), Lit("typ"))
  {
    assert Lit("alg")[0] == 97 && Lit("jwk")[0] == 106 && Lit("typ")[0] == 116;
  }

  lemma HeaderCanonical(jwk: Json)
    requires Canonical(jwk)
    ensures Canonical(PopHeader(jwk))
  {
    PublicJwkCanonical(jwk);
    HeaderKeysInOrder();
    var alg, typ := Str(Lit("ES256")), Str(Lit("openid4vci-proof+jwt"));
    assert Canonical(alg) && Canonical(typ);
    hide PublicJwk, Lit, Before;
    var es := PopHeader(jwk).entries;
    assert forall i :: 0 <= i < 3 ==> Canonical(es[i].value);
  }

  lemma HeaderMembers(jwk: Json)
    ensures Get(PopHeader(jwk), Lit("alg")) == Some(Str(Lit("ES256")))
    ensures Get(PopHeader(jwk), Lit("typ")) == Some(Str(Lit("openid4vci-proof+jwt")))
    ensures Get(PopHeader(jwk), Lit("jwk")) == Some(PublicJwk(jwk))
  {
    assert Lit("alg")[0] == 97 && Lit("jwk")[0] == 106 && Lit("typ")[0] == 116;
    hide PublicJwk;
    var es := PopHeader(jwk).entries;
    LookupAt(es, 0);
    LookupAt(es, 1);
    LookupAt(es, 2);
  }

  lemma Builds(codec: JsonCodec, holderJwk: Json, audience: Text, nonce: Text, iat: int)
    requires Lawful(codec) && Canonical(PopHeader(holderJwk)) && Canonical(PopPayload(audience, nonce, iat))
    ensures BuildPopJwt(codec, holderJwk, audience, nonce, iat).Ok?
  {
    hide PopHeader, PopPayload, Canonical, Base64UrlNoPad;
  }

  /** The proof input is always built, and its header names the algorithm and type and carries the public part of the holder's key. */
  lemma HeaderIsPublic(codec: JsonCodec, holderJwk: Json, audience: Text, nonce: Text, iat: int, signature: Bytes)
    requires Lawful(codec) && Canonical(holderJwk) && InI64(iat) && |signature| == 64
    ensures BuildPopJwt(codec, holderJwk, audience, nonce, iat).Ok?
    ensures var jwt := Assemble(BuildPopJwt(codec, holderJwk, audience, nonce, iat).value, signature);
            && jwt.Ok? && Segment(jwt.value, 0).Some? && codec.decode(Segment(jwt.value, 0).value).Some?
            && var header := codec.decode(Segment(jwt.value, 0).value).value;
               && Get(header, Lit("alg")) == Some(Str(Lit("ES256")))
               && Get(header, Lit("typ")) == Some(Str(Lit("openid4vci-proof+jwt")))
               && Get(header, Lit("jwk")).Some? && PublicPart(Get(header, Lit("jwk")).value, holderJwk)
  {
    HeaderCanonical(holderJwk);
    PayloadCanonical(audience, nonce, iat);
    Builds(codec, holderJwk, audience, nonce, iat);
    Assembled(codec, holderJwk, audience, nonce, iat, signature);
    HeaderMembers(holderJwk);
    PublicJwkExact(holderJwk);
    hide PopHeader, Canonical, Get, PublicJwk, PublicPart, Segment, BuildPopJwt, Assemble, Base64UrlNoPad, Lit;
  }
}
