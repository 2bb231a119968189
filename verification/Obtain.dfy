/**
  The OpenID4VCI `obtain` machine: one host effect at a time, from the token request to the issued
  credential.  Failure details that are only text are left out of the errors.
*/
module Obtain {
  import opened Prelude
  import opened Json
  import opened Hex
  import opened Splitting
  import opened Signer
  import Dcql

  datatype IssuerBackendKind = NoIssuer | Reference | Cleverbase

  datatype IssuerBackend = IssuerBackend(
    kind: IssuerBackendKind, tokenEndpoint: Text, nonceEndpoint: Text, credentialEndpoint: Text, credentialIssuer: Text)

  datatype CredentialOffer = CredentialOffer(
    preAuthorizedCode: Text, configurationId: Text, format: Dcql.Format, txCode: Option<Text>)

  datatype Header = Header(name: Text, value: Text)

  /** Every request of this flow is a POST. */
  datatype HttpEffect = Post(url: Text, headers: seq<Header>, body: Bytes)

  datatype HeldAttestation = HeldSdJwt(issued: Text) | HeldMdoc(deviceResponse: Bytes)

  datatype ObtainError =
    | UnexpectedInput
    | AlreadyTerminal
    | TokenRequestFailed
    | NonceRequestFailed
    | CredentialRequestFailed
    | Deferred(transactionId: Text)
    | ProofFailed

  datatype ObtainStep =
    | PerformHttp(effect: HttpEffect)
    | Sign(input: SigningInput)
    | Skipped
    | Obtained(held: HeldAttestation)
    | Failed(error: ObtainError)

  datatype ResumeInput = Http(status: nat, body: Bytes) | Signature(bytes: Bytes)

  datatype Phase = TokenPending | NoncePending | ProofPending | CredentialPending | Terminal

  /** What a session is begun with and never changes, and the library routines it uses. */
  datatype Setup = Setup(
    backend: IssuerBackend, holderJwk: Json, offer: CredentialOffer, now: int,
    codec: JsonCodec, decodeBase64Url: Text -> Option<Bytes>)

  datatype State = State(phase: Phase, accessToken: Option<Text>, pendingPop: Option<SigningInput>)

  datatype Next = Next(state: State, step: ObtainStep)

  // ---------------------------------------------------------------------------------------------
  // Requests
  // ---------------------------------------------------------------------------------------------

  const AMPERSAND: byte := 38
  const EQUALS: byte := 61

  const GRANT_TYPE: Text := Lit("urn:ietf:params:oauth:grant-type:pre-authorized_code")

  function Pair(name: Text, encoded: Text): Text {
    name + [EQUALS] + encoded
  }

  function FormBody(offer: CredentialOffer): Bytes {
    Pair(Lit("grant_type"), PercentText(GRANT_TYPE))
    + [AMPERSAND] + Pair(Lit("pre-authorized_code"), PercentText(offer.preAuthorizedCode))
    + match offer.txCode case Some(code) => [AMPERSAND] + Pair(Lit("tx_code"), PercentText(code)) case None => []
  }

  function TokenEffect(s: Setup): HttpEffect {
    Post(s.backend.tokenEndpoint,
         [Header(Lit("Content-Type"), Lit("application/x-www-form-urlencoded"))],
         FormBody(s.offer))
  }

  method TokenRequest(s: Setup) returns (effect: HttpEffect)
    ensures effect == TokenEffect(s)
  {
    hide PercentText, Lit, Pair;
    var grantType := PercentEncode(GRANT_TYPE);
    var code := PercentEncode(s.offer.preAuthorizedCode);
    var body := Pair(Lit("grant_type"), grantType) + [AMPERSAND] + Pair(Lit("pre-authorized_code"), code);
    if s.offer.txCode.Some? {
      var txCode := PercentEncode(s.offer.txCode.value);
      body := body + ([AMPERSAND] + Pair(Lit("tx_code"), txCode));
    } else {
      assert body + [] == body;
    }
    effect := Post(s.backend.tokenEndpoint,
                   [Header(Lit("Content-Type"), Lit("application/x-www-form-urlencoded"))],
                   body);
  }

  /** No token and no body. */
  function NonceEffect(s: Setup): HttpEffect {
    Post(s.backend.nonceEndpoint, [], [])
  }

  function CredentialBody(offer: CredentialOffer, proofJwt: Text): Json {
    Obj([Entry(Lit("credential_configuration_id"), Str(offer.configurationId)),
         Entry(Lit("proofs"), Obj([Entry(Lit("jwt"), Arr([Str(proofJwt)]))]))])
  }

  function CredentialEffect(s: Setup, accessToken: Text, proofJwt: Text): Result<HttpEffect, ObtainError> {
    match s.codec.encode(CredentialBody(s.offer, proofJwt))
    case None => Err(CredentialRequestFailed)
    case Some(body) =>
      Ok(Post(s.backend.credentialEndpoint,
              [Header(Lit("Authorization"), Lit("Bearer ") + accessToken),
               Header(Lit("Content-Type"), Lit("application/json"))],
              body))
  }

  // ---------------------------------------------------------------------------------------------
  // Responses
  // ---------------------------------------------------------------------------------------------

  predicate IsSuccess(status: nat) {
    200 <= status < 300
  }

  function RequiredString(codec: JsonCodec, body: Bytes, field: Text): Option<Text> {
    match codec.decode(body)
    case None => None
    case Some(v) => Dcql.AsText(Get(v, field))
  }

  datatype CredentialResponse = Immediate(held: HeldAttestation) | DeferredResponse(transactionId: Text)

  function ParseCredentialResponse(s: Setup, body: Bytes, status: nat): Option<CredentialResponse> {
    match s.codec.decode(body)
    case None => None
    case Some(v) =>
      var transactionId := Dcql.AsText(Get(v, Lit("transaction_id")));
      if status == 202 || transactionId.Some? then
        Some(DeferredResponse(if transactionId.Some? then transactionId.value else []))
      else
        match Dcql.AsArray(Get(v, Lit("credentials")))
        case None => None
        case Some(credentials) =>
          if credentials == [] then None
          else
            match Dcql.AsText(Get(credentials[0], Lit("credential")))
            case None => None
            case Some(credential) =>
              match s.offer.format
              case SdJwtVc => Some(Immediate(HeldSdJwt(credential)))
              case Mdoc =>
                match s.decodeBase64Url(credential)
                case None => None
                case Some(deviceResponse) => Some(Immediate(HeldMdoc(deviceResponse)))
  }

  // ---------------------------------------------------------------------------------------------
  // The machine
  // ---------------------------------------------------------------------------------------------

  function Fail(state: State, error: ObtainError): Next {
    Next(state.(phase := Terminal), Failed(error))
  }

  function Began(s: Setup): Next {
    if s.backend.kind == NoIssuer then Next(State(Terminal, None, None), Skipped)
    else Next(State(TokenPending, None, None), PerformHttp(TokenEffect(s)))
  }

  function AfterToken(s: Setup, state: State, status: nat, body: Bytes): Next {
    if !IsSuccess(status) then Fail(state, TokenRequestFailed)
    else
      match RequiredString(s.codec, body, Lit("access_token"))
      case None => Fail(state, TokenRequestFailed)
      case Some(token) =>
        Next(state.(phase := NoncePending, accessToken := Some(token)), PerformHttp(NonceEffect(s)))
  }

  function AfterNonce(s: Setup, state: State, status: nat, body: Bytes): Next {
    if !IsSuccess(status) then Fail(state, NonceRequestFailed)
    else
      match RequiredString(s.codec, body, Lit("c_nonce"))
      case None => Fail(state, NonceRequestFailed)
      case Some(nonce) =>
        match BuildPopJwt(s.codec, s.holderJwk, s.backend.credentialIssuer, nonce, s.now)
        case Err(_) => Fail(state, ProofFailed)
        case Ok(pop) => Next(state.(phase := ProofPending, pendingPop := Some(pop)), Sign(pop))
  }

  function AfterSignature(s: Setup, state: State, signature: Bytes): Result<Next, ObtainError> {
    if state.pendingPop.None? then Err(UnexpectedInput)
    else
      match Assemble(state.pendingPop.value, signature)
      case Err(_) => Err(ProofFailed)
      case Ok(jwt) =>
        if state.accessToken.None? then Err(UnexpectedInput)
        else
          match CredentialEffect(s, state.accessToken.value, jwt)
          case Err(e) => Err(e)
          case Ok(effect) => Ok(Next(state.(phase := CredentialPending), PerformHttp(effect)))
  }

  function AfterCredential(s: Setup, state: State, status: nat, body: Bytes): Next {
    if !IsSuccess(status) then Fail(state, CredentialRequestFailed)
    else
      match ParseCredentialResponse(s, body, status)
      case Some(Immediate(held)) => Next(state.(phase := Terminal), Obtained(held))
      case Some(DeferredResponse(id)) => Fail(state, Deferred(id))
      case None => Fail(state, CredentialRequestFailed)
  }

  function Resumed(s: Setup, state: State, input: ResumeInput): Result<Next, ObtainError> {
    match state.phase
    case TokenPending => if input.Http? then Ok(AfterToken(s, state, input.status, input.body)) else Err(UnexpectedInput)
    case NoncePending => if input.Http? then Ok(AfterNonce(s, state, input.status, input.body)) else Err(UnexpectedInput)
    case ProofPending => if input.Signature? then AfterSignature(s, state, input.bytes) else Err(UnexpectedInput)
    case CredentialPending =>
      if input.Http? then Ok(AfterCredential(s, state, input.status, input.body)) else Err(UnexpectedInput)
    case Terminal => Err(AlreadyTerminal)
  }

  /** An in-flight session. */
  class ObtainSession {
    const setup: Setup
    var phase: Phase
    var accessToken: Option<Text>
    var pendingPop: Option<SigningInput>

    ghost function Contents(): State
      reads this
    {
      State(phase, accessToken, pendingPop)
    }

    constructor (s: Setup)
      ensures setup == s && Contents() == State(TokenPending, None, None)
    {
      setup := s;
      phase := TokenPending;
      accessToken := None;
      pendingPop := None;
    }

    /** The source drops a session whose resume is an error, so nothing is said of its fields then. */
    method Resume(input: ResumeInput) returns (r: Result<ObtainStep, ObtainError>)
      modifies this
      ensures match Resumed(setup, old(Contents()), input)
              case Ok(next) => r == Ok(next.step) && Contents() == next.state
              case Err(e) => r == Err(e)
    {
      hide BuildPopJwt, Assemble, CredentialEffect, ParseCredentialResponse, RequiredString, NonceEffect;
      match phase {
        case TokenPending =>
          if !input.Http? { return Err(UnexpectedInput); }
          if !IsSuccess(input.status) {
            var step := Stop(TokenRequestFailed);
            return Ok(step);
          }
          var token := RequiredString(setup.codec, input.body, Lit("access_token"));
          if token.None? {
            var step := Stop(TokenRequestFailed);
            return Ok(step);
          }
          accessToken := token;
          phase := NoncePending;
          return Ok(PerformHttp(NonceEffect(setup)));
        case NoncePending =>
          if !input.Http? { return Err(UnexpectedInput); }
          if !IsSuccess(input.status) {
            var step := Stop(NonceRequestFailed);
            return Ok(step);
          }
          var nonce := RequiredString(setup.codec, input.body, Lit("c_nonce"));
          if nonce.None? {
            var step := Stop(NonceRequestFailed);
            return Ok(step);
          }
          var pop := BuildPopJwt(setup.codec, setup.holderJwk, setup.backend.credentialIssuer, nonce.value, setup.now);
          if pop.Err? {
            var step := Stop(ProofFailed);
            return Ok(step);
          }
          phase := ProofPending;
          pendingPop := Some(pop.value);
          return Ok(Sign(pop.value));
        case ProofPending =>
          if !input.Signature? { return Err(UnexpectedInput); }
          if pendingPop.None? { return Err(UnexpectedInput); }
          var jwt := Assemble(pendingPop.value, input.bytes);
          if jwt.Err? { return Err(ProofFailed); }
          phase := CredentialPending;
          if accessToken.None? { return Err(UnexpectedInput); }
          var effect := CredentialEffect(setup, accessToken.value, jwt.value);
          if effect.Err? { return Err(effect.error); }
          return Ok(PerformHttp(effect.value));
        case CredentialPending =>
          if !input.Http? { return Err(UnexpectedInput); }
          if !IsSuccess(input.status) {
            var step := Stop(CredentialRequestFailed);
            return Ok(step);
          }
          match ParseCredentialResponse(setup, input.body, input.status) {
            case Some(Immediate(held)) =>
              phase := Terminal;
              return Ok(Obtained(held));
            case Some(DeferredResponse(id)) =>
              var step := Stop(Deferred(id));
              return Ok(step);
            case None =>
              var step := Stop(CredentialRequestFailed);
              return Ok(step);
          }
        case Terminal =>
          return Err(AlreadyTerminal);
      }
    }

    /** `fail`. */
    method Stop(error: ObtainError) returns (step: ObtainStep)
      modifies this
      ensures Contents() == Fail(old(Contents()), error).state && step == Fail(old(Contents()), error).step
    {
      phase := Terminal;
      step := Failed(error);
    }
  }

  method BeginObtain(s: Setup) returns (session: ObtainSession, step: ObtainStep)
    ensures fresh(session) && session.setup == s
    ensures session.Contents() == Began(s).state && step == Began(s).step
  {
    session := new ObtainSession(s);
    if s.backend.kind == NoIssuer {
      session.phase := Terminal;
      return session, Skipped;
    }
    var effect := TokenRequest(s);
    return session, PerformHttp(effect);
  }

  // ---------------------------------------------------------------------------------------------
  // One step
  // ---------------------------------------------------------------------------------------------

  function Rank(p: Phase): nat {
    match p
    case TokenPending => 4
    case NoncePending => 3
    case ProofPending => 2
    case CredentialPending => 1
    case Terminal => 0
  }

  predicate IsTerminal(step: ObtainStep) {
    step.Skipped? || step.Obtained? || step.Failed?
  }

  /** Every accepted step lowers the rank, by one unless it ends the flow, and ends it exactly when it says so. */
  lemma StepLowersRank(s: Setup, state: State, input: ResumeInput)
    requires Resumed(s, state, input).Ok?
    ensures var next := Resumed(s, state, input).value;
            && Rank(next.state.phase) < Rank(state.phase)
            && (IsTerminal(next.step) <==> next.state.phase == Terminal)
            && (!IsTerminal(next.step) ==> Rank(next.state.phase) == Rank(state.phase) - 1)
            && (next.step.Obtained? ==> state.phase == CredentialPending)
  {
    hide BuildPopJwt, Assemble, CredentialEffect, ParseCredentialResponse, RequiredString, NonceEffect;
  }

  /** What later legs need is there: the token after the first, the unsigned proof after the second. */
  predicate Valid(state: State) {
    && (state.phase == NoncePending || state.phase == ProofPending || state.phase == CredentialPending ==> state.accessToken.Some?)
    && (state.phase == ProofPending || state.phase == CredentialPending ==> state.pendingPop.Some?)
  }

  lemma ValidKept(s: Setup, state: State, input: ResumeInput)
    requires Valid(state) && Resumed(s, state, input).Ok?
    ensures Valid(Resumed(s, state, input).value.state)
  {
    hide BuildPopJwt, Assemble, CredentialEffect, ParseCredentialResponse, RequiredString, NonceEffect;
  }

  /** The pending proof is one this setup built. */
  ghost predicate Built(s: Setup, pop: SigningInput) {
    exists nonce :: BuildPopJwt(s.codec, s.holderJwk, s.backend.credentialIssuer, nonce, s.now) == Ok(pop)
  }

  lemma BodyCanonical(offer: CredentialOffer, jwt: Text)
    ensures Canonical(CredentialBody(offer, jwt))
  {
    assert Lit("credential_configuration_id")[0] == 99 && Lit("proofs")[0] == 112;
    hide Lit;
    var proofs := Obj([Entry(Lit("jwt"), Arr([Str(jwt)]))]);
    assert Canonical(Str(jwt)) && Canonical(Arr([Str(jwt)])) && Canonical(proofs);
    assert Canonical(Str(offer.configurationId));
  }

  /**
    In a session that carries what its phase needs, a resume is an error exactly when the session is
    over, the input is of the wrong kind, or the signature has the wrong length: the missing-token
    and missing-proof branches are never taken.
  */
  lemma ErrorsExact(s: Setup, state: State, input: ResumeInput)
    requires Lawful(s.codec) && Valid(state)
    requires state.phase == ProofPending ==> Built(s, state.pendingPop.value)
    ensures match Resumed(s, state, input)
            case Err(AlreadyTerminal) => state.phase == Terminal
            case Err(UnexpectedInput) => state.phase != Terminal && input.Signature? != (state.phase == ProofPending)
            case Err(ProofFailed) => state.phase == ProofPending && input.Signature? && |input.bytes| != 64
            case Err(_) => false
            case Ok(_) =>
              state.phase != Terminal && input.Signature? == (state.phase == ProofPending) && (input.Signature? ==> |input.bytes| == 64)
  {
    hide BuildPopJwt, Assemble, ParseCredentialResponse, RequiredString, NonceEffect, CredentialBody, Lit;
    if state.phase == ProofPending && input.Signature? {
      var nonce :| BuildPopJwt(s.codec, s.holderJwk, s.backend.credentialIssuer, nonce, s.now) == Ok(state.pendingPop.value);
      if |input.bytes| == 64 {
        Assembled(s.codec, s.holderJwk, s.backend.credentialIssuer, nonce, s.now, input.bytes);
        BodyCanonical(s.offer, Assemble(state.pendingPop.value, input.bytes).value);
      } else {
        WrongLength(state.pendingPop.value, input.bytes);
      }
    }
  }

  lemma WrongLength(pop: SigningInput, signature: Bytes)
    requires |signature| != 64
    ensures Assemble(pop, signature).Err?
  {
  }

  // ---------------------------------------------------------------------------------------------
  // Whole runs
  // ---------------------------------------------------------------------------------------------

  /** The session's state and every step returned so far. */
  datatype Run = Run(state: State, emitted: seq<ObtainStep>)

  /** A run over any inputs; a host whose resume is an error may try again from the session it kept. */
  function RunOf(s: Setup, inputs: seq<ResumeInput>): Run {
    if inputs == [] then Run(Began(s).state, [Began(s).step])
    else
      var before := RunOf(s, inputs[..|inputs| - 1]);
      match Resumed(s, before.state, inputs[|inputs| - 1])
      case Ok(next) => Run(next.state, before.emitted + [next.step])
      case Err(_) => before
  }

  /** What the host answered, and at which inputs. */
  datatype Answers = Answers(token: Text, nonce: Text, signature: Bytes, i: nat, j: nat, k: nat)

  /** The non-terminal steps so far. */
  function Effects(emitted: seq<ObtainStep>): seq<ObtainStep> {
    if emitted != [] && IsTerminal(emitted[|emitted| - 1]) then emitted[..|emitted| - 1] else emitted
  }

  function Pop(s: Setup, nonce: Text): Result<SigningInput, SignerError> {
    BuildPopJwt(s.codec, s.holderJwk, s.backend.credentialIssuer, nonce, s.now)
  }

  /** A success response whose JSON body has the text `value` under `field`. */
  predicate Answered(s: Setup, input: ResumeInput, field: Text, value: Text) {
    && input.Http? && 200 <= input.status <= 299
    && s.codec.decode(input.body).Some? && Get(s.codec.decode(input.body).value, field) == Some(Str(value))
  }

  lemma AnsweredExact(s: Setup, input: ResumeInput, field: Text, value: Text)
    ensures Answered(s, input, field, value)
       <==> input.Http? && IsSuccess(input.status) && RequiredString(s.codec, input.body, field) == Some(value)
  {
    hide Get;
  }

  /** The fourth effect sends this run's token and the proof signed by the host. */
  predicate Requests(s: Setup, step: ObtainStep, a: Answers) {
    && Pop(s, a.nonce).Ok? && Assemble(Pop(s, a.nonce).value, a.signature).Ok?
    && var jwt := Assemble(Pop(s, a.nonce).value, a.signature).value;
       CredentialEffect(s, a.token, jwt).Ok? && step == PerformHttp(CredentialEffect(s, a.token, jwt).value)
  }

  /** Token, nonce, sign, credential, in that order, each with what the host answered before it. */
  predicate Explained(s: Setup, inputs: seq<ResumeInput>, effects: seq<ObtainStep>, a: Answers) {
    && 1 <= |effects| <= 4
    && effects[0] == PerformHttp(TokenEffect(s))
    && (|effects| >= 2 ==>
          && a.i < |inputs| && Answered(s, inputs[a.i], Lit("access_token"), a.token)
          && effects[1] == PerformHttp(NonceEffect(s)))
    && (|effects| >= 3 ==>
          && a.i < a.j < |inputs| && Answered(s, inputs[a.j], Lit("c_nonce"), a.nonce)
          && Pop(s, a.nonce).Ok? && effects[2] == Sign(Pop(s, a.nonce).value))
    && (|effects| >= 4 ==>
          && a.j < a.k < |inputs| && inputs[a.k] == Signature(a.signature)
          && Requests(s, effects[3], a))
  }

  /** The state holds exactly what the effects so far need. */
  predicate Holds(s: Setup, run: Run, effects: seq<ObtainStep>, a: Answers)
    requires run.emitted != []
  {
    && Valid(run.state)
    && (run.state.phase != Terminal ==>
          && Rank(run.state.phase) == 5 - |effects| && effects == run.emitted
          && (|effects| >= 2 ==> run.state.accessToken == Some(a.token))
          && (|effects| >= 3 ==> Pop(s, a.nonce).Ok? && run.state.pendingPop == Some(Pop(s, a.nonce).value)))
    && (run.state.phase == Terminal <==> IsTerminal(run.emitted[|run.emitted| - 1]))
    && (run.emitted[|run.emitted| - 1].Obtained? ==> |effects| == 4)
    && forall n :: 0 <= n < |effects| ==> !IsTerminal(effects[n])
  }

  lemma ExplainedLonger(s: Setup, inputs: seq<ResumeInput>, more: seq<ResumeInput>, effects: seq<ObtainStep>, a: Answers)
    requires inputs <= more && Explained(s, inputs, effects, a)
    ensures Explained(s, more, effects, a)
  {
    hide Answered, Requests, Pop, NonceEffect, TokenEffect, Lit;
  }

  /** A step that ends the flow adds no effect. */
  lemma ExplainEnd(s: Setup, inputs: seq<ResumeInput>, run: Run, a: Answers, next: Next)
    requires run.emitted != [] && run.state.phase != Terminal
    requires Explained(s, inputs, run.emitted, a) && Holds(s, run, run.emitted, a)
    requires IsTerminal(next.step) && next.state.phase == Terminal && Valid(next.state)
    requires next.step.Obtained? ==> run.state.phase == CredentialPending
    ensures var emitted := run.emitted + [next.step];
            Explained(s, inputs, Effects(emitted), a) && Holds(s, Run(next.state, emitted), Effects(emitted), a)
  {
    hide Explained, Pop, Valid;
    var emitted := run.emitted + [next.step];
    assert emitted[..|run.emitted|] == run.emitted;
  }

  lemma StaysValid(s: Setup, run: Run, a: Answers, input: ResumeInput)
    requires run.emitted != [] && Holds(s, run, run.emitted, a) && Resumed(s, run.state, input).Ok?
    ensures Valid(Resumed(s, run.state, input).value.state)
  {
    hide Resumed;
    ValidKept(s, run.state, input);
  }

  /** A step that does not end it adds the effect of its phase, with the answer just given. */
  lemma ExplainMore(s: Setup, inputs: seq<ResumeInput>, input: ResumeInput, run: Run, a: Answers) returns (b: Answers)
    requires run.emitted != [] && run.state.phase != Terminal && Resumed(s, run.state, input).Ok?
    requires !IsTerminal(Resumed(s, run.state, input).value.step)
    requires Explained(s, inputs, run.emitted, a) && Holds(s, run, run.emitted, a)
    ensures var next := Resumed(s, run.state, input).value;
            var emitted := run.emitted + [next.step];
            Explained(s, inputs + [input], emitted, b) && Holds(s, Run(next.state, emitted), emitted, b)
  {
    hide Resumed, Requests, Pop, NonceEffect, TokenEffect, Lit, Valid, RequiredString, Answered;
    var next := Resumed(s, run.state, input).value;
    var emitted := run.emitted + [next.step];
    StepLowersRank(s, run.state, input);
    StaysValid(s, run, a, input);
    ExplainedLonger(s, inputs, inputs + [input], run.emitted, a);
    b := NewAnswer(s, run.state, input, a, |inputs|);
    StepIs(s, run.state, input, a, b);
    match run.state.phase {
      case TokenPending =>
        AnsweredExact(s, input, Lit("access_token"), b.token);
        assert |run.emitted| == 1;
      case NoncePending =>
        AnsweredExact(s, input, Lit("c_nonce"), b.nonce);
        assert |run.emitted| == 2;
      case ProofPending => assert |run.emitted| == 3;
      case CredentialPending =>
    }
  }

  /** One accepted input extends the explanation. */
  lemma ExplainStep(s: Setup, inputs: seq<ResumeInput>, input: ResumeInput, run: Run, a: Answers) returns (b: Answers)
    requires run.emitted != [] && run.state.phase != Terminal && Resumed(s, run.state, input).Ok?
    requires Explained(s, inputs, run.emitted, a) && Holds(s, run, run.emitted, a)
    ensures var next := Resumed(s, run.state, input).value;
            var emitted := run.emitted + [next.step];
            Explained(s, inputs + [input], Effects(emitted), b) && Holds(s, Run(next.state, emitted), Effects(emitted), b)
  {
    hide Explained, Holds, Resumed;
    var next := Resumed(s, run.state, input).value;
    if IsTerminal(next.step) {
      StepLowersRank(s, run.state, input);
      StaysValid(s, run, a, input);
      ExplainedLonger(s, inputs, inputs + [input], run.emitted, a);
      b := a;
      ExplainEnd(s, inputs + [input], run, a, next);
    } else {
      b := ExplainMore(s, inputs, input, run, a);
    }
  }

  function NewAnswer(s: Setup, state: State, input: ResumeInput, a: Answers, at: nat): Answers {
    match (state.phase, input)
    case (TokenPending, Http(_, body)) =>
      (match RequiredString(s.codec, body, Lit("access_token")) case Some(t) => a.(token := t, i := at) case None => a)
    case (NoncePending, Http(_, body)) =>
      (match RequiredString(s.codec, body, Lit("c_nonce")) case Some(n) => a.(nonce := n, j := at) case None => a)
    case (ProofPending, Signature(sig)) => a.(signature := sig, k := at)
    case _ => a
  }

  /** The step of each phase, in terms of the answer it was given. */
  lemma StepIs(s: Setup, state: State, input: ResumeInput, a: Answers, b: Answers)
    requires Resumed(s, state, input).Ok? && !IsTerminal(Resumed(s, state, input).value.step)
    requires b == NewAnswer(s, state, input, a,
                            if state.phase == TokenPending then b.i else if state.phase == NoncePending then b.j else b.k)
    requires state.phase == ProofPending ==>
               state.accessToken == Some(a.token) && Pop(s, a.nonce).Ok? && state.pendingPop == Some(Pop(s, a.nonce).value)
    ensures var next := Resumed(s, state, input).value;
            match state.phase
            case TokenPending =>
              && Answered(s, input, Lit("access_token"), b.token) && next.step == PerformHttp(NonceEffect(s))
              && next.state.accessToken == Some(b.token)
            case NoncePending =>
              && Answered(s, input, Lit("c_nonce"), b.nonce) && Pop(s, b.nonce).Ok? && next.step == Sign(Pop(s, b.nonce).value)
              && next.state == state.(phase := ProofPending, pendingPop := Some(Pop(s, b.nonce).value))
            case ProofPending =>
              && input == Signature(b.signature) && Requests(s, next.step, b)
              && next.state == state.(phase := CredentialPending)
            case _ => false
  {
    if state.phase == TokenPending { AnsweredExact(s, input, Lit("access_token"), b.token); }
    if state.phase == NoncePending { AnsweredExact(s, input, Lit("c_nonce"), b.nonce); }
    hide BuildPopJwt, Assemble, CredentialEffect, ParseCredentialResponse, RequiredString, NonceEffect, Lit, Answered;
  }

  /**
    Every run keeps the protocol: its effects are a prefix of token, nonce, sign, credential; the
    request carries the token and the proof over the nonce that the host answered earlier in this
    run; nothing follows a terminal step, and a credential is obtained only after all four.
  */
  lemma {:induction false} RunKeepsProtocol(s: Setup, inputs: seq<ResumeInput>) returns (a: Answers)
    requires s.backend.kind != NoIssuer
    ensures var run := RunOf(s, inputs);
            && run.emitted != []
            && Explained(s, inputs, Effects(run.emitted), a) && Holds(s, run, Effects(run.emitted), a)
    decreases |inputs|
  {
    if inputs == [] {
      a := Answers([], [], [], 0, 0, 0);
    } else {
      var n := |inputs| - 1;
      var before := RunOf(s, inputs[..n]);
      a := RunKeepsProtocol(s, inputs[..n]);
      assert inputs == inputs[..n] + [inputs[n]];
      hide Explained, Holds, Resumed, Began;
      ExplainedLonger(s, inputs[..n], inputs, Effects(before.emitted), a);
      if Resumed(s, before.state, inputs[n]).Ok? {
        StepLowersRank(s, before.state, inputs[n]);
        NotTerminal(s, before, a);
        a := ExplainStep(s, inputs[..n], inputs[n], before, a);
      }
    }
  }

  lemma NotTerminal(s: Setup, run: Run, a: Answers)
    requires run.emitted != [] && Holds(s, run, Effects(run.emitted), a) && Rank(run.state.phase) > 0
    ensures run.state.phase != Terminal && Effects(run.emitted) == run.emitted
  {
  }

  /** Without an issuer the flow is skipped, whatever the host sends. */
  lemma {:induction false} NoIssuerSkips(s: Setup, inputs: seq<ResumeInput>)
    requires s.backend.kind == NoIssuer
    ensures RunOf(s, inputs).emitted == [Skipped] && RunOf(s, inputs).state.phase == Terminal
    decreases |inputs|
  {
    if inputs != [] {
      NoIssuerSkips(s, inputs[..|inputs| - 1]);
    }
  }

  // ---------------------------------------------------------------------------------------------
  // What the requests carry
  // ---------------------------------------------------------------------------------------------

  /** The text list of `proofs.jwt` in a credential request. */
  function ProofsOf(codec: JsonCodec, body: Bytes): Option<seq<Json>> {
    match codec.decode(body)
    case None => None
    case Some(v) =>
      match Get(v, Lit("proofs"))
      case None => None
      case Some(proofs) => Dcql.AsArray(Get(proofs, Lit("jwt")))
  }

  /** The configuration the body asks for. */
  function Asked(codec: JsonCodec, body: Bytes): Option<Json> {
    match codec.decode(body)
    case None => None
    case Some(v) => Get(v, Lit("credential_configuration_id"))
  }

  lemma BodyMembers(offer: CredentialOffer, jwt: Text)
    ensures var v := CredentialBody(offer, jwt);
            && Get(v, Lit("credential_configuration_id")) == Some(Str(offer.configurationId))
            && Get(v, Lit("proofs")).Some? && Get(Get(v, Lit("proofs")).value, Lit("jwt")) == Some(Arr([Str(jwt)]))
  {
    assert Lit("credential_configuration_id")[0] == 99 && Lit("proofs")[0] == 112;
    var es := CredentialBody(offer, jwt).entries;
    LookupAt(es, 0);
    LookupAt(es, 1);
    LookupAt(es[1].value.entries, 0);
  }

  /**
    The credential request goes to the credential endpoint with the run's token as bearer and exactly
    one proof, whose payload names the configured issuer and the nonce of this run.
  */
  lemma RequestIsBound(s: Setup, step: ObtainStep, a: Answers) returns (jwt: Text)
    requires Lawful(s.codec) && InI64(s.now) && Requests(s, step, a)
    ensures && step.PerformHttp? && step.effect.url == s.backend.credentialEndpoint
            && Header(Lit("Authorization"), Lit("Bearer ") + a.token) in step.effect.headers
            && Asked(s.codec, step.effect.body) == Some(Str(s.offer.configurationId))
            && ProofsOf(s.codec, step.effect.body) == Some([Str(jwt)])
            && ClaimsAre(s.codec, jwt, s.backend.credentialIssuer, a.nonce, s.now)
            && Segment(jwt, 2) == Some(a.signature)
  {
    jwt := Assemble(Pop(s, a.nonce).value, a.signature).value;
    AssembleLength(Pop(s, a.nonce).value, a.signature);
    ProofCarries(s.codec, s.holderJwk, s.backend.credentialIssuer, a.nonce, s.now, a.signature);
    BodyCanonical(s.offer, jwt);
    BodyMembers(s.offer, jwt);
    hide BuildPopJwt, Assemble, CredentialBody, Canonical, Get, ClaimsAre, Segment;
  }

  lemma AssembleLength(pop: SigningInput, signature: Bytes)
    requires Assemble(pop, signature).Ok?
    ensures |signature| == 64
  {
  }

  function LegUrl(b: IssuerBackend, n: nat): Text {
    if n == 0 then b.tokenEndpoint else if n == 1 then b.nonceEndpoint else b.credentialEndpoint
  }

  /** No header of the request authorizes it. */
  predicate Bare(e: HttpEffect) {
    forall h :: h in e.headers ==> h.name != Lit("Authorization")
  }

  /** The request is authorized by `token` and by nothing else. */
  predicate Bears(e: HttpEffect, token: Text) {
    && Header(Lit("Authorization"), Lit("Bearer ") + token) in e.headers
    && forall h :: h in e.headers && h.name == Lit("Authorization") ==> h.value == Lit("Bearer ") + token
  }

  /** The content type of each leg's body; the nonce request has no body and no header. */
  predicate LegTyped(e: HttpEffect, n: nat) {
    if n == 1 then e.headers == [] && e.body == []
    else
      var mime := if n == 0 then Lit("application/x-www-form-urlencoded") else Lit("application/json");
      && Header(Lit("Content-Type"), mime) in e.headers
      && forall h :: h in e.headers && h.name == Lit("Content-Type") ==> h.value == mime
  }

  lemma OnlyTheCredentialLegBears(s: Setup, a: Answers)
    ensures Bare(TokenEffect(s)) && Bare(NonceEffect(s)) && LegTyped(TokenEffect(s), 0) && LegTyped(NonceEffect(s), 1)
    ensures TokenEffect(s).url == LegUrl(s.backend, 0) && NonceEffect(s).url == LegUrl(s.backend, 1)
    ensures forall step :: Requests(s, step, a) ==>
              step.PerformHttp? && step.effect.url == LegUrl(s.backend, 3) && Bears(step.effect, a.token)
              && LegTyped(step.effect, 3)
  {
    assert Lit("Authorization")[0] == 65 && Lit("Content-Type")[0] == 67;
    hide Pop, Assemble, Lit, FormBody, CredentialBody;
  }

  /**
    Over every run: step 2 is the signing step, every other step that leaves the session is a request to
    the endpoint of its leg, and only the credential request is authorized, by the token that the host
    answered earlier in this run.
  */
  lemma TokenGoesToTheCredentialEndpoint(s: Setup, inputs: seq<ResumeInput>) returns (token: Text)
    ensures forall n :: 0 <= n < |RunOf(s, inputs).emitted| ==>
              var step := RunOf(s, inputs).emitted[n];
              && (step.Sign? ==> n == 2)
              && (step.PerformHttp? ==> n in {0, 1, 3} && step.effect.url == LegUrl(s.backend, n) && LegTyped(step.effect, n)
                                        && (if n < 3 then Bare(step.effect) else Bears(step.effect, token)))
    ensures |RunOf(s, inputs).emitted| > 3 ==> exists i :: 0 <= i < |inputs| && Answered(s, inputs[i], Lit("access_token"), token)
  {
    hide Lit, Answered, Requests, TokenEffect, NonceEffect, Pop, Bare, Bears, LegUrl, LegTyped, RunOf;
    token := [];
    if s.backend.kind == NoIssuer {
      NoIssuerSkips(s, inputs);
    } else {
      var a := RunKeepsProtocol(s, inputs);
      token := a.token;
      OnlyTheCredentialLegBears(s, a);
      var emitted := RunOf(s, inputs).emitted;
      var effects := Effects(emitted);
      assert forall n :: 0 <= n < |effects| ==> emitted[n] == effects[n];
    }
  }

  /** The text of `credentials[0].credential`. */
  function FirstCredential(v: Json): Option<Text> {
    match Dcql.AsArray(Get(v, Lit("credentials")))
    case None => None
    case Some(credentials) => if credentials == [] then None else Dcql.AsText(Get(credentials[0], Lit("credential")))
  }

  /** The input holds a credential in the offered format, as an immediate success response. */
  predicate Issues(s: Setup, input: ResumeInput, held: HeldAttestation) {
    && input.Http? && 200 <= input.status <= 299 && input.status != 202
    && s.codec.decode(input.body).Some?
    && var v := s.codec.decode(input.body).value;
       && !(Get(v, Lit("transaction_id")).Some? && Get(v, Lit("transaction_id")).value.Str?)
       && FirstCredential(v).Some?
       && match held
          case HeldSdJwt(issued) => s.offer.format == Dcql.SdJwtVc && issued == FirstCredential(v).value
          case HeldMdoc(response) => s.offer.format == Dcql.Mdoc && s.decodeBase64Url(FirstCredential(v).value) == Some(response)
  }

  /** A success response with a transaction id, or one with status 202, which then counts as the empty id. */
  predicate Defers(s: Setup, input: ResumeInput, id: Text) {
    && input.Http? && 200 <= input.status <= 299
    && s.codec.decode(input.body).Some?
    && var given := Get(s.codec.decode(input.body).value, Lit("transaction_id"));
       given == Some(Str(id)) || (input.status == 202 && id == [] && !(given.Some? && given.value.Str?))
  }

  /** Which failure ends the flow, and when. */
  ghost predicate FailsWith(s: Setup, state: State, input: ResumeInput, error: ObtainError) {
    && input.Http?
    && match state.phase
       case TokenPending => error == TokenRequestFailed && !exists token :: Answered(s, input, Lit("access_token"), token)
       case NoncePending =>
         || (error == NonceRequestFailed && !exists nonce :: Answered(s, input, Lit("c_nonce"), nonce))
         || (error == ProofFailed && exists nonce :: Answered(s, input, Lit("c_nonce"), nonce) && Pop(s, nonce).Err?)
       case CredentialPending =>
         || (error.Deferred? && Defers(s, input, error.transactionId))
         || (error == CredentialRequestFailed && (forall id :: !Defers(s, input, id)) && forall held :: !Issues(s, input, held))
       case _ => false
  }

  lemma NoAnswer(s: Setup, input: ResumeInput, field: Text)
    requires input.Http?
    ensures (!exists value :: Answered(s, input, field, value))
       <==> !IsSuccess(input.status) || RequiredString(s.codec, input.body, field).None?
  {
    hide RequiredString, Answered;
    forall value ensures Answered(s, input, field, value)
                    <==> IsSuccess(input.status) && RequiredString(s.codec, input.body, field) == Some(value) {
      AnsweredExact(s, input, field, value);
    }
  }

  /** A response of the credential endpoint defers, issues or does neither. */
  lemma CredentialAnswer(s: Setup, state: State, input: ResumeInput)
    requires input.Http?
    ensures var step := AfterCredential(s, state, input.status, input.body).step;
            && (forall id :: step == Failed(Deferred(id)) <==> Defers(s, input, id))
            && (forall held :: step == Obtained(held) <==> Issues(s, input, held))
            && (step.Failed? ==> step.error.Deferred? || step.error == CredentialRequestFailed)
            && (step.Failed? || step.Obtained?)
  {
    hide Get, Lit;
  }

  /** A credential is obtained exactly from an immediate success response that holds one in the offered format. */
  lemma ObtainedExact(s: Setup, state: State, input: ResumeInput, held: HeldAttestation)
    ensures (Resumed(s, state, input).Ok? && Resumed(s, state, input).value.step == Obtained(held))
       <==> state.phase == CredentialPending && Issues(s, input, held)
  {
    if state.phase == CredentialPending && input.Http? { CredentialAnswer(s, state, input); }
    hide BuildPopJwt, Assemble, CredentialEffect, RequiredString, NonceEffect, AfterCredential, Issues;
  }

  /**
    A step fails exactly with the failure of its leg: no token, no nonce, no proof, a deferral with the
    issuer's transaction id, or no credential.
  */
  lemma FailureExact(s: Setup, state: State, input: ResumeInput, error: ObtainError)
    ensures (Resumed(s, state, input).Ok? && Resumed(s, state, input).value.step == Failed(error)) <==> FailsWith(s, state, input, error)
  {
    if input.Http? {
      match state.phase {
        case TokenPending => NoAnswer(s, input, Lit("access_token"));
        case NoncePending =>
          NoAnswer(s, input, Lit("c_nonce"));
          forall nonce ensures Answered(s, input, Lit("c_nonce"), nonce)
                          <==> IsSuccess(input.status) && RequiredString(s.codec, input.body, Lit("c_nonce")) == Some(nonce) {
            AnsweredExact(s, input, Lit("c_nonce"), nonce);
          }
        case CredentialPending => CredentialAnswer(s, state, input);
        case _ =>
      }
    }
    hide BuildPopJwt, Assemble, CredentialEffect, RequiredString, NonceEffect, Lit, Answered, Defers, Issues, AfterCredential, IsSuccess;
  }

  /**
    Over every run: a credential is only ever obtained from an answer of this run that holds it, received
    after the host answered with its signature.
  */
  lemma {:induction false} ObtainedFromTheIssuer(s: Setup, inputs: seq<ResumeInput>, held: HeldAttestation) returns (k: nat, m: nat)
    requires Obtained(held) in RunOf(s, inputs).emitted
    ensures k < m < |inputs| && inputs[k].Signature? && Issues(s, inputs[m], held)
    decreases |inputs|
  {
    hide Resumed, Issues, Explained, Holds, FirstCredential, Lit;
    if inputs == [] {
      assert false;
    } else {
      var n := |inputs| - 1;
      var before := RunOf(s, inputs[..n]);
      if Obtained(held) in before.emitted {
        k, m := ObtainedFromTheIssuer(s, inputs[..n], held);
      } else {
        m := n;
        k := SignedBefore(s, inputs[..n], inputs[n], held);
      }
    }
  }

  lemma SignedBefore(s: Setup, inputs: seq<ResumeInput>, input: ResumeInput, held: HeldAttestation) returns (k: nat)
    requires Resumed(s, RunOf(s, inputs).state, input).Ok? && Resumed(s, RunOf(s, inputs).state, input).value.step == Obtained(held)
    ensures k < |inputs| && inputs[k].Signature? && Issues(s, input, held)
  {
    hide RunOf, Resumed, Requests, Answered, Lit, TokenEffect, NonceEffect, Pop, FirstCredential;
    var run := RunOf(s, inputs);
    ObtainedExact(s, run.state, input, held);
    if s.backend.kind == NoIssuer {
      NoIssuerSkips(s, inputs);
    } else {
      var a := RunKeepsProtocol(s, inputs);
      k := a.k;
    }
  }

  // ---------------------------------------------------------------------------------------------
  // The form body
  // ---------------------------------------------------------------------------------------------

  datatype Field = Field(name: Text, value: Text)

  /** Form decoding: `+` is a space, then percent-decoding. */
  function FormDecode(s: Text): Option<Text> {
    PercentDecode(seq(|s|, i requires 0 <= i < |s| => if s[i] as char == '+' then ' ' as byte else s[i]))
  }

  function FieldOf(part: Text): Option<Field> {
    var kv := Split(part, '=' as byte);
    if |kv| != 2 then None
    else
      match (FormDecode(kv[0]), FormDecode(kv[1]))
      case (Some(name), Some(value)) => Some(Field(name, value))
      case _ => None
  }

  /** The fields of a form-encoded body. */
  function Fields(body: Bytes): seq<Option<Field>> {
    Dcql.Mapped(FieldOf, Split(body, '&' as byte))
  }

  predicate Encoded(s: Text) {
    forall i :: 0 <= i < |s| ==> IsLiteral(s[i] as char) || s[i] as char == '%'
  }

  lemma FormDecodeEncoded(s: Text)
    requires Encoded(s)
    ensures FormDecode(s) == PercentDecode(s)
  {
    hide PercentDecode;
    assert seq(|s|, i requires 0 <= i < |s| => if s[i] as char == '+' then ' ' as byte else s[i]) == s;
  }

  lemma {:induction false} PlainDecodes(s: Text)
    requires AllLiteral(s)
    ensures PercentDecode(s) == Some(s)
  {
    if s != [] {
      PlainDecodes(s[1..]);
      assert s == [s[0]] + s[1..];
    }
  }

  lemma EncodedHasNoSeparator(s: Text)
    requires Encoded(s)
    ensures EQUALS !in s && AMPERSAND !in s
  {
  }

  lemma PairHasNoAmpersand(name: Text, value: Text)
    requires AMPERSAND !in name && AMPERSAND !in value
    ensures AMPERSAND !in Pair(name, value)
  {
  }

  /** `name=value` with a plain name and an encoded value reads back as that field. */
  lemma FieldRoundTrip(name: Text, value: Text)
    requires AllLiteral(name)
    ensures FieldOf(Pair(name, PercentText(value))) == Some(Field(name, value))
    ensures AMPERSAND !in Pair(name, PercentText(value))
  {
    var v := PercentText(value);
    PercentSafe(value);
    PercentRoundTrip(value);
    PlainDecodes(name);
    assert Encoded(name) && Encoded(v);
    hide PercentText, PercentDecode, Split, AllLiteral, Encoded, FormDecode;
    FormDecodeEncoded(name);
    FormDecodeEncoded(v);
    EncodedHasNoSeparator(name);
    EncodedHasNoSeparator(v);
    PairHasNoAmpersand(name, v);
    SplitNone(v, EQUALS);
    SplitCons(name, EQUALS, v);
  }

  lemma PlainLit(s: string)
    requires forall c :: c in s ==> 'a' <= c <= 'z' || c == '-' || c == '_'
    ensures AllLiteral(Lit(s))
  {
    forall i | 0 <= i < |s| ensures IsLiteral(Lit(s)[i] as char) {
      assert s[i] in s;
    }
  }

  lemma PlainGrantType()
    ensures AllLiteral(Lit("grant_type"))
  {
    PlainLit("grant_type");
  }

  lemma PlainPreAuthorizedCode()
    ensures AllLiteral(Lit("pre-authorized_code"))
  {
    PlainLit("pre-authorized_code");
  }

  lemma PlainTxCode()
    ensures AllLiteral(Lit("tx_code"))
  {
    PlainLit("tx_code");
  }

  /** The body of the token request splits and decodes back to exactly the offer's fields. */
  lemma FormBodyExact(s: Setup)
    ensures Fields(TokenEffect(s).body)
         == [Some(Field(Lit("grant_type"), Lit("urn:ietf:params:oauth:grant-type:pre-authorized_code"))),
             Some(Field(Lit("pre-authorized_code"), s.offer.preAuthorizedCode))]
            + match s.offer.txCode case Some(code) => [Some(Field(Lit("tx_code"), code))] case None => []
  {
    var offer := s.offer;
    PlainGrantType();
    PlainPreAuthorizedCode();
    PlainTxCode();
    hide Lit, PercentText, FieldOf, AllLiteral, Pair, Split;
    var a := Pair(Lit("grant_type"), PercentText(GRANT_TYPE));
    var b := Pair(Lit("pre-authorized_code"), PercentText(offer.preAuthorizedCode));
    FieldRoundTrip(Lit("grant_type"), GRANT_TYPE);
    FieldRoundTrip(Lit("pre-authorized_code"), offer.preAuthorizedCode);
    match offer.txCode {
      case None =>
        assert a + [AMPERSAND] + b + [] == a + [AMPERSAND] + b;
        SplitNone(b, AMPERSAND);
        SplitCons(a, AMPERSAND, b);
      case Some(code) =>
        var c := Pair(Lit("tx_code"), PercentText(code));
        FieldRoundTrip(Lit("tx_code"), code);
        assert a + [AMPERSAND] + b + ([AMPERSAND] + c) == a + [AMPERSAND] + (b + [AMPERSAND] + c);
        SplitNone(c, AMPERSAND);
        SplitCons(b, AMPERSAND, c);
        SplitCons(a, AMPERSAND, b + [AMPERSAND] + c);
    }
  }
}
