/** The issuance interaction as a function of its state and its surroundings. The surroundings answer each request from
    everything exchanged so far, so a statement about all surroundings is a statement about every issuer, every random
    draw and every failure. The classes in Interaction.dfy are proved against these functions. */
module Issuance {
  import opened Outcomes

  // ---- data ----------------------------------------------------------------------------------

  datatype Definition = Definition(types: seq<string>, context: seq<string>)

  /** A supported credential; its definition may be missing. */
  datatype Configuration = Configuration(format: string, definition: Option<Definition>)

  /** The part of the issuer's metadata the interaction reads; an endpoint the issuer lacks is empty. */
  datatype Metadata = Metadata(credentialIssuer: string, authorizationServer: string, tokenEndpoint: string,
                               credentialEndpoint: string, batchEndpoint: string, notificationEndpoint: string,
                               registrationEndpoint: Option<string>, configurations: map<string, Option<Configuration>>)

  datatype OAuthConfig = OAuthConfig(clientID: string, redirectURI: string, authURL: string, scopes: seq<string>,
                                     tokenURL: string)
  datatype Token = Token(accessToken: string, refreshToken: string)
  datatype TokenReply = TokenReply(token: Token, cNonce: Option<string>)

  /** What the wallet asks for: one credential. */
  datatype Wanted = Wanted(format: string, types: seq<string>, context: seq<string>)

  datatype URLRequest = URLRequest(clientID: string, redirectURI: string, wanted: Wanted, issuerState: Option<string>,
                                   scopes: seq<string>, discoverable: bool)
  datatype AuthURL = AuthURL(config: OAuthConfig, state: string, challenge: string, wanted: Wanted,
                             locations: seq<string>, issuerState: Option<string>, discoverable: bool)

  /** The redirect URI the caller hands back, as far as it parses. */
  datatype Redirect = Unparsable | Params(code: Option<string>, state: Option<string>)

  datatype Claims = Claims(aud: string, iss: Option<string>, nonce: Option<string>)
  datatype Proof = Proof(claims: Claims, signature: string)
  datatype CredentialRequest = CredentialRequest(wanted: Wanted, proof: Proof)
  datatype CredentialResponse = CredentialResponse(credential: string, cNonce: string, ackID: string)

  datatype Error = InvalidProof(cNonce: string) | Other(reason: string)

  /** The credential endpoint's reply: a response, an undecodable body, or a refusal or transport failure. */
  datatype Reply = Issued(response: CredentialResponse) | Garbled | Refused(error: Error)
  datatype BatchReply =
    | BatchIssued(cNonce: Option<string>, responses: seq<CredentialResponse>)
    | BatchFailed(error: Error)

  datatype Grant = AuthorizationCode | PreAuthorized

  /** What passes between the wallet and its surroundings, each request with its reply. */
  datatype Event =
    | MetadataFetched(reply: Option<Metadata>)
    | URLCreated(url: AuthURL)
    | URLAborted(config: OAuthConfig)
    | CodeExchanged(config: OAuthConfig, code: string, verifier: string, redirectState: string,
                    exchange: Option<TokenReply>)
    | PreAuthTokenPosted(code: string, pin: string, attestation: Option<string>, granted: Option<TokenReply>)
    | ProofSigned(claims: Claims, signature: Option<string>)
    | CredentialPosted(grant: Grant, token: Token, request: CredentialRequest, answer: Reply)
    | BatchPosted(batchToken: Token, requests: seq<CredentialRequest>, batchAnswer: BatchReply)

  type Log = seq<Event>

  datatype Env = Env(
    fetch: Log -> Option<Metadata>,
    draw: Log -> Option<string>,
    uuid: Log -> string,
    sha256: string -> string,
    exchange: Log -> Option<TokenReply>,
    preAuthToken: Log -> Option<TokenReply>,
    attest: Log -> Option<string>,
    sign: (Log, Claims) -> Option<string>,
    post: Log -> Reply,
    batch: Log -> BatchReply,
    accepts: seq<CredentialResponse> -> bool)

  /** The fields of the interaction object, and what it has exchanged. */
  datatype State = State(issuerURI: string, clientID: string, metadata: Option<Metadata>, oauth: Option<OAuthConfig>,
                         tokenNonce: Option<string>, authToken: Option<Token>, urlState: string, codeVerifier: string,
                         ackIDs: Option<seq<string>>, log: Log) {
    function Logged(e: Event): State {
      this.(log := log + [e])
    }

    function Stored(): seq<string> {
      if ackIDs.Some? then ackIDs.value else []
    }

    function WithAck(id: string): State {
      this.(ackIDs := Some(Stored() + [id]))
    }
  }

  function Fresh(issuerURI: string): State {
    State(issuerURI, "", None, None, None, None, "", "", None, [])
  }

  // ---- metadata and the authorization URL ----------------------------------------------------

  function PopulateMetadata(env: Env, s: State): (r: (State, Option<Error>))
    ensures r.1.None? <==> r.0.metadata.Some?
    ensures r.0.issuerURI == s.issuerURI
  {
    if s.metadata.Some? then (s, None)
    else
      var reply := env.fetch(s.log);
      var s' := s.Logged(MetadataFetched(reply));
      if reply.None? then (s', Some(Other("failed to get issuer metadata"))) else (s'.(metadata := reply), None)
  }

  function InstallConfig(s: State, m: Metadata, r: URLRequest): State {
    s.(oauth := Some(OAuthConfig(r.clientID, r.redirectURI, m.authorizationServer, r.scopes, "")))
  }

  function URLFor(env: Env, s: State, m: Metadata, r: URLRequest, state: string): AuthURL
    requires s.oauth.Some?
  {
    var locations := if m.authorizationServer == "" then [] else [m.credentialIssuer];
    AuthURL(s.oauth.value, state, env.sha256(s.codeVerifier), r.wanted, locations, r.issuerState, r.discoverable)
  }

  /** The OAuth config is replaced before the one step that can still fail. */
  function CreateAuthorizationURL(env: Env, s: State, r: URLRequest): (result: (State, Outcome<AuthURL, Error>))
    ensures result.0.issuerURI == s.issuerURI
  {
    var (s1, error) := PopulateMetadata(env, s);
    if error.Some? then (s1, Err(error.value))
    else CreateInstalled(env, InstallConfig(s1, s1.metadata.value, r), s1.metadata.value, r)
  }

  function CreateInstalled(env: Env, s: State, m: Metadata, r: URLRequest): (result: (State, Outcome<AuthURL, Error>))
    requires s.oauth.Some?
    ensures result.0.issuerURI == s.issuerURI
  {
    var drawn := env.draw(s.log);
    if drawn.None? then (s.Logged(URLAborted(s.oauth.value)), Err(Other("random source failed")))
    else
      var state := env.uuid(s.log);
      var s' := s.(codeVerifier := drawn.value, urlState := state, clientID := r.clientID);
      var url := URLFor(env, s', m, r, state);
      (s'.Logged(URLCreated(url)), Ok(url))
  }

  // ---- the code exchange ---------------------------------------------------------------------

  function RedirectError(s: State, redirect: Redirect): Option<Error> {
    if s.oauth.None? then Some(Other("authorization URL must be created first"))
    else if redirect.Unparsable? then Some(Other("redirect URI does not parse"))
    else if redirect.code.None? then Some(Other("redirect URI is missing an authorization code"))
    else if redirect.state.None? then Some(Other("redirect URI is missing a state value"))
    else if redirect.state.value != s.urlState then Some(Other("state in redirect URI does not match"))
    else if s.metadata.None? || s.metadata.value.tokenEndpoint == "" then Some(Other("no token endpoint"))
    else None
  }

  function RequestAccessToken(env: Env, s: State, redirect: Redirect): (r: (State, Option<Error>))
    ensures r.1.None? ==> r.0.authToken.Some?
    ensures r.0.issuerURI == s.issuerURI
  {
    var error := RedirectError(s, redirect);
    if error.Some? then (s, error)
    else
      var s1 := s.(oauth := Some(s.oauth.value.(tokenURL := s.metadata.value.tokenEndpoint)));
      var reply := env.exchange(s1.log);
      var s2 := s1.Logged(CodeExchanged(s1.oauth.value, redirect.code.value, s.codeVerifier, redirect.state.value,
                                        reply));
      if reply.None? then (s2, Some(Other("code exchange failed")))
      else (s2.(authToken := Some(reply.value.token), tokenNonce := reply.value.cNonce), None)
  }

  // ---- requesting credentials ----------------------------------------------------------------

  type Responses = Outcome<seq<CredentialResponse>, Error>

  function ClaimsFor(s: State, nonce: Option<string>): Claims {
    Claims(s.issuerURI, if s.clientID == "" then None else Some(s.clientID), nonce)
  }

  /** Requesting credentials touches the stored IDs and the log, nothing else. */
  ghost predicate OnlyAcksAndLog(s: State, s': State) {
    s' == s.(ackIDs := s'.ackIDs, log := s'.log)
  }

  /** Signing a proof. A failure to sign is never an invalid-proof error: it is wrapped in an error that hides it. */
  function SignProof(env: Env, s: State, nonce: Option<string>): (r: (State, Option<Proof>))
    ensures r.0 == s.(log := r.0.log)
  {
    var claims := ClaimsFor(s, nonce);
    var signature := env.sign(s.log, claims);
    var s' := s.Logged(ProofSigned(claims, signature));
    (s', if signature.None? then None else Some(Proof(claims, signature.value)))
  }

  const SIGNING_FAILED := Other("failed to create JWT")

  /** One request after the other; the first failure ends the attempt, but the IDs stored so far stay. */
  function PostEach(env: Env, s: State, grant: Grant, token: Token, proof: Proof, wanted: seq<Wanted>,
                    got: seq<CredentialResponse>): (r: (State, Responses))
    ensures OnlyAcksAndLog(s, r.0)
    decreases |wanted|
  {
    if wanted == [] then (s, Ok(got))
    else
      var reply := env.post(s.log);
      var s' := s.Logged(CredentialPosted(grant, token, CredentialRequest(wanted[0], proof), reply));
      match reply
      case Refused(error) => (s', Err(error))
      case Garbled => (s', Err(Other("failed to unmarshal response")))
      case Issued(response) =>
        PostEach(env, s'.WithAck(response.ackID), grant, token, proof, wanted[1..], got + [response])
  }

  function AuthAttempt(env: Env, s: State, nonce: Option<string>, wanted: seq<Wanted>): (r: (State, Responses))
    requires s.authToken.Some?
    ensures OnlyAcksAndLog(s, r.0)
  {
    var (s', proof) := SignProof(env, s, nonce);
    if proof.None? then (s', Err(SIGNING_FAILED))
    else PostEach(env, s', AuthorizationCode, s.authToken.value, proof.value, wanted, [])
  }

  /** The authorization-code flow retries once, with the nonce of the invalid-proof error. */
  function AuthCredentials(env: Env, s: State, nonce: Option<string>, wanted: seq<Wanted>): (r: (State, Responses))
    requires s.authToken.Some?
    ensures OnlyAcksAndLog(s, r.0)
  {
    var (s1, first) := AuthAttempt(env, s, nonce, wanted);
    if first.Err? && first.error.InvalidProof? then AuthAttempt(env, s1, Some(first.error.cNonce), wanted)
    else (s1, first)
  }

  /** Every ID of an accepted batch is stored in order. A reply that lacks its nonce, or is too long, makes the program
      panic at the first response it cannot place. */
  function BatchAccepted(n: nat, reply: BatchReply): seq<CredentialResponse> {
    if reply.BatchFailed? || reply.cNonce.None? then []
    else if |reply.responses| <= n then reply.responses
    else reply.responses[..n]
  }

  function WithAcks(s: State, responses: seq<CredentialResponse>): (s': State)
    ensures OnlyAcksAndLog(s, s') && s'.log == s.log
    decreases |responses|
  {
    if responses == [] then s else WithAcks(s.WithAck(responses[0].ackID), responses[1..])
  }

  function PlaceBatch(n: nat, cNonce: string, responses: seq<CredentialResponse>): (r: seq<CredentialResponse>)
    requires |responses| <= n
    ensures |r| == n
  {
    seq(n, i requires 0 <= i < n => if i < |responses| then responses[i].(cNonce := cNonce)
                                    else CredentialResponse("", "", ""))
  }

  function BatchRequests(proof: Proof, wanted: seq<Wanted>): (requests: seq<CredentialRequest>)
    ensures |requests| == |wanted|
  {
    seq(|wanted|, i requires 0 <= i < |wanted| => CredentialRequest(wanted[i].(context := []), proof))
  }

  function PostBatch(env: Env, s: State, token: Token, proof: Proof, wanted: seq<Wanted>): (r: (State, Responses))
    ensures OnlyAcksAndLog(s, r.0)
  {
    var reply := env.batch(s.log);
    var s' := s.Logged(BatchPosted(token, BatchRequests(proof, wanted), reply));
    if reply.BatchFailed? then (s', Err(reply.error))
    else
      var accepted := BatchAccepted(|wanted|, reply);
      var cNonce := if reply.cNonce.Some? then reply.cNonce.value else "";
      (WithAcks(s', accepted), if accepted == reply.responses then Ok(PlaceBatch(|wanted|, cNonce, accepted)) else Panic)
  }

  function PreAuthAttempt(env: Env, s: State, token: Token, nonce: Option<string>, wanted: seq<Wanted>)
    : (r: (State, Responses))
    requires s.metadata.Some?
    ensures OnlyAcksAndLog(s, r.0)
  {
    var (s', proof) := SignProof(env, s, nonce);
    if proof.None? then (s', Err(SIGNING_FAILED))
    else if |wanted| > 1 && s.metadata.value.batchEndpoint != "" then PostBatch(env, s', token, proof.value, wanted)
    else PostEach(env, s', PreAuthorized, token, proof.value, wanted, [])
  }

  /** The pre-authorized flow retries once, with the nonce it used before. */
  function PreAuthCredentials(env: Env, s: State, token: Token, nonce: Option<string>, wanted: seq<Wanted>)
    : (r: (State, Responses))
    requires s.metadata.Some?
    ensures OnlyAcksAndLog(s, r.0)
  {
    var (s1, first) := PreAuthAttempt(env, s, token, nonce, wanted);
    if first.Err? && first.error.InvalidProof? then PreAuthAttempt(env, s1, token, nonce, wanted) else (s1, first)
  }

  /** The received credentials still have to parse and the activity log to accept the entry. */
  function Parsed(env: Env, r: Responses): Responses {
    if r.Ok? && !env.accepts(r.value) then Err(Other("failed to parse credential")) else r
  }

  // ---- the two drivers -----------------------------------------------------------------------

  datatype PreAuthGrant = PreAuthGrant(code: string, pinRequired: bool)
  datatype AuthGrant = AuthGrant(issuerState: Option<string>)

  datatype Flow =
    | IssuerInitiated(offered: seq<Wanted>, preAuth: Option<PreAuthGrant>, auth: Option<AuthGrant>, token: Option<Token>)
    | WalletInitiated(chosen: Wanted)

  datatype Session = Session(shared: State, flow: Flow)

  /** The public calls. Every call that only reads the metadata is EnsureMetadata. */
  datatype Call =
    | EnsureMetadata
    | CreateURL(request: URLRequest)
    | RequestWithAuth(keyIDHasDID: bool, redirect: Redirect)
    | RequestWithPreAuth(keyHasDID: bool, pin: string, attest: bool)

  /** The state both sides agree on: every side that names one names the result, and it takes no more to succeed. */
  ghost predicate AgreedState(offered: Option<string>, given: Option<string>, r: Outcome<Option<string>, Error>) {
    && !r.Panic?
    && (r.Ok? <==> offered.None? || given.None? || offered == given)
    && (r.Ok? ==> (offered.Some? ==> r.value == offered) && (given.Some? ==> r.value == given))
    && (r.Ok? && offered.None? && given.None? ==> r.value.None?)
  }

  function IssuerStateToUse(offered: Option<string>, given: Option<string>): (r: Outcome<Option<string>, Error>)
    ensures AgreedState(offered, given, r)
  {
    if offered.None? then Ok(given)
    else if given.Some? && given.value != offered.value then Err(Other("conflicting issuer state"))
    else Ok(offered)
  }

  function CreateURLCall(env: Env, session: Session, r: URLRequest): (result: (Session, Outcome<AuthURL, Error>))
    ensures result.0.shared.issuerURI == session.shared.issuerURI
  {
    match session.flow
    case WalletInitiated(chosen) =>
      var (s, url) := CreateAuthorizationURL(env, session.shared, r);
      (Session(s, WalletInitiated(if url.Ok? then r.wanted else chosen)), url)
    case IssuerInitiated(offered, _, auth, _) =>
      if auth.None? then (session, Err(Other("authorization code grant not supported")))
      else
        var issuerState := IssuerStateToUse(auth.value.issuerState, r.issuerState);
        if !issuerState.Ok? then (session, Err(Other("conflicting issuer state")))
        else if offered == [] then (session, Panic)
        else
          var r' := r.(wanted := offered[0], issuerState := issuerState.value);
          var (s, url) := CreateAuthorizationURL(env, session.shared, r');
          (session.(shared := s), url)
  }

  function WithAuth(env: Env, s: State, redirect: Redirect, wanted: seq<Wanted>): (r: (State, Responses))
    ensures r.0.issuerURI == s.issuerURI
  {
    var (s1, error) := RequestAccessToken(env, s, redirect);
    if error.Some? then (s1, Err(error.value))
    else
      var (s2, responses) := AuthCredentials(env, s1, s1.tokenNonce, wanted);
      (s2, Parsed(env, responses))
  }

  function RequestWithAuthCall(env: Env, session: Session, keyIDHasDID: bool, redirect: Redirect)
    : (r: (Session, Responses))
    ensures r.0.shared.issuerURI == session.shared.issuerURI
  {
    match session.flow
    case WalletInitiated(chosen) =>
      var (s, responses) := WithAuth(env, session.shared, redirect, [chosen]);
      (session.(shared := s), responses)
    case IssuerInitiated(offered, _, auth, _) =>
      if auth.None? then (session, Err(Other("authorization code grant not supported")))
      else if !keyIDHasDID then (session, Err(Other("key ID is missing the DID part")))
      else
        var (s, responses) := WithAuth(env, session.shared, redirect, offered);
        (session.(shared := s), responses)
  }

  /** Token first, credentials with it at once; the token is returned for the acknowledgments that come later. */
  function WithGrant(env: Env, s: State, grant: PreAuthGrant, offered: seq<Wanted>, pin: string,
                     attestation: Option<string>): (r: (State, Option<Token>, Responses))
    requires s.metadata.Some?
    ensures r.0.issuerURI == s.issuerURI
  {
    var granted := env.preAuthToken(s.log);
    var s1 := s.Logged(PreAuthTokenPosted(grant.code, pin, attestation, granted));
    if granted.None? then (s1, None, Err(Other("failed to get token response")))
    else
      var (s2, responses) := PreAuthCredentials(env, s1, granted.value.token, granted.value.cNonce, offered);
      (s2, Some(granted.value.token), responses)
  }

  function WithPreAuth(env: Env, s: State, grant: PreAuthGrant, offered: seq<Wanted>, pin: string, attest: bool)
    : (r: (State, Option<Token>, Responses))
    ensures r.0.issuerURI == s.issuerURI
  {
    var (s1, error) := PopulateMetadata(env, s);
    if error.Some? then (s1, None, Err(error.value))
    else
      var attestation := if attest then env.attest(s1.log) else None;
      if attest && attestation.None? then (s1, None, Err(Other("attestation failed")))
      else if s1.metadata.value.tokenEndpoint == "" then (s1, None, Err(Other("no token endpoint")))
      else
        var (s2, token, responses) := WithGrant(env, s1, grant, offered, pin, attestation);
        (s2, token, Parsed(env, responses))
  }

  function RequestWithPreAuthCall(env: Env, session: Session, keyHasDID: bool, pin: string, attest: bool)
    : (r: (Session, Responses))
    requires session.flow.IssuerInitiated?
    ensures r.0.shared.issuerURI == session.shared.issuerURI
  {
    var flow := session.flow;
    if flow.preAuth.None? then (session, Err(Other("pre-authorized code grant not supported")))
    else if flow.preAuth.value.pinRequired && pin == "" then (session, Err(Other("PIN required")))
    else if !keyHasDID then (session, Err(Other("key ID is missing the DID part")))
    else
      var (s, token, responses) := WithPreAuth(env, session.shared, flow.preAuth.value, flow.offered, pin, attest);
      (Session(s, if token.Some? then flow.(token := token) else flow), responses)
  }

  function Step(env: Env, session: Session, call: Call): (session': Session)
    ensures session'.shared.issuerURI == session.shared.issuerURI
  {
    match call
    case EnsureMetadata => session.(shared := PopulateMetadata(env, session.shared).0)
    case CreateURL(r) => CreateURLCall(env, session, r).0
    case RequestWithAuth(keyIDHasDID, redirect) => RequestWithAuthCall(env, session, keyIDHasDID, redirect).0
    case RequestWithPreAuth(keyHasDID, pin, attest) =>
      if session.flow.IssuerInitiated? then RequestWithPreAuthCall(env, session, keyHasDID, pin, attest).0 else session
  }

  function Run(env: Env, start: Session, calls: seq<Call>): Session {
    if calls == [] then start else Step(env, Run(env, start, calls[..|calls| - 1]), calls[|calls| - 1])
  }

  /** Where a session may begin: a wallet-initiated one has exchanged nothing, an issuer-initiated one has fetched the
      metadata while it was being constructed. */
  ghost predicate Starts(env: Env, session: Session) {
    var initial := Fresh(session.shared.issuerURI);
    match session.flow
    case WalletInitiated(chosen) => session.shared == initial && chosen == Wanted("", [], [])
    case IssuerInitiated(_, _, _, token) =>
      token.None? && PopulateMetadata(env, initial).1.None? && session.shared == PopulateMetadata(env, initial).0
  }
}
