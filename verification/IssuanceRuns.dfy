/** What holds in every run of the public calls, whatever the surroundings do: each event is checked against the
    history before it. */
module IssuanceRuns {
  import opened Outcomes
  import opened Issuance
  import opened IssuanceRequests

  // ---- reading a history ---------------------------------------------------------------------

  function LastMetadata(log: Log): Option<Metadata> {
    if log == [] then None
    else
      var e := log[|log| - 1];
      if e.MetadataFetched? && e.reply.Some? then e.reply else LastMetadata(log[..|log| - 1])
  }

  function LastURL(log: Log): Option<AuthURL> {
    if log == [] then None
    else
      var e := log[|log| - 1];
      if e.URLCreated? then Some(e.url) else LastURL(log[..|log| - 1])
  }

  /** The OAuth config of the last attempt to create a URL that got as far as installing one. */
  function LastInstalled(log: Log): Option<OAuthConfig> {
    if log == [] then None
    else
      var e := log[|log| - 1];
      if e.URLCreated? then Some(e.url.config)
      else if e.URLAborted? then Some(e.config)
      else LastInstalled(log[..|log| - 1])
  }

  /** The token reply of the last code exchange that succeeded. */
  function LastExchange(log: Log): Option<TokenReply> {
    if log == [] then None
    else
      var e := log[|log| - 1];
      if e.CodeExchanged? && e.exchange.Some? then e.exchange else LastExchange(log[..|log| - 1])
  }

  /** The token reply of the last pre-authorized token request that succeeded. */
  function LastGrant(log: Log): Option<TokenReply> {
    if log == [] then None
    else
      var e := log[|log| - 1];
      if e.PreAuthTokenPosted? && e.granted.Some? then e.granted else LastGrant(log[..|log| - 1])
  }

  function TokenIn(reply: Option<TokenReply>): Option<Token> {
    if reply.None? then None else Some(reply.value.token)
  }

  function NonceIn(reply: Option<TokenReply>): Option<string> {
    if reply.None? then None else reply.value.cNonce
  }

  /** The last proof that was signed. */
  function LastProof(log: Log): Option<Proof> {
    if log == [] then None
    else
      var e := log[|log| - 1];
      if e.ProofSigned? && e.signature.Some? then Some(Proof(e.claims, e.signature.value))
      else LastProof(log[..|log| - 1])
  }

  lemma Snoc(log: Log, e: Event)
    ensures LastMetadata(log + [e]) == if e.MetadataFetched? && e.reply.Some? then e.reply else LastMetadata(log)
    ensures LastURL(log + [e]) == if e.URLCreated? then Some(e.url) else LastURL(log)
    ensures LastInstalled(log + [e]) == if e.URLCreated? then Some(e.url.config)
                                        else if e.URLAborted? then Some(e.config)
                                        else LastInstalled(log)
    ensures LastExchange(log + [e]) == if e.CodeExchanged? && e.exchange.Some? then e.exchange else LastExchange(log)
    ensures LastGrant(log + [e]) == if e.PreAuthTokenPosted? && e.granted.Some? then e.granted else LastGrant(log)
    ensures LastProof(log + [e]) == if e.ProofSigned? && e.signature.Some? then Some(Proof(e.claims, e.signature.value))
                                    else LastProof(log)
    ensures Arrived(log + [e]) == Arrived(log) + EventIDs(e)
  {
    assert (log + [e])[..|log|] == log;
  }

  // ---- the code exchange is bound to the URL -------------------------------------------------

  /** RFC 7636, sections 4.1 to 4.6: the exchange sends the verifier whose challenge was put in the most recent URL, and
      happens on a redirect that carries that URL's state. */
  ghost predicate Bound(env: Env, history: Log, e: Event) {
    && e.CodeExchanged? && LastURL(history).Some?
    && e.redirectState == LastURL(history).value.state
    && env.sha256(e.verifier) == LastURL(history).value.challenge
  }

  /** RFC 6749, section 4.1.3: the exchange names the client and the redirect URI that the most recent URL named. */
  predicate SameClient(a: OAuthConfig, b: OAuthConfig) {
    a.clientID == b.clientID && a.redirectURI == b.redirectURI
  }

  // ---- the safety of an event after a history ------------------------------------------------

  /** The nonce that the surroundings asked for last: that of the token reply, if it came just before, or that of the
      invalid-proof error, except in the pre-authorized flow, which goes on using the nonce of its token reply. */
  ghost predicate NonceFits(history: Log, nonce: Option<string>) {
    history != [] ==>
      var e := history[|history| - 1];
      && (e.CodeExchanged? && e.exchange.Some? ==> nonce == e.exchange.value.cNonce)
      && (e.PreAuthTokenPosted? && e.granted.Some? ==> nonce == e.granted.value.cNonce)
      && (RefusedProof(e).Some? ==>
            nonce == if e.CredentialPosted? && e.grant.AuthorizationCode? then RefusedProof(e)
                     else NonceIn(LastGrant(history)))
  }

  /** A proof names the issuer, the client of the most recent URL, if any, and the nonce last asked for. */
  ghost predicate ClaimsFit(issuerURI: string, history: Log, claims: Claims) {
    && claims.aud == issuerURI
    && (LastURL(history).None? || LastURL(history).value.config.clientID == "" ==> claims.iss.None?)
    && (LastURL(history).Some? && LastURL(history).value.config.clientID != "" ==>
          claims.iss == Some(LastURL(history).value.config.clientID))
    && NonceFits(history, claims.nonce)
  }

  /** A request for credentials carries the last signed proof and the token it was granted for. */
  ghost predicate PostSafe(history: Log, reply: Option<TokenReply>, token: Token, requests: seq<CredentialRequest>) {
    && LastMetadata(history).Some? && TokenIn(reply) == Some(token)
    && forall i :: 0 <= i < |requests| ==> LastProof(history) == Some(requests[i].proof)
  }

  ghost predicate EventSafe(env: Env, issuerURI: string, history: Log, e: Event) {
    match e
    case MetadataFetched(_) => LastMetadata(history).None?
    case URLCreated(url) =>
      && LastMetadata(history).Some?
      && url.config.authURL == LastMetadata(history).value.authorizationServer
    case CodeExchanged(config, _, verifier, redirectState, _) =>
      && LastMetadata(history).Some?
      && LastInstalled(history).Some?
      && config == LastInstalled(history).value.(tokenURL := LastMetadata(history).value.tokenEndpoint)
      && (if LastURL(history).Some? then Bound(env, history, e) else verifier == "" && redirectState == "")
    case ProofSigned(claims, _) => ClaimsFit(issuerURI, history, claims)
    case CredentialPosted(grant, token, request, _) =>
      PostSafe(history, if grant.AuthorizationCode? then LastExchange(history) else LastGrant(history), token, [request])
    case BatchPosted(token, requests, _) => PostSafe(history, LastGrant(history), token, requests)
    case _ => true
  }

  ghost predicate Safe(env: Env, issuerURI: string, log: Log) {
    forall p :: 0 <= p < |log| ==> EventSafe(env, issuerURI, log[..p], log[p])
  }

  lemma SafeSnoc(env: Env, issuerURI: string, log: Log, e: Event)
    requires Safe(env, issuerURI, log) && EventSafe(env, issuerURI, log, e)
    ensures Safe(env, issuerURI, log + [e])
  {
    var longer := log + [e];
    forall p | 0 <= p < |longer|
      ensures EventSafe(env, issuerURI, longer[..p], longer[p])
    {
      if p < |log| {
        assert longer[..p] == log[..p];
      } else {
        assert longer[..p] == log;
      }
    }
  }

  // ---- the invariant -------------------------------------------------------------------------

  /** The fields are what the history says, and the history is safe. */
  ghost predicate Good(env: Env, s: State) {
    && Consistent(env, s)
    && (s.oauth.None? <==> LastInstalled(s.log).None?)
    && (s.oauth.Some? ==> s.oauth.value.(tokenURL := "") == LastInstalled(s.log).value)
  }

  ghost predicate Consistent(env: Env, s: State) {
    && Safe(env, s.issuerURI, s.log)
    && s.metadata == LastMetadata(s.log)
    && s.authToken == TokenIn(LastExchange(s.log))
    && s.tokenNonce == NonceIn(LastExchange(s.log))
    && s.Stored() == Arrived(s.log)
    && (s.oauth.Some? ==> s.metadata.Some?)
    && (s.ackIDs.Some? ==> s.metadata.Some?)
    && ForURL(env, s, LastURL(s.log))
  }

  /** The state value, the code verifier and the client are those of this URL; as long as there is none they are empty. */
  ghost predicate ForURL(env: Env, s: State, url: Option<AuthURL>) {
    match url
    case None => s.urlState == "" && s.codeVerifier == "" && s.clientID == ""
    case Some(u) => s.urlState == u.state && env.sha256(s.codeVerifier) == u.challenge && s.clientID == u.config.clientID
  }

  lemma PopulateKeeps(env: Env, s: State)
    requires Good(env, s)
    ensures var s' := PopulateMetadata(env, s).0;
            Good(env, s') && LastGrant(s'.log) == LastGrant(s.log) && LastURL(s'.log) == LastURL(s.log)
  {
    if s.metadata.None? {
      var e := MetadataFetched(env.fetch(s.log));
      var s' := PopulateMetadata(env, s).0;
      Snoc(s.log, e);
      SafeSnoc(env, s.issuerURI, s.log, e);
    }
  }

  lemma CreateURLKeeps(env: Env, s: State, r: URLRequest)
    requires Good(env, s)
    ensures var (s', url) := CreateAuthorizationURL(env, s, r);
            Good(env, s') && LastGrant(s'.log) == LastGrant(s.log) && URLRecorded(s, s', url, r.wanted)
  {
    PopulateKeeps(env, s);
    var (s1, error) := PopulateMetadata(env, s);
    if error.None? {
      InstalledKeeps(env, InstallConfig(s1, s1.metadata.value, r), r);
    }
  }

  /** A created URL is the last one in the log; a failed attempt leaves the last one as it was. */
  ghost predicate URLRecorded(s: State, s': State, url: Outcome<AuthURL, Error>, wanted: Wanted) {
    && LastURL(s'.log) == (if url.Ok? then Some(url.value) else LastURL(s.log))
    && (url.Ok? ==> url.value.wanted == wanted)
  }

  lemma InstalledKeeps(env: Env, s: State, r: URLRequest)
    requires Consistent(env, s) && s.metadata.Some? && s.oauth.Some? && s.oauth.value.tokenURL == ""
    requires s.oauth.value.authURL == s.metadata.value.authorizationServer && s.oauth.value.clientID == r.clientID
    ensures var (s', url) := CreateInstalled(env, s, s.metadata.value, r);
            Good(env, s') && LastGrant(s'.log) == LastGrant(s.log) && URLRecorded(s, s', url, r.wanted)
  {
    var s' := CreateInstalled(env, s, s.metadata.value, r).0;
    var e := s'.log[|s.log|];
    assert s'.log == s.log + [e] && (e.URLCreated? || e.URLAborted?);
    Snoc(s.log, e);
    SafeSnoc(env, s.issuerURI, s.log, e);
  }

  lemma ExchangeKeeps(env: Env, s: State, redirect: Redirect)
    requires Good(env, s)
    ensures var s' := RequestAccessToken(env, s, redirect).0;
            Good(env, s') && LastGrant(s'.log) == LastGrant(s.log) && LastURL(s'.log) == LastURL(s.log)
  {
    if RedirectError(s, redirect).None? {
      var s' := RequestAccessToken(env, s, redirect).0;
      var reply := env.exchange(s.log);
      var e := CodeExchanged(s.oauth.value.(tokenURL := s.metadata.value.tokenEndpoint), redirect.code.value,
                             s.codeVerifier, redirect.state.value, reply);
      assert s'.log == s.log + [e];
      Snoc(s.log, e);
      SafeSnoc(env, s.issuerURI, s.log, e);
    }
  }

  /** An event of a credential request keeps the invariant. */
  lemma RequestEventKeeps(env: Env, s: State, e: Event, s': State)
    requires Good(env, s) && s.metadata.Some? && EventSafe(env, s.issuerURI, s.log, e)
    requires e.ProofSigned? || e.CredentialPosted? || e.BatchPosted? || e.PreAuthTokenPosted?
    requires OnlyAcksAndLog(s, s') && s'.log == s.log + [e] && s'.Stored() == s.Stored() + EventIDs(e)
    ensures Good(env, s')
    ensures LastExchange(s'.log) == LastExchange(s.log) && LastURL(s'.log) == LastURL(s.log)
    ensures !e.PreAuthTokenPosted? ==> LastGrant(s'.log) == LastGrant(s.log)
    ensures !e.ProofSigned? ==> LastProof(s'.log) == LastProof(s.log)
  {
    Snoc(s.log, e);
    SafeSnoc(env, s.issuerURI, s.log, e);
  }

  function TokenOf(log: Log, grant: Grant): Option<Token> {
    TokenIn(if grant.AuthorizationCode? then LastExchange(log) else LastGrant(log))
  }

  lemma {:induction false} PostEachKeeps(env: Env, s: State, grant: Grant, token: Token, proof: Proof,
                                         wanted: seq<Wanted>, got: seq<CredentialResponse>)
    requires Good(env, s) && s.metadata.Some? && TokenOf(s.log, grant) == Some(token)
    requires LastProof(s.log) == Some(proof)
    ensures var s' := PostEach(env, s, grant, token, proof, wanted, got).0;
            Good(env, s') && LastGrant(s'.log) == LastGrant(s.log) && LastURL(s'.log) == LastURL(s.log)
    decreases |wanted|
  {
    if wanted != [] {
      var reply := env.post(s.log);
      var e := CredentialPosted(grant, token, CredentialRequest(wanted[0], proof), reply);
      var s' := s.Logged(e);
      if reply.Issued? {
        var stored := s'.WithAck(reply.response.ackID);
        RequestEventKeeps(env, s, e, stored);
        PostEachKeeps(env, stored, grant, token, proof, wanted[1..], got + [reply.response]);
      } else {
        RequestEventKeeps(env, s, e, s');
      }
    }
  }

  lemma SignKeeps(env: Env, s: State, nonce: Option<string>)
    requires Good(env, s) && s.metadata.Some? && NonceFits(s.log, nonce)
    ensures var (s', proof) := SignProof(env, s, nonce);
            && Good(env, s') && LastExchange(s'.log) == LastExchange(s.log) && LastGrant(s'.log) == LastGrant(s.log)
            && LastURL(s'.log) == LastURL(s.log) && (proof.Some? ==> LastProof(s'.log) == proof)
  {
    var s' := SignProof(env, s, nonce).0;
    RequestEventKeeps(env, s, s'.log[|s.log|], s');
    Snoc(s.log, s'.log[|s.log|]);
  }

  /** A retry follows an invalid-proof error, which ended the first attempt. */
  lemma AuthRetryNonceFits(env: Env, s: State, nonce: Option<string>, wanted: seq<Wanted>)
    requires s.authToken.Some? && ReportedNonce(AuthAttempt(env, s, nonce, wanted).1).Some?
    ensures var (s1, first) := AuthAttempt(env, s, nonce, wanted); NonceFits(s1.log, ReportedNonce(first))
  {
    AuthAttemptEvents(env, s, nonce, wanted);
    AuthAttemptGrant(env, s, nonce, wanted);
  }

  lemma PreAuthRetryNonceFits(env: Env, s: State, token: Token, nonce: Option<string>, wanted: seq<Wanted>)
    requires s.metadata.Some? && ReportedNonce(PreAuthAttempt(env, s, token, nonce, wanted).1).Some?
    requires NonceIn(LastGrant(PreAuthAttempt(env, s, token, nonce, wanted).0.log)) == nonce
    ensures NonceFits(PreAuthAttempt(env, s, token, nonce, wanted).0.log, nonce)
  {
    PreAuthAttemptEvents(env, s, token, nonce, wanted);
    PreAuthAttemptGrant(env, s, token, nonce, wanted);
  }

  lemma AuthCredentialsKeeps(env: Env, s: State, nonce: Option<string>, wanted: seq<Wanted>)
    requires Good(env, s) && s.metadata.Some? && s.authToken.Some? && NonceFits(s.log, nonce)
    ensures var s' := AuthCredentials(env, s, nonce, wanted).0;
            Good(env, s') && LastGrant(s'.log) == LastGrant(s.log) && LastURL(s'.log) == LastURL(s.log)
  {
    AuthAttemptKeeps(env, s, nonce, wanted);
    var (s1, first) := AuthAttempt(env, s, nonce, wanted);
    if first.Err? && first.error.InvalidProof? {
      AuthRetryNonceFits(env, s, nonce, wanted);
      AuthAttemptKeeps(env, s1, Some(first.error.cNonce), wanted);
    }
  }

  lemma AuthAttemptKeeps(env: Env, s: State, nonce: Option<string>, wanted: seq<Wanted>)
    requires Good(env, s) && s.metadata.Some? && s.authToken.Some? && NonceFits(s.log, nonce)
    ensures var s' := AuthAttempt(env, s, nonce, wanted).0;
            Good(env, s') && LastGrant(s'.log) == LastGrant(s.log) && LastURL(s'.log) == LastURL(s.log)
  {
    SignKeeps(env, s, nonce);
    var (signed, proof) := SignProof(env, s, nonce);
    if proof.Some? {
      PostEachKeeps(env, signed, AuthorizationCode, s.authToken.value, proof.value, wanted, []);
    }
  }

  lemma PreAuthCredentialsKeeps(env: Env, s: State, token: Token, nonce: Option<string>, wanted: seq<Wanted>)
    requires Good(env, s) && s.metadata.Some? && LastGrant(s.log) == Some(TokenReply(token, nonce))
    requires NonceFits(s.log, nonce)
    ensures var s' := PreAuthCredentials(env, s, token, nonce, wanted).0;
            Good(env, s') && LastGrant(s'.log) == LastGrant(s.log) && LastURL(s'.log) == LastURL(s.log)
  {
    PreAuthAttemptKeeps(env, s, token, nonce, wanted);
    var (s1, first) := PreAuthAttempt(env, s, token, nonce, wanted);
    if first.Err? && first.error.InvalidProof? {
      PreAuthRetryNonceFits(env, s, token, nonce, wanted);
      PreAuthAttemptKeeps(env, s1, token, nonce, wanted);
    }
  }

  lemma PreAuthAttemptKeeps(env: Env, s: State, token: Token, nonce: Option<string>, wanted: seq<Wanted>)
    requires Good(env, s) && s.metadata.Some? && LastGrant(s.log) == Some(TokenReply(token, nonce))
    requires NonceFits(s.log, nonce)
    ensures var s' := PreAuthAttempt(env, s, token, nonce, wanted).0;
            Good(env, s') && LastGrant(s'.log) == LastGrant(s.log) && LastURL(s'.log) == LastURL(s.log)
  {
    SignKeeps(env, s, nonce);
    var (signed, proof) := SignProof(env, s, nonce);
    if proof.Some? {
      if |wanted| > 1 && s.metadata.value.batchEndpoint != "" {
        var e := BatchPosted(token, BatchRequests(proof.value, wanted), env.batch(signed.log));
        WithAcksStores(signed.Logged(e), BatchAccepted(|wanted|, env.batch(signed.log)));
        RequestEventKeeps(env, signed, e, PreAuthAttempt(env, s, token, nonce, wanted).0);
      } else {
        PostEachKeeps(env, signed, PreAuthorized, token, proof.value, wanted, []);
      }
    }
  }

  lemma WithAuthKeeps(env: Env, s: State, redirect: Redirect, wanted: seq<Wanted>)
    requires Good(env, s)
    ensures var s' := WithAuth(env, s, redirect, wanted).0;
            Good(env, s') && LastGrant(s'.log) == LastGrant(s.log) && LastURL(s'.log) == LastURL(s.log)
  {
    ExchangeKeeps(env, s, redirect);
    var (s1, error) := RequestAccessToken(env, s, redirect);
    if error.None? {
      ExchangedNonceFits(env, s, redirect);
      AuthCredentialsKeeps(env, s1, s1.tokenNonce, wanted);
      assert WithAuth(env, s, redirect, wanted).0 == AuthCredentials(env, s1, s1.tokenNonce, wanted).0;
    }
  }

  lemma ExchangedNonceFits(env: Env, s: State, redirect: Redirect)
    requires RequestAccessToken(env, s, redirect).1.None?
    ensures var s1 := RequestAccessToken(env, s, redirect).0;
            NonceFits(s1.log, s1.tokenNonce) && s1.metadata.Some? && s1.authToken.Some?
  {
  }

  lemma WithGrantKeeps(env: Env, s: State, grant: PreAuthGrant, offered: seq<Wanted>, pin: string,
                       attestation: Option<string>)
    requires Good(env, s) && s.metadata.Some?
    ensures var (s', token, _) := WithGrant(env, s, grant, offered, pin, attestation);
            && Good(env, s') && LastURL(s'.log) == LastURL(s.log)
            && TokenIn(LastGrant(s'.log)) == (if token.Some? then token else TokenIn(LastGrant(s.log)))
  {
    var granted := env.preAuthToken(s.log);
    var e := PreAuthTokenPosted(grant.code, pin, attestation, granted);
    var s1 := s.Logged(e);
    RequestEventKeeps(env, s, e, s1);
    Snoc(s.log, e);
    if granted.Some? {
      PreAuthCredentialsKeeps(env, s1, granted.value.token, granted.value.cNonce, offered);
    }
  }

  /** What a driver remembers beside the shared interaction: the wallet-initiated one the credential named in the most
      recent URL, the issuer-initiated one the token of the most recent pre-authorized grant. */
  ghost predicate GoodSession(env: Env, session: Session) {
    && Good(env, session.shared)
    && match session.flow
       case WalletInitiated(chosen) =>
         LastURL(session.shared.log).Some? ==> chosen == LastURL(session.shared.log).value.wanted
       case IssuerInitiated(_, _, _, token) => token == TokenIn(LastGrant(session.shared.log))
  }

  lemma CreateURLCallKeeps(env: Env, session: Session, r: URLRequest)
    requires GoodSession(env, session)
    ensures GoodSession(env, CreateURLCall(env, session, r).0)
  {
    match session.flow
    case WalletInitiated(_) => CreateURLKeeps(env, session.shared, r);
    case IssuerInitiated(offered, _, auth, _) =>
      if auth.Some? && offered != [] {
        var issuerState := IssuerStateToUse(auth.value.issuerState, r.issuerState);
        if issuerState.Ok? {
          CreateURLKeeps(env, session.shared, r.(wanted := offered[0], issuerState := issuerState.value));
        }
      }
  }

  lemma WithPreAuthKeeps(env: Env, s: State, grant: PreAuthGrant, offered: seq<Wanted>, pin: string, attest: bool)
    requires Good(env, s)
    ensures var (s', token, _) := WithPreAuth(env, s, grant, offered, pin, attest);
            && Good(env, s') && LastURL(s'.log) == LastURL(s.log)
            && TokenIn(LastGrant(s'.log)) == (if token.Some? then token else TokenIn(LastGrant(s.log)))
  {
    PopulateKeeps(env, s);
    var (s1, error) := PopulateMetadata(env, s);
    if error.None? {
      var attestation := if attest then env.attest(s1.log) else None;
      if (attest && attestation.None?) || s1.metadata.value.tokenEndpoint == "" {
        assert WithPreAuth(env, s, grant, offered, pin, attest).0 == s1;
      } else {
        WithGrantKeeps(env, s1, grant, offered, pin, attestation);
        var granted := WithGrant(env, s1, grant, offered, pin, attestation);
        assert WithPreAuth(env, s, grant, offered, pin, attest) == (granted.0, granted.1, Parsed(env, granted.2));
      }
    }
  }

  lemma PreAuthCallKeeps(env: Env, session: Session, keyHasDID: bool, pin: string, attest: bool)
    requires GoodSession(env, session) && session.flow.IssuerInitiated?
    ensures GoodSession(env, RequestWithPreAuthCall(env, session, keyHasDID, pin, attest).0)
  {
    if session.flow.preAuth.Some? {
      WithPreAuthKeeps(env, session.shared, session.flow.preAuth.value, session.flow.offered, pin, attest);
    }
  }

  lemma StepKeeps(env: Env, session: Session, call: Call)
    requires GoodSession(env, session)
    ensures GoodSession(env, Step(env, session, call))
  {
    match call
    case EnsureMetadata => PopulateKeeps(env, session.shared);
    case CreateURL(r) => CreateURLCallKeeps(env, session, r);
    case RequestWithAuth(_, redirect) =>
      match session.flow {
        case WalletInitiated(chosen) => WithAuthKeeps(env, session.shared, redirect, [chosen]);
        case IssuerInitiated(offered, _, _, _) => WithAuthKeeps(env, session.shared, redirect, offered);
      }
    case RequestWithPreAuth(keyHasDID, pin, attest) =>
      if session.flow.IssuerInitiated? {
        PreAuthCallKeeps(env, session, keyHasDID, pin, attest);
      }
  }

  lemma StartIsGood(env: Env, session: Session)
    requires Starts(env, session)
    ensures GoodSession(env, session)
  {
    assert Good(env, Fresh(session.shared.issuerURI));
    PopulateKeeps(env, Fresh(session.shared.issuerURI));
  }

  /** The issuer-initiated flow creates a URL only with the issuer state that the offer and the caller agree on, and for
      the first offered credential; if they disagree, nothing is sent and nothing changes. */
  lemma URLCarriesAgreedState(env: Env, session: Session, r: URLRequest)
    requires session.flow.IssuerInitiated? && session.flow.auth.Some?
    ensures var (session', url) := CreateURLCall(env, session, r);
            var offered := session.flow.auth.value.issuerState;
            && (url.Ok? ==> AgreedState(offered, r.issuerState, Ok(url.value.issuerState)) &&
                            session.flow.offered != [] && url.value.wanted == session.flow.offered[0])
            && (offered.Some? && r.issuerState.Some? && offered != r.issuerState ==> url.Err? && session' == session)
  {
    var issuerState := IssuerStateToUse(session.flow.auth.value.issuerState, r.issuerState);
    if issuerState.Ok? && session.flow.offered != [] {
      var r' := r.(wanted := session.flow.offered[0], issuerState := issuerState.value);
      assert CreateURLCall(env, session, r).1 == CreateAuthorizationURL(env, session.shared, r').1;
    }
  }

  /** The wallet-initiated flow asks for nothing but the credential named in the most recent URL. */
  lemma WalletAsksForWhatURLNamed(env: Env, start: Session, calls: seq<Call>, redirect: Redirect, p: nat)
    requires Starts(env, start) && start.flow.WalletInitiated?
    requires var session := Run(env, start, calls);
             var after := RequestWithAuthCall(env, session, true, redirect).0.shared.log;
             LastURL(session.shared.log).Some? && |session.shared.log| <= p < |after| && after[p].CredentialPosted?
    ensures var session := Run(env, start, calls);
            RequestWithAuthCall(env, session, true, redirect).0.shared.log[p].request.wanted ==
            LastURL(session.shared.log).value.wanted
  {
    EveryRunIsGood(env, start, calls);
    FlowKept(env, start, calls);
    var session := Run(env, start, calls);
    WithAuthAsksOnlyFor(env, session.shared, redirect, [session.flow.chosen], p);
  }

  lemma WithAuthAsksOnlyFor(env: Env, s: State, redirect: Redirect, wanted: seq<Wanted>, p: nat)
    requires var log := WithAuth(env, s, redirect, wanted).0.log;
             |s.log| <= p < |log| && log[p].CredentialPosted?
    ensures WithAuth(env, s, redirect, wanted).0.log[p].request.wanted in wanted
  {
    var (s1, error) := RequestAccessToken(env, s, redirect);
    if error.None? {
      var s2 := AuthCredentials(env, s1, s1.tokenNonce, wanted).0;
      assert WithAuth(env, s, redirect, wanted).0 == s2;
      AuthRetry(env, s1, s1.tokenNonce, wanted);
      assert s2.log[|s.log|] == s1.log[|s.log|] && s1.log[|s.log|].CodeExchanged?;
      RetryAsksOnlyFor(s2.log[|s1.log|..], wanted, s1.tokenNonce, cNonce => Some(cNonce), p - |s1.log|);
    }
  }

  lemma RetryAsksOnlyFor(events: Log, wanted: seq<Wanted>, nonce: Option<string>, next: string -> Option<string>, p: nat)
    requires AtMostOneRetry(events, wanted, nonce, next) && p < |events| && events[p].CredentialPosted?
    ensures events[p].request.wanted in wanted
  {
    var k :| 0 < k <= |events| && OneAttempt(events[..k], wanted, nonce) &&
      match RefusedProof(events[k - 1])
      case None => k == |events|
      case Some(cNonce) => OneAttempt(events[k..], wanted, next(cNonce));
    if p < k {
      assert events[..k][p] == events[p] && AsksFor(events[..k][p], wanted, p - 1);
    } else {
      assert events[k..][p - k] == events[p] && AsksFor(events[k..][p - k], wanted, p - k - 1);
    }
  }

  lemma {:induction false} FlowKept(env: Env, start: Session, calls: seq<Call>)
    ensures Run(env, start, calls).flow.WalletInitiated? <==> start.flow.WalletInitiated?
    decreases |calls|
  {
    if calls != [] {
      FlowKept(env, start, calls[..|calls| - 1]);
    }
  }

  // ---- main results --------------------------------------------------------------------------

  /** In every run of the public calls of either driver, with any surroundings: every event is safe after the history
      before it, an installed OAuth config or stored notification IDs imply that metadata is present, and the metadata,
      the access token and the stored notification IDs are exactly what the history says. */
  lemma {:induction false} EveryRunIsGood(env: Env, start: Session, calls: seq<Call>)
    requires Starts(env, start)
    ensures GoodSession(env, Run(env, start, calls))
    decreases |calls|
  {
    if calls == [] {
      StartIsGood(env, start);
    } else {
      EveryRunIsGood(env, start, calls[..|calls| - 1]);
      StepKeeps(env, Run(env, start, calls[..|calls| - 1]), calls[|calls| - 1]);
    }
  }

  /** A code exchange of any run is bound to the most recent URL exactly when there is one. Without one, after an attempt
      that failed with its OAuth config installed, it takes place on an empty state with an empty verifier. */
  lemma ExchangeBoundExactlyWhen(env: Env, start: Session, calls: seq<Call>, p: nat)
    requires Starts(env, start)
    requires p < |Run(env, start, calls).shared.log| && Run(env, start, calls).shared.log[p].CodeExchanged?
    ensures var log := Run(env, start, calls).shared.log;
            && (Bound(env, log[..p], log[p]) <==> LastURL(log[..p]).Some?)
            && (LastURL(log[..p]).None? ==> log[p].verifier == "" && log[p].redirectState == "")
  {
    EveryRunIsGood(env, start, calls);
    var log := Run(env, start, calls).shared.log;
    assert EventSafe(env, Run(env, start, calls).shared.issuerURI, log[..p], log[p]);
  }

  /** A code exchange names the client and the redirect URI of the most recent URL exactly when the last attempt to create
      a URL, successful or not, was made with them. */
  lemma ExchangeNamesClientExactlyWhen(env: Env, start: Session, calls: seq<Call>, p: nat)
    requires Starts(env, start)
    requires p < |Run(env, start, calls).shared.log| && Run(env, start, calls).shared.log[p].CodeExchanged?
    requires LastURL(Run(env, start, calls).shared.log[..p]).Some?
    ensures var log := Run(env, start, calls).shared.log;
            var url := LastURL(log[..p]).value;
            exists q :: IsLastAttempt(log, p, q) &&
              (SameClient(log[p].config, url.config) <==> SameClient(Attempt(log[q]).value, url.config))
  {
    EveryRunIsGood(env, start, calls);
    var log := Run(env, start, calls).shared.log;
    assert EventSafe(env, Run(env, start, calls).shared.issuerURI, log[..p], log[p]);
    var q := LastAttemptAt(log, p);
  }

  /** The OAuth config installed by an attempt to create a URL. */
  function Attempt(e: Event): Option<OAuthConfig> {
    match e
    case URLCreated(url) => Some(url.config)
    case URLAborted(config) => Some(config)
    case _ => None
  }

  /** The last such attempt before this event. */
  ghost predicate IsLastAttempt(log: Log, p: nat, q: int)
    requires p <= |log|
  {
    0 <= q < p && Attempt(log[q]).Some? && forall k :: q < k < p ==> Attempt(log[k]).None?
  }

  lemma {:induction false} LastAttemptAt(log: Log, p: nat) returns (q: nat)
    requires p <= |log| && LastInstalled(log[..p]).Some?
    ensures IsLastAttempt(log, p, q) && Attempt(log[q]) == LastInstalled(log[..p])
    decreases p
  {
    assert log[..p][..p - 1] == log[..p - 1];
    if Attempt(log[p - 1]).Some? {
      q := p - 1;
    } else {
      q := LastAttemptAt(log, p - 1);
    }
  }

  /** In the authorization-code flow a credential is requested only with the access token of an earlier exchange, the last
      one that succeeded, and with metadata present. */
  lemma CredentialsOnlyWithToken(env: Env, start: Session, calls: seq<Call>, p: nat)
    requires Starts(env, start)
    requires var log := Run(env, start, calls).shared.log;
             p < |log| && log[p].CredentialPosted? && log[p].grant.AuthorizationCode?
    ensures var log := Run(env, start, calls).shared.log;
            exists q :: 0 <= q < p && log[q].CodeExchanged? && log[q].exchange.Some? &&
              log[q].exchange.value.token == log[p].token &&
              forall k :: q < k < p ==> !(log[k].CodeExchanged? && log[k].exchange.Some?)
    ensures LastMetadata(Run(env, start, calls).shared.log[..p]).Some?
  {
    EveryRunIsGood(env, start, calls);
    var log := Run(env, start, calls).shared.log;
    assert EventSafe(env, Run(env, start, calls).shared.issuerURI, log[..p], log[p]);
    var q := LastExchangeAt(log[..p]);
    assert forall k :: 0 <= k < p ==> log[..p][k] == log[k];
  }

  lemma {:induction false} LastExchangeAt(log: Log) returns (q: nat)
    requires LastExchange(log).Some?
    ensures q < |log| && log[q].CodeExchanged? && log[q].exchange.Some?
    ensures log[q].exchange == LastExchange(log)
    ensures forall k :: q < k < |log| ==> !(log[k].CodeExchanged? && log[k].exchange.Some?)
    decreases |log|
  {
    var n := |log| - 1;
    if log[n].CodeExchanged? && log[n].exchange.Some? {
      q := n;
    } else {
      q := LastExchangeAt(log[..n]);
      assert forall k :: 0 <= k < n ==> log[..n][k] == log[k];
    }
  }

  /** In every run of either driver, a proof is signed for the issuer, in the name of the client of the most recent URL if
      there is one, and for the nonce last asked for: that of the token reply right after it, and after an invalid-proof
      error the nonce of that error or, in the pre-authorized flow, that of the token reply again. */
  lemma ProofsFit(env: Env, start: Session, calls: seq<Call>, p: nat)
    requires Starts(env, start)
    requires p < |Run(env, start, calls).shared.log| && Run(env, start, calls).shared.log[p].ProofSigned?
    ensures var log := Run(env, start, calls).shared.log;
            ClaimsFit(start.shared.issuerURI, log[..p], log[p].claims)
  {
    EveryRunIsGood(env, start, calls);
    IssuerKept(env, start, calls);
    var log := Run(env, start, calls).shared.log;
    assert EventSafe(env, Run(env, start, calls).shared.issuerURI, log[..p], log[p]);
  }

  /** So the proof signed right after a successful code exchange carries the nonce of its token reply, and so does the one
      after a pre-authorized token request. */
  lemma FirstProofCarriesNonce(env: Env, start: Session, calls: seq<Call>, p: nat)
    requires Starts(env, start)
    requires 0 < p < |Run(env, start, calls).shared.log| && Run(env, start, calls).shared.log[p].ProofSigned?
    ensures var log := Run(env, start, calls).shared.log;
            && (log[p - 1].CodeExchanged? && log[p - 1].exchange.Some? ==>
                  log[p].claims.nonce == log[p - 1].exchange.value.cNonce)
            && (log[p - 1].PreAuthTokenPosted? && log[p - 1].granted.Some? ==>
                  log[p].claims.nonce == log[p - 1].granted.value.cNonce)
  {
    ProofsFit(env, start, calls, p);
    var log := Run(env, start, calls).shared.log;
    assert log[..p][p - 1] == log[p - 1];
  }

  /** In every run of either driver, each request for credentials carries the proof that was signed last. */
  lemma PostsCarrySignedProof(env: Env, start: Session, calls: seq<Call>, p: nat)
    requires Starts(env, start) && p < |Run(env, start, calls).shared.log|
    ensures var log := Run(env, start, calls).shared.log;
            && (log[p].CredentialPosted? ==> LastProof(log[..p]) == Some(log[p].request.proof))
            && (log[p].BatchPosted? ==> forall i :: 0 <= i < |log[p].requests| ==>
                  LastProof(log[..p]) == Some(log[p].requests[i].proof))
  {
    EveryRunIsGood(env, start, calls);
    var log := Run(env, start, calls).shared.log;
    assert EventSafe(env, Run(env, start, calls).shared.issuerURI, log[..p], log[p]);
    if log[p].CredentialPosted? {
      assert [log[p].request][0] == log[p].request;
    }
  }

  lemma {:induction false} IssuerKept(env: Env, start: Session, calls: seq<Call>)
    ensures Run(env, start, calls).shared.issuerURI == start.shared.issuerURI
    decreases |calls|
  {
    if calls != [] {
      IssuerKept(env, start, calls[..|calls| - 1]);
    }
  }

  /** Metadata is fetched again only as long as no fetch has succeeded, and never replaced. */
  lemma MetadataFetchedOnce(env: Env, start: Session, calls: seq<Call>, p: nat, q: nat)
    requires Starts(env, start)
    requires p < q < |Run(env, start, calls).shared.log|
    requires var log := Run(env, start, calls).shared.log; log[p].MetadataFetched? && log[p].reply.Some?
    ensures var run := Run(env, start, calls).shared; !run.log[q].MetadataFetched? && run.metadata == run.log[p].reply
  {
    EveryRunIsGood(env, start, calls);
    var log := Run(env, start, calls).shared.log;
    var uri := Run(env, start, calls).shared.issuerURI;
    FetchedStays(env, uri, log, p, q);
    FetchedStays(env, uri, log, p, |log|);
    assert EventSafe(env, uri, log[..q], log[q]);
    assert log[..|log|] == log;
  }

  lemma {:induction false} FetchedStays(env: Env, issuerURI: string, log: Log, p: nat, q: nat)
    requires Safe(env, issuerURI, log) && p < q <= |log| && log[p].MetadataFetched? && log[p].reply.Some?
    ensures LastMetadata(log[..q]) == log[p].reply
    decreases q
  {
    var front, e := log[..q - 1], log[q - 1];
    assert log[..q] == front + [e];
    Snoc(front, e);
    if p < q - 1 {
      FetchedStays(env, issuerURI, log, p, q - 1);
      assert EventSafe(env, issuerURI, front, e);
    }
  }

  /** When no attempt to create a URL failed after installing its OAuth config, every exchange is bound to a URL, and
      names the client and the redirect URI of that URL. */
  lemma ExchangeBoundWithoutFailures(env: Env, start: Session, calls: seq<Call>, p: nat)
    requires Starts(env, start)
    requires p < |Run(env, start, calls).shared.log| && Run(env, start, calls).shared.log[p].CodeExchanged?
    requires forall q :: 0 <= q < p ==> !Run(env, start, calls).shared.log[q].URLAborted?
    ensures var log := Run(env, start, calls).shared.log;
            Bound(env, log[..p], log[p]) && SameClient(log[p].config, LastURL(log[..p]).value.config)
  {
    EveryRunIsGood(env, start, calls);
    var log := Run(env, start, calls).shared.log;
    assert EventSafe(env, Run(env, start, calls).shared.issuerURI, log[..p], log[p]);
    NoneAborted(log[..p]);
  }

  lemma {:induction false} NoneAborted(log: Log)
    requires forall q :: 0 <= q < |log| ==> !log[q].URLAborted?
    ensures LastInstalled(log) == match LastURL(log) case None => None case Some(url) => Some(url.config)
    decreases |log|
  {
    if log != [] {
      NoneAborted(log[..|log| - 1]);
    }
  }

  /** Surroundings in which the random source gives the verifier only in a history of the given length. */
  function DrawsAt(length: nat): Env {
    Env(log => Some(Metadata("issuer", "auth", "token", "credential", "", "", None, map[])),
        log => if |log| == length then Some("verifier") else None,
        log => "state",
        verifier => verifier,
        log => None,
        log => None,
        log => None,
        (log, claims) => None,
        log => Garbled,
        log => BatchFailed(Other("")),
        responses => true)
  }

  const WALLET := Session(Fresh("issuer"), WalletInitiated(Wanted("", [], [])))

  /** An exchange that is not refused sends the verifier of the moment on the state of the moment. */
  lemma ExchangeSends(env: Env, s: State, code: string)
    requires s.oauth.Some? && s.metadata.Some? && s.metadata.value.tokenEndpoint != ""
    ensures RequestAccessToken(env, s, Params(Some(code), Some(s.urlState))).1.None? <==> env.exchange(s.log).Some?
    ensures RequestAccessToken(env, s, Params(Some(code), Some(s.urlState))).0.log ==
            s.log + [CodeExchanged(s.oauth.value.(tokenURL := s.metadata.value.tokenEndpoint), code, s.codeVerifier,
                                   s.urlState, env.exchange(s.log))]
  {
  }

  /** What a call of the wallet-initiated driver does to the shared interaction, if its exchange is refused. */
  lemma WalletSteps(env: Env, session: Session, r: URLRequest, redirect: Redirect)
    requires session.flow.WalletInitiated?
    ensures Step(env, session, CreateURL(r)).shared == CreateAuthorizationURL(env, session.shared, r).0
    ensures Step(env, session, CreateURL(r)).flow.WalletInitiated?
    ensures RequestAccessToken(env, session.shared, redirect).1.Some? ==>
              Step(env, session, RequestWithAuth(true, redirect)).shared ==
              RequestAccessToken(env, session.shared, redirect).0
  {
  }

  /** What the first attempt of these surroundings leaves behind: no URL, or the one URL. */
  lemma FirstAttempt(length: nat, r: URLRequest)
    requires length < 2
    ensures var (s, url) := CreateAuthorizationURL(DrawsAt(length), Fresh("issuer"), r);
            && |s.log| == 2 && s.log[0].MetadataFetched?
            && s.metadata.Some? && s.metadata.value.tokenEndpoint == "token"
            && s.oauth.Some? && s.oauth.value.redirectURI == r.redirectURI
            && (length == 0 ==> url.Err? && s.log[1] == URLAborted(s.oauth.value) && s.urlState == s.codeVerifier == "")
            && (length == 1 ==> url.Ok? && s.log[1] == URLCreated(url.value) && url.value.config == s.oauth.value &&
                                s.urlState == url.value.state == "state" &&
                                s.codeVerifier == url.value.challenge == "verifier")
  {
  }

  lemma SecondAttemptFails(s: State, r: URLRequest)
    requires |s.log| == 2 && s.metadata.Some?
    ensures var (s', url) := CreateAuthorizationURL(DrawsAt(1), s, r);
            && url.Err? && s'.oauth.Some? && s'.oauth.value.redirectURI == r.redirectURI
            && s'.log == s.log + [URLAborted(s'.oauth.value)]
            && s' == s.(oauth := s'.oauth, log := s'.log)
  {
  }

  lemma LastURLOfTwo(first: Event, second: Event)
    requires first.MetadataFetched?
    ensures LastURL([first, second]) == if second.URLCreated? then Some(second.url) else None
  {
    assert [first, second] == [] + [first] + [second];
    Snoc([] + [first], second);
    Snoc([], first);
  }

  /** The binding does break: when the only attempt to create a URL fails for want of random bytes, a redirect with an
      empty state leads to an exchange although no URL was ever made. */
  lemma FailureBreaksBinding(r: URLRequest)
    ensures var env, calls := DrawsAt(0), [CreateURL(r), RequestWithAuth(true, Params(Some("code"), Some("")))];
            var log := Run(env, WALLET, calls).shared.log;
            |log| == 3 && log[2].CodeExchanged? && log[2].verifier == "" && LastURL(log[..2]).None?
  {
    var env, redirect := DrawsAt(0), Params(Some("code"), Some(""));
    RunOfTwo(env, WALLET, CreateURL(r), RequestWithAuth(true, redirect));
    WalletSteps(env, WALLET, r, redirect);
    WalletSteps(env, Step(env, WALLET, CreateURL(r)), r, redirect);
    FirstAttempt(0, r);
    var s := CreateAuthorizationURL(env, Fresh("issuer"), r).0;
    ExchangeSends(env, s, "code");
    var log := RequestAccessToken(env, s, redirect).0.log;
    assert log[..2] == s.log == [s.log[0], s.log[1]];
    LastURLOfTwo(s.log[0], s.log[1]);
  }

  /** The fourth event is an exchange bound to the URL of the first request, in the name of the other one. */
  ghost predicate ExchangedForOther(env: Env, log: Log, r: URLRequest, other: URLRequest) {
    && |log| == 4 && log[3].CodeExchanged? && Bound(env, log[..3], log[3])
    && LastURL(log[..3]).value.config.redirectURI == r.redirectURI
    && log[3].config.redirectURI == other.redirectURI
  }

  /** So does the choice of the client: when a second attempt with another redirect URI fails, the redirect of the first
      URL leads to an exchange that names the second attempt's redirect URI. */
  lemma FailureChangesClient(r: URLRequest, other: URLRequest)
    requires r.redirectURI != other.redirectURI
    ensures var env, redirect := DrawsAt(1), Params(Some("code"), Some("state"));
            var calls := [CreateURL(r), CreateURL(other), RequestWithAuth(true, redirect)];
            ExchangedForOther(env, Run(env, WALLET, calls).shared.log, r, other)
  {
    var env, redirect := DrawsAt(1), Params(Some("code"), Some("state"));
    var s1 := CreateAuthorizationURL(env, Fresh("issuer"), r).0;
    var s2 := CreateAuthorizationURL(env, s1, other).0;
    TwoAttempts(r, other);
    ExchangeSends(env, s2, "code");
    ThreeCalls(env, r, other, redirect);
    ExchangeAfterTwo(env, s2, r, other);
  }

  lemma ExchangeAfterTwo(env: Env, s: State, r: URLRequest, other: URLRequest)
    requires env == DrawsAt(1) && AfterTwo(s, r, other)
    ensures ExchangedForOther(env, RequestAccessToken(env, s, Params(Some("code"), Some("state"))).0.log, r, other)
  {
    ExchangeSends(env, s, "code");
    var log := RequestAccessToken(env, s, Params(Some("code"), Some("state"))).0.log;
    assert log[..3] == s.log == [s.log[0], s.log[1]] + [s.log[2]];
    Snoc([s.log[0], s.log[1]], s.log[2]);
    LastURLOfTwo(s.log[0], s.log[1]);
  }

  /** The first attempt created a URL, the second failed. */
  ghost predicate AfterTwo(s: State, r: URLRequest, other: URLRequest) {
    && |s.log| == 3 && s.log[0].MetadataFetched? && s.log[1].URLCreated? && s.log[2].URLAborted?
    && s.log[1].url.config.redirectURI == r.redirectURI
    && s.urlState == s.log[1].url.state == "state"
    && s.codeVerifier == s.log[1].url.challenge == "verifier"
    && s.oauth.Some? && s.oauth.value.redirectURI == other.redirectURI
    && s.metadata.Some? && s.metadata.value.tokenEndpoint == "token"
  }

  lemma TwoAttempts(r: URLRequest, other: URLRequest)
    ensures var s1 := CreateAuthorizationURL(DrawsAt(1), Fresh("issuer"), r).0;
            var s2 := CreateAuthorizationURL(DrawsAt(1), s1, other).0;
            AfterTwo(s2, r, other)
  {
    FirstAttempt(1, r);
    SecondAttemptFails(CreateAuthorizationURL(DrawsAt(1), Fresh("issuer"), r).0, other);
  }

  lemma ThreeCalls(env: Env, r: URLRequest, other: URLRequest, redirect: Redirect)
    ensures var s1 := CreateAuthorizationURL(env, Fresh("issuer"), r).0;
            var s2 := CreateAuthorizationURL(env, s1, other).0;
            RequestAccessToken(env, s2, redirect).1.Some? ==>
              Run(env, WALLET, [CreateURL(r), CreateURL(other), RequestWithAuth(true, redirect)]).shared ==
              RequestAccessToken(env, s2, redirect).0
  {
    RunOfThree(env, WALLET, CreateURL(r), CreateURL(other), RequestWithAuth(true, redirect));
    var one := Step(env, WALLET, CreateURL(r));
    WalletSteps(env, WALLET, r, redirect);
    WalletSteps(env, one, other, redirect);
    WalletSteps(env, Step(env, one, CreateURL(other)), other, redirect);
  }

  /** Surroundings that grant a token with one nonce and then refuse every proof, naming another. */
  function RefusesProofs(given: string, refusal: string): Env {
    DrawsAt(0).(preAuthToken := log => Some(TokenReply(Token("token", ""), Some(given))),
                sign := (log, claims) => Some("signature"),
                post := log => Refused(InvalidProof(refusal)))
  }

  function OfferOf(env: Env, wanted: Wanted): Session {
    Session(PopulateMetadata(env, Fresh("issuer")).0,
            IssuerInitiated([wanted], Some(PreAuthGrant("code", false)), None, None))
  }

  /** The two nonces of the pre-authorized flow do come apart: a proof refused with a new nonce is sent again with the old
      one. */
  lemma PreAuthRetryIgnoresNewNonce(wanted: Wanted, given: string, refusal: string)
    requires given != refusal
    ensures var env := RefusesProofs(given, refusal);
            var log := Run(env, OfferOf(env, wanted), [RequestWithPreAuth(true, "", false)]).shared.log;
            && Starts(env, OfferOf(env, wanted)) && |log| == 6
            && RefusedProof(log[3]) == Some(refusal)
            && CarriesNonce(log[5], Some(given)) && !CarriesNonce(log[5], Some(refusal))
  {
    var env := RefusesProofs(given, refusal);
    var start := OfferOf(env, wanted);
    var token, nonce := Token("token", ""), Some(given);
    var s := start.shared.Logged(PreAuthTokenPosted("code", "", None, env.preAuthToken(start.shared.log)));
    var s1 := PreAuthAttempt(env, s, token, nonce, [wanted]).0;
    RefusedAttempt(given, refusal, s, token, wanted);
    RefusedAttempt(given, refusal, s1, token, wanted);
    assert [RequestWithPreAuth(true, "", false)][..0] == [];
    assert Run(env, start, [RequestWithPreAuth(true, "", false)]).shared ==
           PreAuthAttempt(env, s1, token, nonce, [wanted]).0;
  }

  lemma RefusedAttempt(given: string, refusal: string, s: State, token: Token, wanted: Wanted)
    requires s.metadata.Some?
    ensures var env := RefusesProofs(given, refusal);
            var (s', r) := PreAuthAttempt(env, s, token, Some(given), [wanted]);
            && s.log <= s'.log && |s'.log| == |s.log| + 2 && s'.metadata.Some?
            && r == Err(InvalidProof(refusal)) && RefusedProof(s'.log[|s.log| + 1]) == Some(refusal)
            && CarriesNonce(s'.log[|s.log| + 1], Some(given)) && s'.log[|s.log| + 1].CredentialPosted?
  {
  }

  lemma RunSnoc(env: Env, start: Session, calls: seq<Call>, call: Call)
    ensures Run(env, start, calls + [call]) == Step(env, Run(env, start, calls), call)
  {
    assert (calls + [call])[..|calls|] == calls;
  }

  lemma RunOfTwo(env: Env, start: Session, first: Call, second: Call)
    ensures Run(env, start, [first, second]) == Step(env, Step(env, start, first), second)
  {
    assert [first, second] == [first] + [second] && [first] == [] + [first];
    RunSnoc(env, start, [], first);
    RunSnoc(env, start, [first], second);
  }

  lemma RunOfThree(env: Env, start: Session, first: Call, second: Call, third: Call)
    ensures Run(env, start, [first, second, third]) == Step(env, Step(env, Step(env, start, first), second), third)
  {
    assert [first, second, third] == [first, second] + [third];
    RunOfTwo(env, start, first, second);
    RunSnoc(env, start, [first, second], third);
  }
}
