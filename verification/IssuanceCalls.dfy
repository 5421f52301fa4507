/** What a public call says to the issuer and what it hands back, in terms of what the caller passed and the issuer
    answered. */
module IssuanceCalls {
  import opened Outcomes
  import opened Issuance
  import opened IssuanceRequests

  // ---- the authorization URL -----------------------------------------------------------------

  /** The URL names the client, redirect URI, scopes and scheme that the caller asked for. */
  predicate NamesClient(url: AuthURL, r: URLRequest) {
    && url.config.clientID == r.clientID && url.config.redirectURI == r.redirectURI && url.config.scopes == r.scopes
    && url.discoverable == r.discoverable
  }

  /** The URL is for the issuer's authorization server, and located at the issuer if there is such a server. */
  predicate ForIssuer(url: AuthURL, m: Metadata) {
    && url.config.authURL == m.authorizationServer
    && (m.authorizationServer == "" ==> url.locations == [])
    && (m.authorizationServer != "" ==> url.locations == [m.credentialIssuer])
  }

  /** A URL is made exactly when there is metadata and the random source answers; its state and the verifier behind its
      challenge are drawn for it, and everything else in it comes from the metadata and from the caller. */
  lemma URLNamesWhatWasAsked(env: Env, s: State, r: URLRequest)
    ensures var (s', url) := CreateAuthorizationURL(env, s, r);
            var before := PopulateMetadata(env, s).0.log;
            && !url.Panic?
            && (url.Ok? <==> s'.metadata.Some? && env.draw(before).Some?)
            && (url.Ok? ==>
                  && NamesClient(url.value, r) && ForIssuer(url.value, s'.metadata.value)
                  && url.value.wanted == r.wanted && url.value.issuerState == r.issuerState
                  && url.value.state == env.uuid(before)
                  && url.value.challenge == env.sha256(env.draw(before).value))
            && (s'.metadata.Some? && !url.Ok? ==>
                  s'.oauth.Some? && s'.oauth.value.clientID == r.clientID && s'.oauth.value.redirectURI == r.redirectURI)
  {
  }

  /** Through either driver: the wallet-initiated one asks for what its caller names, the issuer-initiated one for the first
      credential on offer. */
  lemma CallNamesWhatWasAsked(env: Env, session: Session, r: URLRequest)
    ensures var (session', url) := CreateURLCall(env, session, r);
            url.Ok? ==>
              && NamesClient(url.value, r) && ForIssuer(url.value, session'.shared.metadata.value)
              && match session.flow
                 case WalletInitiated(_) => url.value.wanted == r.wanted && url.value.issuerState == r.issuerState
                 case IssuerInitiated(offered, _, _, _) => offered != [] && url.value.wanted == offered[0]
  {
    match session.flow
    case WalletInitiated(_) => URLNamesWhatWasAsked(env, session.shared, r);
    case IssuerInitiated(offered, _, auth, _) =>
      if auth.Some? && offered != [] {
        var issuerState := IssuerStateToUse(auth.value.issuerState, r.issuerState);
        if issuerState.Ok? {
          URLNamesWhatWasAsked(env, session.shared, r.(wanted := offered[0], issuerState := issuerState.value));
        }
      }
  }

  // ---- the code exchange ---------------------------------------------------------------------

  /** The redirect has a code and the state of the moment, and there is somewhere to exchange the code. */
  predicate Exchangeable(s: State, redirect: Redirect) {
    && s.oauth.Some? && redirect.Params? && redirect.code.Some? && redirect.state == Some(s.urlState)
    && s.metadata.Some? && s.metadata.value.tokenEndpoint != ""
  }

  /** The driver lets the call through to the exchange. */
  predicate MayRequest(flow: Flow, keyIDHasDID: bool) {
    flow.IssuerInitiated? ==> flow.auth.Some? && keyIDHasDID
  }

  /** A call exchanges the code of its redirect exactly when the redirect can be exchanged and the driver lets it through;
      otherwise it fails without a trace. */
  lemma CodeExchangedExactlyWhen(env: Env, session: Session, keyIDHasDID: bool, redirect: Redirect)
    ensures var (session', r) := RequestWithAuthCall(env, session, keyIDHasDID, redirect);
            var s, s' := session.shared, session'.shared;
            if MayRequest(session.flow, keyIDHasDID) && Exchangeable(s, redirect) then
              && s.log < s'.log && s'.log[|s.log|].CodeExchanged?
              && s'.log[|s.log|].code == redirect.code.value
              && s'.log[|s.log|].exchange == env.exchange(s.log)
              && (env.exchange(s.log).None? ==> r.Err? && |s'.log| == |s.log| + 1)
            else
              r.Err? && session' == session
  {
    if MayRequest(session.flow, keyIDHasDID) {
      var wanted := if session.flow.WalletInitiated? then [session.flow.chosen] else session.flow.offered;
      ExchangedFirst(env, session.shared, redirect, wanted);
    }
  }

  lemma ExchangedFirst(env: Env, s: State, redirect: Redirect, wanted: seq<Wanted>)
    ensures var (s', r) := WithAuth(env, s, redirect, wanted);
            if Exchangeable(s, redirect) then
              && s.log < s'.log && s'.log[|s.log|].CodeExchanged?
              && s'.log[|s.log|].code == redirect.code.value
              && s'.log[|s.log|].exchange == env.exchange(s.log)
              && (env.exchange(s.log).None? ==> r.Err? && |s'.log| == |s.log| + 1)
            else
              r.Err? && s' == s
  {
    var (s1, error) := RequestAccessToken(env, s, redirect);
    if error.None? {
      AuthRetry(env, s1, s1.tokenNonce, wanted);
      assert s1.log[|s.log|].CodeExchanged?;
    }
  }

  // ---- the pre-authorized token --------------------------------------------------------------

  predicate MayUseGrant(flow: Flow, keyHasDID: bool, pin: string)
    requires flow.IssuerInitiated?
  {
    flow.preAuth.Some? && (flow.preAuth.value.pinRequired ==> pin != "") && keyHasDID
  }

  /** There is a token endpoint, and the attestation if one is asked for. */
  predicate TokenRequestable(env: Env, s: State, attest: bool) {
    s.metadata.Some? && s.metadata.value.tokenEndpoint != "" && (attest ==> env.attest(s.log).Some?)
  }

  /** A call asks for a token exactly when the offer, the PIN, the key, the metadata and the attestation allow it, and with
      the code of the offer, the caller's PIN and that attestation; otherwise it fails having fetched metadata at most. */
  lemma TokenRequestedExactlyWhen(env: Env, session: Session, keyHasDID: bool, pin: string, attest: bool)
    requires session.flow.IssuerInitiated?
    ensures var (session', r) := RequestWithPreAuthCall(env, session, keyHasDID, pin, attest);
            var fetched := PopulateMetadata(env, session.shared).0;
            if !MayUseGrant(session.flow, keyHasDID, pin) then r.Err? && session' == session
            else if !TokenRequestable(env, fetched, attest) then r.Err? && session' == session.(shared := fetched)
            else
              && fetched.log < session'.shared.log
              && var e := session'.shared.log[|fetched.log|];
                 && e.PreAuthTokenPosted? && e.code == session.flow.preAuth.value.code && e.pin == pin
                 && (if attest then e.attestation == env.attest(fetched.log) else e.attestation.None?)
                 && e.granted == env.preAuthToken(fetched.log)
                 && (e.granted.None? ==> r.Err? && |session'.shared.log| == |fetched.log| + 1)
  {
    var flow, fetched := session.flow, PopulateMetadata(env, session.shared).0;
    if MayUseGrant(flow, keyHasDID, pin) && TokenRequestable(env, fetched, attest) {
      var attestation := if attest then env.attest(fetched.log) else None;
      GrantRequestedFirst(env, fetched, flow.preAuth.value, flow.offered, pin, attestation);
    }
  }

  lemma GrantRequestedFirst(env: Env, s: State, grant: PreAuthGrant, offered: seq<Wanted>, pin: string,
                            attestation: Option<string>)
    requires s.metadata.Some?
    ensures var (s', token, r) := WithGrant(env, s, grant, offered, pin, attestation);
            && s.log < s'.log
            && s'.log[|s.log|] == PreAuthTokenPosted(grant.code, pin, attestation, env.preAuthToken(s.log))
            && (env.preAuthToken(s.log).None? ==> r.Err? && |s'.log| == |s.log| + 1)
  {
    var granted := env.preAuthToken(s.log);
    var s1 := s.Logged(PreAuthTokenPosted(grant.code, pin, attestation, granted));
    if granted.Some? {
      PreAuthRetry(env, s1, granted.value.token, granted.value.cNonce, offered);
      assert s1.log[|s.log|].PreAuthTokenPosted?;
    }
  }

  // ---- the credentials -----------------------------------------------------------------------

  /** A successful call returns what the issuer answered, unchanged and in order, to the last posts: one for the chosen
      credential, or one for each credential on offer. Responses that do not parse are never returned. */
  lemma AuthCallDelivers(env: Env, session: Session, keyIDHasDID: bool, redirect: Redirect)
    ensures var (session', r) := RequestWithAuthCall(env, session, keyIDHasDID, redirect);
            r.Ok? ==>
              && env.accepts(r.value)
              && match session.flow
                 case WalletInitiated(chosen) => Delivered(session'.shared.log, AuthorizationCode, [chosen], r.value)
                 case IssuerInitiated(offered, _, _, _) =>
                   Delivered(session'.shared.log, AuthorizationCode, offered, r.value)
  {
    if MayRequest(session.flow, keyIDHasDID) {
      var wanted := if session.flow.WalletInitiated? then [session.flow.chosen] else session.flow.offered;
      var (s1, error) := RequestAccessToken(env, session.shared, redirect);
      if error.None? {
        AuthDelivers(env, s1, s1.tokenNonce, wanted);
      }
    }
  }

  /** The same for the pre-authorized flow. */
  lemma PreAuthCallDelivers(env: Env, session: Session, keyHasDID: bool, pin: string, attest: bool)
    requires session.flow.IssuerInitiated?
    ensures var (session', r) := RequestWithPreAuthCall(env, session, keyHasDID, pin, attest);
            var offered := session.flow.offered;
            r.Ok? ==>
              && env.accepts(r.value) && session'.shared.metadata.Some?
              && if UsesBatch(session'.shared, offered) then DeliveredInBatch(session'.shared.log, offered, r.value)
                 else Delivered(session'.shared.log, PreAuthorized, offered, r.value)
  {
    var flow, fetched := session.flow, PopulateMetadata(env, session.shared).0;
    if MayUseGrant(flow, keyHasDID, pin) && TokenRequestable(env, fetched, attest) {
      var attestation := if attest then env.attest(fetched.log) else None;
      GrantDelivers(env, fetched, flow.preAuth.value, flow.offered, pin, attestation);
    }
  }

  lemma GrantDelivers(env: Env, s: State, grant: PreAuthGrant, offered: seq<Wanted>, pin: string,
                      attestation: Option<string>)
    requires s.metadata.Some?
    ensures var (s', _, r) := WithGrant(env, s, grant, offered, pin, attestation);
            && s'.metadata == s.metadata
            && (r.Ok? ==> if UsesBatch(s, offered) then DeliveredInBatch(s'.log, offered, r.value)
                          else Delivered(s'.log, PreAuthorized, offered, r.value))
  {
    var granted := env.preAuthToken(s.log);
    var s1 := s.Logged(PreAuthTokenPosted(grant.code, pin, attestation, granted));
    if granted.Some? {
      PreAuthDelivers(env, s1, granted.value.token, granted.value.cNonce, offered);
    }
  }
}
