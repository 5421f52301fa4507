/** The interaction objects in the form the program gives them: fields updated in place by methods, each proved to do
    what the functions of Issuance.dfy say. The surroundings stand for the HTTP client, the random source, the signer
    and the loggers; `log` is the record of what was exchanged with them. */
module InteractionObjects {
  import opened Outcomes
  import opened Issuance
  import opened IssuanceRequests
  import opened AcknowledgmentQueue

  class Interaction {
    const issuerURI: string
    const env: Env
    var clientID: string
    var issuerMetadata: Option<Metadata>
    var oAuth2Config: Option<OAuthConfig>
    var authTokenResponseNonce: Option<string>
    var authToken: Option<Token>
    var authCodeURLState: string
    var codeVerifier: string
    var requestedAcknowledgment: Option<seq<string>>
    var log: Log

    ghost function View(): State
      reads this
    {
      State(issuerURI, clientID, issuerMetadata, oAuth2Config, authTokenResponseNonce, authToken, authCodeURLState,
            codeVerifier, requestedAcknowledgment, log)
    }

    /** What the methods rely on when they follow the metadata pointer without a check. */
    ghost predicate Valid()
      reads this
    {
      && (oAuth2Config.Some? ==> issuerMetadata.Some?)
      && (requestedAcknowledgment.Some? ==> issuerMetadata.Some?)
    }

    constructor (issuerURI: string, env: Env)
      ensures this.env == env && Valid() && View() == Fresh(issuerURI)
    {
      this.issuerURI, this.env := issuerURI, env;
      clientID, issuerMetadata, oAuth2Config := "", None, None;
      authTokenResponseNonce, authToken := None, None;
      authCodeURLState, codeVerifier := "", "";
      requestedAcknowledgment, log := None, [];
    }

    method PopulateIssuerMetadata() returns (error: Option<Error>)
      requires Valid()
      modifies this
      ensures Valid()
      ensures (View(), error) == PopulateMetadata(env, old(View()))
    {
      if issuerMetadata.None? {
        var reply := env.fetch(log);
        log := log + [MetadataFetched(reply)];
        if reply.None? {
          return Some(Other("failed to get issuer metadata"));
        }
        issuerMetadata := reply;
      }
      return None;
    }

    method CreateAuthorizationURL(r: URLRequest) returns (url: Outcome<AuthURL, Error>)
      requires Valid()
      modifies this
      ensures Valid()
      ensures (View(), url) == Issuance.CreateAuthorizationURL(env, old(View()), r)
    {
      var error := PopulateIssuerMetadata();
      if error.Some? {
        return Err(error.value);
      }
      var m := issuerMetadata.value;
      oAuth2Config := Some(OAuthConfig(r.clientID, r.redirectURI, m.authorizationServer, r.scopes, ""));
      var drawn := env.draw(log);
      if drawn.None? {
        log := log + [URLAborted(oAuth2Config.value)];
        return Err(Other("random source failed"));
      }
      codeVerifier := drawn.value;
      var locations := if m.authorizationServer == "" then [] else [m.credentialIssuer];
      authCodeURLState := env.uuid(log);
      clientID := r.clientID;
      var created := AuthURL(oAuth2Config.value, authCodeURLState, env.sha256(codeVerifier), r.wanted, locations,
                             r.issuerState, r.discoverable);
      log := log + [URLCreated(created)];
      return Ok(created);
    }

    method RequestAccessToken(redirect: Redirect) returns (error: Option<Error>)
      requires Valid()
      modifies this
      ensures Valid()
      ensures (View(), error) == Issuance.RequestAccessToken(env, old(View()), redirect)
      ensures error.None? ==>
                && |log| == |old(log)| + 1 && log[|old(log)|].CodeExchanged? && log[|old(log)|].exchange.Some?
                && authToken == Some(log[|old(log)|].exchange.value.token)
                && authTokenResponseNonce == log[|old(log)|].exchange.value.cNonce
    {
      if oAuth2Config.None? {
        return Some(Other("authorization URL must be created first"));
      }
      if redirect.Unparsable? {
        return Some(Other("redirect URI does not parse"));
      }
      if redirect.code.None? {
        return Some(Other("redirect URI is missing an authorization code"));
      }
      if redirect.state.None? {
        return Some(Other("redirect URI is missing a state value"));
      }
      if redirect.state.value != authCodeURLState {
        return Some(Other("state in redirect URI does not match"));
      }
      if issuerMetadata.value.tokenEndpoint == "" {
        return Some(Other("no token endpoint"));
      }
      oAuth2Config := Some(oAuth2Config.value.(tokenURL := issuerMetadata.value.tokenEndpoint));
      var reply := env.exchange(log);
      log := log +
        [CodeExchanged(oAuth2Config.value, redirect.code.value, codeVerifier, redirect.state.value, reply)];
      if reply.None? {
        return Some(Other("code exchange failed"));
      }
      authToken := Some(reply.value.token);
      authTokenResponseNonce := reply.value.cNonce;
      return None;
    }

    method CreateClaimsProof(nonce: Option<string>) returns (proof: Option<Proof>)
      requires Valid()
      modifies this`log
      ensures (View(), proof) == SignProof(env, old(View()), nonce)
    {
      var claims := Claims(issuerURI, if clientID == "" then None else Some(clientID), nonce);
      var signature := env.sign(log, claims);
      log := log + [ProofSigned(claims, signature)];
      return if signature.None? then None else Some(Proof(claims, signature.value));
    }

    method StoreAcknowledgmentID(ackID: string)
      modifies this`requestedAcknowledgment
      ensures View() == old(View()).WithAck(ackID)
    {
      if requestedAcknowledgment.None? {
        requestedAcknowledgment := Some([]);
      }
      requestedAcknowledgment := Some(requestedAcknowledgment.value + [ackID]);
    }

    /** The request loop both flows share: one post for each wanted credential. */
    method PostForEach(grant: Grant, token: Token, proof: Proof, wanted: seq<Wanted>) returns (r: Responses)
      requires Valid() && issuerMetadata.Some?
      modifies this`log, this`requestedAcknowledgment
      ensures Valid()
      ensures (View(), r) == PostEach(env, old(View()), grant, token, proof, wanted, [])
    {
      var credentialResponses: seq<CredentialResponse> := [];
      for index := 0 to |wanted|
        invariant Valid() && issuerMetadata.Some?
        invariant PostEach(env, old(View()), grant, token, proof, wanted, []) ==
                  PostEach(env, View(), grant, token, proof, wanted[index..], credentialResponses)
      {
        assert wanted[index..][1..] == wanted[index + 1..];
        var reply := env.post(log);
        log := log + [CredentialPosted(grant, token, CredentialRequest(wanted[index], proof), reply)];
        match reply {
          case Refused(error) => return Err(error);
          case Garbled => return Err(Other("failed to unmarshal response"));
          case Issued(response) =>
            credentialResponses := credentialResponses + [response];
            StoreAcknowledgmentID(response.ackID);
        }
      }
      return Ok(credentialResponses);
    }

    /** The deferred retry runs after the body, on the error the body returned. */
    method GetCredentialResponse(nonce: Option<string>, wanted: seq<Wanted>, allowRetry: bool) returns (r: Responses)
      requires Valid() && oAuth2Config.Some? && authToken.Some?
      modifies this`log, this`requestedAcknowledgment
      ensures Valid()
      ensures (View(), r) == if allowRetry then AuthCredentials(env, old(View()), nonce, wanted)
                             else AuthAttempt(env, old(View()), nonce, wanted)
      ensures r.Ok? ==> Delivered(log, AuthorizationCode, wanted, r.value)
      decreases allowRetry
    {
      ghost var before := View();
      var proofJWT := CreateClaimsProof(nonce);
      if proofJWT.None? {
        r := Err(SIGNING_FAILED);
      } else {
        r := PostForEach(AuthorizationCode, authToken.value, proofJWT.value, wanted);
      }
      if r.Err? && allowRetry && r.error.InvalidProof? {
        r := GetCredentialResponse(Some(r.error.cNonce), wanted, false);
      }
      AuthAttemptDelivers(env, before, nonce, wanted);
    }

    method RequestCredentialWithAuth(redirect: Redirect, wanted: seq<Wanted>) returns (r: Responses)
      requires Valid()
      modifies this
      ensures Valid()
      ensures (View(), r) == WithAuth(env, old(View()), redirect, wanted)
    {
      var error := RequestAccessToken(redirect);
      if error.Some? {
        return Err(error.value);
      }
      r := GetCredentialResponse(authTokenResponseNonce, wanted, true);
      if r.Ok? && !env.accepts(r.value) {
        return Err(Other("failed to parse credential"));
      }
    }

    method RequireAcknowledgment() returns (r: Outcome<bool, Error>)
      requires Valid()
      ensures r == if View().ackIDs.None? then Err(Other("request credentials first"))
                   else Ok(View().metadata.value.notificationEndpoint != "")
    {
      if requestedAcknowledgment.None? {
        return Err(Other("request credentials first"));
      }
      return Ok(issuerMetadata.value.notificationEndpoint != "");
    }

    /** The acknowledgment object starts with all stored IDs; what it consumes later is its own copy of the list. */
    method RequestedAcknowledgmentObj(token: Option<Token>) returns (r: Outcome<Acknowledgment, Error>)
      requires Valid()
      ensures r.Ok? <==> View().ackIDs.Some? && View().metadata.value.notificationEndpoint != ""
      ensures r.Ok? ==> fresh(r.value) && r.value.View() == Queue([], View().Stored()) && r.value.authToken == token
      ensures r.Ok? ==> r.value.issuerURI == issuerURI
      ensures r.Ok? ==> r.value.credentialAckEndpoint == View().metadata.value.notificationEndpoint
      ensures !r.Panic?
    {
      var require := RequireAcknowledgment();
      if require.Err? {
        return Err(require.error);
      }
      if !require.value {
        return Err(Other("issuer does not support credential acknowledgement"));
      }
      var endpoint := issuerMetadata.value.notificationEndpoint;
      var a := new Acknowledgment(requestedAcknowledgment.value, endpoint, issuerURI, token);
      return Ok(a);
    }
  }

  // ---- the issuer-initiated driver -----------------------------------------------------------

  datatype CredentialOffer = CredentialOffer(credentialIssuer: string, configurationIDs: seq<string>,
                                             preAuth: Option<PreAuthGrant>, auth: Option<AuthGrant>)

  predicate SupportedFormat(format: string) {
    format == "jwt_vc_json" || format == "jwt_vc_json-ld" || format == "ldp_vc"
  }

  /** The ID is configured, but the configuration or its credential definition is null. */
  predicate Undefined(id: string, m: Metadata) {
    id in m.configurations && (m.configurations[id].None? || m.configurations[id].value.definition.None?)
  }

  predicate Offerable(id: string, m: Metadata) {
    id in m.configurations && !Undefined(id, m) && SupportedFormat(m.configurations[id].value.format)
  }

  /** Each ID in order gives its format and types, and its context only for ldp_vc. */
  ghost predicate OfferedBy(ids: seq<string>, m: Metadata, offered: seq<Wanted>) {
    && |offered| == |ids|
    && forall i :: 0 <= i < |ids| ==>
         && Offerable(ids[i], m)
         && var c := m.configurations[ids[i]].value;
            offered[i] ==
            Wanted(c.format, c.definition.value.types, if c.format == "ldp_vc" then c.definition.value.context else [])
  }

  /** The first ID that cannot be offered makes the program panic. */
  ghost predicate FirstUndefined(ids: seq<string>, m: Metadata) {
    exists i :: 0 <= i < |ids| && Undefined(ids[i], m) && forall j :: 0 <= j < i ==> Offerable(ids[j], m)
  }

  /** The offer resolves exactly when every ID is configured with a supported format and a definition. */
  method DetermineCredentialParameters(offer: CredentialOffer, m: Metadata) returns (r: Outcome<seq<Wanted>, Error>)
    ensures r.Ok? <==> forall i :: 0 <= i < |offer.configurationIDs| ==> Offerable(offer.configurationIDs[i], m)
    ensures r.Ok? ==> OfferedBy(offer.configurationIDs, m, r.value)
    ensures r.Panic? <==> FirstUndefined(offer.configurationIDs, m)
  {
    var offered: seq<Wanted> := [];
    for i := 0 to |offer.configurationIDs|
      invariant OfferedBy(offer.configurationIDs[..i], m, offered)
    {
      var id := offer.configurationIDs[i];
      if id !in m.configurations {
        return Err(Other("invalid credential configuration ID"));
      }
      if m.configurations[id].None? || m.configurations[id].value.definition.None? {
        return Panic;
      }
      var configuration := m.configurations[id].value;
      var definition := configuration.definition.value;
      if !SupportedFormat(configuration.format) {
        return Err(Other("unsupported credential type"));
      }
      var context := if configuration.format == "ldp_vc" then definition.context else [];
      offered := offered + [Wanted(configuration.format, definition.types, context)];
    }
    assert offer.configurationIDs[..|offer.configurationIDs|] == offer.configurationIDs;
    return Ok(offered);
  }

  /** What place i holds once the first responses of a batch reply are placed. */
  ghost function Placed(reply: BatchReply, done: nat, i: nat): CredentialResponse
    requires reply.BatchIssued? && done <= |reply.responses| && (done > 0 ==> reply.cNonce.Some?)
  {
    if i < done then reply.responses[i].(cNonce := reply.cNonce.value) else CredentialResponse("", "", "")
  }

  lemma {:induction false} WithAcksSnoc(s: State, responses: seq<CredentialResponse>, last: CredentialResponse)
    ensures WithAcks(s, responses + [last]) == WithAcks(s, responses).WithAck(last.ackID)
    decreases |responses|
  {
    if responses == [] {
      assert responses + [last] == [last];
    } else {
      assert (responses + [last])[1..] == responses[1..] + [last];
      WithAcksSnoc(s.WithAck(responses[0].ackID), responses[1..], last);
    }
  }

  class IssuerInitiatedInteraction {
    const interaction: Interaction
    const offered: seq<Wanted>
    const preAuthorizedCodeGrantParams: Option<PreAuthGrant>
    const authorizationCodeGrantParams: Option<AuthGrant>
    var authToken: Option<Token>

    ghost function View(): Session
      reads this, interaction
    {
      Session(interaction.View(),
              IssuerInitiated(offered, preAuthorizedCodeGrantParams, authorizationCodeGrantParams, authToken))
    }

    constructor (interaction: Interaction, offered: seq<Wanted>, preAuth: Option<PreAuthGrant>, auth: Option<AuthGrant>)
      ensures this.interaction == interaction
      ensures View() == Session(interaction.View(), IssuerInitiated(offered, preAuth, auth, None))
    {
      this.interaction, this.offered := interaction, offered;
      preAuthorizedCodeGrantParams, authorizationCodeGrantParams, authToken := preAuth, auth, None;
    }

    method DetermineIssuerStateToUse(given: Option<string>) returns (r: Outcome<Option<string>, Error>)
      requires authorizationCodeGrantParams.Some?
      ensures AgreedState(authorizationCodeGrantParams.value.issuerState, given, r)
      ensures r == IssuerStateToUse(authorizationCodeGrantParams.value.issuerState, given)
    {
      var offeredState := authorizationCodeGrantParams.value.issuerState;
      if offeredState.Some? {
        if given.Some? && offeredState.value != given.value {
          return Err(Other("conflicting issuer state"));
        }
        return Ok(offeredState);
      }
      return Ok(given);
    }

    method CreateAuthorizationURL(r: URLRequest) returns (url: Outcome<AuthURL, Error>)
      requires interaction.Valid()
      modifies interaction
      ensures interaction.Valid()
      ensures (View(), url) == CreateURLCall(interaction.env, old(View()), r)
    {
      if authorizationCodeGrantParams.None? {
        return Err(Other("authorization code grant not supported"));
      }
      var issuerState := DetermineIssuerStateToUse(r.issuerState);
      if issuerState.Err? {
        return Err(issuerState.error);
      }
      if offered == [] {
        return Panic;
      }
      url := interaction.CreateAuthorizationURL(r.(wanted := offered[0], issuerState := issuerState.value));
    }

    method RequestCredentialWithAuth(keyIDHasDID: bool, redirect: Redirect) returns (r: Responses)
      requires interaction.Valid()
      modifies interaction
      ensures interaction.Valid()
      ensures (View(), r) == RequestWithAuthCall(interaction.env, old(View()), keyIDHasDID, redirect)
    {
      if authorizationCodeGrantParams.None? {
        return Err(Other("authorization code grant not supported"));
      }
      if !keyIDHasDID {
        return Err(Other("key ID is missing the DID part"));
      }
      r := interaction.RequestCredentialWithAuth(redirect, offered);
    }

    method RequestCredentialWithPreAuth(keyIDHasDID: bool, pin: string, attest: bool) returns (r: Responses)
      requires interaction.Valid()
      modifies this, interaction
      ensures interaction.Valid()
      ensures (View(), r) == RequestWithPreAuthCall(interaction.env, old(View()), keyIDHasDID, pin, attest)
    {
      if preAuthorizedCodeGrantParams.None? {
        return Err(Other("pre-authorized code grant not supported"));
      }
      if preAuthorizedCodeGrantParams.value.pinRequired && pin == "" {
        return Err(Other("PIN required"));
      }
      if !keyIDHasDID {
        return Err(Other("key ID is missing the DID part"));
      }
      var error := interaction.PopulateIssuerMetadata();
      if error.Some? {
        return Err(error.value);
      }
      var attestationVP: Option<string> := None;
      if attest {
        attestationVP := interaction.env.attest(interaction.log);
        if attestationVP.None? {
          return Err(Other("attestation failed"));
        }
      }
      if interaction.issuerMetadata.value.tokenEndpoint == "" {
        return Err(Other("no token endpoint"));
      }
      r := GetCredentialResponsesWithPreAuth(pin, attestationVP);
      if r.Ok? && !interaction.env.accepts(r.value) {
        return Err(Other("failed to parse credential"));
      }
    }

    method GetCredentialResponsesWithPreAuth(pin: string, attestationVP: Option<string>) returns (r: Responses)
      requires interaction.Valid() && interaction.issuerMetadata.Some? && preAuthorizedCodeGrantParams.Some?
      modifies this, interaction
      ensures interaction.Valid()
      ensures var (s, token, responses) := WithGrant(interaction.env, old(interaction.View()),
                                                     preAuthorizedCodeGrantParams.value, offered, pin, attestationVP);
              && interaction.View() == s
              && authToken == (if token.Some? then token else old(authToken))
              && responses == r
    {
      var env := interaction.env;
      var granted := env.preAuthToken(interaction.log);
      interaction.log := interaction.log +
        [PreAuthTokenPosted(preAuthorizedCodeGrantParams.value.code, pin, attestationVP, granted)];
      if granted.None? {
        return Err(Other("failed to get token response"));
      }
      authToken := Some(granted.value.token);
      r := GetCredentialResponse(granted.value.token, granted.value.cNonce, true);
    }

    /** Here the deferred retry passes the first nonce on, not the one in the error. */
    method GetCredentialResponse(token: Token, nonce: Option<string>, allowRetry: bool) returns (r: Responses)
      requires interaction.Valid() && interaction.issuerMetadata.Some?
      modifies interaction`log, interaction`requestedAcknowledgment
      ensures interaction.Valid()
      ensures (interaction.View(), r) ==
              if allowRetry then PreAuthCredentials(interaction.env, old(interaction.View()), token, nonce, offered)
              else PreAuthAttempt(interaction.env, old(interaction.View()), token, nonce, offered)
      ensures r.Ok? ==> if UsesBatch(interaction.View(), offered) then DeliveredInBatch(interaction.log, offered, r.value)
                        else Delivered(interaction.log, PreAuthorized, offered, r.value)
      decreases allowRetry
    {
      ghost var before := interaction.View();
      PreAuthAttemptDelivers(interaction.env, before, token, nonce, offered);
      var proofJWT := interaction.CreateClaimsProof(nonce);
      if proofJWT.None? {
        return Err(SIGNING_FAILED);
      }
      if |offered| > 1 && interaction.issuerMetadata.value.batchEndpoint != "" {
        r := GetCredentialResponsesBatch(token, proofJWT.value);
      } else {
        r := interaction.PostForEach(PreAuthorized, token, proofJWT.value, offered);
      }
      if r.Err? && allowRetry && r.error.InvalidProof? {
        r := GetCredentialResponse(token, nonce, false);
      }
    }

    method GetCredentialResponsesBatch(token: Token, proof: Proof) returns (r: Responses)
      requires interaction.Valid() && interaction.issuerMetadata.Some?
      modifies interaction`log, interaction`requestedAcknowledgment
      ensures interaction.Valid()
      ensures (interaction.View(), r) == PostBatch(interaction.env, old(interaction.View()), token, proof, offered)
    {
      var env, numberOfCredentials := interaction.env, |offered|;
      var requests: seq<CredentialRequest> := [];
      for index := 0 to numberOfCredentials
        invariant requests == BatchRequests(proof, offered)[..index]
      {
        requests := requests + [CredentialRequest(offered[index].(context := []), proof)];
      }
      assert requests == BatchRequests(proof, offered);
      var reply := env.batch(interaction.log);
      interaction.log := interaction.log + [BatchPosted(token, requests, reply)];
      if reply.BatchFailed? {
        return Err(reply.error);
      }
      r := PlaceResponses(reply);
    }

    /** Places each response and stores its ID; panics at the first one that has no place or no nonce to take. */
    method PlaceResponses(reply: BatchReply) returns (r: Responses)
      requires reply.BatchIssued? && interaction.Valid() && interaction.issuerMetadata.Some?
      modifies interaction`requestedAcknowledgment
      ensures interaction.Valid()
      ensures interaction.View() == WithAcks(old(interaction.View()), BatchAccepted(|offered|, reply))
      ensures r == if BatchAccepted(|offered|, reply) == reply.responses
                   then Ok(PlaceBatch(|offered|, if reply.cNonce.Some? then reply.cNonce.value else "", reply.responses))
                   else Panic
    {
      ghost var accepted := BatchAccepted(|offered|, reply);
      ghost var before := interaction.View();
      var placed := new CredentialResponse[|offered|](_ => CredentialResponse("", "", ""));
      for index := 0 to |reply.responses|
        invariant interaction.Valid() && interaction.issuerMetadata.Some?
        invariant index <= |accepted|
        invariant interaction.View() == WithAcks(before, accepted[..index])
        invariant forall i :: 0 <= i < placed.Length ==> placed[i] == Placed(reply, index, i)
      {
        if index >= |offered| || reply.cNonce.None? {
          assert accepted[..index] == accepted;
          return Panic;
        }
        var response := reply.responses[index];
        WithAcksSnoc(before, accepted[..index], response);
        assert accepted[..index + 1] == accepted[..index] + [response];
        placed[index] := response.(cNonce := reply.cNonce.value);
        interaction.StoreAcknowledgmentID(response.ackID);
      }
      assert accepted[..|reply.responses|] == accepted == reply.responses;
      var cNonce := if reply.cNonce.Some? then reply.cNonce.value else "";
      assert placed[..] == PlaceBatch(|offered|, cNonce, reply.responses);
      return Ok(placed[..]);
    }

    /** The pre-authorized token, if one was granted, goes before the one of the code exchange. */
    method GetAcknowledgment() returns (r: Outcome<Acknowledgment, Error>)
      requires interaction.Valid()
      ensures r.Ok? <==> interaction.View().ackIDs.Some? && interaction.View().metadata.value.notificationEndpoint != ""
      ensures !r.Panic?
      ensures r.Ok? ==> fresh(r.value) && r.value.View() == Queue([], interaction.View().Stored())
      ensures r.Ok? ==> r.value.credentialAckEndpoint == interaction.View().metadata.value.notificationEndpoint
      ensures r.Ok? ==> r.value.issuerURI == interaction.issuerURI
      ensures r.Ok? ==> r.value.authToken == if authToken.Some? then authToken else interaction.View().authToken
    {
      r := interaction.RequestedAcknowledgmentObj(if authToken.Some? then authToken else interaction.authToken);
    }
  }

  /** Constructing the driver fetches the metadata; what it then holds is a start of the runs of IssuanceRuns.dfy. */
  method NewIssuerInitiatedInteraction(env: Env, offer: CredentialOffer)
    returns (r: Outcome<IssuerInitiatedInteraction, Error>)
    ensures r.Ok? ==> fresh(r.value) && fresh(r.value.interaction) && r.value.interaction.Valid()
    ensures r.Ok? ==> r.value.interaction.env == env && Starts(env, r.value.View())
    ensures r.Ok? <==>
              && env.fetch([]).Some? && (offer.preAuth.Some? || offer.auth.Some?)
              && forall i :: 0 <= i < |offer.configurationIDs| ==>
                   Offerable(offer.configurationIDs[i], env.fetch([]).value)
    ensures r.Ok? ==> OfferedBy(offer.configurationIDs, env.fetch([]).value, r.value.offered)
    ensures r.Ok? ==> r.value.preAuthorizedCodeGrantParams == offer.preAuth
    ensures r.Ok? ==> r.value.authorizationCodeGrantParams == offer.auth
    ensures r.Panic? <==> env.fetch([]).Some? && (offer.preAuth.Some? || offer.auth.Some?) &&
                          FirstUndefined(offer.configurationIDs, env.fetch([]).value)
  {
    var issuerInteraction := new Interaction(offer.credentialIssuer, env);
    var error := issuerInteraction.PopulateIssuerMetadata();
    if error.Some? {
      return Err(error.value);
    }
    if offer.preAuth.None? && offer.auth.None? {
      return Err(Other("no supported grant types found"));
    }
    var offered := DetermineCredentialParameters(offer, issuerInteraction.issuerMetadata.value);
    if offered.Err? {
      return Err(offered.error);
    }
    if offered.Panic? {
      return Panic;
    }
    var i := new IssuerInitiatedInteraction(issuerInteraction, offered.value, offer.preAuth, offer.auth);
    return Ok(i);
  }

  // ---- the wallet-initiated driver -----------------------------------------------------------

  class WalletInitiatedInteraction {
    const interaction: Interaction
    var credential: Wanted

    ghost function View(): Session
      reads this, interaction
    {
      Session(interaction.View(), WalletInitiated(credential))
    }

    constructor (issuerURI: string, env: Env)
      ensures fresh(interaction) && interaction.Valid() && interaction.env == env && Starts(env, View())
    {
      interaction := new Interaction(issuerURI, env);
      credential := Wanted("", [], []);
    }

    method CreateAuthorizationURL(r: URLRequest) returns (url: Outcome<AuthURL, Error>)
      requires interaction.Valid()
      modifies this, interaction
      ensures interaction.Valid()
      ensures (View(), url) == CreateURLCall(interaction.env, old(View()), r)
    {
      url := interaction.CreateAuthorizationURL(r);
      if url.Err? {
        return;
      }
      credential := r.wanted;
    }

    method RequestCredential(redirect: Redirect) returns (r: Responses)
      requires interaction.Valid()
      modifies interaction
      ensures interaction.Valid()
      ensures (View(), r) == RequestWithAuthCall(interaction.env, old(View()), true, redirect)
    {
      r := interaction.RequestCredentialWithAuth(redirect, [credential]);
    }
  }
}
