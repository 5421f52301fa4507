/** What one credential request does to the notification IDs and to the wire, over both of its attempts. */
module IssuanceRequests {
  import opened Outcomes
  import opened Issuance

  // ---- notification IDs ----------------------------------------------------------------------

  function IDs(responses: seq<CredentialResponse>): (ids: seq<string>)
    ensures |ids| == |responses|
    ensures forall i :: 0 <= i < |ids| ==> ids[i] == responses[i].ackID
  {
    seq(|responses|, i requires 0 <= i < |responses| => responses[i].ackID)
  }

  /** The IDs that arrived with an event: those of every response decoded from it. */
  function EventIDs(e: Event): seq<string> {
    match e
    case CredentialPosted(_, _, _, answer) => if answer.Issued? then [answer.response.ackID] else []
    case BatchPosted(_, requests, reply) => IDs(BatchAccepted(|requests|, reply))
    case _ => []
  }

  /** The IDs of a log, in arrival order. */
  function Arrived(log: Log): seq<string> {
    if log == [] then [] else Arrived(log[..|log| - 1]) + EventIDs(log[|log| - 1])
  }

  lemma Associative<T>(a: seq<T>, b: seq<T>, c: seq<T>)
    ensures (a + b) + c == a + (b + c)
  {
  }

  lemma ArrivedSnoc(log: Log, e: Event)
    ensures Arrived(log + [e]) == Arrived(log) + EventIDs(e)
  {
    assert (log + [e])[..|log|] == log;
  }

  lemma {:induction false} ArrivedConcat(a: Log, b: Log)
    ensures Arrived(a + b) == Arrived(a) + Arrived(b)
    decreases |b|
  {
    if b == [] {
      assert a + b == a;
    } else {
      var front, last := b[..|b| - 1], b[|b| - 1];
      assert b == front + [last] && a + b == (a + front) + [last];
      ArrivedSnoc(a + front, last);
      ArrivedSnoc(front, last);
      ArrivedConcat(a, front);
      Associative(Arrived(a), Arrived(front), EventIDs(last));
    }
  }

  /** The log has grown, and the stored IDs by what arrived meanwhile. */
  ghost predicate Conserved(s: State, s': State) {
    s.log <= s'.log && s'.Stored() == s.Stored() + Arrived(s'.log[|s.log|..])
  }

  lemma GrownTwice(a: Log, b: Log, c: Log)
    requires a <= b <= c
    ensures a <= c && c[|a|..] == b[|a|..] + c[|b|..]
  {
  }

  lemma ConservedThen(s: State, mid: State, s': State)
    requires Conserved(s, mid) && Conserved(mid, s')
    ensures Conserved(s, s')
  {
    var early, late := mid.log[|s.log|..], s'.log[|mid.log|..];
    GrownTwice(s.log, mid.log, s'.log);
    ArrivedConcat(early, late);
    Associative(s.Stored(), Arrived(early), Arrived(late));
  }

  lemma ConservedByEvent(s: State, e: Event, s': State)
    requires s'.log == s.log + [e] && s'.Stored() == s.Stored() + EventIDs(e)
    ensures Conserved(s, s')
  {
    assert s'.log[|s.log|..] == [e];
    assert Arrived([e]) == Arrived([]) + EventIDs(e);
  }

  lemma ConservedByNothing(s: State)
    ensures Conserved(s, s)
  {
    assert s.log[|s.log|..] == [];
  }

  lemma {:induction false} WithAcksStores(s: State, responses: seq<CredentialResponse>)
    ensures WithAcks(s, responses).Stored() == s.Stored() + IDs(responses)
    decreases |responses|
  {
    if responses != [] {
      var stored := s.WithAck(responses[0].ackID);
      WithAcksStores(stored, responses[1..]);
      Associative(s.Stored(), [responses[0].ackID], IDs(responses[1..]));
      IDsCons(responses);
    }
  }

  lemma IDsCons(responses: seq<CredentialResponse>)
    requires responses != []
    ensures IDs(responses) == [responses[0].ackID] + IDs(responses[1..])
  {
  }

  /** The responses returned are those that arrived, and their IDs are the last ones stored. */
  ghost predicate Aligned(s: State, responses: seq<CredentialResponse>) {
    var stored := s.Stored();
    |responses| <= |stored| && stored[|stored| - |responses|..] == IDs(responses)
  }

  lemma {:induction false} PostEachConserves(env: Env, s: State, grant: Grant, token: Token, proof: Proof,
                                             wanted: seq<Wanted>, got: seq<CredentialResponse>)
    requires Aligned(s, got)
    ensures var (s', r) := PostEach(env, s, grant, token, proof, wanted, got);
            Conserved(s, s') && (r.Ok? ==> |r.value| == |got| + |wanted| && Aligned(s', r.value)) && !r.Panic?
    decreases |wanted|
  {
    ConservedByNothing(s);
    if wanted != [] {
      var reply := env.post(s.log);
      var e := CredentialPosted(grant, token, CredentialRequest(wanted[0], proof), reply);
      var s' := s.Logged(e);
      if reply.Issued? {
        var stored := s'.WithAck(reply.response.ackID);
        ConservedByEvent(s, e, stored);
        assert stored.Stored()[|stored.Stored()| - |got| - 1..] == IDs(got + [reply.response]);
        PostEachConserves(env, stored, grant, token, proof, wanted[1..], got + [reply.response]);
        ConservedThen(s, stored, PostEach(env, stored, grant, token, proof, wanted[1..], got + [reply.response]).0);
      } else {
        ConservedByEvent(s, e, s');
      }
    }
  }

  lemma AuthAttemptConserves(env: Env, s: State, nonce: Option<string>, wanted: seq<Wanted>)
    requires s.authToken.Some?
    ensures var (s', r) := AuthAttempt(env, s, nonce, wanted);
            Conserved(s, s') && (r.Ok? ==> |r.value| == |wanted| && Aligned(s', r.value)) && !r.Panic?
  {
    var (signed, proof) := SignProof(env, s, nonce);
    ConservedByEvent(s, signed.log[|s.log|], signed);
    if proof.Some? {
      PostEachConserves(env, signed, AuthorizationCode, s.authToken.value, proof.value, wanted, []);
      ConservedThen(s, signed, AuthAttempt(env, s, nonce, wanted).0);
    }
  }

  lemma PreAuthAttemptConserves(env: Env, s: State, token: Token, nonce: Option<string>, wanted: seq<Wanted>)
    requires s.metadata.Some?
    ensures var (s', r) := PreAuthAttempt(env, s, token, nonce, wanted);
            Conserved(s, s') &&
            (r.Ok? ==> |r.value| == |wanted| &&
                       (s.metadata.value.batchEndpoint == "" || |wanted| <= 1 ==> Aligned(s', r.value)))
  {
    var (signed, proof) := SignProof(env, s, nonce);
    ConservedByEvent(s, signed.log[|s.log|], signed);
    if proof.Some? {
      if |wanted| > 1 && s.metadata.value.batchEndpoint != "" {
        PostBatchConserves(env, signed, token, proof.value, wanted);
      } else {
        PostEachConserves(env, signed, PreAuthorized, token, proof.value, wanted, []);
      }
      ConservedThen(s, signed, PreAuthAttempt(env, s, token, nonce, wanted).0);
    }
  }

  lemma PostBatchConserves(env: Env, s: State, token: Token, proof: Proof, wanted: seq<Wanted>)
    ensures var (s', r) := PostBatch(env, s, token, proof, wanted); Conserved(s, s') && (r.Ok? ==> |r.value| == |wanted|)
  {
    var reply := env.batch(s.log);
    var e := BatchPosted(token, BatchRequests(proof, wanted), reply);
    WithAcksStores(s.Logged(e), BatchAccepted(|wanted|, reply));
    ConservedByEvent(s, e, PostBatch(env, s, token, proof, wanted).0);
  }

  /** Authorization-code flow: whatever the issuer answers, the stored IDs are the old ones followed by the ID of every
      response decoded in either attempt, in arrival order; on success the last n belong to the n responses returned. */
  lemma AuthIDsConserved(env: Env, s: State, nonce: Option<string>, wanted: seq<Wanted>)
    requires s.authToken.Some?
    ensures var (s', r) := AuthCredentials(env, s, nonce, wanted);
            && s.log <= s'.log && s'.Stored() == s.Stored() + Arrived(s'.log[|s.log|..])
            && (r.Ok? ==> |r.value| == |wanted| && Aligned(s', r.value))
  {
    AuthAttemptConserves(env, s, nonce, wanted);
    var (s1, first) := AuthAttempt(env, s, nonce, wanted);
    if first.Err? && first.error.InvalidProof? {
      AuthAttemptConserves(env, s1, Some(first.error.cNonce), wanted);
      ConservedThen(s, s1, AuthCredentials(env, s, nonce, wanted).0);
    }
  }

  /** The same for the pre-authorized flow; a batch reply may be shorter than the request, so the last clause is about
      requests sent one by one. */
  lemma PreAuthIDsConserved(env: Env, s: State, token: Token, nonce: Option<string>, wanted: seq<Wanted>)
    requires s.metadata.Some?
    ensures var (s', r) := PreAuthCredentials(env, s, token, nonce, wanted);
            && s.log <= s'.log && s'.Stored() == s.Stored() + Arrived(s'.log[|s.log|..])
            && (r.Ok? ==> |r.value| == |wanted|)
            && (r.Ok? && (s.metadata.value.batchEndpoint == "" || |wanted| <= 1) ==> Aligned(s', r.value))
  {
    PreAuthAttemptConserves(env, s, token, nonce, wanted);
    var (s1, first) := PreAuthAttempt(env, s, token, nonce, wanted);
    if first.Err? && first.error.InvalidProof? {
      PreAuthAttemptConserves(env, s1, token, nonce, wanted);
      ConservedThen(s, s1, PreAuthCredentials(env, s, token, nonce, wanted).0);
    }
  }

  // ---- the responses -------------------------------------------------------------------------

  /** The post asked for this credential in this flow, and was answered with this response. */
  ghost predicate Answers(e: Event, grant: Grant, wanted: Wanted, response: CredentialResponse) {
    e.CredentialPosted? && e.grant == grant && e.request.wanted == wanted && e.answer == Issued(response)
  }

  /** The log ends in one post for each wanted credential, in order, answered with these responses as they are. */
  ghost predicate Delivered(log: Log, grant: Grant, wanted: seq<Wanted>, responses: seq<CredentialResponse>) {
    && |responses| == |wanted| <= |log|
    && forall i :: 0 <= i < |wanted| ==> Answers(log[|log| - |wanted| + i], grant, wanted[i], responses[i])
  }

  /** The log ends in one batch for all wanted credentials; the responses have the credentials and IDs of its reply in
      order, with the nonce of the reply, and are empty where the reply is too short. */
  ghost predicate DeliveredInBatch(log: Log, wanted: seq<Wanted>, responses: seq<CredentialResponse>) {
    && log != [] && log[|log| - 1].BatchPosted? && log[|log| - 1].batchAnswer.BatchIssued?
    && var reply := log[|log| - 1].batchAnswer;
       && |reply.responses| <= |responses| == |wanted| == |log[|log| - 1].requests|
       && (forall i :: 0 <= i < |reply.responses| ==>
             && reply.cNonce == Some(responses[i].cNonce)
             && responses[i].credential == reply.responses[i].credential
             && responses[i].ackID == reply.responses[i].ackID)
       && forall i :: |reply.responses| <= i < |responses| ==> responses[i] == CredentialResponse("", "", "")
  }

  lemma DeliveredCons(log: Log, grant: Grant, wanted: seq<Wanted>, responses: seq<CredentialResponse>)
    requires wanted != [] && |responses| == |wanted| <= |log|
    requires Answers(log[|log| - |wanted|], grant, wanted[0], responses[0])
    requires Delivered(log, grant, wanted[1..], responses[1..])
    ensures Delivered(log, grant, wanted, responses)
  {
    forall i | 0 < i < |wanted|
      ensures Answers(log[|log| - |wanted| + i], grant, wanted[i], responses[i])
    {
      assert Answers(log[|log| - (|wanted| - 1) + (i - 1)], grant, wanted[1..][i - 1], responses[1..][i - 1]);
    }
  }

  lemma {:induction false} PostEachDelivers(env: Env, s: State, grant: Grant, token: Token, proof: Proof,
                                            wanted: seq<Wanted>, got: seq<CredentialResponse>)
    ensures var (s', r) := PostEach(env, s, grant, token, proof, wanted, got);
            && s.log <= s'.log
            && (r.Ok? ==> |s'.log| == |s.log| + |wanted| && got <= r.value &&
                          Delivered(s'.log, grant, wanted, r.value[|got|..]))
    decreases |wanted|
  {
    if wanted != [] {
      var reply := env.post(s.log);
      var e := CredentialPosted(grant, token, CredentialRequest(wanted[0], proof), reply);
      if reply.Issued? {
        var stored, longer := s.Logged(e).WithAck(reply.response.ackID), got + [reply.response];
        PostEachDelivers(env, stored, grant, token, proof, wanted[1..], longer);
        var (s', r) := PostEach(env, stored, grant, token, proof, wanted[1..], longer);
        assert s'.log[|s.log|] == stored.log[|s.log|] == e;
        if r.Ok? {
          assert r.value[|got|..][1..] == r.value[|longer|..];
          assert r.value[|got|] == longer[|got|];
          DeliveredCons(s'.log, grant, wanted, r.value[|got|..]);
        }
      }
    }
  }

  lemma PostsDelivered(env: Env, s: State, grant: Grant, token: Token, proof: Proof, wanted: seq<Wanted>)
    ensures var (s', r) := PostEach(env, s, grant, token, proof, wanted, []);
            r.Ok? ==> Delivered(s'.log, grant, wanted, r.value)
  {
    PostEachDelivers(env, s, grant, token, proof, wanted, []);
    var r := PostEach(env, s, grant, token, proof, wanted, []).1;
    if r.Ok? {
      assert r.value[0..] == r.value;
    }
  }

  lemma BatchDelivered(env: Env, s: State, token: Token, proof: Proof, wanted: seq<Wanted>)
    ensures var (s', r) := PostBatch(env, s, token, proof, wanted);
            r.Ok? ==> DeliveredInBatch(s'.log, wanted, r.value)
  {
  }

  lemma AuthAttemptDelivers(env: Env, s: State, nonce: Option<string>, wanted: seq<Wanted>)
    requires s.authToken.Some?
    ensures var (s', r) := AuthAttempt(env, s, nonce, wanted);
            r.Ok? ==> Delivered(s'.log, AuthorizationCode, wanted, r.value)
  {
    var (signed, proof) := SignProof(env, s, nonce);
    if proof.Some? {
      PostsDelivered(env, signed, AuthorizationCode, s.authToken.value, proof.value, wanted);
    }
  }

  predicate UsesBatch(s: State, wanted: seq<Wanted>)
    requires s.metadata.Some?
  {
    |wanted| > 1 && s.metadata.value.batchEndpoint != ""
  }

  lemma PreAuthAttemptDelivers(env: Env, s: State, token: Token, nonce: Option<string>, wanted: seq<Wanted>)
    requires s.metadata.Some?
    ensures var (s', r) := PreAuthAttempt(env, s, token, nonce, wanted);
            r.Ok? ==> if UsesBatch(s, wanted) then DeliveredInBatch(s'.log, wanted, r.value)
                      else Delivered(s'.log, PreAuthorized, wanted, r.value)
  {
    var (signed, proof) := SignProof(env, s, nonce);
    if proof.Some? {
      PostsDelivered(env, signed, PreAuthorized, token, proof.value, wanted);
      BatchDelivered(env, signed, token, proof.value, wanted);
    }
  }

  /** Authorization-code flow: what is returned are the issuer's answers, unchanged and in order, to the last posts, one
      for each wanted credential. */
  lemma AuthDelivers(env: Env, s: State, nonce: Option<string>, wanted: seq<Wanted>)
    requires s.authToken.Some?
    ensures var (s', r) := AuthCredentials(env, s, nonce, wanted);
            r.Ok? ==> Delivered(s'.log, AuthorizationCode, wanted, r.value)
  {
    AuthAttemptDelivers(env, s, nonce, wanted);
    var (s1, first) := AuthAttempt(env, s, nonce, wanted);
    if first.Err? && first.error.InvalidProof? {
      AuthAttemptDelivers(env, s1, Some(first.error.cNonce), wanted);
    }
  }

  /** The same for the pre-authorized flow, which asks for all at once when there are several and the issuer has a batch
      endpoint. */
  lemma PreAuthDelivers(env: Env, s: State, token: Token, nonce: Option<string>, wanted: seq<Wanted>)
    requires s.metadata.Some?
    ensures var (s', r) := PreAuthCredentials(env, s, token, nonce, wanted);
            r.Ok? ==> if UsesBatch(s, wanted) then DeliveredInBatch(s'.log, wanted, r.value)
                      else Delivered(s'.log, PreAuthorized, wanted, r.value)
  {
    PreAuthAttemptDelivers(env, s, token, nonce, wanted);
    var (s1, first) := PreAuthAttempt(env, s, token, nonce, wanted);
    if first.Err? && first.error.InvalidProof? {
      PreAuthAttemptDelivers(env, s1, token, nonce, wanted);
    }
  }

  /** A batch reply is stored and placed as far as it goes: all of it, unless it has no nonce or more responses than there
      are places; then the program panics, with the IDs of the placed responses stored. */
  lemma BatchPlacedExactlyWhen(env: Env, s: State, token: Token, proof: Proof, wanted: seq<Wanted>)
    requires env.batch(s.log).BatchIssued?
    ensures var reply, (s', r) := env.batch(s.log), PostBatch(env, s, token, proof, wanted);
            var placed := if reply.cNonce.None? then 0
                          else if |reply.responses| < |wanted| then |reply.responses| else |wanted|;
            && !r.Err? && (r.Ok? <==> reply.responses == [] || (reply.cNonce.Some? && |reply.responses| <= |wanted|))
            && (reply.responses != [] ==> s'.Stored() == s.Stored() + IDs(reply.responses[..placed]))
            && (reply.responses == [] ==> s'.Stored() == s.Stored())
  {
    var reply := env.batch(s.log);
    var e := BatchPosted(token, BatchRequests(proof, wanted), reply);
    WithAcksStores(s.Logged(e), BatchAccepted(|wanted|, reply));
    assert s.Stored() + IDs([]) == s.Stored();
    assert reply.responses[..|reply.responses|] == reply.responses;
  }

  /** The posts of an authorization-code attempt are all made in that flow; those of a pre-authorized attempt in that flow,
      in one batch if there are several credentials and a batch endpoint, and never in one otherwise. */
  lemma AuthAttemptGrant(env: Env, s: State, nonce: Option<string>, wanted: seq<Wanted>)
    requires s.authToken.Some?
    ensures var s' := AuthAttempt(env, s, nonce, wanted).0;
            forall i :: |s.log| < i < |s'.log| ==> s'.log[i].CredentialPosted? && s'.log[i].grant.AuthorizationCode?
  {
    var (signed, proof) := SignProof(env, s, nonce);
    if proof.Some? {
      PostEachGrant(env, signed, AuthorizationCode, s.authToken.value, proof.value, wanted, []);
    }
  }

  lemma PreAuthAttemptGrant(env: Env, s: State, token: Token, nonce: Option<string>, wanted: seq<Wanted>)
    requires s.metadata.Some?
    ensures var s' := PreAuthAttempt(env, s, token, nonce, wanted).0;
            forall i :: |s.log| < i < |s'.log| ==>
              if UsesBatch(s, wanted) then s'.log[i].BatchPosted?
              else s'.log[i].CredentialPosted? && s'.log[i].grant.PreAuthorized?
  {
    var (signed, proof) := SignProof(env, s, nonce);
    if proof.Some? && !UsesBatch(s, wanted) {
      PostEachGrant(env, signed, PreAuthorized, token, proof.value, wanted, []);
    }
  }

  lemma {:induction false} PostEachGrant(env: Env, s: State, grant: Grant, token: Token, proof: Proof,
                                         wanted: seq<Wanted>, got: seq<CredentialResponse>)
    ensures var s' := PostEach(env, s, grant, token, proof, wanted, got).0;
            s.log <= s'.log && forall i :: |s.log| <= i < |s'.log| ==>
              s'.log[i].CredentialPosted? && s'.log[i].grant == grant
    decreases |wanted|
  {
    if wanted != [] {
      var reply := env.post(s.log);
      var e := CredentialPosted(grant, token, CredentialRequest(wanted[0], proof), reply);
      if reply.Issued? {
        PostEachGrant(env, s.Logged(e).WithAck(reply.response.ackID), grant, token, proof, wanted[1..],
                      got + [reply.response]);
      }
    }
  }

  // ---- the retry -----------------------------------------------------------------------------

  ghost predicate CarriesNonce(e: Event, nonce: Option<string>) {
    || (e.CredentialPosted? && e.request.proof.claims.nonce == nonce)
    || (e.BatchPosted? && forall i :: 0 <= i < |e.requests| ==> e.requests[i].proof.claims.nonce == nonce)
  }

  predicate Accepted(e: Event) {
    e.CredentialPosted? && e.answer.Issued?
  }

  /** The nonce of the invalid-proof error a post was refused with. */
  function RefusedProof(e: Event): Option<string> {
    match e
    case CredentialPosted(_, _, _, Refused(InvalidProof(cNonce))) => Some(cNonce)
    case BatchPosted(_, _, BatchFailed(InvalidProof(cNonce))) => Some(cNonce)
    case _ => None
  }

  /** The post asks for the credential in this place of the list, or for all of them at once. */
  ghost predicate AsksFor(e: Event, wanted: seq<Wanted>, i: nat) {
    || (e.CredentialPosted? && i < |wanted| && e.request.wanted == wanted[i])
    || (e.BatchPosted? && i == 0 && |e.requests| == |wanted| &&
        forall j :: 0 <= j < |wanted| ==> e.requests[j].wanted == wanted[j].(context := []))
  }

  /** The wire of one attempt: a proof for the nonce, then posts that carry it and ask for the wanted credentials in
      order, all accepted but possibly the last. */
  ghost predicate OneAttempt(events: Log, wanted: seq<Wanted>, nonce: Option<string>) {
    && 0 < |events| <= |wanted| + 1
    && events[0].ProofSigned? && events[0].claims.nonce == nonce
    && (forall i :: 1 <= i < |events| ==> CarriesNonce(events[i], nonce) && AsksFor(events[i], wanted, i - 1))
    && (forall i :: 1 <= i < |events| - 1 ==> Accepted(events[i]))
  }

  /** The wire of a request: one attempt, and a second exactly when the first was ended by an invalid-proof error. The
      second attempt's proof is for the nonce that `next` makes of the one in that error. */
  ghost predicate AtMostOneRetry(events: Log, wanted: seq<Wanted>, nonce: Option<string>,
                                 next: string -> Option<string>) {
    exists k :: 0 < k <= |events| && OneAttempt(events[..k], wanted, nonce) &&
      match RefusedProof(events[k - 1])
      case None => k == |events|
      case Some(cNonce) => OneAttempt(events[k..], wanted, next(cNonce))
  }

  /** The posts of one attempt: all carry the proof, and only the last can be anything but accepted; the attempt's
      result says whether that one was refused with an invalid-proof error. */
  ghost predicate PostRun(events: Log, wanted: seq<Wanted>, proof: Proof, r: Responses) {
    && |events| <= |wanted|
    && (forall i :: 0 <= i < |events| ==>
          events[i].CredentialPosted? && events[i].request == CredentialRequest(wanted[i], proof))
    && (forall i :: 0 <= i < |events| - 1 ==> Accepted(events[i]))
    && (if events == [] then None else RefusedProof(events[|events| - 1])) == ReportedNonce(r)
  }

  function ReportedNonce(r: Responses): Option<string> {
    if r.Err? && r.error.InvalidProof? then Some(r.error.cNonce) else None
  }

  lemma PostRunCons(first: Event, rest: Log, wanted: seq<Wanted>, proof: Proof, r: Responses)
    requires wanted != [] && PostRun(rest, wanted[1..], proof, r)
    requires first.CredentialPosted? && first.request == CredentialRequest(wanted[0], proof) && Accepted(first)
    ensures PostRun([first] + rest, wanted, proof, r)
  {
    var events := [first] + rest;
    assert forall i :: 1 <= i < |events| ==> events[i] == rest[i - 1];
  }

  lemma {:induction false} PostEachEvents(env: Env, s: State, grant: Grant, token: Token, proof: Proof,
                                          wanted: seq<Wanted>, got: seq<CredentialResponse>)
    ensures var (s', r) := PostEach(env, s, grant, token, proof, wanted, got);
            s.log <= s'.log && PostRun(s'.log[|s.log|..], wanted, proof, r)
    decreases |wanted|
  {
    var (s', r) := PostEach(env, s, grant, token, proof, wanted, got);
    if wanted == [] {
      assert s'.log[|s.log|..] == [];
    } else {
      var reply := env.post(s.log);
      var e := CredentialPosted(grant, token, CredentialRequest(wanted[0], proof), reply);
      if reply.Issued? {
        var stored := s.Logged(e).WithAck(reply.response.ackID);
        PostEachEvents(env, stored, grant, token, proof, wanted[1..], got + [reply.response]);
        PostRunCons(e, s'.log[|stored.log|..], wanted, proof, r);
        assert s'.log[|s.log|..] == [e] + s'.log[|stored.log|..];
      } else {
        assert s'.log[|s.log|..] == [e];
        PostRunAlone(e, wanted, proof, r);
      }
    }
  }

  lemma PostRunAlone(e: Event, wanted: seq<Wanted>, proof: Proof, r: Responses)
    requires wanted != [] && e.CredentialPosted? && e.request == CredentialRequest(wanted[0], proof)
    requires RefusedProof(e) == ReportedNonce(r)
    ensures PostRun([e], wanted, proof, r)
  {
  }

  /** A signed proof and the posts that carry it make one attempt. */
  lemma SignedPostRun(s: State, signed: State, s': State, proof: Proof, wanted: seq<Wanted>, nonce: Option<string>,
                      r: Responses)
    requires |signed.log| == |s.log| + 1 && s.log <= signed.log <= s'.log
    requires signed.log[|s.log|].ProofSigned? && signed.log[|s.log|].claims.nonce == nonce
    requires proof.claims.nonce == nonce && PostRun(s'.log[|signed.log|..], wanted, proof, r)
    ensures OneAttempt(s'.log[|s.log|..], wanted, nonce) && EndsAsReported(s, s', r)
  {
    var events, posts := s'.log[|s.log|..], s'.log[|signed.log|..];
    assert events == [signed.log[|s.log|]] + posts;
    assert forall i :: 1 <= i < |events| ==> events[i] == posts[i - 1];
    if posts != [] {
      assert posts[|posts| - 1] == s'.log[|s'.log| - 1];
    }
  }

  lemma AuthAttemptEvents(env: Env, s: State, nonce: Option<string>, wanted: seq<Wanted>)
    requires s.authToken.Some?
    ensures var (s', r) := AuthAttempt(env, s, nonce, wanted);
            && s.log <= s'.log && OneAttempt(s'.log[|s.log|..], wanted, nonce)
            && EndsAsReported(s, s', r)
  {
    var (signed, proof) := SignProof(env, s, nonce);
    var s' := AuthAttempt(env, s, nonce, wanted).0;
    if proof.Some? {
      PostEachEvents(env, signed, AuthorizationCode, s.authToken.value, proof.value, wanted, []);
      SignedPostRun(s, signed, s', proof.value, wanted, nonce, AuthAttempt(env, s, nonce, wanted).1);
    }
  }

  /** The attempt reports an invalid-proof error exactly when its last post was refused with one. */
  ghost predicate EndsAsReported(s: State, s': State, r: Responses) {
    && |s.log| < |s'.log|
    && RefusedProof(s'.log[|s'.log| - 1]) == ReportedNonce(r)
  }

  lemma PreAuthAttemptEvents(env: Env, s: State, token: Token, nonce: Option<string>, wanted: seq<Wanted>)
    requires s.metadata.Some?
    ensures var (s', r) := PreAuthAttempt(env, s, token, nonce, wanted);
            && s.log <= s'.log && OneAttempt(s'.log[|s.log|..], wanted, nonce)
            && EndsAsReported(s, s', r)
  {
    var (signed, proof) := SignProof(env, s, nonce);
    var s' := PreAuthAttempt(env, s, token, nonce, wanted).0;
    if proof.Some? {
      if |wanted| > 1 && s.metadata.value.batchEndpoint != "" {
        PostBatchEvents(env, s, signed, token, proof.value, wanted);
      } else {
        PostEachEvents(env, signed, PreAuthorized, token, proof.value, wanted, []);
        SignedPostRun(s, signed, s', proof.value, wanted, nonce, PreAuthAttempt(env, s, token, nonce, wanted).1);
      }
    }
  }

  lemma PostBatchEvents(env: Env, s: State, signed: State, token: Token, proof: Proof, wanted: seq<Wanted>)
    requires |wanted| > 1 && |signed.log| == |s.log| + 1 && s.log <= signed.log
    requires signed.log[|s.log|].ProofSigned? && signed.log[|s.log|].claims == proof.claims
    ensures var (s', r) := PostBatch(env, signed, token, proof, wanted);
            && s.log <= s'.log && OneAttempt(s'.log[|s.log|..], wanted, proof.claims.nonce)
            && EndsAsReported(s, s', r)
  {
    var s' := PostBatch(env, signed, token, proof, wanted).0;
    assert s'.log[|s.log|..] == [signed.log[|s.log|], s'.log[|signed.log|]];
  }

  /** Authorization-code flow: at most one retry, whose proof carries the nonce of the error that caused it. */
  lemma AuthRetry(env: Env, s: State, nonce: Option<string>, wanted: seq<Wanted>)
    requires s.authToken.Some?
    ensures var s' := AuthCredentials(env, s, nonce, wanted).0;
            s.log <= s'.log && AtMostOneRetry(s'.log[|s.log|..], wanted, nonce, cNonce => Some(cNonce))
  {
    AuthAttemptEvents(env, s, nonce, wanted);
    var (s1, first) := AuthAttempt(env, s, nonce, wanted);
    if first.Err? && first.error.InvalidProof? {
      AuthAttemptEvents(env, s1, Some(first.error.cNonce), wanted);
    }
    SplitAtRetry(s, s1, AuthCredentials(env, s, nonce, wanted).0, wanted, nonce, cNonce => Some(cNonce));
  }

  /** Pre-authorized flow: at most one retry, whose proof carries the nonce of the first attempt again. */
  lemma PreAuthRetry(env: Env, s: State, token: Token, nonce: Option<string>, wanted: seq<Wanted>)
    requires s.metadata.Some?
    ensures var s' := PreAuthCredentials(env, s, token, nonce, wanted).0;
            s.log <= s'.log && AtMostOneRetry(s'.log[|s.log|..], wanted, nonce, _ => nonce)
  {
    PreAuthAttemptEvents(env, s, token, nonce, wanted);
    var (s1, first) := PreAuthAttempt(env, s, token, nonce, wanted);
    if first.Err? && first.error.InvalidProof? {
      PreAuthAttemptEvents(env, s1, token, nonce, wanted);
    }
    SplitAtRetry(s, s1, PreAuthCredentials(env, s, token, nonce, wanted).0, wanted, nonce, _ => nonce);
  }

  /** Section 7.3.2 of OpenID for Verifiable Credential Issuance wants the retry to use the nonce of the error. The
      pre-authorized flow does so exactly when that nonce is the one it had already. */
  lemma PreAuthRetryUsesNewNonceExactlyWhen(env: Env, s: State, token: Token, nonce: Option<string>, wanted: seq<Wanted>)
    requires s.metadata.Some?
    requires ReportedNonce(PreAuthAttempt(env, s, token, nonce, wanted).1).Some?
    ensures var (s1, first) := PreAuthAttempt(env, s, token, nonce, wanted);
            var s' := PreAuthCredentials(env, s, token, nonce, wanted).0;
            && s1.log < s'.log
            && (OneAttempt(s'.log[|s1.log|..], wanted, ReportedNonce(first)) <==> nonce == ReportedNonce(first))
  {
    var (s1, first) := PreAuthAttempt(env, s, token, nonce, wanted);
    PreAuthAttemptEvents(env, s1, token, nonce, wanted);
  }

  lemma SplitAtRetry(s: State, s1: State, s': State, wanted: seq<Wanted>, nonce: Option<string>,
                     next: string -> Option<string>)
    requires s.log <= s1.log <= s'.log && |s.log| < |s1.log|
    requires OneAttempt(s1.log[|s.log|..], wanted, nonce)
    requires match RefusedProof(s1.log[|s1.log| - 1])
             case None => s1.log == s'.log
             case Some(cNonce) => OneAttempt(s'.log[|s1.log|..], wanted, next(cNonce))
    ensures AtMostOneRetry(s'.log[|s.log|..], wanted, nonce, next)
  {
    var events, k := s'.log[|s.log|..], |s1.log| - |s.log|;
    assert events[..k] == s1.log[|s.log|..] && events[k..] == s'.log[|s1.log|..];
    assert events[k - 1] == s1.log[|s1.log| - 1];
  }

  function PostCount(events: Log): nat {
    if events == [] then 0
    else PostCount(events[1..]) + if events[0].CredentialPosted? || events[0].BatchPosted? then 1 else 0
  }

  /** However the issuer answers, a request for n credentials makes at most 2n posts. */
  lemma PostsBounded(events: Log, wanted: seq<Wanted>, nonce: Option<string>, next: string -> Option<string>)
    requires AtMostOneRetry(events, wanted, nonce, next)
    ensures PostCount(events) <= 2 * |wanted|
  {
    var k :| 0 < k <= |events| && OneAttempt(events[..k], wanted, nonce) &&
      match RefusedProof(events[k - 1])
      case None => k == |events|
      case Some(cNonce) => OneAttempt(events[k..], wanted, next(cNonce));
    assert events == events[..k] + events[k..];
    PostCountConcat(events[..k], events[k..]);
    AttemptPosts(events[..k], wanted, nonce);
    if k < |events| {
      AttemptPosts(events[k..], wanted, next(RefusedProof(events[k - 1]).value));
    }
  }

  lemma AttemptPosts(events: Log, wanted: seq<Wanted>, nonce: Option<string>)
    requires OneAttempt(events, wanted, nonce)
    ensures PostCount(events) <= |wanted|
  {
    PostCountAtMost(events[1..]);
  }

  lemma {:induction false} PostCountConcat(a: Log, b: Log)
    ensures PostCount(a + b) == PostCount(a) + PostCount(b)
    decreases |a|
  {
    if a == [] {
      assert a + b == b;
    } else {
      assert (a + b)[1..] == a[1..] + b;
      PostCountConcat(a[1..], b);
    }
  }

  lemma {:induction false} PostCountAtMost(events: Log)
    ensures PostCount(events) <= |events|
    decreases |events|
  {
    if events != [] {
      PostCountAtMost(events[1..]);
    }
  }
}
