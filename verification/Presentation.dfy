/** The authorization response for several credentials. The submission is a structure of pointers that two consumers
    serialize, one of them after rewriting it, so who owns which descriptor matters. */
module PresentationResponse {
  import opened Outcomes
  import opened GoText

  // ---- the submission, as a value and as objects ---------------------------------------------

  datatype Descriptor = Descriptor(id: string, format: string, path: string, nested: Option<Descriptor>)
  datatype Submission = Submission(id: string, definitionID: string, descriptors: seq<Descriptor>)

  class InputDescriptorMapping {
    var id: string
    var format: string
    var path: string
    var pathNested: InputDescriptorMapping?
    ghost var Repr: set<InputDescriptorMapping>

    constructor (id: string, format: string, path: string, pathNested: InputDescriptorMapping?)
      ensures this.id == id && this.format == format && this.path == path && this.pathNested == pathNested
      ensures Repr == {this} + if pathNested == null then {} else pathNested.Repr
    {
      this.id, this.format, this.path, this.pathNested := id, format, path, pathNested;
      Repr := {this} + if pathNested == null then {} else pathNested.Repr;
    }

    ghost predicate Holds(d: Descriptor)
      reads this, Repr
      decreases d
    {
      && this in Repr
      && id == d.id && format == d.format && path == d.path
      && (pathNested == null <==> d.nested.None?)
      && (pathNested != null ==>
            && pathNested in Repr && pathNested.Repr <= Repr && this !in pathNested.Repr
            && d.nested.Some? && pathNested.Holds(d.nested.value))
    }
  }

  class PresentationSubmission {
    const id: string
    const definitionID: string
    const descriptorMap: seq<InputDescriptorMapping>

    constructor (id: string, definitionID: string, descriptorMap: seq<InputDescriptorMapping>)
      ensures this.id == id && this.definitionID == definitionID && this.descriptorMap == descriptorMap
    {
      this.id, this.definitionID, this.descriptorMap := id, definitionID, descriptorMap;
    }

    ghost predicate Holds(s: Submission)
      reads descriptorMap, set d, o | d in descriptorMap && o in d.Repr :: o
    {
      && id == s.id && definitionID == s.definitionID && |descriptorMap| == |s.descriptors|
      && forall i :: 0 <= i < |descriptorMap| ==> descriptorMap[i].Holds(s.descriptors[i])
    }
  }

  /** Serializing reads the objects as they are at that moment. */
  method MarshalDescriptor(m: InputDescriptorMapping, ghost d: Descriptor) returns (r: Descriptor)
    requires m.Holds(d)
    ensures r == d
    decreases d
  {
    if m.pathNested == null {
      return Descriptor(m.id, m.format, m.path, None);
    }
    var nested := MarshalDescriptor(m.pathNested, d.nested.value);
    return Descriptor(m.id, m.format, m.path, Some(nested));
  }

  method Marshal(ps: PresentationSubmission, ghost s: Submission) returns (r: Submission)
    requires ps.Holds(s)
    ensures r == s
  {
    var descriptors: seq<Descriptor> := [];
    for i := 0 to |ps.descriptorMap|
      invariant descriptors == s.descriptors[..i]
    {
      var d := MarshalDescriptor(ps.descriptorMap[i], s.descriptors[i]);
      descriptors := descriptors + [d];
    }
    return Submission(ps.id, ps.definitionID, descriptors);
  }

  // ---- the copy and its rewriting ------------------------------------------------------------

  method CopyDescriptor(m: InputDescriptorMapping, ghost d: Descriptor) returns (copy: InputDescriptorMapping)
    requires m.Holds(d)
    ensures copy.Holds(d) && fresh(copy.Repr)
    decreases d
  {
    var nested: InputDescriptorMapping? := null;
    if m.pathNested != null {
      nested := CopyDescriptor(m.pathNested, d.nested.value);
    }
    copy := new InputDescriptorMapping(m.id, m.format, m.path, nested);
  }

  /** No two descriptors of a list share an object. */
  ghost predicate Separate(ds: seq<InputDescriptorMapping>)
    reads ds
  {
    forall i, j :: 0 <= i < j < |ds| ==> ds[i].Repr !! ds[j].Repr
  }

  /** Encoding and decoding gives new objects for every pointer, shared or not. */
  method DeepCopy(ps: PresentationSubmission, ghost s: Submission) returns (copies: seq<InputDescriptorMapping>)
    requires ps.Holds(s)
    ensures AllHold(copies, s.descriptors) && Separate(copies)
    ensures forall i :: 0 <= i < |copies| ==> fresh(copies[i].Repr)
  {
    copies := [];
    for i := 0 to |ps.descriptorMap|
      invariant |copies| == i && Separate(copies)
      invariant forall j :: 0 <= j < i ==> copies[j].Holds(s.descriptors[j]) && fresh(copies[j].Repr)
    {
      var copy := CopyDescriptor(ps.descriptorMap[i], s.descriptors[i]);
      copies := copies + [copy];
    }
  }

  function RewritePath(path: string): string {
    ReplaceFirst(path, "$.vp.", "$.")
  }

  /** The ID token's copy: the path one level down loses its "vp" step. */
  function Rewrite(d: Descriptor): Descriptor {
    if d.nested.None? then d else d.(nested := Some(d.nested.value.(path := RewritePath(d.nested.value.path))))
  }

  function RewriteAll(s: Submission): (r: Submission)
    ensures |r.descriptors| == |s.descriptors|
  {
    s.(descriptors := seq(|s.descriptors|, i requires 0 <= i < |s.descriptors| => Rewrite(s.descriptors[i])))
  }

  /** The descriptors once the first ones are rewritten. */
  ghost function RewrittenUpTo(s: Submission, n: nat): (ds: seq<Descriptor>)
    requires n <= |s.descriptors|
    ensures |ds| == |s.descriptors|
  {
    RewriteAll(s).descriptors[..n] + s.descriptors[n..]
  }

  lemma RewrittenNext(s: Submission, n: nat)
    requires n < |s.descriptors|
    ensures RewrittenUpTo(s, n + 1) == RewrittenUpTo(s, n)[n := Rewrite(RewrittenUpTo(s, n)[n])]
  {
  }

  ghost predicate AllHold(ps: seq<InputDescriptorMapping>, ds: seq<Descriptor>)
    reads ps, set d, o | d in ps && o in d.Repr :: o
  {
    |ps| == |ds| && forall i :: 0 <= i < |ps| ==> ps[i].Holds(ds[i])
  }

  method RewriteInPlace(ps: seq<InputDescriptorMapping>, ghost s: Submission)
    requires AllHold(ps, s.descriptors) && Separate(ps)
    modifies (set d, o | d in ps && o in d.Repr :: o)`path
    ensures AllHold(ps, RewriteAll(s).descriptors)
  {
    ghost var ds := s.descriptors;
    for i := 0 to |ps|
      invariant AllHold(ps, ds) && Separate(ps)
      invariant ds == RewrittenUpTo(s, i)
    {
      RewriteOne(ps, i, ds);
      RewrittenNext(s, i);
      ds := RewrittenUpTo(s, i + 1);
    }
  }

  /** Rewriting one descriptor leaves the others alone, because they share no object with it. */
  method RewriteOne(ps: seq<InputDescriptorMapping>, i: nat, ghost ds: seq<Descriptor>)
    requires i < |ps| && AllHold(ps, ds) && Separate(ps)
    modifies ps[i].Repr`path
    ensures AllHold(ps, ds[i := Rewrite(ds[i])]) && Separate(ps)
  {
    var descriptor := ps[i];
    assert descriptor.Holds(ds[i]);
    if descriptor.pathNested != null {
      RewriteNested(descriptor, ds[i]);
    }
  }

  method RewriteNested(m: InputDescriptorMapping, ghost d: Descriptor)
    requires m.Holds(d) && m.pathNested != null
    modifies m.pathNested`path
    ensures m.Holds(Rewrite(d))
  {
    var nested := m.pathNested;
    ghost var below := nested.pathNested;
    assert nested.Holds(d.nested.value);
    assert below != null ==> nested !in below.Repr;
    nested.path := RewritePath(nested.path);
  }

  /** What becomes of a path: its first "$.vp." is cut down to "$.", and a path without one is kept. */
  ghost predicate PathRewritten(path: string, rewritten: string) {
    if !Contains(path, "$.vp.") then rewritten == path
    else exists head, tail :: path == head + "$.vp." + tail && rewritten == head + "$." + tail &&
           forall n: nat :: n < |head| ==> !OccursAt(path, "$.vp.", n)
  }

  /** The descriptors are the same but for the paths one level down, which are rewritten. */
  ghost predicate ShowsRewritten(s: Submission, t: Submission) {
    && t.id == s.id && t.definitionID == s.definitionID && |t.descriptors| == |s.descriptors|
    && forall i :: 0 <= i < |s.descriptors| ==> DescriptorRewritten(s.descriptors[i], t.descriptors[i])
  }

  ghost predicate DescriptorRewritten(d: Descriptor, e: Descriptor) {
    && e.id == d.id && e.format == d.format && e.path == d.path && (e.nested.None? <==> d.nested.None?)
    && (d.nested.Some? ==>
          && e.nested.value.id == d.nested.value.id && e.nested.value.format == d.nested.value.format
          && e.nested.value.nested == d.nested.value.nested
          && PathRewritten(d.nested.value.path, e.nested.value.path))
  }

  lemma RewritePathIs(path: string)
    ensures PathRewritten(path, RewritePath(path))
  {
    var i := Index(path, "$.vp.");
    if i != -1 {
      CutAt(path, "$.vp.", i);
      var head, tail := path[..i], path[i + 5..];
      assert path == head + "$.vp." + tail && RewritePath(path) == head + "$." + tail;
    }
  }

  lemma RewriteAllShows(s: Submission)
    ensures ShowsRewritten(s, RewriteAll(s))
  {
    forall i | 0 <= i < |s.descriptors|
      ensures DescriptorRewritten(s.descriptors[i], RewriteAll(s).descriptors[i])
    {
      if s.descriptors[i].nested.Some? {
        RewritePathIs(s.descriptors[i].nested.value.path);
      }
    }
  }

  /** The rewriting shows in the ID token exactly when some nested path holds the step: had the two consumers shared
      descriptors, it would have shown in the response's submission in just these cases. */
  lemma RewriteShowsExactlyWhen(s: Submission)
    ensures RewriteAll(s) != s <==>
            exists i :: 0 <= i < |s.descriptors| && s.descriptors[i].nested.Some? &&
              Contains(s.descriptors[i].nested.value.path, "$.vp.")
  {
    forall i | 0 <= i < |s.descriptors|
      ensures Rewrite(s.descriptors[i]) != s.descriptors[i] <==>
              s.descriptors[i].nested.Some? && Contains(s.descriptors[i].nested.value.path, "$.vp.")
    {
      if s.descriptors[i].nested.Some? {
        var path := s.descriptors[i].nested.value.path;
        if Index(path, "$.vp.") != -1 {
          assert |RewritePath(path)| == |path| - 3;
        }
      }
    }
    if RewriteAll(s) == s {
      assert forall i :: 0 <= i < |s.descriptors| ==> RewriteAll(s).descriptors[i] == s.descriptors[i];
    }
    if forall i :: 0 <= i < |s.descriptors| ==> Rewrite(s.descriptors[i]) == s.descriptors[i] {
      assert RewriteAll(s).descriptors == s.descriptors;
    }
  }

  // ---- the response --------------------------------------------------------------------------

  datatype Format = JWTVP | LDPVP
  datatype Error = NoSubjectID | NoSigner | SigningFailed | RandomFailed | AttestationFailed

  /** A presentation: its content, and for each of its credentials the subject ID if it has one. */
  datatype Presentation = Presentation(content: string, subjectIDs: seq<Option<string>>)

  datatype Signer = Signer(keyID: string)
  datatype Request = Request(nonce: string, clientID: string, state: string, wantsIDToken: bool)

  datatype VPToken = VPToken(format: Format, presentation: Presentation, holder: string, signer: Signer, nonce: string,
                             audience: string)
  datatype IDToken = IDToken(subject: string, signer: Signer, nonce: string, audience: string,
                             attestation: Option<string>, submission: Submission)
  datatype Response = Response(vpTokens: seq<VPToken>, idToken: Option<IDToken>, submission: Submission, state: string)

  /** Resolution of a holder's signer, which may change from one presentation to the next, and the calls that can fail. */
  datatype Env = Env(signerFor: (nat, string) -> Option<Signer>, signs: VPToken -> bool, signsID: IDToken -> bool,
                     random: bool, attest: Option<Option<string>>)

  /** The holder of a presentation is the subject of its first credential. */
  function Holder(p: Presentation): Option<string> {
    if p.subjectIDs == [] then None else p.subjectIDs[0]
  }

  /** The VP token of a presentation: for the subject of its first credential, with the signer found for that holder, the
      verifier's nonce and the verifier as its audience. */
  ghost predicate VPTokenFor(env: Env, request: Request, format: Format, presentations: seq<Presentation>, i: nat,
                             token: VPToken) {
    && i < |presentations| && token.presentation == presentations[i]
    && presentations[i].subjectIDs != [] && presentations[i].subjectIDs[0] == Some(token.holder)
    && env.signerFor(i, token.holder) == Some(token.signer)
    && token.format == format && token.nonce == request.nonce && token.audience == request.clientID
  }

  ghost predicate Signed(env: Env, request: Request, format: Format, presentations: seq<Presentation>, i: nat,
                         token: VPToken) {
    VPTokenFor(env, request, format, presentations, i, token) && env.signs(token)
  }

  /** Why a presentation has no token: no credential, no subject ID, no signer for it, or a signer that fails. */
  ghost predicate Unsigned<T>(env: Env, request: Request, format: Format, presentations: seq<Presentation>, i: nat,
                              r: Outcome<T, Error>)
    requires i < |presentations|
  {
    var subjects := presentations[i].subjectIDs;
    if subjects == [] then r.Panic?
    else if subjects[0].None? then r == Err(NoSubjectID)
    else if env.signerFor(i, subjects[0].value).None? then r == Err(NoSigner)
    else
      r == Err(SigningFailed) &&
      exists token :: VPTokenFor(env, request, format, presentations, i, token) && !env.signs(token)
  }

  /** The signer registered for a holder: the one found for that holder's last presentation. */
  ghost predicate Registered(env: Env, presentations: seq<Presentation>, holder: string, signer: Signer) {
    exists i :: 0 <= i < |presentations| && Holder(presentations[i]) == Some(holder) &&
      env.signerFor(i, holder) == Some(signer) &&
      forall j :: i < j < |presentations| ==> Holder(presentations[j]) != Some(holder)
  }

  function Attestation(env: Env): Option<string> {
    if env.attest.Some? then env.attest.value else None
  }

  /** The ID token for this request: the verifier's nonce, the verifier as its audience, the attestation if one was asked
      for, and the submission with its nested paths rewritten. */
  ghost predicate IDTokenFor(env: Env, request: Request, s: Submission, token: IDToken) {
    && token.nonce == request.nonce && token.audience == request.clientID
    && (if env.attest.Some? then token.attestation == env.attest.value else token.attestation.None?)
    && ShowsRewritten(s, token.submission)
  }

  /** The rewriting is done on copies, so the submission keeps its paths. */
  method RewrittenCopy(submission: PresentationSubmission, ghost s: Submission) returns (serialized: Submission)
    requires submission.Holds(s)
    ensures submission.Holds(s) && serialized == RewriteAll(s)
  {
    var copies := DeepCopy(submission, s);
    serialized := SerializeRewritten(copies, s, submission.id, submission.definitionID);
  }

  method SerializeRewritten(copies: seq<InputDescriptorMapping>, ghost s: Submission, id: string, definitionID: string)
    returns (serialized: Submission)
    requires AllHold(copies, s.descriptors) && Separate(copies) && id == s.id && definitionID == s.definitionID
    modifies (set d, o | d in copies && o in d.Repr :: o)`path
    ensures serialized == RewriteAll(s)
  {
    RewriteInPlace(copies, s);
    var psCopy := new PresentationSubmission(id, definitionID, copies);
    serialized := Marshal(psCopy, RewriteAll(s));
  }

  method CreateIDToken(env: Env, request: Request, signingDID: string, signer: Signer, attestation: Option<string>,
                       submission: PresentationSubmission, ghost s: Submission)
    returns (r: Outcome<IDToken, Error>)
    requires submission.Holds(s) && attestation == Attestation(env)
    ensures submission.Holds(s)
    ensures r.Ok? ==>
              && r.value.subject == signingDID && r.value.signer == signer && env.signsID(r.value)
              && IDTokenFor(env, request, s, r.value)
    ensures !r.Ok? ==>
              r == Err(SigningFailed) &&
              exists token: IDToken :: token.subject == signingDID && token.signer == signer &&
                IDTokenFor(env, request, s, token) && !env.signsID(token)
  {
    var serialized := RewrittenCopy(submission, s);
    RewriteAllShows(s);
    var token := IDToken(signingDID, signer, request.nonce, request.clientID, attestation, serialized);
    assert IDTokenFor(env, request, s, token);
    return if env.signsID(token) then Ok(token) else Err(SigningFailed);
  }

  ghost predicate AllRegistered(env: Env, presentations: seq<Presentation>, signers: map<string, Signer>) {
    forall holder :: holder in signers ==> Registered(env, presentations, holder, signers[holder])
  }

  /** The first presentation that has no token decides how the loop fails. */
  ghost predicate FirstFailure<T>(env: Env, request: Request, format: Format, presentations: seq<Presentation>,
                                  r: Outcome<T, Error>) {
    exists i :: 0 <= i < |presentations| && Unsigned(env, request, format, presentations, i, r) &&
      forall j :: 0 <= j < i ==> HasToken(env, request, format, presentations, j)
  }

  ghost predicate HasToken(env: Env, request: Request, format: Format, presentations: seq<Presentation>, i: nat) {
    exists token :: Signed(env, request, format, presentations, i, token)
  }

  lemma FailsAt<T>(env: Env, request: Request, format: Format, presentations: seq<Presentation>, i: nat,
                   tokens: seq<VPToken>, r: Outcome<T, Error>)
    requires i < |presentations| && Unsigned(env, request, format, presentations, i, r)
    requires |tokens| == i && forall j :: 0 <= j < i ==> Signed(env, request, format, presentations, j, tokens[j])
    ensures FirstFailure(env, request, format, presentations, r)
  {
    forall j | 0 <= j < i
      ensures HasToken(env, request, format, presentations, j)
    {
      assert Signed(env, request, format, presentations, j, tokens[j]);
    }
  }

  /** The loop over the presentations: it gets through exactly when each of them can be signed for its holder. */
  method SignEach(env: Env, request: Request, format: Format, presentations: seq<Presentation>)
    returns (r: Outcome<seq<VPToken>, Error>, signers: map<string, Signer>)
    ensures r.Ok? || FirstFailure(env, request, format, presentations, r)
    ensures r.Ok? ==> |r.value| == |presentations|
    ensures r.Ok? ==>
              forall i :: 0 <= i < |presentations| ==> Signed(env, request, format, presentations, i, r.value[i])
    ensures r.Ok? ==> AllRegistered(env, presentations, signers) && (signers == map[] <==> presentations == [])
  {
    var vpTokens: seq<VPToken> := [];
    signers := map[];
    for i := 0 to |presentations|
      invariant |vpTokens| == i
      invariant forall j :: 0 <= j < i ==> Signed(env, request, format, presentations, j, vpTokens[j])
      invariant signers == map[] <==> i == 0
      invariant AllRegistered(env, presentations[..i], signers)
    {
      if presentations[i].subjectIDs == [] {
        r := Panic;
        FailsAt(env, request, format, presentations, i, vpTokens, r);
        return;
      }
      var holderDID := presentations[i].subjectIDs[0];
      if holderDID.None? {
        r := Err(NoSubjectID);
        FailsAt(env, request, format, presentations, i, vpTokens, r);
        return;
      }
      var jwtSigner := env.signerFor(i, holderDID.value);
      if jwtSigner.None? {
        r := Err(NoSigner);
        FailsAt(env, request, format, presentations, i, vpTokens, r);
        return;
      }
      RegisteredNext(env, presentations, i, signers, holderDID.value, jwtSigner.value);
      signers := signers[holderDID.value := jwtSigner.value];
      assert holderDID.value in signers;
      var vpToken := VPToken(format, presentations[i], holderDID.value, jwtSigner.value, request.nonce, request.clientID);
      assert VPTokenFor(env, request, format, presentations, i, vpToken);
      if !env.signs(vpToken) {
        r := Err(SigningFailed);
        FailsAt(env, request, format, presentations, i, vpTokens, r);
        return;
      }
      vpTokens := vpTokens + [vpToken];
    }
    assert presentations[..|presentations|] == presentations;
    return Ok(vpTokens), signers;
  }

  lemma RegisteredNext(env: Env, presentations: seq<Presentation>, n: nat, signers: map<string, Signer>, holder: string,
                       signer: Signer)
    requires n < |presentations| && Holder(presentations[n]) == Some(holder) && env.signerFor(n, holder) == Some(signer)
    requires AllRegistered(env, presentations[..n], signers)
    ensures AllRegistered(env, presentations[..n + 1], signers[holder := signer])
  {
    var shorter, longer := presentations[..n], presentations[..n + 1];
    var signers' := signers[holder := signer];
    forall h | h in signers'
      ensures Registered(env, longer, h, signers'[h])
    {
      if h == holder {
        assert Holder(longer[n]) == Some(holder);
      } else {
        var i :| 0 <= i < |shorter| && Holder(shorter[i]) == Some(h) && env.signerFor(i, h) == Some(signers[h]) &&
          forall j :: i < j < |shorter| ==> Holder(shorter[j]) != Some(h);
        assert longer[i] == shorter[i];
        forall j | i < j < |longer|
          ensures Holder(longer[j]) != Some(h)
        {
          if j < n { assert longer[j] == shorter[j]; }
        }
      }
    }
  }

  /** The ID token's subject is any one of the holders. */
  method SignIDToken(env: Env, request: Request, signers: map<string, Signer>, submission: PresentationSubmission,
                     ghost s: Submission)
    returns (r: Outcome<IDToken, Error>)
    requires submission.Holds(s)
    ensures submission.Holds(s)
    ensures r.Panic? <==> signers == map[]
    ensures r.Ok? ==>
              && r.value.subject in signers && env.signsID(r.value)
              && r.value.signer == signers[r.value.subject] && IDTokenFor(env, request, s, r.value)
    ensures signers != map[] && !env.random ==> r == Err(RandomFailed)
    ensures signers != map[] && env.random && env.attest == Some(None) ==> r == Err(AttestationFailed)
    ensures signers != map[] && env.random && env.attest != Some(None) ==> r.Ok? || r == Err(SigningFailed)
    ensures r == Err(SigningFailed) ==>
              exists token: IDToken :: token.subject in signers && token.signer == signers[token.subject] &&
                IDTokenFor(env, request, s, token) && !env.signsID(token)
  {
    if signers == map[] {
      return Panic;
    }
    if !env.random {
      return Err(RandomFailed);
    }
    var signingDID :| signingDID in signers;
    if env.attest == Some(None) {
      return Err(AttestationFailed);
    }
    var attestationVP := Attestation(env);
    r := CreateIDToken(env, request, signingDID, signers[signingDID], attestationVP, submission, s);
  }

  ghost predicate AllSigned(env: Env, request: Request, format: Format, presentations: seq<Presentation>) {
    forall i :: 0 <= i < |presentations| ==> HasToken(env, request, format, presentations, i)
  }

  lemma TokensAreAll(env: Env, request: Request, format: Format, presentations: seq<Presentation>, tokens: seq<VPToken>)
    requires |tokens| == |presentations|
    requires forall i :: 0 <= i < |tokens| ==> Signed(env, request, format, presentations, i, tokens[i])
    ensures AllSigned(env, request, format, presentations)
  {
    forall i | 0 <= i < |presentations|
      ensures HasToken(env, request, format, presentations, i)
    {
      assert Signed(env, request, format, presentations, i, tokens[i]);
    }
  }

  /** A failure of the loop is the same failure of the response, and it means that some presentation has no token. */
  lemma FailureCarries<T, U>(env: Env, request: Request, format: Format, presentations: seq<Presentation>,
                             r: Outcome<T, Error>, r': Outcome<U, Error>)
    requires FirstFailure(env, request, format, presentations, r) && r'.FailedLike(r)
    ensures FirstFailure(env, request, format, presentations, r') && !AllSigned(env, request, format, presentations)
  {
    var i :| 0 <= i < |presentations| && Unsigned(env, request, format, presentations, i, r) &&
      forall j :: 0 <= j < i ==> HasToken(env, request, format, presentations, j);
    assert Unsigned(env, request, format, presentations, i, r');
    forall token
      ensures !Signed(env, request, format, presentations, i, token)
    {
    }
    assert !HasToken(env, request, format, presentations, i);
  }

  /** Why there is no ID token: no holder to pick, no random number to pick one with, no attestation, or a picked holder
      whose signer fails. */
  ghost predicate NoIDToken(env: Env, request: Request, presentations: seq<Presentation>, s: Submission,
                            r: Outcome<Response, Error>) {
    if presentations == [] then r.Panic?
    else if !env.random then r == Err(RandomFailed)
    else if env.attest == Some(None) then r == Err(AttestationFailed)
    else r == Err(SigningFailed) && !EveryHolderSigns(env, request, presentations, s)
  }

  ghost predicate EveryHolderSigns(env: Env, request: Request, presentations: seq<Presentation>, s: Submission) {
    forall token: IDToken ::
      Registered(env, presentations, token.subject, token.signer) && IDTokenFor(env, request, s, token) ==>
      env.signsID(token)
  }

  /** One VP token for each presentation, in order, each for its holder; an ID token, when asked for, whose subject is one
      of the holders, signed by the signer registered for it, with the rewritten submission; and the submission itself,
      serialized last, as it was. It fails only when a presentation has no token, or an ID token is asked for and there
      is none: so it succeeds when every presentation is signed and every holder would sign the ID token. */
  method CreateAuthorizedResponseMultiCred(env: Env, request: Request, format: Format, presentations: seq<Presentation>,
                                           submission: PresentationSubmission, ghost s: Submission)
    returns (r: Outcome<Response, Error>)
    requires submission.Holds(s)
    ensures submission.Holds(s)
    ensures r.Ok? ==> AllSigned(env, request, format, presentations)
    ensures r.Ok? && request.wantsIDToken ==> presentations != [] && env.random && env.attest != Some(None)
    ensures !r.Ok? && !AllSigned(env, request, format, presentations) ==>
              FirstFailure(env, request, format, presentations, r)
    ensures !r.Ok? && AllSigned(env, request, format, presentations) ==>
              request.wantsIDToken && NoIDToken(env, request, presentations, s, r)
    ensures r.Ok? ==> |r.value.vpTokens| == |presentations| && r.value.submission == s && r.value.state == request.state
    ensures r.Ok? ==>
              forall i :: 0 <= i < |presentations| ==>
                Signed(env, request, format, presentations, i, r.value.vpTokens[i])
    ensures r.Ok? ==> (r.value.idToken.Some? <==> request.wantsIDToken)
    ensures r.Ok? && request.wantsIDToken ==>
              var token := r.value.idToken.value;
              && Registered(env, presentations, token.subject, token.signer) && env.signsID(token)
              && IDTokenFor(env, request, s, token)
  {
    var vpTokens, signers := SignEach(env, request, format, presentations);
    match vpTokens {
      case Err(error) =>
        r := Err(error);
        FailureCarries(env, request, format, presentations, vpTokens, r);
        return;
      case Panic =>
        r := Panic;
        FailureCarries(env, request, format, presentations, vpTokens, r);
        return;
      case Ok(tokens) =>
        TokensAreAll(env, request, format, presentations, tokens);
        var idTokenJWS: Option<IDToken> := None;
        if request.wantsIDToken {
          var created := SignIDToken(env, request, signers, submission, s);
          match created {
            case Ok(token) => idTokenJWS := Some(token);
            case Err(error) =>
              r := Err(error);
              assert NoIDToken(env, request, presentations, s, r);
              return;
            case Panic => return Panic;
          }
        }
        var serialized := Marshal(submission, s);
        return Ok(Response(tokens, idTokenJWS, serialized, request.state));
    }
  }
}
