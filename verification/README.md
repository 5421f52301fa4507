# Wallet SDK: verified model

This project models five parts of the wallet SDK in Dafny and proves what they promise.

- **The in-memory tag store** (`StoreModel`, `StoreIterator`, `StoreInterleaving`, `Registry`, `MemStore`): a registry of
  named stores, Put, Delete and Batch over tagged records, and a query language whose conjunction is computed by counting.
  The classes are proved to filter the store. A step machine, in which every locked section is one atomic step, shows what a
  query still guarantees while other threads write, and which queries are atomic.
- **The OpenID4VCI issuance interaction** (`Issuance`, `IssuanceRequests`, `IssuanceCalls`, `IssuanceRuns`, `Interaction`,
  `Acknowledgment`): metadata, the authorization URL with its PKCE verifier, the code exchange, credential requests with one
  retry, and the notification IDs. The surroundings (issuer, random source, signer, loggers) are a function from everything
  exchanged so far to the next answer, so every statement is about every issuer and every failure. Whole runs of the public
  calls of both drivers are checked event by event against the history before each event.
- **Display resolution** (`ClaimSearch`, `Masking`, `DisplayModel`, `Display`): the single-locale and the all-locale
  implementation, and the law that choosing a locale commutes with resolving; masking; the nested claim search.
- **Presentation building** (`Presentation`, `ClaimKeys`): the response for several credentials, whose submission is a
  structure of pointers that is copied before it is rewritten; and the projection of claims to their keys, filled in place.
- **The scope list** (`Scopes`): join and split.

`GoText` holds the string functions of Go that these parts use, `Outcomes` the result shapes. Code that changes state is
modelled by classes and loops; each is proved against functions or relations on values, and the laws are proved about those.
Go visits maps in no fixed order, so every loop over a map picks any remaining key. A reachable panic is an outcome of its
own. Strings are sequences of bytes where their length matters (masking) and of characters elsewhere; case folding is ASCII.

Where the code and its documentation differ, the model follows the code:

- `memStore.Close` is documented to delete the store's data; it only takes the name off the provider's list, and it takes it
  off even if the name now belongs to a newer store (mem.go:355-360).
- `Query` is documented to take a single tag; it takes a conjunction, of which the last conjunct for each name counts
  (mem.go:264-265, 283-302). `QueryIsConjunctionExactlyWhen` says when that is the full conjunction.
- `Batch` accepts tags with colons, which `Put` refuses (mem.go:325-353). `BatchRefinesSingleSteps` says when the two agree.
- The pre-authorized retry signs its proof for the nonce that was just refused, not for the one in the error
  (issuerinitiatedinteraction.go:439). `PreAuthRetryUsesNewNonceExactlyWhen` says when they coincide.
- An attempt to create an authorization URL installs its OAuth config before it can fail for want of random bytes
  (interaction.go:88-93). `ExchangeBoundExactlyWhen` says that an exchange is bound to a URL exactly when one was created,
  `ExchangeNamesClientExactlyWhen` when it names that URL's client; `FailureBreaksBinding` and `FailureChangesClient` are runs
  in which they do not.
- A query is not one locked section: each conjunct is scanned under its own lock (mem.go:377-378). `QueryAtomicExactlyWhen`
  says which queries are atomic all the same.
- Without a preferred locale the comment promises the first available one; the code prefers "en-US"
  (credentialdisplay.go:288-293). `FirstWithoutPreferenceExactlyWhen` says when the two agree.
- Masking is documented to be per character; it is per byte (opts.go:138-140, credentialdisplay.go:283).
  `PerCharacterExactlyWhen` says when that makes no difference. A pattern that matches only part of a value can leave all of
  it readable (`PartialMatchCanMaskNothing`), and masks can bring back the text they hide; `MaskHidesExactlyWhen` and
  `EmptyMaskHidesExactlyWhen` say which do not.
- The nested search enters one nested object per level; which one depends on map order when there are several.
  `FoundInAnyOrderExactlyWhen` says when no order hides a claim, `OneResultExactlyWhen` when no order changes the result.

## Model

| member | source | states |
|---|---|---|
| GoText.SplitAfterJoin | pkg/memstorage/legacy/mem.go:285 | splitting a joined list gives the list back for exactly those lists whose parts each end at the first separator found, for any separator |
| GoText.JoinAfterSplit | cmd/wallet-sdk-gomobile/oauth2/clientmetadata.go:113 | joining what a split returned rebuilds any text |
| GoText.EqualFoldExactlyWhen | pkg/credentialschema/credentialdisplay.go:296 | texts are equal up to case exactly when they agree place by place or differ there in the case of an ASCII letter |
| StoreModel.BatchDecidedByLastOperation | pkg/memstorage/legacy/mem.go:325-353 | a refused batch changes nothing; after an accepted one each key's entry is decided by the last operation naming it, and keys not named are kept |
| StoreModel.BatchRefinesSingleSteps | pkg/memstorage/legacy/mem.go:166-193 | a batch succeeds and equals the same calls of Put and Delete one by one exactly when no key is empty and stored values have colon-free tags |
| StoreModel.TagErrorMeansColon | pkg/memstorage/legacy/mem.go:175-183 | Put refuses tags exactly when a name or a value holds a colon |
| StoreModel.TagErrorIsFirst | pkg/memstorage/legacy/mem.go:175-183 | the error is about the first tag with a colon, and about its name if that has one |
| StoreModel.QueryExpressionRoundTrip | pkg/memstorage/legacy/mem.go:277-302 | printing conjuncts and reading them as Query does gives them back exactly when no name or value has a colon, none prints "&&", none but the last ends in "&", and the text is not empty |
| StoreModel.QueryIsConjunctionExactlyWhen | pkg/memstorage/legacy/mem.go:283-299 | keeping the last conjunct per name is the full conjunction on every entry exactly when no conjunct asks for more than the last one of its name |
| StoreModel.DistinctNamesLoseNothing | pkg/memstorage/legacy/mem.go:291-298 | distinct names meet that condition |
| StoreModel.MergeIsFilter | pkg/memstorage/legacy/mem.go:304 | merging the scans of an undisturbed store gives exactly the matching keys, each once with its stored entry |
| StoreModel.AnswerIsTagged | pkg/memstorage/legacy/mem.go:377-389 | a query for one conjunct finds exactly the keys with a tag of that name, and of that value unless it is empty |
| StoreModel.PutIsFound | pkg/memstorage/legacy/mem.go:166-193 | what an accepted Put stored is found, with its value and tags, by a query for any of its tags |
| StoreIterator.IteratorWalk | pkg/memstorage/legacy/mem.go:404-416 | Next is true exactly n times and false for ever after, standing on the n results in order; afterwards nothing can be read |
| StoreIterator.QueryRefinesFiltering | pkg/memstorage/legacy/mem.go:271-307 | draining the iterator of a query visits, each once and with its stored entry, exactly the keys whose tags satisfy the surviving conjuncts |
| StoreInterleaving.InvariantHolds | pkg/memstorage/legacy/mem.go:377-389 | in every interleaving, each kept partial result is the scan of the last conjunct of its name at the moment it was scanned |
| StoreInterleaving.WriteDecidesKey | pkg/memstorage/legacy/mem.go:166-353 | what each write does to each key, refused writes included |
| StoreInterleaving.ConcurrentQuerySound | pkg/memstorage/legacy/mem.go:283-306 | under every interleaving of writes, a query returns exactly the keys that satisfied every surviving conjunct when it was scanned, each once, with an entry stored under it at one of those scans |
| StoreInterleaving.UndisturbedKey | pkg/memstorage/legacy/mem.go:271-307 | a key that nobody writes meanwhile is returned, with its entry, exactly when it satisfies the surviving conjuncts |
| StoreInterleaving.QueryAtomicExactlyWhen | pkg/memstorage/legacy/mem.go:283-306 | whatever is written meanwhile, every answer is that of an undisturbed query at some moment of the run exactly when all conjuncts share one name |
| StoreInterleaving.QueryNotAtomic | pkg/memstorage/legacy/mem.go:377-378 | for any conjuncts with two different names, a run that returns a key whose tags satisfied them at no moment |
| Registry.SameHandleUntilClosed | pkg/memstorage/legacy/mem.go:49-68 | in every recorded history, two openings of names equal up to case returned the same handle exactly when no event closed that name in between, through whichever handle |
| Registry.RegisteredByOpen | pkg/memstorage/legacy/mem.go:49-68 | every registered handle was created by an opening of its name after the last event that closed it |
| Registry.NamesAreLowerCase | pkg/memstorage/legacy/mem.go:54 | registered names are their own lower-case form |
| MemStorage.Provider.OpenStore | pkg/memstorage/legacy/mem.go:49-68 | an empty name is refused; a registered name gives its store; any other gives a new empty store, registered under the lower-cased name; what is returned goes into the provider's history |
| MemStorage.Provider.SameStoreUntilClosed | pkg/memstorage/legacy/mem.go:49-150 | the same for the stores of a provider object, whose calls record such a history |
| MemStorage.Provider.SetStoreConfig | pkg/memstorage/legacy/mem.go:73-93 | refuses tag names with colons and unknown stores, and otherwise changes that one store's configuration |
| MemStorage.Provider.GetOpenStores | pkg/memstorage/legacy/mem.go:110-124 | lists each registered store exactly once |
| MemStorage.Provider.Close | pkg/memstorage/legacy/mem.go:127-134 | forgets every store |
| MemStorage.Provider.RemoveStore | pkg/memstorage/legacy/mem.go:142-150 | forgets the store of that name, if any |
| MemStorage.MemStore.Put | pkg/memstorage/legacy/mem.go:166-193 | succeeds exactly with a key, a value and colon-free tags, and then stores just that entry; otherwise the first failed check, and nothing changes |
| MemStorage.MemStore.GetBulk | pkg/memstorage/legacy/mem.go:236-257 | one value for each key, nil where nothing is stored; refuses an empty list and any empty key |
| MemStorage.MemStore.Delete | pkg/memstorage/legacy/mem.go:311-321 | removes the key and nothing else; an empty key is refused and changes nothing |
| MemStorage.MemStore.Batch | pkg/memstorage/legacy/mem.go:325-353 | refuses an empty batch and any empty key before changing anything, then applies the operations in order |
| MemStorage.MemStore.Close | pkg/memstorage/legacy/mem.go:356-360 | takes its name off the provider's list and keeps its records |
| MemStorage.MemStore.GetMatchingKeysAndDBEntries | pkg/memstorage/legacy/mem.go:367-392 | each matching key once with its stored entry |
| MemStorage.MemStore.Query | pkg/memstorage/legacy/mem.go:271-307 | refuses unsupported options and malformed expressions; otherwise a new iterator before the first of exactly the matching entries |
| MemStorage.CommonDBEntries | pkg/memstorage/legacy/mem.go:480-506 | the keys held by all partial results, each once, with an entry one of them saw |
| MemStorage.CountingIsIntersection | pkg/memstorage/legacy/mem.go:497-503 | a key's count is the number of names exactly when every partial result holds it |
| MemStorage.MemIterator.Next | pkg/memstorage/legacy/mem.go:404-416 | advances the cursor, and drops the entries when it is at the end |
| IssuanceRequests.AuthIDsConserved | pkg/openid4ci/interaction.go:360-417 | the stored notification IDs are the old ones followed by those of every response decoded in either attempt, in order; on success the last n belong to the n responses returned |
| IssuanceRequests.PreAuthIDsConserved | pkg/openid4ci/issuerinitiatedinteraction.go:419-549 | the same for the pre-authorized flow and its batches |
| IssuanceRequests.AuthDelivers | pkg/openid4ci/interaction.go:385-416 | on success the last posts are one for each wanted credential, in order, and the responses returned are the answers to them, unchanged |
| IssuanceRequests.PreAuthDelivers | pkg/openid4ci/issuerinitiatedinteraction.go:444-549 | the same for the pre-authorized flow; of a batch, the credentials and IDs of the reply in order with the nonce of the reply, and empty places where it is too short |
| IssuanceRequests.PreAuthAttemptGrant | pkg/openid4ci/issuerinitiatedinteraction.go:443-445 | an attempt is one batch when there are several credentials and a batch endpoint, and single posts otherwise |
| IssuanceRequests.BatchPlacedExactlyWhen | pkg/openid4ci/issuerinitiatedinteraction.go:536-548 | a batch reply succeeds exactly when it is empty, or has a nonce and no more responses than were asked for; either way the IDs of the placed responses are stored |
| IssuanceRequests.AuthRetry | pkg/openid4ci/interaction.go:363-373 | one attempt, and a second exactly when the first ended in an invalid-proof error, with a proof for the nonce of that error; each attempt asks for the wanted credentials in order |
| IssuanceRequests.PreAuthRetry | pkg/openid4ci/issuerinitiatedinteraction.go:432-441 | the same, with a proof for the first nonce again |
| IssuanceRequests.PreAuthRetryUsesNewNonceExactlyWhen | pkg/openid4ci/issuerinitiatedinteraction.go:437-440 | the pre-authorized retry carries the nonce of the error exactly when that is the nonce it had |
| IssuanceRuns.PreAuthRetryIgnoresNewNonce | pkg/openid4ci/issuerinitiatedinteraction.go:437-440 | for any two different nonces, a run in which a proof refused with the one is sent again with the other |
| IssuanceRequests.PostsBounded | pkg/openid4ci/interaction.go:384-416 | a request for n credentials makes at most 2n posts |
| IssuanceCalls.URLNamesWhatWasAsked | pkg/openid4ci/interaction.go:82-194 | a URL is made exactly when there is metadata and the random source answers; it names the requested client, redirect URI, scopes, credential and issuer state, the issuer's servers, and a state and challenge drawn for it |
| IssuanceCalls.CallNamesWhatWasAsked | pkg/openid4ci/walletinitiatedinteraction.go:94-111 | the same through either driver, for the credential asked for or the first on offer |
| IssuanceCalls.CodeExchangedExactlyWhen | pkg/openid4ci/interaction.go:196-237 | a call exchanges the code of its redirect exactly when the redirect has a code and the right state, there is a token endpoint, and the driver's checks pass; otherwise it fails without a trace |
| IssuanceCalls.TokenRequestedExactlyWhen | pkg/openid4ci/issuerinitiatedinteraction.go:173-410 | a token is asked for exactly when the offer, the PIN, the key, the metadata and the attestation allow it, with the offered code, the caller's PIN and that attestation |
| IssuanceCalls.AuthCallDelivers | pkg/openid4ci/interaction.go:309-416 | a successful call of either driver returns what the issuer answered to its last posts, for the chosen credential or for all on offer; responses that do not parse are never returned |
| IssuanceCalls.PreAuthCallDelivers | pkg/openid4ci/issuerinitiatedinteraction.go:323-549 | the same for the pre-authorized flow and its batches |
| IssuanceRuns.EveryRunIsGood | pkg/openid4ci/interaction.go:82-307 | in every run of either driver each event is safe after its history; the state, verifier, client, metadata, token, its nonce and the stored IDs are what the history says; an OAuth config or stored IDs imply metadata |
| IssuanceRuns.ProofsFit | pkg/openid4ci/interaction.go:419-440 | in every run a proof is signed for the issuer, in the name of the most recent URL's client, and for the nonce last asked for, that of the token reply or of the invalid-proof error as the flow has it |
| IssuanceRuns.FirstProofCarriesNonce | pkg/openid4ci/interaction.go:247-355 | the proof right after a successful token reply carries the nonce of that reply |
| IssuanceRuns.PostsCarrySignedProof | pkg/openid4ci/interaction.go:468-489 | in every run each request carries the proof that was signed last |
| IssuanceRuns.ExchangeBoundExactlyWhen | pkg/openid4ci/interaction.go:82-249 | in every run, a code exchange sends the verifier of the most recent URL's challenge on a redirect with its state exactly when there is a URL; without one, verifier and state are empty |
| IssuanceRuns.ExchangeNamesClientExactlyWhen | pkg/openid4ci/interaction.go:88-115 | in every run, a code exchange names the client and redirect URI of the most recent URL exactly when the last attempt to create one, failed or not, was made with them |
| IssuanceRuns.ExchangeBoundWithoutFailures | pkg/openid4ci/interaction.go:82-138 | in runs where no attempt fails after installing its OAuth config every exchange is bound to a URL and names its client |
| IssuanceRuns.FailureBreaksBinding | pkg/openid4ci/interaction.go:88-93 | a run in which, after a failed first attempt, an exchange takes place although no URL was made |
| IssuanceRuns.FailureChangesClient | pkg/openid4ci/interaction.go:88-93 | a run in which a failed second attempt makes the exchange for the first URL name another redirect URI |
| IssuanceRuns.CredentialsOnlyWithToken | pkg/openid4ci/interaction.go:382 | in the authorization-code flow credentials are requested only with the token of the last successful exchange, and with metadata present |
| IssuanceRuns.MetadataFetchedOnce | pkg/openid4ci/interaction.go:287-307 | once fetched, metadata is never fetched again or replaced |
| IssuanceRuns.WalletAsksForWhatURLNamed | pkg/openid4ci/walletinitiatedinteraction.go:94-127 | the wallet-initiated flow requests nothing but the credential named in the most recent URL |
| IssuanceRuns.URLCarriesAgreedState | pkg/openid4ci/issuerinitiatedinteraction.go:149-166 | a URL carries the issuer state the offer and the caller agree on and names the first offered credential; if they disagree, nothing is sent and nothing changes |
| InteractionObjects.Interaction.PopulateIssuerMetadata | pkg/openid4ci/interaction.go:290-307 | fetches only if nothing is stored |
| InteractionObjects.Interaction.CreateAuthorizationURL | pkg/openid4ci/interaction.go:82-194 | refines the step function, failures included, and keeps the object valid |
| InteractionObjects.Interaction.RequestAccessToken | pkg/openid4ci/interaction.go:196-262 | refines the step function, every refusal included; on success token and nonce are those of the reply |
| InteractionObjects.Interaction.GetCredentialResponse | pkg/openid4ci/interaction.go:360-417 | the request loop with its deferred retry refines the attempt functions, and returns the answers to its last posts unchanged |
| InteractionObjects.Interaction.CreateClaimsProof | pkg/openid4ci/interaction.go:419-440 | a proof for the nonce, with the client ID as issuer if there is one |
| InteractionObjects.Interaction.StoreAcknowledgmentID | pkg/openid4ci/interaction.go:728-734 | appends the ID |
| InteractionObjects.Interaction.RequestCredentialWithAuth | pkg/openid4ci/interaction.go:309-349 | exchange, request and parsing refine the step function |
| InteractionObjects.Interaction.RequestedAcknowledgmentObj | pkg/openid4ci/interaction.go:702-718 | a new object that starts with all stored IDs, exactly when IDs are stored and the issuer has the endpoint |
| InteractionObjects.DetermineCredentialParameters | pkg/openid4ci/issuerinitiatedinteraction.go:728-772 | succeeds exactly when every offered ID is configured with a definition in a supported format, and gives each its format, types and, for ldp_vc only, context; panics exactly when the first ID it cannot offer has a null configuration or definition |
| InteractionObjects.NewIssuerInitiatedInteraction | pkg/openid4ci/issuerinitiatedinteraction.go:79-141 | for a well-formed offer, succeeds exactly when the metadata is there, a grant is offered and the IDs resolve; what it returns is a start of the runs above |
| InteractionObjects.IssuerInitiatedInteraction.DetermineIssuerStateToUse | pkg/openid4ci/issuerinitiatedinteraction.go:587-607 | fails exactly when offer and caller name different states; otherwise whichever side names one names the result |
| InteractionObjects.IssuerInitiatedInteraction.CreateAuthorizationURL | pkg/openid4ci/issuerinitiatedinteraction.go:149-166 | refines the driver's step |
| InteractionObjects.IssuerInitiatedInteraction.RequestCredentialWithAuth | pkg/openid4ci/issuerinitiatedinteraction.go:198-216 | refines the driver's step |
| InteractionObjects.IssuerInitiatedInteraction.RequestCredentialWithPreAuth | pkg/openid4ci/issuerinitiatedinteraction.go:173-395 | refines the driver's step |
| InteractionObjects.IssuerInitiatedInteraction.GetCredentialResponsesWithPreAuth | pkg/openid4ci/issuerinitiatedinteraction.go:397-416 | the token is stored, then used for the request with its nonce; refines the step function, responses included |
| InteractionObjects.IssuerInitiatedInteraction.GetCredentialResponse | pkg/openid4ci/issuerinitiatedinteraction.go:419-483 | the same for the pre-authorized request, batches included |
| InteractionObjects.IssuerInitiatedInteraction.GetCredentialResponsesBatch | pkg/openid4ci/issuerinitiatedinteraction.go:486-549 | one post for all credentials, without contexts |
| InteractionObjects.IssuerInitiatedInteraction.PlaceResponses | pkg/openid4ci/issuerinitiatedinteraction.go:536-548 | places the responses and stores their IDs in order, and panics at the first that has no place or no nonce |
| InteractionObjects.IssuerInitiatedInteraction.GetAcknowledgment | pkg/openid4ci/issuerinitiatedinteraction.go:313-320 | succeeds exactly when IDs are stored and the issuer has the endpoint; the object carries all stored IDs and the pre-authorized token before the other one |
| InteractionObjects.WalletInitiatedInteraction.constructor | pkg/openid4ci/walletinitiatedinteraction.go:36-60 | what it builds is a start of the runs above |
| InteractionObjects.WalletInitiatedInteraction.CreateAuthorizationURL | pkg/openid4ci/walletinitiatedinteraction.go:94-111 | remembers the credential only if the URL was created |
| InteractionObjects.WalletInitiatedInteraction.RequestCredential | pkg/openid4ci/walletinitiatedinteraction.go:118-127 | refines the driver's step |
| AcknowledgmentQueue.AttemptedInOrder | pkg/openid4ci/acknowledgment.go:31-45 | over any run of calls the IDs attempted followed by those remaining are the initial list, so each position is attempted at most once and in order |
| AcknowledgmentQueue.CallSucceedsExactlyWhen | pkg/openid4ci/acknowledgment.go:34-44 | a call succeeds exactly when an ID is left for it and its send succeeds; beyond the list it sends nothing |
| AcknowledgmentQueue.Acknowledgment.AcknowledgeIssuer | pkg/openid4ci/acknowledgment.go:31-45 | refines the queue step; only the object's own list changes |
| ClaimSearch.FindMatchingClaimValueInMap | pkg/credentialschema/credentialdisplay.go:356-370 | terminates on the nesting depth with one of the results the map order allows |
| ClaimSearch.FoundUnderKey | pkg/credentialschema/credentialdisplay.go:356-370 | a result other than nil is the value at some occurrence of the key |
| ClaimSearch.SearchFindsShallowest | pkg/credentialschema/credentialdisplay.go:356-370 | with one nested object per level the result is the value at the shallowest occurrence, or nil if there is none |
| ClaimSearch.FoundExactlyWhenOccurring | pkg/credentialschema/credentialdisplay.go:355-370 | so a value is found exactly when the shallowest occurrence holds one |
| ClaimSearch.FoundInAnyOrderExactlyWhen | pkg/credentialschema/credentialdisplay.go:362-367 | the search can come back with nothing, for some map order, exactly when some level it may enter holds null under the key, or neither the key nor a nested object |
| ClaimSearch.OneResultExactlyWhen | pkg/credentialschema/credentialdisplay.go:355-370 | the search has one result, whatever the map order, exactly when every object it may enter leads to that value |
| ClaimSearch.SiblingsCanHideAClaim | pkg/credentialschema/credentialdisplay.go:362-367 | with two nested objects on a level the search can miss a key that occurs |
| ClaimSearch.FieldValueMeans | pkg/credentialschema/credentialdisplay.go:305-344 | the value of a plain field is the subject's own field, or stands under that name at some depth, at the shallowest one if no level branches, and there is one unless the document may miss |
| ClaimSearch.IDValueMeans | pkg/credentialschema/credentialdisplay.go:310-316 | a field that asks for the ID stands for the subject's ID, if it has one |
| ClaimSearch.PathValueMeans | pkg/credentialschema/credentialdisplay.go:326-330 | a path that does not lead into the subject is looked up in the whole credential |
| ClaimSearch.SubjectPathValueMeans | pkg/credentialschema/credentialdisplay.go:318-325 | a path that does is looked up in the subject's fields, from their root |
| ClaimSearch.DeterminedExactlyWhen | pkg/credentialschema/credentialdisplay.go:305-344 | a field has one possible value exactly when it is an ID or a path, or the subject always leads the search to one value |
| GoText.RepeatAdds | pkg/credentialschema/credentialdisplay.go:283 | a text repeated once is itself, and repeated a + b times it is its repetitions put one after the other |
| Masking.MaskedLength | pkg/credentialschema/credentialdisplay.go:271-286 | k occurrences of the captured text make the value k times its length times (mask length - 1) bytes longer |
| Masking.MaskedParts | pkg/credentialschema/credentialdisplay.go:283 | what is not masked is kept in order, with one run of masks for each occurrence |
| Masking.MaskedHidesCaptured | pkg/credentialschema/credentialdisplay.go:271-286 | a non-empty mask that shares no byte with the captured text leaves no occurrence of it |
| Masking.MaskedValueIs | pkg/credentialschema/credentialdisplay.go:271-286 | the pattern between six bytes and one is compiled; what it captures in the value is masked in the value, by one mask for each byte; a pattern that does not compile is an error |
| Masking.MaskedValueHides | pkg/credentialschema/credentialdisplay.go:271-286 | so the captured text is nowhere in the masked value, if the mask does not leak |
| Masking.MaskHidesExactlyWhen | pkg/credentialschema/credentialdisplay.go:271-286 | a non-empty mask leaves no occurrence of the captured text in any value exactly when the masks do not contain it, do not end as it begins, and do not begin as it ends after a head before which it is first found |
| Masking.ByteMaskHidesExactlyWhen | pkg/credentialschema/credentialdisplay.go:271-286 | a one-byte mask does so exactly when the text neither begins nor ends with that byte |
| Masking.EmptyMaskHidesExactlyWhen | pkg/credentialschema/credentialdisplay.go:283 | the empty mask does so exactly when all bytes of the text are the same |
| Masking.PerCharacterExactlyWhen | pkg/credentialschema/credentialdisplay.go:283 | masking is per character exactly when nothing is masked, the mask is empty, or the captured text has only one-byte characters |
| Masking.UnmatchedIsMaskedWhole | pkg/credentialschema/credentialdisplay.go:281-283 | a pattern that does not match masks the whole value |
| Masking.MaskingIsNoOpExactlyWhen | pkg/credentialschema/credentialdisplay.go:281-283 | masking changes nothing exactly when the captured text does not occur, or is its own masking |
| Masking.WholeMatchHidesGroup | pkg/credentialschema/credentialdisplay.go:280-283 | a pattern that matches the whole value hides its group |
| Masking.PartialMatchCanMaskNothing | pkg/credentialschema/credentialdisplay.go:281 | a partial match whose group stays readable |
| Masking.EmptyMaskCanReveal | pkg/credentialschema/credentialdisplay.go:283 | with an empty mask the captured text can reappear |
| Masking.MaskCanReveal | pkg/credentialschema/credentialdisplay.go:283 | so it can with a mask that is part of the text |
| DisplayModel.LocaleSelectionCommutes | pkg/credentialschema/credentialschema.go:18-69 | without the skip option all-locale resolution succeeds exactly when single-locale resolution does and every credential has a configuration; choosing the locale from its result gives the issuer, overviews and considered claims of the single-locale result |
| DisplayModel.CommutesAcrossSearches | pkg/credentialschema/credentialschema.go:18-69 | the same when the two runs visit the maps in different orders, as long as no order changes the value of a configured field |
| DisplayModel.SelectionCommutes | pkg/credentialschema/credentialdisplay.go:176-302 | choosing a locale in the all-locale claims gives exactly the considered single-locale claims, each as often, in whatever order either list has them |
| DisplayModel.DataShows | pkg/credentialschema/credentialdisplay.go:199-269 | a claim is left out exactly without a label or a value, fails exactly on a bad attachment or mask, and otherwise shows the printed value, the masked value, the first place in the order and the rest of its configuration, place by place |
| DisplayModel.ShownValueHides | pkg/credentialschema/credentialdisplay.go:239-248 | a shown value never holds what its pattern captured, if the mask does not leak |
| DisplayModel.SelectedIsChosen | pkg/credentialschema/issuerdisplay.go:15-45 | the display selected for a locale is the first one for it up to case, or else the first |
| DisplayModel.ConsideredExactlyWhen | pkg/credentialschema/credentialdisplay.go:496-524 | with the option to skip, exactly the paths that do not lead into the subject are left out |
| DisplayModel.FirstWithoutPreferenceExactlyWhen | pkg/credentialschema/credentialdisplay.go:288-302 | without a preferred locale the first entry is chosen exactly when it is in US English or no entry is |
| Display.GetLocalizedLabel | pkg/credentialschema/credentialdisplay.go:290-302 | the name and locale of the first label for the locale up to case, or else of the first label |
| Display.GetDisplay | pkg/credentialschema/issuerdisplay.go:15-45 | the first display for the locale up to case, or else the first, if there is any |
| Display.ClaimOrderAsInt | pkg/models/issuer/metadata.go:134-142 | the first position of the claim in the order, if it is there |
| Display.ResolveClaim | pkg/credentialschema/credentialdisplay.go:199-269 | skips, fails or resolves as the claim's data says, with the chosen label; what it shows is stated place by place, the masked value included |
| Display.ResolveClaims | pkg/credentialschema/credentialdisplay.go:176-197 | succeeds exactly when no claim fails, and then holds every claim with data once |
| Display.BuildDefaultCredentialDisplay | pkg/credentialschema/credentialdisplay.go:139-164 | without a configuration, the subject's ID and then each of its fields once, under the credential's ID |
| Display.BuildOne | pkg/credentialschema/credentialdisplay.go:35-75 | succeeds exactly when the credential can be displayed |
| Display.BuildCredentialDisplays | pkg/credentialschema/credentialdisplay.go:29-78 | one display for each credential in order, exactly when all can be displayed |
| Display.Resolve | pkg/credentialschema/credentialschema.go:18-41 | the single-locale result |
| Display.ResolveClaimAllLocale | pkg/credentialschema/credentialdisplay.go:526-599 | the same with all labels |
| Display.ResolveClaimsAllLocale | pkg/credentialschema/credentialdisplay.go:496-524 | the same over the considered claims |
| Display.BuildOneAllLocale | pkg/credentialschema/credentialdisplay.go:429-494 | succeeds exactly when the credential has a configuration and its considered claims resolve |
| Display.CopyDisplays | pkg/credentialschema/issuerdisplay.go:47-62 | every display in order |
| Display.ResolveCredential | pkg/credentialschema/credentialschema.go:44-69 | the all-locale result |
| ClaimKeys.PopulateClaimKeys | pkg/openid4vp/openid4vp.go:1116-1131 | fills the map, in place and with new maps below it, with exactly the keys of the document |
| ClaimKeys.PresentedClaims | pkg/openid4vp/openid4vp.go:1098-1102 | the projection of a subject's custom fields |
| ClaimKeys.ProjectionPaths | pkg/openid4vp/openid4vp.go:1116-1131 | the key paths of the projection are exactly the object paths without "_sd" |
| ClaimKeys.ProjectionForgetsValues | pkg/openid4vp/openid4vp.go:1116-1131 | two documents have equal projections exactly when they have the same such paths |
| ClaimKeys.ProjectionIdempotent | pkg/openid4vp/openid4vp.go:1116-1131 | projecting twice is projecting once |
| ClaimKeys.CopyingAProjection | pkg/openid4vp/openid4vp.go:1086-1114 | a projection that is handed back as plain JSON comes out as it was |
| ClaimKeys.CopyKeepsShape | pkg/openid4vp/openid4vp.go:1086-1114 | at every path of keys and list places the copy has a place exactly where the document has one: an object with the same keys, a list of the same length, or an empty object for any other value |
| PresentationResponse.DeepCopy | pkg/openid4vp/openid4vp.go:879-887 | an equal submission made of new descriptors, no two sharing any |
| PresentationResponse.RewriteInPlace | pkg/openid4vp/openid4vp.go:856-860 | rewrites the nested path of every descriptor once, and nothing else |
| PresentationResponse.RewriteAllShows | pkg/openid4vp/openid4vp.go:856-860 | the rewritten submission is the same but for the nested paths, whose first "$.vp." is cut down to "$." |
| PresentationResponse.RewriteShowsExactlyWhen | pkg/openid4vp/openid4vp.go:856-860 | the rewriting shows exactly when a nested path holds the "$.vp." step |
| PresentationResponse.CreateIDToken | pkg/openid4vp/openid4vp.go:828-877 | the token is the given holder's, with the request's nonce and client, the attestation if asked for, and the rewritten submission; the caller's submission keeps its paths |
| PresentationResponse.SignEach | pkg/openid4vp/openid4vp.go:685-738 | one token for each presentation in order, holding it, for the subject of its first credential, with that holder's signer, the request's nonce and the client as audience; or the failure of the first that has none; every registered signer is the one of the holder's last presentation |
| PresentationResponse.SignIDToken | pkg/openid4vp/openid4vp.go:748-770 | the subject is one of the holders, the signer the one registered for it, and the token all that is signed; a signing failure is that of some holder's token |
| PresentationResponse.CreateAuthorizedResponseMultiCred | pkg/openid4vp/openid4vp.go:637-783 | such VP tokens, such an ID token exactly when asked for, and the submission serialized with its original paths; it fails as the first unsigned presentation does, or for a stated lack of the ID token, and in no other way |
| Scopes.ClientMetadata.SetScopes | cmd/wallet-sdk-gomobile/oauth2/clientmetadata.go:125-146 | stores the scopes joined by single spaces |
| Scopes.ClientMetadata.GetScopes | cmd/wallet-sdk-gomobile/oauth2/clientmetadata.go:112-122 | reads them back, nil for an empty text |
| Scopes.ScopesRoundTrip | cmd/wallet-sdk-gomobile/oauth2/clientmetadata.go:112-146 | a list is read back unchanged exactly when it is not empty, not the list of one empty scope, and no scope has a space |
| Scopes.StoredScopesRebuilt | cmd/wallet-sdk-gomobile/oauth2/clientmetadata.go:112-122 | joining what is read rebuilds any stored text, and nothing is read exactly when it is empty |

## Left out

- IssuanceRequests.PreAuthIDsConserved: does not align IDs with responses for batches, because a batch reply may be shorter than the request and the program then returns empty responses.
- PresentationResponse.DeepCopy: does not model gob errors; the submission is taken to be acyclic and without nil descriptors.
- DisplayModel.LocaleSelectionCommutes: takes the value of a field as fixed for each credential; CommutesAcrossSearches is about two runs that search in different orders. Nil configurations and nil claims are not modelled.
- InteractionObjects.NewIssuerInitiatedInteraction: starts from an offer that is parsed and whose grants are well formed; checking the client configuration and logging the metrics are left out.
- InteractionObjects.IssuerInitiatedInteraction.PlaceResponses: one flag stands for both the nonce and its lifetime in a batch reply; lacking either makes the program panic.
- HTTP, JSON and gob codecs, URL parsing, clocks, metrics and activity logs: answers of the surroundings, or left out. Encoding authorization details or a credential request cannot fail, since all their parts are strings.
- Signing, proof checks, DID resolution, linked domains, JSON-LD, BBS, presentation exchange and credential parsing: in libraries that are not part of this model.
- The regular-expression engine and JSONPath: arbitrary functions; WholeMatchHidesGroup describes a single match.
- Token refresh inside the OAuth HTTP client, and the trust information and issuer verification built on the metadata.
- The response for a single credential, the choice of the presentation format, request-object parsing, and credential-offer displays: single branches without state of their own.
- Callers that change a stored byte slice or tag slice after Put, and reads of a store's configuration without a lock.
- Unicode case folding: folding is ASCII.
- The mobile wrapper types and their option setters, error codes, demo apps and scripts.
