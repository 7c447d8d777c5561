# OAuth2 provider: storage protocol, key material, consent and limits

This project models the parts of the PocketBase OAuth2 extension on which its security rests, and proves
what they keep over every run.

**Refresh-token families** (`storage.go`, cleanup in `oauth2.go`). A refresh exchange is four separate
store calls (Get, Rotate, CreateAccess, CreateRefresh). Safety rests on one conditional UPDATE, on a
tombstone per (provider prefix, request id) that is committed before any clean-up that can fail, and on
reading that tombstone again inside every transaction that creates a row. `RefreshDb` holds the tables
and the transactions, `RefreshProtocol` the calls as interleaved atomic steps with failing database
accesses, cleanup and a clock, `RefreshInvariant` and `RefreshEvolution` what each step keeps, and
`RefreshLifeCycle`, `RefreshSafety`, `RefreshHistory`, `RefreshAcceptance`, `RefreshIsolation`,
`RefreshOutcomes` and `RefreshChain` the results. `RefreshStore` is the store itself, updating its tables in
place; its methods are proved to do what the calls do when they run alone (`RefreshSequential`), and that to
be a run of the system (`RefreshRuns`), so the results hold of the methods too. `RefreshEffects` tells what
each of them does to the tables and answers, case by case and without naming the steps.

**Key material** (`params.go`, `crypto.go`). `StoredForms` has the text of a `_params` row in its two
forms, `KeyEnvelope` the keyring, `KeyLoader` concurrent loads as steps over the table. `KeyCell` proves
that a row is a write-once cell, `KeyOutcomes` what a load returns and exactly when, `KeyRetirement` when an
old master key can be dropped, `KeyStore` is the load as a method on mutable tables.

**Authorization codes** (`AuthCodes`, `AuthCodeIsolation`), **interactions and consent** (`Scopes`, `Consent`,
`ConsentStore`), the **attestation limiter** (`Limiter`) and the **session rows** (`SessionRow`) are smaller
models of the same kind.

Each `datatype` is a value, each `class` an object whose fields the source updates. Time is a number: Unix
seconds in expiry columns, microseconds in `rotated_at` and `reused_at`, nanoseconds in the limiter. What
the source draws (record ids, UUIDs, nonces, keys) is a parameter, as is whether a database access fails.

Assumptions: transactions serialize; the unique indexes of migrations/1770368000_provider_prefix.go:36-46
and migrations/1770369000_refresh_tombstones.go:41 hold; drawn ids are new; the clock never goes back;
callers pass the request id that belongs to a signature; encryption opens only what was sealed under the
same key and HKDF input, and fingerprints tell master keys apart.

Five things the proofs found out about the code:

- An acceptance check reads the access row, the tombstone and the refresh rows separately. One that stalls
  between these reads while cleanup removes the rows and the tombstone lets a revoked token through. That can
  happen if and only if the tombstone's expiry has passed, at least a day after the revocation and not
  before the token's own expiry (`RefreshAcceptance.AccessAcceptedExactlyPastTombstone`;
  `StalledCheckAccepts` is a run from an empty store). Callers that also check the expiry
  (`ValidateAccessTokenAuthorityAt`, and JWT validation) are not affected. The same holds of looking up a
  refresh token that is still active under its tombstone.
- A load reports success although sealing its row anew, swapping it, or promoting the fingerprint failed, so
  one success does not show that an old master key is no longer needed
  (`KeyRetirement.NewMasterSufficesExactly`). Without such a failure it does.
- Single use of a code ends with the code's expiry, because cleanup deletes the JTI row and the code row
  one by one (`AuthCodes.ExpiredCodeComesBack`).
- Concurrent completions can lose a consent update (`Consent.ConcurrentUpdateLosesGrant`, and exactly when:
  `Consent.UpdateExtendsExactly`); no code ever carries a scope that was not approved.
- A scope with a bar in it is legal in section 3.3 of RFC 6749 and reads back from a session row as several
  scopes (`SessionRow.LegalScopeFallsApart`).

## Model

| member | source | states |
|---|---|---|
| RefreshLifeCycle.RequestLifeCycle | storage.go:125-405 | Under every interleaving each step of each request is a labelled move of the automaton Unborn, Live, Gap, Dead: to Live only from Unborn or Gap by creating a refresh row; to Gap only from Live by the UPDATE or the deletion of the active row; to Dead only by a commit of the tombstone, an invalidation of the family or a revocation; to Unborn only with the last refresh row, or from under a tombstone when that is cleaned up and no row of either kind is left |
| RefreshSafety.OneFamilyPerRequest | storage.go:206-278 | In every reachable state a request has at most one active row, its rows share one non-empty family id, and no other request uses that id |
| RefreshSafety.HistoryNeverCorrupt | storage.go:222-277 | In every reachable state the corrupt-history branches of lineage resolution are taken only for an empty request id, and no request spans two families |
| RefreshSafety.TombstoneCoversRequest | storage.go:560-615 | In every reachable state a tombstone outlives every refresh and access row of its request and names no other family |
| RefreshHistory.TombstonesLastADay | oauth2.go:489-515 | Over every run a tombstone comes into being or gets a new expiry only by a commit, at least a day after a clock reading of the same call, or by an extension of cleanup, at least a day ahead; its expiry never falls; it goes only when it has expired and its request has no row |
| RefreshSafety.RecordsOnlyMoveForward | storage.go:890-937 | Over any run every record of the later state is new or an earlier one that moved as it may: identity fields are fixed, no row becomes active again, `reused_at` once set stays, tombstone expiry never falls, tombstone family never changes once set |
| RefreshSafety.TerminalForGood | storage.go:844-888 | A row that was reused or revoked is so in every later state and keeps its `reused_at` |
| RefreshSafety.AtMostOneWinner | storage.go:716-742 | However many rotations of one stored token run at once, the conditional UPDATE hits the row for at most one of them |
| RefreshHistory.OneRotationSucceeds | storage.go:395-405 | Of any number of RotateRefreshToken calls for one stored token, begun later and interleaved with anything, at most one answers success |
| RefreshHistory.RotationAnswers | storage.go:708-803 | A call that answers success rotated the stored record itself; one that answers ErrInactiveToken, from either place, had the tombstone in place at some moment of the call; there is no other answer but failure |
| RefreshSafety.LosingRotation | storage.go:744-803 | A rotation whose UPDATE hit nothing never succeeds; when it answers ErrInactiveToken the tombstone stands for a day from the loss |
| RefreshSafety.TombstoneShutsRequest | storage.go:126-197 | While a tombstone stands no step of any call adds an access or refresh row to its request |
| RefreshSafety.GapStaysShut | storage.go:389-405 | Until the tombstone's expiry has passed it stands and nothing is added, so a winner paused between Rotate and Create commits nothing |
| RefreshSafety.WinnerCannotFinish | storage.go:395-405 | After the loser of a race has answered ErrInactiveToken, the winner can add nothing to the request for a day from the loss |
| RefreshAcceptance.BuriedAccessNeverAccepted | storage.go:809-842 | An access row that exists while its request's tombstone stands is never let through by a check begun later, whichever clean-up fails, until the tombstone's expiry has passed; it is never attested; and while the row is left the tombstone stands over it |
| RefreshAcceptance.BuriedRefreshNeverFound | storage.go:327-369 | The same for a refresh row and GetRefreshTokenSession, so a child already created is refused; a row not active under the tombstone is never handed out again at all |
| RefreshAcceptance.AccessAcceptedExactlyPastTombstone | middleware.go:168-184 | For every state and time T: some run ending by T lets a check begun later accept the buried access token if and only if the tombstone's expiry lies before T |
| RefreshAcceptance.RefreshFoundExactlyPastTombstone | storage.go:327-369 | The same for a refresh token, if and only if moreover it is still active |
| RefreshAcceptance.StalledCheckAccepts | oauth2.go:439-471 | From an empty store, any access token: issued, revoked with success, and accepted by a check begun after that |
| RefreshAcceptance.StalledLookupFinds | oauth2.go:439-471 | From an empty store, any refresh token: issued, its tombstone committed by a revocation that then fails, and handed out by a lookup begun after that |
| RefreshIsolation.ProvidersDoNotInterfere | provider_prefix.go:32-43 | Projecting any interleaved run onto one prefix gives a valid run of that prefix's steps alone, with the same rows, tombstones and replies |
| RefreshOutcomes.MutationIsComplete | storage.go:890-937 | Condemning a family writes the terminal status into every row of its request and, for the status reused, the time into `reused_at` of each row not stamped before, keeps every other column, deletes every access row of that request, and changes nothing else |
| RefreshOutcomes.ReplayEndsFamily | storage.go:327-369 | Presenting a token that is no longer active commits the tombstone and ends the family; if the clean-up fails the tombstone stands and the rows are as they were |
| RefreshOutcomes.LateRotationEndsFamily | storage.go:744-803 | So does rotating a row that another call has already rotated |
| RefreshOutcomes.RevocationEndsFamily | storage.go:382-387 | Revocation leaves the tombstone in any case and, unless its clean-up fails, ends the family; a request without refresh rows keeps its rows under the tombstone |
| RefreshChain.ChainGrows | storage.go:222-277 | A refresh with the active token of a linear chain succeeds and appends its token as the child of the row created just before |
| RefreshChain.SessionsFormAChain | storage.go:389-405 | n refreshes in a row with a strictly increasing clock all succeed and leave the old chain extended by the n new rows in order, all rotated but the last, with one access row |
| RefreshChain.CodeRedemptionStartsChain | storage.go:155-197 | Issuing the first tokens of a request without rows starts a chain of one active root row |
| RefreshEffects.RefreshCreationEffect | storage.go:155-197 | The creating transaction has the effect told from the rows, for every case of the lineage |
| RefreshEffects.LineageFromRows | storage.go:206-278 | A lineage is terminal exactly for a request with a tombstone or a terminal row, busy exactly for one with an active row and neither of these, corrupt exactly without request id |
| RefreshEffects.RotateEffect | storage.go:708-803 | So has a rotation run alone, lost or not |
| RefreshEffects.LostCommit | storage.go:744-757 | The commit of a lost rotation is refused exactly when the row belongs to another request and the caller's has rows |
| RefreshEffects.GetEffect | storage.go:327-369 | So has a lookup run alone |
| RefreshEffects.RevokeEffect | storage.go:382-387 | So has a revocation run alone |
| RefreshEffects.CommitEffectExact | storage.go:560-615 | The tombstone's family and least expiry, as in CommitRefreshTerminalAuthority |
| RefreshInvariant.CreateRefreshKeepsInv | storage.go:155-197 | Creating a refresh row keeps the invariant of the tables, whatever the lineage says |
| RefreshInvariant.ChildOfRotated | storage.go:222-277 | Where a row may be created the request has no tombstone, and all its rows are rotated and of the family handed out |
| RefreshInvariant.CommitKeepsInv | storage.go:560-615 | Committing a tombstone keeps the invariant, in particular that it outlives the rows and names their family |
| RefreshInvariant.CleanTombstoneKeepsInv | oauth2.go:489-515 | So does each transaction that extends or deletes an expired tombstone |
| RefreshStore.OAuth2Store.ResolveRefreshLineage | storage.go:206-278 | The scan of the request's rows in order of `rotated_at` computes the specified lineage: terminal, busy, corrupt, root, or child of the latest rotated row |
| RefreshStore.OAuth2Store.ScopedRefreshArtifactAuthority | storage.go:643-685 | The scan yields the family, the greatest expiry and the number of the request's rows, or fails exactly when families differ |
| RefreshStore.OAuth2Store.CommitRefreshTerminalAuthority | storage.go:560-615 | Refused exactly without a request id or where two families meet among the caller's, the rows' and the tombstone's; otherwise the tombstone takes the one family met and the least expiry that outlasts the caller's, a day from now, the rows and the old tombstone; an old id stays |
| RefreshStore.OAuth2Store.MutateRefreshFamily | storage.go:890-937 | All or nothing: the loops over refresh and access rows leave the whole family condemned, or the tables untouched exactly when some write fails |
| RefreshStore.OAuth2Store.RevokeRefreshFamilyByRequestID | storage.go:939-996 | The same for every family of a request id |
| RefreshRuns.AloneContinues | storage.go:125-405 | A call begun in any state and run alone is a valid continuation of any run, with ids drawn anew, and keeps the invariant of the tables |
| RefreshStore.OAuth2Store.CreateAccessTokenSession | storage.go:126-143 | Keeps the invariant; under a tombstone refuses with ErrInactiveToken and changes nothing, otherwise inserts exactly this row if the signature is free; the call is a run of the system |
| RefreshStore.OAuth2Store.CreateRefreshTokenSession | storage.go:155-197 | Keeps the invariant. A request with a tombstone or a terminal row: ErrInactiveToken, and all its access rows go; otherwise one with an active row: a serialization conflict, and exactly the candidate's access row goes; without request id: failure, and the candidate goes likewise; otherwise exactly one active row is added, as a root or as the child of the row rotated last, in the family of all rows. Everything stays as it was exactly when one of the access rows to go refuses |
| RefreshStore.OAuth2Store.GetRefreshTokenSession | storage.go:327-369 | Keeps the invariant. Not found without a row; ErrInactiveToken under the tombstone; an active row is handed out; any other row commits the tombstone for a day and past the row's expiry and turns the whole family to reused with its access rows gone, or leaves the rows as they were exactly when one of them refuses |
| RefreshStore.OAuth2Store.RotateRefreshToken | storage.go:708-803 | Keeps the invariant. Under a tombstone ErrInactiveToken and the access rows go; an active row becomes rotated, nothing else of the refresh rows changes, and the old access rows go; any other row, or none, leaves the tombstone for a day and past the row's expiry and answers ErrInactiveToken with the access rows gone, the family turned to reused if the row was rotated before; a row of another request, when the caller's has rows, or an empty request id is a failure that changes nothing. When the invalidation breaks, exactly; when a last deletion fails, what that leaves |
| RefreshStore.OAuth2Store.RevokeRefreshToken | storage.go:382-387 | Keeps the invariant. Leaves the tombstone for at least a day in any case with a request id; then turns the family to revoked with its access rows gone, or leaves the rows exactly when one refuses; a request without refresh rows keeps its access rows under the tombstone |
| RefreshStore.OAuth2Store.RevokeAccessToken | storage.go:372-374 | Every access row of the request goes, or exactly when one refuses the call fails and only some may have gone |
| RefreshStore.OAuth2Store.DeleteRefreshTokenSession | storage.go:286-304 | Deletes the row exactly if it is there, not terminal and does not refuse |
| RefreshStore.OAuth2Store.DeleteAccessTokenSession | storage.go:281-283 | Deletes the row if it is there and does not refuse, and nothing else |
| RefreshStore.OAuth2Store.CheckAccess | storage.go:307-317 | An access token is let through exactly when its row exists and its request has no tombstone and only active or rotated refresh rows, and for attestation the row has not expired |
| RefreshStore.OAuth2Store.AssertRefreshFamilyAllowsAccess | storage.go:809-842 | Access is allowed exactly without request id, or without tombstone and with only active and rotated rows |
| RefreshStore.OAuth2Store.CleanupExpired | oauth2.go:436-526 | Keeps the invariant; leaves exactly the rows that are unexpired or refuse to go; an expired tombstone goes if no row of its request is left, is extended past what is left otherwise, and stays if it refuses |
| StoredForms.HexRoundTrip | params.go:179-208 | Hex decoding undoes hex encoding on every byte string |
| StoredForms.DocRoundTrip | params.go:179-208 | Parsing a marshalled document gives the document |
| StoredForms.EnvelopeRoundTrip | crypto.go:267-334 | Every sealed value is recognised as the envelope it is |
| StoredForms.EnvelopeLayout | crypto.go:308-334 | The stored text of an envelope, character by character: version 1, AES-256-GCM, key id, nonce, ciphertext in this order |
| StoredForms.HexIsNoEnvelope | crypto.go:267-280 | No text that decodes as hex is taken for an envelope |
| StoredForms.DocIsEnvelope | crypto.go:267-280 | A document is taken for an envelope exactly when its version, algorithm, nonce and ciphertext say so; an RS256 signing key never is |
| StoredForms.ReencodingKeepsValue | params.go:437-455 | Decoding a legacy row and encoding it again, as migration does, keeps its value |
| KeyEnvelope.OpenEnvelopeWithKeyring | crypto.go:381-418 | In any iteration order it succeeds exactly when some keyring master opens the envelope under the current or a non-empty legacy context; on a well-formed keyring the rewrap flag is set exactly when another master, another context or another key id sealed or labels it; without the flag the active master opens it under the current context |
| KeyEnvelope.SealRoundTrip | crypto.go:308-368 | What is sealed opens under its own master, context and parameter and under no others |
| KeyEnvelope.InfoTellsContextsApart | crypto.go:294-302 | The joined HKDF input determines context and parameter as long as parameter ids hold no slash |
| KeyCell.OneValueForever | params.go:341-488 | For all loaders together, with any masters, keyrings, plaintext mode and faults: the value a row stands for never changes, and every successful load returns it |
| KeyCell.LoadsAgree | params.go:389-400 | Any two successful loads of a parameter, at any two moments of a run, return the same value |
| KeyCell.FirstInsertDecides | params.go:372-401 | The step that creates a row makes it stand for the value its loader generated and returns |
| KeyRetirement.RewrittenAtMostOnce | params.go:404-455 | With one active master and no faults each row is rewritten at most once, never if the run inserted it, and is then settled for good |
| KeyRetirement.RetirementIsSafe | params.go:210-271 | After a successful load in such a run the fingerprint names the active master, and a later load that knows only this master returns the same value and writes nothing |
| KeyRetirement.NewMasterSufficesExactly | params.go:404-435 | After any successful load of a row that another master had sealed, a later load that knows only the new master succeeds if and only if neither sealing anew, nor the swap, nor a due promotion of the fingerprint failed in the first |
| KeyRetirement.FailuresAreSilent | params.go:263-270 | Whichever of these three fail, the first load returns its value all the same |
| KeyRetirement.SilentFailureHappens | params.go:426-434 | For any two masters there is such a table, and the second load succeeds exactly if none of them failed |
| KeyStore.ParamStore.UpdateParamValueCAS | params.go:302-322 | The row changes exactly if it still holds the expected text, and the answer says so |
| KeyStore.ParamStore.VerifyOrWriteFingerprint | params.go:220-271 | Has the effect of the loader's steps; afterwards the row names the active master unless only promoting it failed |
| KeyStore.ParamStore.GetOrCreateEnvelopeContext | params.go:66-102 | Has the effect of the loader's steps; an existing context id is never replaced, and the one returned is the stored one |
| KeyLoader.AloneIsRun | params.go:341-456 | A load run by itself from where it stands continues any run of loaders |
| KeyStore.ParamStore.LoadParamFromAppStorageAt | params.go:341-456 | Whatever fails, a success returns a byte secret for the global secret and a signing key for every other parameter, and the row then reads as that value, in hex or JSON, plain or sealed. Where nothing fails, it returns a value exactly when the fingerprint and context let it pass and there is no row and the value is the generated one, or the row reads as it and, if sealed, some keyring master opens it. Table and answer are those of a loader run alone; other parameters keep their text |
| KeyOutcomes.LoadsReturnTheirKind | params.go:129-208 | In every run, faults included, a load that succeeds returns the kind of value its parameter has, and the row reads as it |
| KeyOutcomes.LoadEnds | params.go:341-456 | A load by itself without faults returns a value if and only if it can load it from the table it found, and fails otherwise |
| KeyOutcomes.LegacyRowsLoad | params.go:179-208 | With or without a master, hex of any bytes loads as this secret, and the JSON document of any RS256 key as this key, for every other parameter |
| AuthCodes.CodeUsedOnce | storage.go:110-123 | Of all InvalidateAuthorizeCodeSession calls begun while a code is stored, at most one takes effect up to the code's expiry |
| AuthCodes.UsedCodeNeverFound | storage.go:87-107 | Once a code has been used, no lookup begun later returns it without error up to its expiry |
| AuthCodes.ReplayIsTold | storage.go:98-101 | Over any run: once a code has been used, a lookup begun later that has ended by the code's expiry without a failing access answers ErrInvalidatedAuthorizeCode with the stored row |
| AuthCodes.JtiTakenOnce | storage.go:529-536 | A JTI, of a code or a client assertion, is inserted at most once up to its expiry |
| AuthCodes.ExpiredCodeComesBack | oauth2.go:439-471 | The bound is tight: a run in which an expired code is found and used again |
| AuthCodes.AloneIsRun | storage.go:86-123 | A call run by itself continues any run |
| AuthCodes.AuthCodeStore.GetAuthorizeCodeSession | storage.go:87-107 | Without failing accesses: the stored row exactly for a code with no JTI row, the stored row with ErrInvalidatedAuthorizeCode exactly for a code with one, not found exactly for a code not stored; fails exactly when an access does |
| AuthCodes.AuthCodeStore.InvalidateAuthorizeCodeSession | storage.go:110-123 | Without failing accesses: not found exactly without a code; takes effect exactly where the JTI row was absent, inserts it with the code's expiry, and changes nothing otherwise |
| AuthCodes.AuthCodeStore.ClientAssertionJWTValid | storage.go:64-67 | Known exactly for a JTI in the table, unless the query fails |
| AuthCodes.AuthCodeStore.SetClientAssertionJWT | storage.go:69-72 | Inserts the JTI exactly when it is not there and the insert does not fail |
| AuthCodes.AuthCodeStore.CleanExpired | oauth2.go:439-471 | The loops over codes and JTIs delete exactly the expired rows whose deletion does not fail |
| AuthCodeIsolation.CodeProvidersDoNotInterfere | storage.go:538-550 | Projecting any run onto one prefix gives a valid run of that prefix alone with the same rows and replies, although codes and JTIs collide |
| Scopes.MergedExtends | storage_interactions.go:320-328 | Merging keeps the old list as a prefix, is the union, stays duplicate-free, and adds nothing already there |
| Scopes.MergedKeepsOrder | storage_interactions.go:318-328 | New entries come in the order in which they are first named |
| Scopes.MergeScopes | storage_interactions.go:320-328 | The loop computes the merged list, the union of both |
| Scopes.ConsentCovers | storage_interactions.go:309-316 | The loop answers true exactly when every requested scope is granted |
| Consent.InteractionClaimedOnce | storage_interactions.go:180-203 | Over any run each interaction is claimed by at most one completion |
| Consent.NoScopeWithoutConsent | oauth2_login.go:153-228 | Over any run, lost updates included, every scope of an issued code was consented at first or approved by the same user for the same client, collection and provider |
| Consent.ConsentStaysDistinct | storage_interactions.go:259-305 | Stored consent lists no scope twice, in any run |
| Consent.CompletionExtendsConsent | oauth2_login.go:187-204 | A completion by itself that issues a code extends the stored list as a prefix by exactly the scopes approved, which then covers the code, and consumes exactly its own interaction |
| ConsentStore.CompletionEnds | oauth2_login.go:153-228 | The same case analysis for the steps of a completion run alone |
| ConsentStore.ConsentDecides | oauth2_login.go:176-186 | From reading the prior consent on: refused for missing consent exactly when some scope asked for is in neither, otherwise the consent is extended and the code issued unless issuing fails |
| Consent.UpdateExtendsExactly | storage_interactions.go:259-305 | Over any run an update extends the list then stored if and only if that is a prefix of what it read merged with what it adds, and always if no completion for the same user and client wrote in between; an insert extends only an absent list |
| Consent.ConcurrentUpdateLosesGrant | storage_interactions.go:259-305 | From any stored consents, a run in which two completions each get a code for a newly approved scope and the scope of the first is lost from the stored consent |
| Consent.AloneIsRun | oauth2_login.go:153-228 | A completion run by itself continues any run |
| ConsentStore.LoginStore.FindInteractionAt | storage_interactions.go:113-152 | Finds exactly the provider's own row up to the second of its expiry |
| ConsentStore.LoginStore.ConsumeInteractionAt | storage_interactions.go:180-203 | Deletes the row exactly when it claims it |
| ConsentStore.LoginStore.UpsertConsentAt | storage_interactions.go:259-305 | Stores the merged list exactly when no access fails, otherwise changes nothing |
| ConsentStore.LoginStore.LoginComplete | oauth2_login.go:153-228 | Every way a completion ends, from tables and request: a code exactly when the interaction is the provider's own, unexpired and claimed, the decision is approve, the token is of the pending collection, every scope asked for was approved now or is stored as granted for that user and client, and issuing does not fail; each other case with its own refusal; the consent stored is then the old list extended by exactly the approved scopes; tables and outcome are those of the completion's steps |
| Limiter.RuntimeAttestationLimiter.Allow | runtime_attestation.go:82-93 | Lets a call through exactly when the window is new, a minute or more old, or holds fewer than 120 calls; the new window is this call's own in the first two cases and counts one more in the third; a refusal changes nothing |
| Limiter.AnyIntervalIsBounded | runtime_attestation.go:78-93 | Any half-open interval sees at most Bound(length) accepted calls, at most 120 * (1 + length in minutes rounded up), and at most 239 for one minute |
| Limiter.BoundIsAttained | runtime_attestation.go:78-93 | For every length some run of calls reaches Bound(length), and for one minute 239 |
| Limiter.RefusedOnlyWhenFull | runtime_attestation.go:88-90 | A refusal means that exactly 120 calls were accepted since the call that opened the window less than a minute earlier |
| SessionRow.ListSurvives | storage_session_model.go:50-53 | A list survives the row exactly when no element holds a bar and it is not the single empty string |
| SessionRow.ListReadsBackSplit | storage_session_model.go:120-146 | In general every element comes back cut at its bars |
| SessionRow.ColumnText | storage_session_model.go:50-53 | The column of a list is its elements with a bar between them |
| SessionRow.JoinUndoesSplit | storage_session_model.go:120-146 | Reading a column and writing it back leaves it as it was |
| SessionRow.LegalScopeFallsApart | storage_session_model.go:120-132 | Two legal scopes joined by a bar are a legal scope that reads back as the two |
| SessionRow.SessionModel.SetRequester | storage_session_model.go:29-94 | Ids, times in whole seconds and the four joined lists go to their own columns; reading the row back gives the ids, the time to the second, and each list exactly under the condition above |

## Left out

- Rows with an empty provider prefix or family id: whether a query sees them depends on the `core.App` value it gets. With them go `legacyDefaultAllowed`, `invalidateLegacyRefreshRow`, and prefix normalisation; prefixes are opaque values.
- RefreshStore.OAuth2Store.CheckAccess: does not model the token's own signature and expiry, nor the subject, collection, session and client checks of `ValidateAccessTokenAuthorityAt`, which only refuse more.
- RefreshStore: an insert, a query, the conditional UPDATE or the save of a tombstone that fails ends the call at that step, which is present as a step of `RefreshProtocol` only; in the methods the deletions and the writes of every clean-up may fail.
- RefreshAcceptance.BuriedAccessNeverAccepted: bounded by the tombstone's expiry, because past it a stalled check can accept; `AccessAcceptedExactlyPastTombstone` proves that bound exact.
- RefreshSafety.WinnerCannotFinish: bounded by the 24 hours of the tombstone; a call paused for longer can find it gone.
- Columns of session rows that no decision reads: client id, form data, session data, subject. Looking up a row's client in `ToRequest`, which only adds a way to fail.
- PKCE and OpenID Connect session rows: stored, read and deleted without any protocol of their own.
- StoredForms.DocRoundTrip: JSON is modelled for flat objects of strings without escapes and natural numbers, which is what envelopes and signing keys are; other JSON is no document here.
- KeyEnvelope.SealRoundTrip: encryption, HKDF and base64 are ideal; SHA-256 fingerprints are taken to be injective.
- Loaders: a fingerprint or context row that does not parse, which only makes a load fail; decoding of master keys and the entropy check; the HMAC that derives a provider's secret from the root secret.
- Consent.NoScopeWithoutConsent: replaying the stored form is taken to yield the stored scopes; deletion of consents by an administrator is not modelled.
- Fosite, HTTP, redirects, CORS, discovery metadata, client registration, attestation signing, the browser UI and the migration runner.
