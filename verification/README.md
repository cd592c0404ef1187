# Signote: verified models

Dafny models of the parts of Signote whose correctness is hardest to see from the code, with proofs of what they
promise. `dafny verify dfyconfig.toml` checks all of it. Each module follows one source file or component; where the
source updates state in place there is a class whose methods are proved equal to specification functions, and the
laws are proved about those functions.

- **Wallet arithmetic** (`Congruence`, `Curve`, `Bitwise`, `Bech32`, `Bech32Standard`, `Positional`, `Base58`, `ConvertBits`): the
  generator's extended-Euclid inverse, curve addition, double-and-add, Bech32 code, bit regrouping and Base58. The
  curve is y² = x³ + 7 modulo any prime p > 2; `Curve` also fixes the secp256k1 constants of SEC 2, section 2.4.1.
  Bech32 words are 32 booleans with the operators of a 32-bit machine word; the sections named are those of BIP 173.
  `Bech32Standard` reads them as polynomials over GF(32), as that standard defines its checksum.
- **Sessions** (`AuthSessions`, `SessionController`, `SessionProtocol`, `SessionEnd`, `SessionAdmission`): the epoch, survivor and
  marker of an account, its audit rows, and a transition system in which any number of requests, sign-ins, re-issues,
  touches, revocations and sweeps interleave. `delay` bounds how long one operation stays in flight; it is a parameter of every theorem.
- **Query cache** (`QueryCache`, `CacheUndo`, `ToggleUndo`, `ConfirmedState`, `CacheEffects`): optimistic changes to paged
  lists, what each shows, rolling one of them back, and unwinding all that is pending.
- **Account merge** (`AccountMerge`, `IdentityController`, `AccountMergeLaws`): tables are sets of rows, a statement is
  one step, foreign keys cascade.
- **Promotion** (`Promotion`, `PromotionController`, `PromotionLaws`, `PromotionChecks`): a Note becomes a Secret, a Secret a Seal.
- **Version log** (`VersionLog`, `VersionController`, `VersionRuns`): capped and compressed history of a note.
- **Sign-in codes** (`SignInCodes`, `SignInController`, `SignInRuns`): issuing, checking and sweeping one-time codes.
- **Account locks** (`AccountLocks`): transactions that nest locks on several accounts.
- `Wrappers` and `Sets` are shared helpers.

Where the code does not do all that its comments or its design suggest, the model says exactly when it does:

- **Dead sessions.** That a revoked or expired session is never admitted again holds in all runs only for operations
  that take next to no time. A touch that read its clock while the row was alive can run just after it expired and
  revive it (`SessionEnd.ExpiredRowRevived`), and exactly the rows not yet expired for `delay` can be revived so
  (`TouchRevivesIff`). A request that begins in the last milliseconds of its token and has not finished when a sweep takes
  the row finds no row, and is admitted although the session was revoked (`SweptHastily`, `HastySweepReadmits`). So
  every dead session stays dead if and only if `delay` is 0 (`DeadStaysDeadIff`); every session revoked, or expired for at
  least `delay`, does if and only if `delay` is at most 2 ms (`GoneStaysDeadIff`); and for any `delay` below a session
  lifetime, a given one does if and only if no touch in flight can revive it and no sweep can take its row from under a
  request that could still pass (`StaysDeadIff`). A sweep that waits `delay` after reading its clock never does
  (`PatientSweepIsCareful`). No such exception applies to sessions ended by revoke-all (`SessionProtocol.NoResurrection`).
- **Sign-in limits.** The limiter counts rows of the last 15 minutes, but the sweep deletes a row once its code has
  expired after 10, so with sweeps only windows of a code's lifetime are bounded (`SignInRuns.WindowHoldsIff`).
- **Taking back a created note** removes the note but not the sorting that came with it, so it restores the list exactly
  when that list was already sorted and its pinned notes fit on the first page (`CacheUndo.UndoCreate`).
- **Taking back an archive toggle** restores a list the item left. Where the item stays, as in the view of all notes, it was
  moved to the top and is rolled back there, so the list is restored exactly when it was at the top before and the copy
  the toggle started from showed the same (`ToggleUndo.UndoArchive`, `ToggleUndo.ArchiveCanMoveAnItem`).
- **Taking back a change of pin** sorts the list once more, so it restores it exactly when the list was sorted and the
  item was not moved past one it was tied with (`ToggleUndo.UndoPin`, `ToggleUndo.PinCanSwapTies`).
- **A restored version row** is left in place if and only if it is not the oldest of a full log
  (`VersionRuns.RestoredRowStaysIff`, `VersionRuns.OldestRestoredIsEvicted`).

## Model

| member | source | states |
|---|---|---|
| Curve.Mod | scripts/genwallet.ts:18-21 | the remainder is canonical and congruent to its argument, negative ones included |
| Curve.InverseIsBezout | scripts/genwallet.ts:23-32 | for every a and m > 0 the inverse is canonical and times a congruent to gcd(a, m) |
| Curve.InverseIsInverse | scripts/genwallet.ts:23-32 | modulo a prime it is a true inverse of every a that is not a multiple |
| Curve.ModInverse | scripts/genwallet.ts:23-32 | the loop terminates and returns that inverse |
| Curve.GcdIsGreatest | scripts/genwallet.ts:23-32 | the greatest common divisor the inverse is measured against divides both and is divided by every common divisor |
| Curve.ChordOnCurve | scripts/genwallet.ts:41-44 | two curve points with distinct abscissas add to a canonical curve point |
| Curve.DoubleOnCurve | scripts/genwallet.ts:47-53 | doubling a curve point gives infinity or a canonical curve point |
| Curve.AddOnCurve | scripts/genwallet.ts:34-45 | addition never leaves the curve, over every pair of points |
| Curve.SameAbscissa | scripts/genwallet.ts:37-40 | curve points with one abscissa are equal or opposite, so the branch that returns null is right |
| Curve.AddIsReflectedThirdPoint | scripts/genwallet.ts:41-44 | the sum satisfies the chord equations of SEC 1, section 2.2.1, without division |
| Curve.DoubleIsReflectedThirdPoint | scripts/genwallet.ts:47-53 | the double satisfies the tangent equations of SEC 1, section 2.2.1 |
| Curve.ReflectedThirdPointIsUnique | scripts/genwallet.ts:34-53 | those equations have one canonical solution, so they determine the result |
| Curve.AddCommutes | scripts/genwallet.ts:34-45 | addition is commutative |
| Curve.BasePointOnCurve | scripts/genwallet.ts:16 | the base point lies on the curve modulo the generator's modulus |
| Curve.PointMultiply | scripts/genwallet.ts:55-66 | the loop's accumulator and base stay on the curve for every scalar; a null accumulator is the error |
| Curve.MultiplyLoopIsTimes | scripts/genwallet.ts:59-63 | entered with accumulator r, base b and scalar k, the loop ends with r plus the k-fold sum of b |
| Curve.MultiplyIsRepeatedAddition | scripts/genwallet.ts:55-66 | given associativity, double-and-add is k-fold addition, and fails exactly when that sum is infinity |
| Bech32.Bech32Polymod | scripts/genwallet.ts:261-272 | the loop computes the polymod and every intermediate state stays below 2^30, so the signed shifts never misbehave |
| Bech32.StepIsBounded | scripts/genwallet.ts:264-270 | a step keeps the state below 2^30 |
| Bech32.StepIsLinear | scripts/genwallet.ts:264-270 | a step is linear over GF(2) |
| Bech32.PolymodIsLinear | scripts/genwallet.ts:261-272 | so is the polymod of messages of any length |
| Bech32.ZeroStepIsInjective | scripts/genwallet.ts:264-270 | a step on a zero symbol is injective |
| Bech32.PolymodIsInjectiveInState | scripts/genwallet.ts:261-272 | different states stay different whatever message follows |
| Bech32.PolymodOfFewSymbols | scripts/genwallet.ts:261-272 | up to six symbols are packed into the state without feedback |
| Bech32.ChecksumVerifies | scripts/genwallet.ts:280-283 | appending the six checksum symbols makes the polymod 1, for every bounded message |
| Bech32.BurstIsDetected | scripts/genwallet.ts:261-272 | changing any symbols within six consecutive positions of a message of any length changes the polymod |
| Bech32.EncodeBech32 | scripts/genwallet.ts:274-293 | the encoder's loops compute prefix, separator, data and checksum; `Bech32Standard.EncodedVerifies` says what these are |
| Bech32Standard.GeneratorIsMultiple | scripts/genwallet.ts:262 | each constant is the generator polynomial of BIP 173 over GF(32), without its leading term, times a power of alpha |
| Bech32Standard.StepIsDivision | scripts/genwallet.ts:264-270 | a step multiplies by x, adds the symbol and reduces modulo the generator polynomial |
| Bech32Standard.PolymodIsRemainder | scripts/genwallet.ts:261-272 | the polymod of symbols is the remainder of the polynomial they spell |
| Bech32Standard.Letters | scripts/genwallet.ts:259 | each symbol has its letter of the standard |
| Bech32Standard.EncodedVerifies | scripts/genwallet.ts:274-293 | the text is the prefix, the separator, the data and six symbols, and they verify over the prefix expanded by division, for every prefix |
| Bech32Standard.EncodedIsCodeword | scripts/genwallet.ts:274-293 | for an ASCII prefix the whole is a multiple of the generator but for the final 1 |
| Bech32.DecodeOfEncode | scripts/genwallet.ts:274-293 | a decoder recovers every prefix and symbol sequence |
| Bech32.DecodeRejectsBurst | scripts/genwallet.ts:274-293 | and rejects every text in which six consecutive data or checksum symbols were changed |
| ConvertBits.ConvertBits | scripts/genwallet.ts:295-310 | with a wrapping 32-bit accumulator the output is the regrouping of the whole input, as with an unbounded one |
| ConvertBits.RegroupingIsUnique | scripts/genwallet.ts:295-310 | a regrouping is determined by its input, contents and length |
| ConvertBits.RoundTrip | scripts/genwallet.ts:295-310 | regrouping with padding and back without is the identity if and only if the padding is shorter than an input digit, so always from 8 to 5 bits |
| Base58.Base58Check | scripts/genwallet.ts:242-257 | the digit loop and the leading-zero loop compute the encoding of payload and checksum |
| Base58.CharAt | scripts/genwallet.ts:240 | the alphabet in order: digits and letters without 0, I, O and l |
| Base58.DecodeOfEncode | scripts/genwallet.ts:247-256 | a decoder recovers every byte string, leading zeros and all-zero strings included |
| Base58.EncodeIsInjective | scripts/genwallet.ts:247-256 | different byte strings have different encodings |
| Base58.EncodeOfDecode | scripts/genwallet.ts:247-256 | what decodes at all re-encodes to itself |
| SessionController.SessionStore.CaptureSessionEpoch | src/controllers/authSessions.ts:74-79 | clears the rotation marker and returns the locked epoch, or fails without an id |
| SessionController.SessionStore.UpsertSessionIfMissing | src/controllers/authSessions.ts:89-145 | creates a row only after re-checking under the lock; every refusal leaves the tables as they were |
| SessionController.SessionStore.TouchSession | src/controllers/authSessions.ts:159-172 | extends the row if it is alive by the caller's clock; no dead row and no other row changes |
| SessionController.SessionStore.RevokeSession | src/controllers/authSessions.ts:184-200 | revokes the caller's own live row and drops the survivor exception with it |
| SessionController.SessionStore.RevokeAllOtherSessions | src/controllers/authSessions.ts:203-231 | revokes every other row, counts them, advances the epoch and sets survivor and marker |
| SessionController.SessionStore.RevokeSessionBySid | src/controllers/authSessions.ts:234-256 | signs out by session id, idempotently |
| SessionController.SessionStore.SweepSessions | src/controllers/cleanup.ts:85-95 | deletes exactly the rows expired for longer than a session lifetime; no other row is removed or changed |
| AuthSessions.ClaimsFailClosed | src/lib/routeAuth.ts:68-71 | a missing claim counts as epoch zero, and a malformed one is never admitted, not even for the survivor |
| SessionProtocol.EpochsOnlyAdvance | src/controllers/authSessions.ts:203-231 | no step of the protocol lowers an account's epoch |
| SessionProtocol.ReachableHasInvariant | src/controllers/authSessions.ts:58-256 | the epoch, marker, provenance and expiry invariants hold in every reachable state |
| SessionProtocol.MarkedSessionIsExclusive | src/controllers/authSessions.ts:58-79 | while the marker names a session it is the survivor, the epoch is positive, every issued epoch is older, and no other session can be admitted |
| SessionProtocol.NoResurrection | src/lib/routeAuth.ts:54-204 | after revoke-all, under every interleaving, no request that starts later is admitted for an earlier token of another session, re-issue refuses it, and its row is never alive |
| SessionProtocol.NoResurrectionAcrossReads | src/lib/routeAuth.ts:54-65 | the session endpoint refuses it even when its row and state reads happen at two different later moments |
| SessionProtocol.RunKeepsKilled | src/lib/routeAuth.ts:119-172 | once killed, a session stays killed and requests started later are never admitted, step by step |
| SessionProtocol.SweepIsLateEnough | src/controllers/cleanup.ts:85-95 | when a row is swept, every token naming it has expired by the sweep's own clock |
| SessionEnd.DeadSessionStaysDead | src/lib/routeAuth.ts:119-187 | in every run whose sweeps never take the row from under a request that could still pass, a session revoked, or expired for at least the delay, admits no further request and its row is never alive |
| SessionEnd.HastySweepReadmits | src/controllers/cleanup.ts:85-95 | conversely every sweep that does so can be followed by the admission of that request |
| SessionEnd.TouchRevivesIff | src/controllers/authSessions.ts:159-172 | a touch in flight can revive a dead row if and only if it is not revoked and has been expired for less than the delay |
| SessionEnd.StaysDeadIff | src/lib/routeAuth.ts:89-204 | a dead session stays dead in all runs if and only if no touch can revive it and no sweep can be hasty |
| SessionEnd.GoneStaysDeadIff | src/controllers/cleanup.ts:85-95 | all sessions revoked, or expired for at least the delay, stay dead in all runs if and only if the delay is at most two milliseconds |
| SessionEnd.DeadStaysDeadIff | src/lib/routeAuth.ts:36-37 | all dead sessions stay dead in all runs if and only if the delay is zero |
| SessionEnd.ExpiredRowRevived | src/controllers/authSessions.ts:159-172 | for every positive delay a run in which a touch revives an expired row |
| SessionEnd.SweptHastily | src/controllers/cleanup.ts:85-95 | for every delay of three or more a run in which a revoked session's row is swept from under a request that then passes |
| SessionEnd.QuickRequestsAreOver | src/controllers/cleanup.ts:85-95 | up to a delay of two, every request that could name a row is over when the row is swept |
| SessionEnd.PatientSweepIsCareful | src/controllers/cleanup.ts:85-95 | a sweep that runs at least the delay after reading its clock is never hasty |
| SessionProtocol.SurvivorStaysUsable | src/controllers/authSessions.ts:217-228 | the session that asked for the revocation is usable at every later time, short of another revoke-all of the account, at which its row is alive |
| SessionProtocol.FirstRequestIsAdmitted | src/lib/routeAuth.ts:119-187 | a token at the account's epoch without a row yet is admitted and its row created |
| SessionAdmission.AdmittedIff | src/lib/routeAuth.ts:119-187 | a request run at once passes exactly when its claim is current and its row, if any, is its own and alive, or is missing from a session that may still get one; no table changes |
| SessionAdmission.EndpointAgrees | src/lib/routeAuth.ts:54-65 | the session endpoint and the request path refuse the same sessions |
| SessionAdmission.ClaimIsCurrentIff | src/lib/routeAuth.ts:68-71 | a raw claim is current exactly when it is a safe integer at the account's epoch, or any such for the survivor |
| SessionAdmission.SignInIsAdmittedIff | src/controllers/authSessions.ts:74-145 | a sign-in from any state captures the account's own epoch, and its first request is admitted and gets its row, unless the id was named a survivor before it existed |
| SessionAdmission.CreateRowIff | src/controllers/authSessions.ts:89-145 | a missing row is created exactly for a current claim of a session not named too early, and one that is there is left and lets its own live session in |
| SessionAdmission.ReissueIff | src/lib/routeAuth.ts:54-65 | a cookie is re-issued exactly to a session a request would not be refused for |
| SessionAdmission.TouchTouches | src/controllers/authSessions.ts:159-172 | activity extends a live session by one lifetime, and no other row |
| SessionAdmission.RevokeAllTouches | src/controllers/authSessions.ts:203-231 | revoke-all ends every session of the account but the asking one, answers how many, and leaves that one's row and other users' alone |
| SessionAdmission.RevokeOneTouches | src/controllers/authSessions.ts:184-200 | revoking ends one own session, drops it as survivor, and leaves all else alone |
| SessionAdmission.SignOutTouches | src/controllers/authSessions.ts:234-256 | signing out does so whoever the session belongs to |
| SessionAdmission.EndedIsRejected | src/controllers/authSessions.ts:184-256 | a session that was revoked or signed out while it had a row is refused at once and at any time while that row is there |
| SessionAdmission.SweepTouches | src/controllers/cleanup.ts:85-95 | the sweep takes exactly the rows expired for more than a lifetime |
| CacheUndo.UndoInsert | src/lib/queryCache.ts:22-33 | rolling back an insert of an unknown item restores the pages if and only if there was a page or the list does not show it |
| CacheUndo.UndoFilter | src/lib/queryCache.ts:35-43 | rolling back a removal restores items, order and page boundaries |
| CacheUndo.UndoPatch | src/lib/queryCache.ts:45-58 | rolling back a patch restores every field |
| CacheUndo.UndoReorder | src/hooks/useReorder.ts:29-54 | rolling back a drag-and-drop move restores order and page boundaries, for every target index |
| CacheUndo.SortIsSorted | src/lib/queryCache.ts:171-191 | sorting puts pinned items first, then higher positions, and loses and invents nothing |
| CacheUndo.SortOfSorted | src/lib/queryCache.ts:171-191 | sorting changes nothing if and only if the list was sorted: ties keep their order |
| CacheUndo.UndoCreate | src/hooks/internal/useTierMutations.ts:85-105 | taking back a created note restores the pages if and only if the list was sorted and, where shown, its pinned items fit the first page |
| CacheUndo.CreateCanMoveAPageBoundary | src/hooks/internal/useTierMutations.ts:85-105 | two pages on which it does not |
| ToggleUndo.UndoArchive | src/lib/queryCache.ts:111-168 | rolling back an archive toggle restores the list if and only if the item left it, or was at its top and the copy found showed the same, or was not there and the list has a page or a filter |
| ToggleUndo.UndoPin | src/lib/queryCache.ts:111-191 | rolling back a change of pin and sorting again restores a list outside searches if and only if it was sorted and the item passed none it was tied with |
| ToggleUndo.ArchiveCanMoveAnItem | src/lib/queryCache.ts:139-167 | a list of all notes on which it is not restored |
| ToggleUndo.PinCanSwapTies | src/lib/confirmedQueryState.ts:20-23 | a list of two tied notes on which it is not restored |
| ToggleUndo.SortIsStable | src/lib/queryCache.ts:178-180 | an item stays behind those it does not precede |
| CacheEffects.OtherTiersStay | src/lib/queryCache.ts:17-20 | lists of other tiers never change |
| CacheEffects.UpdateShows | src/lib/queryCache.ts:45-58 | after an update the item reads the patched fields over its old ones, in every list of the tier, and all else is as it was, page by page |
| CacheEffects.PinUpdateShows | src/hooks/internal/useTierMutations.ts:175-190 | so it does after a change of pin, which also brings lists outside searches into pin order |
| CacheEffects.ArchiveShows | src/lib/queryCache.ts:64-108 | wherever an archived item is shown, it reads the patch over the copy that was found |
| CacheEffects.ArchiveMovesIff | src/lib/queryCache.ts:64-108 | an unfiltered list shows it if and only if its view is for items archived as it now is; all others stay |
| CacheEffects.UndeleteShows | src/lib/queryCache.ts:22-33 | a restored item comes first in the unfiltered lists of its kind, and no other list changes |
| CacheEffects.CreateShows | src/hooks/internal/useTierMutations.ts:85-105 | a new note joins those lists, and lists outside searches are in pin order |
| CacheEffects.DeleteHides | src/lib/queryCache.ts:35-43 | a deleted item is in no list, and the others stay on their pages in order |
| CacheEffects.MoveLands | src/hooks/useReorder.ts:29-54 | a moved item is at its new index with its new position, clamped as `splice` does, the others in order on pages as long as before |
| CacheEffects.RollbackLeavesOthers | src/lib/queryCache.ts:111-168 | rolling one item back over any later changes leaves all others alone, in their order |
| CacheEffects.RollbackKeepsLaterEdits | src/lib/queryCache.ts:139-144 | it takes back just the fields still as the update left them |
| CacheEffects.RollbackMovesBack | src/lib/queryCache.ts:139-160 | a move taken back over later changes puts the item at its old index with all its old fields |
| CacheEffects.GoneComesBack | src/lib/queryCache.ts:125-138 | a removed or archived item comes back to its page and place |
| CacheEffects.GoneStaysGone | src/lib/queryCache.ts:125-126 | an update taken back does not bring back an item that has left since |
| CacheEffects.UnknownIsRemoved | src/lib/queryCache.ts:124 | an item the snapshot did not have is taken out |
| CacheEffects.UnwoundPinIsSorted | src/lib/confirmedQueryState.ts:20-23 | unwinding a change of pin leaves lists outside searches in pin order |
| CacheEffects.TemporaryLeftOut | src/lib/confirmedQueryState.ts:25-35 | a row is left out exactly when its id is temporary, the others keep their order |
| CacheEffects.PersistsNoTemporary | src/lib/confirmedQueryState.ts:25-35 | no list of a tier is persisted with a temporary row, and every other row is, on its page |
| QueryCache.FlatOfReslice | src/hooks/useReorder.ts:43-48 | cutting a list up again keeps its items and order and the length of every page |
| ConfirmedState.QueryClient.CutIntoPages | src/hooks/useReorder.ts:43-48 | the offset loop hands out exactly those slices |
| ConfirmedState.QueryClient.OnMutate | src/hooks/internal/useTierMutations.ts:85-190 | snapshots the tier's lists and applies one optimistic change to each |
| ConfirmedState.QueryClient.OnUpdate | src/hooks/internal/useTierMutations.ts:175-190 | an archived flag toggles lists from a cached copy of the item, any other patch stays in place, a pin re-sorts; `CacheEffects.UpdateShows` and `ArchiveShows` say what is read then |
| ConfirmedState.QueryClient.FindCopy | src/lib/queryCache.ts:71-82 | finds some cached copy of the item, or nothing exactly when no list holds it |
| ToggleUndo.ToggledIsShownIff | src/lib/queryCache.ts:64-108 | after a toggle an unfiltered list shows the item if and only if it belongs there, once, and all others as before |
| ConfirmedState.QueryClient.OnReorder | src/hooks/useReorder.ts:29-54 | snapshots and reorders every list of the tier |
| ConfirmedState.QueryClient.RollbackItem | src/lib/queryCache.ts:111-168 | rolls one item back in every snapshotted list that still exists and touches no other |
| ConfirmedState.QueryClient.SortTierLists | src/lib/queryCache.ts:171-191 | sorts every snapshotted list that is not a search |
| ConfirmedState.ConfirmedQueryState | src/lib/confirmedQueryState.ts:6-39 | unwinds the pending mutations newest first on a copy and drops temporary rows |
| ConfirmedState.ApplyKeepsDistinct | src/lib/queryCache.ts:22-58 | no change ever shows one id twice in a list |
| ConfirmedState.UnwindUndoesOne | src/lib/confirmedQueryState.ts:13-24 | one pending change, unwound from right behind it, gives back the whole client if and only if every list of its tier allows it |
| ConfirmedState.UnwindRestores | src/lib/confirmedQueryState.ts:13-24 | unwinding any history of pending inserts, creations, removals, patches, archive toggles, pins and moves, each undoable when made, returns exactly the confirmed lists |
| ConfirmedState.ConfirmedIsBase | src/lib/confirmedQueryState.ts:6-39 | so what is persisted is the confirmed state, whatever is in flight |
| IdentityController.Store.LinkIdentity | src/controllers/identities.ts:97-312 | takes the branch the locked tables call for, whatever was seen before the locks; a failure changes nothing |
| IdentityController.Store.MergeTags | src/controllers/identities.ts:226-251 | the tag loop, in any order, ends with every tag moved or replaced and every link repointed |
| IdentityController.Store.MergeTag | src/controllers/identities.ts:231-250 | one turn of the loop, after which tag keys, names and link keys hold |
| IdentityController.Store.MoveOwner | src/controllers/identities.ts:253-292 | the owner updates, the user's deletion and the inherited address, cascades included |
| AccountMerge.LinksStayKeyed | src/controllers/identities.ts:230-251 | at every turn of the loop no two links of a note meet on one tag |
| AccountMerge.TagsStayKeyed | src/controllers/identities.ts:230-251 | at every turn tag ids and names per account stay unique |
| AccountMerge.RepointOne | src/controllers/identities.ts:233-247 | a tag with a namesake hands over its links and its deletion cascades to none |
| AccountMergeLaws.MergeKeepsConsistent | src/db/schema.ts:263-297 | every key, name and reference of the schema holds after a merge |
| AccountMergeLaws.PrimaryOwnsAll | src/controllers/identities.ts:253-260 | every note, version and attachment of either account is the primary's, unchanged but for its owner |
| AccountMergeLaws.TagsFollow | src/controllers/identities.ts:226-251 | the secondary's tags become the primary's as they are, but for exactly those with a namesake there |
| AccountMergeLaws.NotesConserved | src/controllers/identities.ts:253-260 | no note is lost or made: with the keys this is exactly once |
| AccountMergeLaws.FilesConserved | src/controllers/identities.ts:257-260 | no attachment is lost or made |
| AccountMergeLaws.LinksConserved | src/controllers/identities.ts:230-251 | no tag link is lost to a collision |
| AccountMergeLaws.TagNamesKept | src/controllers/identities.ts:222-251 | each note keeps its tag names at their places in the order |
| AccountMergeLaws.SignInMethodsFollow | src/controllers/identities.ts:265-277 | exactly the identities and passkeys of both accounts sign in to the primary |
| AccountMergeLaws.EmailSurvives | src/controllers/identities.ts:208-220 | an address of either account survives, the primary's own first |
| AccountMergeLaws.OwnersFollow | src/controllers/identities.ts:265-270 | the identity that owns an address still belongs to the account that has it |
| AccountMergeLaws.SecondaryIsGone | src/controllers/identities.ts:253-280 | nothing of the merged-away account is left |
| AccountMergeLaws.OthersUntouched | src/controllers/identities.ts:97-293 | no row of a third account is made, changed or lost |
| AccountMergeLaws.GatesIff | src/controllers/identities.ts:110-126 | an identity seen with its owner is linked already; else a rotation of either account, then another generation of the primary, are refused |
| AccountMergeLaws.FencedIff | src/controllers/identities.ts:154-206 | of the calls that reach the fence exactly those merge whose secondary keeps no Secret, Seal, one-time password or encrypted file, and shares no note or file id |
| AccountMergeLaws.OtherAnswersIff | src/controllers/identities.ts:127-152 | the identity has moved to a third account, or its key is taken, or it is the primary's already |
| AccountMergeLaws.NothingSealedMoves | src/controllers/identities.ts:154-176 | when a call moves anything, nothing sealed was the secondary's before or after, and no encrypted file changes owner |
| AccountMergeLaws.LinkingIsSafe | src/controllers/identities.ts:97-312 | every call keeps the schema, fails without effect, or leaves the identity with the primary |
| Promotion.AcceptedIffBijection | src/controllers/promotions.ts:35-47 | the size comparisons accept exactly the one-to-one pairings of the source files with distinct uploads |
| Promotion.AcceptedIffSameHistory | src/controllers/promotions.ts:49-58 | a version list is accepted exactly when it is the stored history in order |
| PromotionLaws.AllSuited | src/controllers/promotions.ts:242-260 | as many suitable uploads as named means each named one is suitable |
| PromotionController.AssertReplacementSet | src/controllers/promotions.ts:35-47 | answers with the upload ids if and only if the pairing is a bijection |
| PromotionController.TopPosition | src/controllers/promotions.ts:262-267 | the position of the topmost live item of the account, or zero |
| PromotionController.Store.PromoteNoteToSecret | src/controllers/promotions.ts:191-328 | every check in its order, then the statements; a refusal changes nothing; `PromotionChecks` says which requests pass |
| PromotionController.Store.PromoteSecretToSeal | src/controllers/promotions.ts:330-465 | every check in its order, then the statements; a refusal changes nothing |
| PromotionChecks.PromotedIff | src/controllers/promotions.ts:191-260 | a promotion goes through exactly when the account is open to the request, the item is live, unarmed, unchanged and free in the destination, versions and files match, and no key is taken |
| PromotionChecks.RefusedIff | src/controllers/promotions.ts:330-403 | each refusal is given exactly when its condition is the first to fail |
| PromotionChecks.HistoryIsInPlace | src/controllers/promotions.ts:218-222 | the history is exactly the item's versions, in the order of the table |
| PromotionLaws.ItemMoves | src/controllers/promotions.ts:262-284 | the item is in the destination only, with its metadata, one step above all other live items |
| PromotionLaws.HistoryMoves | src/controllers/promotions.ts:285-297 | its history follows in order, version for version, each under the body supplied for it |
| PromotionLaws.LinksMove | src/controllers/promotions.ts:299-303 | its tags follow in their order |
| PromotionLaws.OtherItemsStay | src/controllers/promotions.ts:191-328 | no other item, history or tag changes in any tier |
| PromotionLaws.FilesMove | src/controllers/promotions.ts:305-323 | each live file is kept, if a Note had it encrypted, or retired for exactly one upload under the right key |
| PromotionLaws.OtherFilesStay | src/controllers/promotions.ts:305-323 | a file that changes otherwise is an upload replacing one of them |
| PromotionLaws.NewFilesAreEncrypted | src/controllers/promotions.ts:242-260 | no plaintext file reaches the destination |
| PromotionLaws.SealKeysStay | src/controllers/promotions.ts:385-403 | a linked file under a Seal's key belongs to that Seal |
| PromotionLaws.PromotionKeepsConsistent | src/db/schema.ts:141-261 | keys and references hold after every promotion |
| PromotionLaws.NoteBecomesSeal | src/controllers/promotions.ts:191-465 | both promotions in a row keep title, history ids and tags |
| VersionLog.NewestByRank | src/db/tier.ts:262-278 | keeping the rows with fewer than ten newer ones is keeping the newest ten |
| VersionController.NewestRows | src/db/tier.ts:269-277 | deleting by rank leaves exactly the newest ten in order |
| VersionController.Repo.InsertVersionCapped | src/db/tier.ts:262-278 | appends the snapshot and drops only what exceeds the cap |
| VersionController.Repo.UpdateWithVersion | src/db/tier.ts:459-483 | skips no-op edits, records by the window, and sets the head |
| VersionController.Repo.RestoreVersion | src/db/tier.ts:492-518 | records the head first, then takes the version's content |
| VersionController.Repo.DeleteVersionById | src/db/tier.ts:437-450 | removes that version only, and answers with the head when it is already gone |
| VersionRuns.UnchangedSave | src/controllers/notes.ts:41-50 | saving a Note or Secret as it is writes nothing, saving a Seal so moves its time only |
| VersionRuns.RestoreTakesVersion | src/db/tier.ts:492-518 | a restore sets title and text to the version's, saved now |
| VersionRuns.RestoreNeedsVersion | src/db/tier.ts:503-510 | an id the history does not hold restores nothing |
| VersionRuns.DeletionRemoves | src/db/tier.ts:437-450 | a deletion goes through exactly for a note not yet past its grace, and takes that row only |
| VersionRuns.OtherNotesStay | src/db/tier.ts:437-519 | no operation touches another note or its history |
| VersionRuns.RunHolds | src/db/tier.ts:437-519 | after every run each log holds at most ten rows in strictly increasing order |
| VersionRuns.OnlyOldestEvicted | src/db/tier.ts:262-278 | recording appends one row and drops at most one, the oldest of a full log |
| VersionRuns.RestoredRowStaysIff | src/db/tier.ts:485-518 | the restored version's row stays if and only if it is not the oldest of a full log |
| VersionRuns.OldestRestoredIsEvicted | src/db/tier.ts:512-514 | a full log on which it is evicted |
| VersionRuns.CapturedIff | src/db/tier.ts:128-130 | displaced content becomes the newest version if and only if it stood for the window or there was no history |
| VersionRuns.BurstIsSilent | src/db/tier.ts:123-130 | a burst of saves of any length records nothing while it lasts |
| VersionRuns.BurstCountsOnce | src/db/tier.ts:123-130 | the first save after a pause records the burst's final state, alone |
| VersionRuns.RowSurvives | src/db/tier.ts:262-278 | a row outlives every run that records fewer than ten further versions and does not delete it |
| VersionRuns.RestoreIsReversible | src/db/tier.ts:485-518 | restoring the snapshot a restore recorded brings back the exact title and text, even after such a run |
| SignInController.CodeTable.RequestSignInCode | src/controllers/emailSignInCodes.ts:57-108 | counts both quotas, retires the address's older codes and inserts the new one |
| SignInController.CodeTable.ConsumeSignInCode | src/controllers/emailSignInCodes.ts:118-148 | takes the live row, checks expiry, attempts and digest in that order, and updates that row only |
| SignInController.CodeTable.RemoveExpired | src/controllers/cleanup.ts:97-101 | deletes the expired codes and counts them |
| SignInController.RequestTouches | src/controllers/emailSignInCodes.ts:57-108 | refused exactly at a quota; else the new code is stored, the address's others are used up, and those of other addresses stay |
| SignInController.ConsumeTouches | src/controllers/emailSignInCodes.ts:118-148 | each answer by expiry, attempts and digest, and only the live code of the address changes |
| SignInController.AcceptedIff | src/controllers/emailSignInCodes.ts:118-148 | a code is accepted if and only if it is the live one of its address, in time, and short of its limit |
| SignInRuns.CodesAreLimited | src/controllers/emailSignInCodes.ts:57-148 | in every run one live code an address, each accepted at most once and compared at most five times |
| SignInRuns.WindowsHold | src/controllers/emailSignInCodes.ts:71-87 | no 15-minute window exceeds its quota in runs without sweeps, nor any window of a code's lifetime in runs with them |
| SignInRuns.SweepOpensWindow | src/controllers/cleanup.ts:97-101 | for every longer window there is a run with a sweep that exceeds the quota |
| SignInRuns.WindowHoldsIff | src/controllers/cleanup.ts:97-101 | with sweeps the quota binds a window length if and only if it is at most the lifetime, both ends included |
| AccountLocks.RunKeeps | src/db/encryptionState.ts:30-50 | in every run an account is held by one transaction at a time, and waits are for ids after all held ones |
| AccountLocks.WaitsNeverCycle | src/db/encryptionState.ts:42-48 | no transaction waits for itself through any chain of others, in any reachable state |
| AccountLocks.SomeoneCanGoOn | src/db/encryptionState.ts:42-48 | whenever someone waits, some waiter can be woken or waits for a transaction free to end |
| AccountLocks.OppositeOrdersDeadlock | src/db/encryptionState.ts:43-44 | four asks in opposite orders deadlock two transactions when nobody checks the order, and the check refuses the last of them |
| AccountLocks.AscendingNeverTrips | src/db/encryptionState.ts:42-46 | nested locks in ascending order, repeats included, are never refused |
| AccountLocks.MergeNeverTrips | src/controllers/identities.ts:116-126 | the sorted merge is never refused, the opposite order always |
| AccountLocks.LockTable.WithAccountLock | src/db/encryptionState.ts:30-50 | grants, blocks or refuses as the order and the row's owner say; a refusal takes nothing |
| AccountLocks.LockTable.Finish | src/db/encryptionState.ts:49 | ending a transaction releases its accounts and no others |

## Left out

- Hashes, ciphers, BIP-32 derivation, Keccak and address formatting: `Base58Check` takes the digest of its payload as an argument, and sign-in codes are compared by digest.
- Curve.MultiplyIsRepeatedAddition: takes the associativity of addition on the curve as a hypothesis; every other group law used is proved.
- Bech32.BurstIsDetected: bursts of up to six symbols; the detection of four scattered errors that BIP 173 also claims rests on a property of the code's distance that is not part of this model.
- ConvertBits.ConvertBits: for group widths that together fit the 32-bit word (from + to up to 32); the generator uses 8 and 5.
- SessionProtocol.SweepIsLateEnough: holds for operations in flight no longer than a session lifetime; NextAuth's own clock tolerance of a few seconds when it decodes a token is not modelled.
- SessionEnd.StaysDeadIff: for a `delay` shorter than a session lifetime; touches may come at any time within the delay, whichever request they belong to.
- Re-issuing a token by NextAuth is one step that checks `isSessionUnusable` and extends the expiry.
- Session metadata (client, address, user agent), the throttle that decides when to touch, alert mails, nonces and desktop hand-over.
- ConfirmedState.UnwindRestores: for changes each of which could be taken back when it was made, as `ConfirmedState.UnwindUndoesOne` says exactly for one; an update that sets both the archive flag and the pin, of which the client would send the archive flag alone (src/hooks/internal/tierClient.ts:31-33), is not among them.
- The query client's hydration, persistence, refetching and network modes; note positions are exact numbers.
- Account merge: links and versions of Secrets and Seals are not tables of the model, since the fence refuses a merge that has any; the lock order of the two accounts is the subject of `AccountLocks`.
- Unlinking identities, changing addresses, passkey ceremonies.
- Promotions: reading an item for promotion and cleaning up unused uploads; a new item's columns other than those it computes are one field `meta`.
- VersionController.Repo.UpdateWithVersion: the vault's generation gate around it is the one modelled in `Promotion.Gate`.
- Listing, searching and ranking notes, expiry and burning, vault import and export, key rotation, one-time passwords, storage, mail, user interface.
- SignInRuns.WindowsHold: quotas count addresses already normalised; a request without an IP address has no IP quota, as in the code.
- Sign-in codes: the two time columns of a new row are stamped by one clock reading.
- AccountLocks.WaitsNeverCycle: locks taken by nesting; sibling locks taken one after the other inside a common outer lock are not covered, because the held ids are scoped to the nested callback.
- The vault wrappers for reading and maintenance, and the parsing of the generation header: short checks around the lock.
