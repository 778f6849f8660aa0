# EasyMod scripts: a verified model

This project models the parts of the EasyMod repository whose correctness is not visible in one
function, and proves what they keep. `dafny verify dfyconfig.toml` checks all of it.

- **Account purge** (`PurgeSchema`, `PurgeRoots`, `PurgeScope`, `PurgeOrder`, `PurgeRun`, `PurgeMain`,
  `PurgeExample`).
  A database is tables of rows by primary key; an absent column is NULL. What a statement does where its
  bare effect would break a foreign key or a NOT NULL is left to the schema's ON DELETE actions. The scope
  is the least closed set, the order is topological, and every statement keeps integrity on its own
  exactly when no stray row points into the scope.
- **Claim-once capture relay** (`CaptureText`, `CaptureStore`, `CaptureRules`, `CaptureRelay`, `CaptureDelivery`). The store over
  one slot as a class, and the browser as a state machine in which any number of popups, the worker, pages and
  the clock take atomic steps on that slot in any order.
- **Protobuf reader** (`Protobuf`, `BundleManifest`). The reader against the encoder of the Protocol
  Buffers encoding, sections "Base 128 Varints" and "Message Structure", with JavaScript's rounding of
  the eighth byte written out.
- **Semantic calibration** (`JsNumbers`, `Percentiles`, `Cosine`, `Fixtures`, `Acceptance`,
  `AcceptanceRules`, `Calibration`, `CalibrationCases`, `CalibrationRun`, `Distributions`). Scores are reals beside NaN, the infinities, null and undefined,
  converted as `Number` converts them.
- **Business time** (`CivilDate`, `GrowthTime`). The Gregorian arithmetic of ECMA-262 section 21.4.1 and
  the two-step offset correction, for any zone given as its offset function.
- **Pagination and concurrency** (`GraphPagination`, `WorkerPool`, `KeysetScan`, `KeysetEnds`).
- **Vector store proofs** (`SourceIntegrity`, `CollectionState`, `Readiness`).

`Sorting` and `Wrappers` are shared: the library sort as a function with the fact that it depends only
on the multiset of its input, and `Option` and `Result`.

## Where the code does less than it seems to promise

Each has a proved exact condition.

- The purge header promises that no row is left pointing at a deleted row. A row outside the scope in a
  root-only table, or one that reaches the scope only through its own table's self-reference, is neither
  expanded to nor nulled; then the key's ON DELETE action decides (`PlanKeepsIntegrity`, `Purge`). The
  schema has both kinds: `users.last_logged_shop_id`, where SET NULL silently changes another user's row
  (`LastShopIsStray`, `SetNullChangesStray`, `StrayExists`), and `categories.parent_category_id`, where
  CASCADE deletes beyond the reported plan (`CascadeDeletesStray`).
- The row limit of the purge is off when the environment's value is not a number (`LimitIsOff`).
- One `clampText` is not a fixed point when the cut falls behind white space (`ClampSettles`).
- A navigated capture can be out of reach for good, and two overlapping hand-offs can make it so
  (`DeliveredExactlyIfDeliverable`, `DeliveredExactlyIfInReach`, `OverlapCanLose`).
- `readVarint` returns a rounded number above 2^53 and refuses 2^56 and above, so a skipped varint
  field of that size stops the reader (`ReadInvertsEncode`, `ReadInvertsEncodeMessage`).
- A first cursor spelled "null" ends the pagination, because the absent cursor is compared as text; and a
  cursor given at the start is requested again when a later page names it (`ChainIsFetched`,
  `NullCursorStops`, `StartedAtCursor`, `StartedAtCursorRepeats`).
- The worker pool maps nothing when `concurrency` is below 1 (`FinishedRunIsComplete`).
- A keyset cursor that rounds `created_at` down at a batch end repeats rows (`FullScanExactly`), and the
  import may never end: exactly when its walk over the scan does not reach the end or the greatest row's
  time is rounded (`EndsByWalk`, and in terms of the rows `EndsExactly`). Both happen with whole
  milliseconds (`MicrosecondsRepeat`, `EarlierRowRepeats`): a JavaScript date drops the microseconds that
  a PostgreSQL timestamp may have.
- A calibration positive with an infinite score, or ranked by `expectedSourceRank` alone, is READY
  evidence and then fails its own contract; so does a negative with a NaN or infinite score
  (`CalibrationPositivesPass`, `CalibrationNegativesPass`, `ReadyEvidenceFails`). A real run produces neither
  (`CalibrationPassesItsOwnContract`).
- `assertAcceptanceContract` accepts a safe gap that is not a number (`GapOfAccepted`).
- Local times in years below 1000, invalid dates and skipped wall times do not round trip
  (`LocalRoundTrip`, `SkippedWallTimeMoves`), and of the two instants of a repeated wall time one does not
  (`InstantRoundTrip`).

## Model

| member | source | states |
|---|---|---|
| `PurgeRoots.ResolveShops` | EasyMod-backend/scripts/purge-test-account.js:110-122 | splits the user's shops, told from the membership rows: a root where every membership is the user's, shared where there is one of the user and one of another |
| `PurgeRoots.ResolveTenants` | EasyMod-backend/scripts/purge-test-account.js:124-135 | a tenant is a root exactly when some shop row among the roots is its and no shop row outside them is |
| `PurgeRoots.ResolveRoots` | EasyMod-backend/scripts/purge-test-account.js:98-138 | told from the rows alone: no stored email agrees with the address in lower case, or exactly one user's does, with its roots or its platform role other than NONE, or those of two do |
| `PurgeRoots.UsersRead` | EasyMod-backend/scripts/purge-test-account.js:99-101 | the query finds exactly the users whose stored email agrees with the address in lower case |
| `PurgeRoots.AnswerIsUnique` | EasyMod-backend/scripts/purge-test-account.js:98-138 | the rows allow one answer only, and two addresses that agree in lower case get the same roots or the same refusal |
| `PurgeRoots.RootsAreStored` | EasyMod-backend/scripts/purge-test-account.js:99-134 | where the keys of memberships and shops hold, every resolved root is a stored row |
| `PurgeRoots.MembersRead` | EasyMod-backend/scripts/purge-test-account.js:110-121 | the two queries on memberships answer what the rows say: whether the user is a member, and whether another is |
| `PurgeScope.ExpandableAre` | EasyMod-backend/scripts/purge-test-account.js:147-151 | keeps, in their order, the keys whose child is none of the six root-only and retained tables, by name, nor the parent itself |
| `PurgeScope.OnePass` | EasyMod-backend/scripts/purge-test-account.js:163-187 | a sweep follows every key in order from what is there by then, reports growth exactly when a row was added, and fails exactly at a populated parent of a table without a key |
| `PurgeScope.CollectScope` | EasyMod-backend/scripts/purge-test-account.js:154-191 | returned is the least set with the roots and closed under the expandable keys, with the root tables as resolved and no retained table; giving up for want of sweeps means that each of the first twenty added a row, a returned scope that one did not |
| `PurgeScope.NotConvergedIsFar` | EasyMod-backend/scripts/purge-test-account.js:163-190 | when all twenty sweeps add rows, some row takes twenty links or more from a root |
| `PurgeScope.LayersConverge` | EasyMod-backend/scripts/purge-test-account.js:163-190 | keys in at most twenty layers make the search converge, whatever the database holds |
| `PurgeScope.ScopeIsReachable` | EasyMod-backend/scripts/purge-test-account.js:154-191 | a row is in the least scope exactly when a finite chain of rows, each with the identifier of the one before in a key column, leads to it from a root |
| `PurgeScope.LeastIsUnique` | EasyMod-backend/scripts/purge-test-account.js:154-191 | two least scopes hold the same rows, so what is said of one is said of all |
| `PurgeOrder.TopologicalOrder` | EasyMod-backend/scripts/purge-test-account.js:194-217 | terminates with the order that the set of tables and edges alone determine, whatever the order of the input, or with an error naming tables each of which has a child among them |
| `PurgeOrder.NextWave` | EasyMod-backend/scripts/purge-test-account.js:207-214 | one wave is the ready tables, sorted, each once |
| `PurgeOrder.OrderIsTopological` | EasyMod-backend/scripts/purge-test-account.js:206-216 | the order lists every table once and every child before its parent |
| `PurgeOrder.RefusedExactlyOnCycle` | EasyMod-backend/scripts/purge-test-account.js:207-210 | there is no order exactly when the non-self edges contain a cycle |
| `PurgeOrder.DeliveredIsArranged` | EasyMod-backend/scripts/purge-test-account.js:194-217 | told from the keys alone: level by level, each table one level above its highest child, and by code units within a level; or tables each of which has a child among them |
| `PurgeOrder.CyclicMeans` | EasyMod-backend/scripts/purge-test-account.js:207-210 | a cycle exists exactly when some of the tables each have a child among them |
| `Sorting.StringLeqMeans` | EasyMod-backend/scripts/purge-test-account.js:212 | the order of the sort is that of the first code units that differ, a prefix first |
| `PurgeRun.RetainPlanIs` | EasyMod-backend/scripts/purge-test-account.js:257-270 | in the order of the keys, those of the three retained tables with a row that points into the scope |
| `PurgeRun.NotNullIs` | EasyMod-backend/scripts/purge-test-account.js:272-279 | of the plan, in its order, the keys on NOT NULL columns block it |
| `PurgeRun.PlanKeepsIntegrity` | EasyMod-backend/scripts/purge-test-account.js:309-325 | the statements end in the purged database, and every foreign key and NOT NULL holds after every single statement exactly when no row outside the scope, in a root-only table or behind a self-reference, points into it |
| `PurgeRun.PurgedRow` | EasyMod-backend/scripts/purge-test-account.js:309-325 | a row is gone exactly when it is in the scope; a kept row is unchanged but for the dropped links of retained tables into the scope |
| `PurgeRun.ReportedRowsAreDeleted` | EasyMod-backend/scripts/purge-test-account.js:281-295 | for resolved roots the number of rows reported for a table is the number of rows it loses |
| `PurgeRun.TotalIsSize` | EasyMod-backend/scripts/purge-test-account.js:283-284 | the reported total is the number of rows in the delete set |
| `PurgeRun.NoStrayShops` | EasyMod-backend/scripts/purge-test-account.js:124-135 | root resolution leaves no shop outside the scope under a tenant inside it |
| `PurgeRun.OwnersAreNoStrays` | EasyMod-backend/scripts/purge-test-account.js:124-135 | for resolved roots there are strays exactly when a key other than shops to tenants has one |
| `PurgeRun.LastShopIsStray` | EasyMod-backend/scripts/purge-test-account.js:43-49 | another user whose last shop is one of the account's is a stray, in any database |
| `PurgeRun.SetNullChangesStray` | EasyMod-backend/scripts/purge-test-account.js:318-325 | with ON DELETE SET NULL the stray row loses its link though it is outside the scope |
| `PurgeRun.CascadeDeletesStray` | EasyMod-backend/scripts/purge-test-account.js:318-325 | with ON DELETE CASCADE on a reference of a table to itself the stray row is deleted though it is outside the scope |
| `PurgeExample.StrayExists` | EasyMod-backend/scripts/purge-test-account.js:98-325 | a database with both kinds of stray, another user's last shop and a category under a deleted parent, whose purge can be resolved and planned while its statements break a key |
| `PurgeRun.UserIsGone` | EasyMod-backend/scripts/purge-test-account.js:327-328 | when the scope has every user with the address, no stored email agrees with it in lower case after the purge, so the check before COMMIT cannot fail |
| `PurgeMain.LimitIsOff` | EasyMod-backend/scripts/purge-test-account.js:297 | a row limit refuses exactly the sets larger than it; it refuses none exactly when it is not a number or positive infinity |
| `PurgeMain.PlannableIsNotRefused` | EasyMod-backend/scripts/purge-test-account.js:253-299 | where the search converges, no refusal can be true of roots whose least scope has keyed tables, no blocking column, no cycle and few enough rows |
| `PurgeMain.Plan` | EasyMod-backend/scripts/purge-test-account.js:253-299 | a returned plan is ready to apply, in waves and within the row limit; each refusal is true of the least scope, and of blocking keys, a cycle and its size above the limit the first that holds is the one reported; where the search converges whatever can be planned is planned |
| `PurgeMain.Purge` | EasyMod-backend/scripts/purge-test-account.js:239-344 | applied means that no stored email agrees with the address in lower case any more, all constraints hold, and the database is exactly the purged one with no ON DELETE action fired if and only if no stray existed; anything else leaves it as it was, for a cause that is true of the account's least scope; a dry run fails by no statement; not found means that no stored email agrees with the address in lower case; roots that can be purged, a search that converges, a plan nothing refuses and no strays are enough for it to be applied; the report says what the least scope holds, children first in waves |
| `PurgeMain.Apply` | EasyMod-backend/scripts/purge-test-account.js:309-340 | the transaction commits only with the user gone; it fails only because of a stray row, and then changes nothing |
| `PurgeSchema.KeptDeleteFiresNothing` | EasyMod-backend/scripts/purge-test-account.js:319-325 | where the bare effect of a DELETE keeps integrity, no other row refers to what it deletes, so no ON DELETE action has anything to act on |
| `PurgeSchema.SatisfiedMeans` | EasyMod-backend/scripts/purge-test-account.js:60-76 | a key holds exactly when every value of its column identifies a stored parent row and, where the column is NOT NULL, every row has one |
| `PurgeSchema.ReferencingMeans` | EasyMod-backend/scripts/purge-test-account.js:174-177 | the query finds exactly the rows with one of the identifiers in the key column |
| `PurgeSchema.Connection.Execute` | EasyMod-backend/scripts/purge-test-account.js:309-325 | a statement whose bare effect keeps every constraint has exactly that effect; otherwise it fails and changes nothing, or ends in what the ON DELETE actions make of it, again with every constraint satisfied |
| `PurgeSchema.Connection.ExecuteAll` | EasyMod-backend/scripts/purge-test-account.js:310-325 | a list of statements has exactly its bare effect, with nothing fired, if and only if every prefix keeps the constraints |
| `CaptureText.ClampSettles` | EasyMod-extension/lib/capture.js:94-97 | two clamps reach a fixed point; one is enough exactly when the cut does not fall behind white space |
| `CaptureText.TrimTakesOnlySpace` | EasyMod-extension/lib/capture.js:95 | trimming takes the white space off both ends and nothing else |
| `CaptureText.SpacesAre` | EasyMod-extension/lib/capture.js:95 | white space is the twenty-five code units of sections 12.2 and 12.3 of ECMA-262 |
| `CaptureText.TrimIsUnique` | EasyMod-extension/lib/capture.js:95 | a text has one trim only |
| `CaptureText.ClampOnceIsNotEnough` | EasyMod-extension/lib/capture.js:94-97 | a value on which one clamp is not a fixed point |
| `CaptureText.ClampKeepsContent` | EasyMod-extension/lib/capture.js:94-97 | the clamp empties a value exactly when it is blank, within the limit |
| `CaptureStore.SanitizeBounds` | EasyMod-extension/lib/capture.js:249-282 | cleaning gives exactly the known fields within their limits, and a valid payload stays valid with its name |
| `CaptureStore.ValidIsOnlyTrimmed` | EasyMod-extension/lib/capture.js:249-257 | cleaning a valid payload only trims its fields, the URL aside |
| `CaptureStore.SanitizeSettles` | EasyMod-extension/lib/capture.js:249-257 | cleaning three times equals cleaning twice in every field but the URL |
| `CaptureStore.CleanedFields` | EasyMod-extension/lib/capture.js:249-257 | every field, the URL without its credentials, is its trimmed text where that fits the limit of the field and the cut of it otherwise |
| `CaptureRules.PayloadRule` | EasyMod-extension/lib/capture.js:259-282 | accepted are exactly the objects with known fields only, each undefined or a text within its limit, and a business name that is not blank |
| `CaptureRules.NonceRule` | EasyMod-extension/lib/capture.js:137-145 | a text is read as a nonce exactly when, trimmed and in small letters, it is thirty-two hexadecimal digits |
| `CaptureRules.BindingRule` | EasyMod-extension/lib/capture.js:284-310 | accepted are exactly the bindings with such a nonce, a tab from zero on if any, one of the two origins if any and the capture path if any |
| `CaptureRules.EntryRule` | EasyMod-extension/lib/capture.js:312-339 | looked at are exactly the entries with such a nonce, an age from zero to the time to live, a possible tab, a whole target or none and an accepted payload |
| `CaptureRules.ClaimRule` | EasyMod-extension/lib/capture.js:394-420 | a claim discards exactly what no nonce makes such an entry, and delivers exactly an entry whose nonce, target and tab the request repeats |
| `CaptureRules.DeliversCleaned` | EasyMod-extension/lib/capture.js:312-339 | what a claim delivers is the stored payload cleaned, the URL without its credentials |
| `CaptureRules.BindRule` | EasyMod-extension/lib/capture.js:422-459 | a bind drops and writes under the same two conditions; it keeps nonce, time and a target that is there, sets the tab and stores the payload cleaned |
| `CaptureRules.PutRule` | EasyMod-extension/lib/capture.js:370-390 | what a put stores: the cleaned payload under the nonce of the binding, with its tab and its whole target or none |
| `CaptureRules.BridgeRule` | EasyMod-extension/content-bridge.js:40-49 | the bridge hands on the response cleaned once more, the URL without its credentials, exactly unless no business name is left |
| `CaptureRules.NoCredentialsPut` | EasyMod-extension/lib/capture.js:370-390 | if no result of stripping, trimmed or cut, carries credentials, no stored URL does |
| `CaptureRules.NoCredentialsBound` | EasyMod-extension/lib/capture.js:422-459 | nor the URL a bind stores |
| `CaptureRules.NoCredentialsDelivered` | EasyMod-extension/lib/capture.js:394-420 | nor one a claim delivers, whatever the slot holds |
| `CaptureRules.NoCredentialsHandedOver` | EasyMod-extension/content-bridge.js:40-49 | nor one the bridge hands over, whatever it is answered |
| `CaptureRules.RequestRule` | EasyMod-extension/background.js:18-30 | the worker takes a message exactly when it comes from the top frame of a tab of the extension at a capture page with the nonce, origin and path of the message |
| `CaptureRules.SlotRule` | EasyMod-extension/popup.js:224-266 | the slot changes in five steps only, and to what: a put, a bind, the drop of an unusable entry, the clean-up after a failure and a claim |
| `CaptureStore.NormalNonceIsFixed` | EasyMod-extension/lib/capture.js:137-145 | a generated nonce is its own normal form |
| `CaptureStore.DeliveredOnlyToItsClaimant` | EasyMod-extension/lib/capture.js:312-339 | a claim is answered exactly for a live valid entry with the claimant's nonce, target and tab, with age in [0, ttl] and a payload that is valid again |
| `CaptureStore.BindingKeepsEntry` | EasyMod-extension/lib/capture.js:444-455 | binding keeps nonce, target and creation time, so a bound entry is live only while the stored one would be |
| `CaptureStore.PutBindClaimDelivers` | EasyMod-extension/lib/capture.js:370-459 | put, bind and claim within the TTL deliver to the bound tab and leave the entry for every other tab |
| `CaptureStore.BridgeHandsOver` | EasyMod-extension/content-bridge.js:43-49 | what the worker delivers of a stored capture passes the second cleaning unchanged but for the URL, with its name |
| `CaptureRules.AsksRule` | EasyMod-extension/background.js:36-61 | any page may ask at any time, but with the nonce of a popup that has not navigated; a message that is taken joins the queue, any other changes nothing |
| `CaptureStore.TtlFor` | EasyMod-extension/lib/capture.js:352-355 | a request from zero to five minutes is honoured, and anything else gives five minutes |
| `CaptureStore.PendingCaptureStore.Put` | EasyMod-extension/lib/capture.js:370-390 | stores and returns the payload with every field trimmed and cut, the URL without its credentials, or rejects an invalid payload or binding and leaves the slot alone |
| `CaptureStore.PendingCaptureStore.Claim` | EasyMod-extension/lib/capture.js:394-420 | returns the stored payload so cleaned and empties the slot, drops an invalid or expired entry, or leaves a mismatched one untouched |
| `CaptureStore.PendingCaptureStore.BindTargetTab` | EasyMod-extension/lib/capture.js:422-459 | writes the bound entry, drops an invalid one, or refuses a mismatch and leaves the slot alone |
| `CaptureStore.PendingCaptureStore.Clear` | EasyMod-extension/lib/capture.js:461-465 | the slot is empty afterwards |
| `CaptureRelay.BrowserIsTrusted` | EasyMod-extension/lib/capture.js:370-459 | the store's real decisions meet the contract on which the argument about interleavings rests |
| `CaptureRelay.StepKeepsInv` | EasyMod-extension/popup.js:224-257 | no step of a popup, the worker, a page or the clock breaks the invariant that ties slot, popups, claims and deliveries together |
| `CaptureRelay.ClaimTakesBoundEntry` | EasyMod-extension/background.js:46-59 | a claim about to deliver holds the entry its own popup bound to the very tab that asks |
| `CaptureRelay.EveryRunIsSafe` | EasyMod-extension/background.js:18-61 | in every interleaving, with pages asking under nonces of their own too, each nonce is delivered at most once, to the tab its popup navigated, with the popup's own payload and an age in [0, 5 min]; a popup's nonce is claimed only after it navigated |
| `CaptureRelay.NoRunDeliversCredentials` | EasyMod-extension/background.js:18-61 | if stripping leaves no credentials, no run in any interleaving delivers a URL with any |
| `CaptureRelay.NoWriteAfterNavigation` | EasyMod-extension/popup.js:238-247 | once a popup has navigated, no step of anyone writes its nonce into the slot |
| `CaptureRelay.BrowserIsAnswering` | EasyMod-extension/lib/capture.js:394-420 | a stored capture, once bound, is delivered to its own tab while it lives, and no claim discards it |
| `CaptureRelay.RunNeedsDeliverable` | EasyMod-extension/background.js:46-59 | no continuation delivers a navigated capture that is out of reach: not in the slot unexpired and in no claim's hands |
| `CaptureRelay.DeliverableReaches` | EasyMod-extension/background.js:46-59 | from every state in which it is in reach, some continuation delivers it, whatever requests wait |
| `CaptureRelay.DeliveredExactlyIfDeliverable` | EasyMod-extension/lib/capture.js:394-420 | in every reachable state a navigated, undelivered capture can still be delivered if and only if it is in reach; with the worker idle, if and only if the slot holds its unexpired entry |
| `CaptureRelay.OverlapCanLose` | EasyMod-extension/popup.js:224-247 | for any two captures there is a run of overlapping popups after which no continuation delivers the first |
| `CaptureDelivery.BrowserIsJudging` | EasyMod-extension/lib/capture.js:394-420 | a claim discards a popup's entry that is not live, delivers one its request names and leaves any other; it discards an empty slot |
| `CaptureDelivery.DeliveredExactlyIfInReach` | EasyMod-extension/lib/capture.js:394-420 | the same condition told from the state alone: what the slot, a claim's request and the entry it has read are, and how old |
| `CaptureDelivery.UndisturbedCaptureArrives` | EasyMod-extension/popup.js:224-247 | in every run in which nobody else writes or clears the slot while the entry lives, a capture whose page has asked is delivered, unless its request still waits at the end |
| `Protobuf.ReadVarint` | EasyMod-mobile/scripts/verify-android-artifact.js:100-110 | reads what the exact decoder reads, at most eight bytes and rounded as JavaScript adds; otherwise the malformed error |
| `Protobuf.Accumulate` | EasyMod-mobile/scripts/verify-android-artifact.js:105-108 | one byte moves the sum from k digits of the varint to k + 1, or completes it |
| `Protobuf.DecodeEncoded` | EasyMod-mobile/scripts/verify-android-artifact.js:100-110 | the decoder inverts the standard encoder at any offset, exactly for integers that fit the room |
| `Protobuf.ReadInvertsEncode` | EasyMod-mobile/scripts/verify-android-artifact.js:100-110 | the reader returns an encoded integer below 2^56 rounded to a number, unchanged exactly for multiples of 1, 2, 4 or 8 by its size, and refuses the rest |
| `Protobuf.ReadField` | EasyMod-mobile/scripts/verify-android-artifact.js:117-128 | reads one field head as specified and strictly advances |
| `Protobuf.ReadOneField` | EasyMod-mobile/scripts/verify-android-artifact.js:117-128 | an encoded field is read back as itself, wherever it stands, with its end as the next offset |
| `Protobuf.ProtoFields` | EasyMod-mobile/scripts/verify-android-artifact.js:113-131 | ends on every input with the length-delimited fields of one pass, or the first error |
| `Protobuf.ReadInvertsEncodeMessage` | EasyMod-mobile/scripts/verify-android-artifact.js:113-131 | an encoded message reads back as exactly its length-delimited fields, in order, if and only if every varint field is below 2^56 |
| `Protobuf.RoundsToNearest` | EasyMod-mobile/scripts/verify-android-artifact.js:105-108 | a sum below 2^56 is rounded to the nearest multiple of 1, 2, 4 or 8 by its size, and of two equally near to the even one |
| `Protobuf.ClippedAtEnd` | EasyMod-mobile/scripts/verify-android-artifact.js:125-127 | a field longer than the rest of the message is returned cut at its end |
| `BundleManifest.ReadBundleManifest` | EasyMod-mobile/scripts/verify-android-artifact.js:139-157 | the loop over fields and attributes computes the specified identity or error |
| `BundleManifest.CollectAttributes` | EasyMod-mobile/scripts/verify-android-artifact.js:145-151 | reading the fields of an element in order keeps, for every prefixed name, the last value given to it, whatever stands between |
| `BundleManifest.AttributeReads` | EasyMod-mobile/scripts/verify-android-artifact.js:143-150 | an encoded attribute reads back as its prefixed name and its value, a part that is left out as empty text |
| `BundleManifest.ManifestRoundTrip` | EasyMod-mobile/scripts/verify-android-artifact.js:139-157 | an encoded manifest gives back package, versionCode and versionName, with fields left out or in any order; a node without an element, or with another root, gives its error |
| `Cosine.CosineSimilarity` | scripts/semantic-calibration.js:46-68 | each error exactly when its condition holds; otherwise the score, which the laws below fix |
| `Cosine.CauchySchwarz` | scripts/semantic-calibration.js:60-62 | the squared dot product is at most the product of the two norms |
| `Cosine.ScoreMissing` | scripts/semantic-calibration.js:65-66 | the zero-norm error occurs exactly when one vector is zero throughout |
| `Cosine.ScoreInUnit` | scripts/semantic-calibration.js:65-67 | every score lies in [-1, 1] |
| `Cosine.ScoreCommutes` | scripts/semantic-calibration.js:46-68 | the score does not depend on the order of the vectors |
| `Cosine.ScoreIgnoresScale` | scripts/semantic-calibration.js:46-68 | a positive factor on either vector changes neither the score nor its absence |
| `Cosine.ScoreOfItself` | scripts/semantic-calibration.js:46-68 | a vector scores exactly 1 against itself |
| `Cosine.NegativeScaleNegates` | scripts/semantic-calibration.js:46-68 | a negative factor on either vector turns the score round |
| `Cosine.ScoreIsAdditive` | scripts/semantic-calibration.js:46-68 | times both norms, the score is additive in each of the vectors |
| `Cosine.UnitScores` | scripts/semantic-calibration.js:46-68 | unit vectors score 1 with themselves and 0 with each other, in every dimension |
| `Cosine.SingleEntries` | scripts/semantic-calibration.js:46-68 | vectors of one entry score the sign of their product |
| `Percentiles.DependsOnMultiset` | scripts/semantic-calibration.js:79-87 | the percentile does not depend on the order of the values |
| `Percentiles.MonotoneAndBounded` | scripts/semantic-calibration.js:79-87 | the percentile is monotone in the fraction; at 0 and 1 it is the least and the greatest value |
| `Percentiles.StraightBetween` | scripts/semantic-calibration.js:82-86 | at whole positions the percentile is the value there, and between two of them equal steps in position are equal steps in value |
| `Percentiles.PercentileIsAt` | scripts/semantic-calibration.js:79-87 | the percentile is what any listing of the values in rising order holds at the position (n - 1) f |
| `Percentiles.FewBelow` | scripts/semantic-acceptance-contract.js:38-46 | at most ceil((n - 1) f) values lie strictly below the percentile |
| `Acceptance.PercentilesAgree` | scripts/semantic-acceptance-contract.js:38-50 | the two percentile implementations agree on finite numbers |
| `Acceptance.RoundUpBounds` | scripts/semantic-acceptance-contract.js:32-36 | rounding up loses at most the slack, adds less than a thousandth and is idempotent |
| `Acceptance.CeilingCovers` | scripts/semantic-acceptance-contract.js:85-91 | the candidate ceiling exceeds every finite negative score by the margin, less the slack |
| `AcceptanceRules.CeilingIsNear` | scripts/semantic-acceptance-contract.js:84-96 | the ceiling is a whole number of thousandths, from the maximum plus the margin to less than a thousandth above, less the slack; a contract gets it exactly when READY, and both gaps are the floor less it and less the maximum |
| `AcceptanceRules.CeilingIsClose` | scripts/semantic-acceptance-contract.js:85-91 | some finite negative lies within the margin and a thousandth below the ceiling; without one the ceiling is below the margin and a thousandth |
| `AcceptanceRules.CeilingIsUnique` | scripts/semantic-acceptance-contract.js:32-36 | one number only is a whole number of thousandths that near |
| `AcceptanceRules.MaximumIsGreatest` | scripts/semantic-acceptance-contract.js:65-85 | the maximum is the greatest finite score of a negative, null counting as zero, and missing without any |
| `AcceptanceRules.FloorIsAt` | scripts/semantic-acceptance-contract.js:38-46 | the floor is what a rising listing of the finite positive scores holds at a twentieth of its length less one, and missing without any |
| `AcceptanceRules.StatusIsFirstFault` | scripts/semantic-acceptance-contract.js:67-102 | each status exactly when its condition is the first of the four to fail, told from counts, ranks, scores, tokens and the gap; READY when none does |
| `AcceptanceRules.ReadyByDefault` | scripts/semantic-acceptance-contract.js:17-23 | READY with the default options: 20 documents, 30 queries of each kind, every positive first with 0.25 or more, no shared token and a gap of 0.10, the ceiling at the maximum plus 0.05 |
| `AcceptanceRules.AcceptedExactly` | scripts/semantic-acceptance-contract.js:175-229 | which contracts are accepted, told from their fields, and exactly when a mismatch or a contract that is not ready is reported |
| `AcceptanceRules.ContractOfCandidate` | scripts/semantic-acceptance-contract.js:231-283 | the contract of a candidate has its bounds and the caller's provenance, with the workflow's run id for a missing one, and is accepted; not ready exactly without a READY candidate |
| `AcceptanceRules.ShippedContract` | scripts/semantic-acceptance-contract.js:135-166 | the shipped contract is accepted for the identity it is made for, with ceiling 0.652, its floor, threshold 0.25 and gap 0.10 |
| `AcceptanceRules.ContractOfOther` | scripts/semantic-acceptance-contract.js:305-323 | the contract offered to another identity is the shipped one under that identity, unknown for what is empty, without bounds and not ready |
| `AcceptanceRules.PositiveVerdict` | scripts/semantic-acceptance-contract.js:285-293 | a positive passes exactly at rank one with a finite score at or above the contract's threshold, or a quarter; which reason is given when |
| `AcceptanceRules.NegativeVerdict` | scripts/semantic-acceptance-contract.js:295-303 | which reason a negative is given, told from contract, tokens and score; it passes exactly with none |
| `Acceptance.ReadySeparates` | scripts/semantic-acceptance-contract.js:84-96 | when READY, at most ceil((n - 1) 0.05) finite positives lie below the floor, and a score from the floor up beats every finite negative by gap plus margin, less the slack; without finite positives the floor counts as zero |
| `Acceptance.ReadyIsAccepted` | scripts/semantic-acceptance-contract.js:231-283 | a READY derivation becomes an accepted contract if and only if provenance is well formed, identity and fixtures are current and the floor clears the ceiling by 0.10, which default options ensure |
| `Acceptance.CalibrationNegativesPass` | scripts/semantic-acceptance-contract.js:295-303 | under that contract a calibration negative passes exactly when it has no score or a finite one up to the ceiling; a margin of at least the slack puts every finite score there |
| `Acceptance.CalibrationPositivesPass` | scripts/semantic-acceptance-contract.js:285-293 | under that contract a calibration positive passes exactly when its rank is its own `expectedRank` and its score finite and at least 0.25, to which a threshold of at least 0.25 reduces to the score not being infinite |
| `Acceptance.ReadyEvidenceFails` | scripts/semantic-acceptance-contract.js:52-133 | READY evidence with a positive ranked by its source rank alone, an infinite one and a NaN negative, all of which fail the contract it makes |
| `Acceptance.OnlyCurrentIdentityIsReady` | scripts/semantic-acceptance-contract.js:305-323 | the contract offered to an identity is accepted exactly for the current one; others get the mismatch or the not-ready error and pass no negative |
| `Acceptance.AcceptedContractSeparates` | scripts/semantic-acceptance-contract.js:221-226 | under an accepted contract a passing negative stays 0.10 below the positive floor, when the safe gap is a number |
| `Acceptance.GapOfAccepted` | scripts/semantic-acceptance-contract.js:221-226 | which safe gap and floor an otherwise accepted contract may have: any floor above the ceiling if the gap is not a number, else a gap of at least 0.10 that the floor clears |
| `Acceptance.NotANumberGapIsAccepted` | scripts/semantic-acceptance-contract.js:135-166 | the shipped contract, given a safe gap that is not a number, is accepted for any floor above its ceiling |
| `Fixtures.OverlapTokens` | scripts/semantic-calibration-fixtures.js:260-263 | exactly the tokens both texts share, each once |
| `Fixtures.OverlapInOrder` | scripts/semantic-calibration-fixtures.js:260-263 | the shared tokens stand in the order in which the query first has them |
| `Fixtures.ValidateFixtures` | scripts/semantic-calibration-fixtures.js:308-369 | accepts exactly the corpora with at least eight complete documents, unique ids, known expected sources, no personal data and no negative sharing a token with a document; otherwise reports the first fault in reading order |
| `Fixtures.ValidateDocuments` | scripts/semantic-calibration-fixtures.js:315-327 | the first faulty document, or the set of all ids |
| `Fixtures.ValidatePositives` | scripts/semantic-calibration-fixtures.js:329-344 | the first faulty positive query, if any |
| `Fixtures.ValidateNegatives` | scripts/semantic-calibration-fixtures.js:346-366 | the first faulty negative query, if any |
| `Fixtures.DocumentFaultIs` | scripts/semantic-calibration-fixtures.js:315-327 | which fault of a document is reported: the first check that fails |
| `Fixtures.PositiveFaultIs` | scripts/semantic-calibration-fixtures.js:329-344 | the same of a positive query |
| `Fixtures.NegativeFaultIs` | scripts/semantic-calibration-fixtures.js:346-366 | the same of a negative query, an overlap being with the first document that shares a token |
| `Calibration.RankCountsThoseAhead` | scripts/semantic-calibration.js:70-77 | with unique ids the place of a document is the number of documents strictly ahead by score, then id |
| `Calibration.RankedByScore` | scripts/semantic-calibration.js:70-77 | the ranking holds every scored document once, by falling score and, among equal scores, by id |
| `Calibration.MatrixOfRanking` | scripts/semantic-calibration.js:348-358 | with unique ids a row of the score matrix gives each document its own score and holds nothing else |
| `CalibrationCases.PositiveCaseReads` | scripts/semantic-calibration.js:281-305 | a positive case has rank and score of the first result with its source, passes exactly at the top with 0.25 or more, and the margin is that of the first two results |
| `CalibrationCases.NegativeCaseReads` | scripts/semantic-calibration.js:308-346 | a negative case lists each token shared with any document once and carries the verdict of the contract given, none without one |
| `CalibrationCases.PositiveRates` | scripts/semantic-calibration.js:108-119 | the rates of the positives are the shares at rank one and passing |
| `CalibrationCases.NegativeRates` | scripts/semantic-calibration.js:110-124 | the rate of the negatives is the share that passes of those judged, and all are judged exactly when the flag is set |
| `Distributions.DistributionIsOrdered` | scripts/semantic-calibration.js:89-96 | every range of the summary is in order, and p50, p90 and p95 rise within the negatives' range |
| `Distributions.RangesSpan` | scripts/semantic-calibration.js:89-96 | a range is the ends and the middle of a rising listing of the finite numbers of its own fields |
| `Distributions.PercentilesHold` | scripts/semantic-calibration.js:138-142 | p50, p90 and p95 are what a rising listing of the negatives holds at 0.5, 0.9 and 0.95 |
| `Distributions.GapReads` | scripts/semantic-calibration.js:143-145 | the observed gap is from the greatest negative to the least positive, missing without either |
| `CalibrationRun.SummaryMatchesDerivation` | scripts/semantic-calibration.js:112-145 | over validated fixtures the summary and the derivation have the same negative maximum, and the observed gap is no wider than the derived one |
| `Calibration.BuildPositives` | scripts/semantic-calibration.js:272-306 | one case per positive query, in order, from its ranking; fails exactly when a ranking does |
| `Calibration.BuildNegatives` | scripts/semantic-calibration.js:308-346 | one case per negative query, in order, from its ranking; fails exactly when a ranking does |
| `Calibration.RunDimension` | scripts/semantic-calibration.js:272-375 | succeeds exactly when every query can be ranked, and then concludes from exactly those cases: matrix, summary, derivation and class |
| `CalibrationRun.RunFailsOnZeroVector` | scripts/semantic-calibration.js:65-66 | a run fails exactly when it meets a zero vector |
| `CalibrationRun.ExpectedRank` | scripts/semantic-calibration.js:281-297 | over validated documents the expected source is found with its own score, and its rank is one plus the number of documents ahead of it |
| `CalibrationRun.ExpectedSourceExists` | scripts/semantic-calibration-fixtures.js:341-343 | every expected source of a validated corpus is a document |
| `CalibrationRun.UnreachableStatuses` | scripts/semantic-acceptance-contract.js:95-102 | over validated fixtures NEGATIVE_FIXTURE_LEXICAL_OVERLAP cannot occur, and the initial PENDING_RECALIBRATION never survives |
| `CalibrationRun.ClassMeans` | scripts/semantic-calibration.js:150-152 | which positives make a run a ranking problem or a threshold problem |
| `CalibrationRun.ClassMatchesStatus` | scripts/semantic-calibration.js:150-163 | ACCEPTANCE_B exactly when the derivation is READY, and the unreliable-threshold class exactly when the distributions overlap |
| `CalibrationRun.ContractChangesOnlyVerdicts` | scripts/semantic-calibration.js:325-346 | a contract handed to the run changes neither its positive cases nor what it derives |
| `CalibrationRun.CalibrationPassesItsOwnContract` | scripts/semantic-calibration.js:325-345 | run again under the contract its READY derivation made, every negative is evaluated and passes, every positive passes and the derivation is the same |
| `CivilDate.DateRoundTrip` | EasyMod-growth/src/growthTime.ts:26-34 | every day number is the day of the valid date it is formatted as (ECMA-262 section 21.4.1) |
| `CivilDate.DayRoundTrip` | EasyMod-growth/src/growthTime.ts:26-34 | year, month and day are recovered from their day number exactly when they are a valid date |
| `CivilDate.ValidDateByLength` | EasyMod-growth/src/growthTime.ts:26-34 | a date is valid exactly when its day is between 1 and the length of the month, 30 in April, June, September and November, 28 or 29 in February by the 4/100/400 rule and 31 otherwise |
| `CivilDate.MonthsRunOn` | EasyMod-growth/src/growthTime.ts:26-34 | day 0 is 1 January 1970, and the first of the next month is that length later, for every year and month, those beyond the year included; days run on |
| `CivilDate.YearOfDay` | EasyMod-growth/src/growthTime.ts:26-34 | days order as their years do |
| `GrowthTime.OffsetIsMeasured` | EasyMod-growth/src/growthTime.ts:25-35 | from year 101 on, the offset computed through the formatted parts is the zone's offset |
| `GrowthTime.TwoStepsSuffice` | EasyMod-growth/src/growthTime.ts:41-43 | around at most one change of the offset the second guess reads as the wall time exactly when that wall time exists, the repeated hour included |
| `GrowthTime.ParseInvertsFormat` | EasyMod-growth/src/growthTime.ts:61-67 | the text of a four-digit year parses back to its fields |
| `GrowthTime.FormatInvertsParse` | EasyMod-growth/src/growthTime.ts:37-41 | a text of the expected shape is the print of its fields unless its year starts with a zero |
| `GrowthTime.ParsedExactly` | EasyMod-growth/src/growthTime.ts:37-41 | which texts are read and as what, digit by digit, for all years from 0000 on and whatever the fields |
| `GrowthTime.WrittenExactly` | EasyMod-growth/src/growthTime.ts:66-68 | a local time is written as its signed year and month, day, hour and minute in two digits each |
| `GrowthTime.DecimalReads` | EasyMod-growth/src/growthTime.ts:66-68 | a number is written in the digits of its value without a leading zero |
| `GrowthTime.NaiveMeans` | EasyMod-growth/src/growthTime.ts:41 | `Date.UTC` of the fields: whole days and the time, and a year below 100 as one of the twentieth century |
| `GrowthTime.InstantIs` | EasyMod-growth/src/growthTime.ts:37-43 | a text has no instant exactly when its shape is wrong; from year 1000 on it is corrected twice by the offsets of the zone, whatever its date |
| `GrowthTime.RepeatedHour` | EasyMod-growth/src/growthTime.ts:41-43 | of two instants with the same wall time the one is taken whose offset is in force at that time taken for UTC |
| `GrowthTime.PrintsTheMinute` | EasyMod-growth/src/growthTime.ts:61-68 | an instant prints as its local time cut to the minute |
| `GrowthTime.InstantRoundTrip` | EasyMod-growth/src/growthTime.ts:37-71 | an instant on a minute of local time comes back from its text if and only if no other has the same wall time or it is the one just named |
| `GrowthTime.LocalRoundTrip` | EasyMod-growth/src/growthTime.ts:37-71 | local text to instant and back is the identity if and only if the year is at least 1000, the date and time are valid and the zone does not skip that wall time |
| `GrowthTime.SkippedWallTimeMoves` | EasyMod-growth/src/growthTime.ts:37-71 | for every text there is a zone, with one change of an hour, that skips its wall time and does not give it back |
| `GrowthTime.SkippedText` | EasyMod-growth/src/growthTime.ts:38 | such a text, of a valid date and time |
| `GraphPagination.PaginateGraphCollection` | EasyMod-backend/scripts/meta-page-discovery-probe.js:65-89 | ends on any server that names finitely many cursors, even one that changes its answers, with the rows of the requests it makes, in order: the caller's own and then each cursor named, exactly until a page names none, an empty one, the one just asked for or one followed before |
| `GraphPagination.LaterRequestsAreNew` | EasyMod-backend/scripts/meta-page-discovery-probe.js:79-85 | every request after the first carries the cursor the page before it named, not requested before |
| `GraphPagination.NeverRepeats` | EasyMod-backend/scripts/meta-page-discovery-probe.js:65-89 | started without a cursor no request is made twice, whatever the server answers, and there are at most one more than the cursors |
| `GraphPagination.StartedAtCursor` | EasyMod-backend/scripts/meta-page-discovery-probe.js:67-86 | started at a cursor, no request is made twice if and only if no page after the first names that cursor |
| `GraphPagination.StartedAtCursorRepeats` | EasyMod-backend/scripts/meta-page-discovery-probe.js:67-86 | two cursors that name each other: started at one, it is requested twice |
| `GraphPagination.ChainIsFetched` | EasyMod-backend/scripts/meta-page-discovery-probe.js:65-89 | on an acyclic chain every page is fetched, if and only if the first cursor is not spelled "null"; then only the first page is |
| `GraphPagination.NullCursorStops` | EasyMod-backend/scripts/meta-page-discovery-probe.js:82-83 | a server whose second page, behind the cursor "null", is never fetched |
| `WorkerPool.StepKeepsInv` | EasyMod-backend/scripts/meta-page-discovery-probe.js:96-102 | every step of any worker keeps each pulled index running once or finished with its mapped value |
| `WorkerPool.EveryStepCounts` | EasyMod-backend/scripts/meta-page-discovery-probe.js:96-104 | every step brings the end one step closer |
| `WorkerPool.EveryRunIsOrderly` | EasyMod-backend/scripts/meta-page-discovery-probe.js:91-106 | in every interleaving no index is mapped twice, there are as many workers as `concurrency` says, or as values if these are fewer, the run is bounded and never stuck before the end |
| `WorkerPool.FinishedRunIsComplete` | EasyMod-backend/scripts/meta-page-discovery-probe.js:91-106 | when all workers have stopped, every result is the mapped value if and only if there was nothing to map or at least one worker |
| `WorkerPool.AllWorkersRun` | EasyMod-backend/scripts/meta-page-discovery-probe.js:91-106 | in some run all of these workers run an index of their own at once |
| `KeysetScan.AfterMeansLater` | EasyMod-backend/scripts/import-growth-prospects.js:122-128 | a row is after the cursor of another exactly when it comes strictly later in (created_at, id) order |
| `KeysetScan.QueryContinuesScan` | EasyMod-backend/scripts/import-growth-prospects.js:163-171 | the query after any row of the full scan yields exactly the rest of the scan |
| `KeysetScan.SourceRows` | EasyMod-backend/scripts/import-growth-prospects.js:163-176 | each batch is the page behind the last row of the one before, its time as the cursor keeps it, and the generator is done exactly when that page is empty, for every batch size and cursor |
| `KeysetScan.QueryIsPage` | EasyMod-backend/scripts/import-growth-prospects.js:122-171 | a page is the earliest rows wanted, at most as many as the limit and all of them below it, each once, in (created_at, id) order: lead rows of the audit log or any application, later than the cursor |
| `KeysetScan.FullScanIs` | EasyMod-backend/scripts/import-growth-prospects.js:163-171 | the full scan is all rows wanted, each once and in order |
| `KeysetScan.FullScanExactly` | EasyMod-backend/scripts/import-growth-prospects.js:130-176 | for a cursor that never rounds up the loop ends with its batches one full sorted scan if and only if the cursor is exact at every batch end |
| `KeysetEnds.EndsByWalk` | EasyMod-backend/scripts/import-growth-prospects.js:122-176 | for any cursor that never rounds up: the loop ends if and only if the walk over positions of the scan stands at the end after as many steps as there are rows, and the greatest row is kept exactly |
| `KeysetEnds.EndsWithinScan` | EasyMod-backend/scripts/import-growth-prospects.js:163-176 | a loop that ends hands out no more batches than there are selected rows, for any cursor |
| `KeysetEnds.EndsIf` | EasyMod-backend/scripts/import-growth-prospects.js:122-176 | it ends if the greatest row is kept exactly and no earlier row's cursor leaves as many as a batch of the rows up to it to be read again |
| `KeysetEnds.EndsOnlyIf` | EasyMod-backend/scripts/import-growth-prospects.js:122-176 | it ends only if the greatest row is kept exactly and, for a monotone cursor, no earlier row's rounded time leaves as many as a batch of the rows up to it later than it |
| `KeysetEnds.EndsExactly` | EasyMod-backend/scripts/import-growth-prospects.js:122-176 | the two conditions are one, and exact, unless a row sits at the very time a later row's cursor rounds to with a greater id |
| `KeysetEnds.EarlierRowRepeats` | EasyMod-backend/scripts/import-growth-prospects.js:130-133 | a table whose greatest row is kept exactly and that batches of one never get through |
| `KeysetEnds.StuckIsPassedOver` | EasyMod-backend/scripts/import-growth-prospects.js:130-133 | a table with such a tie, through which batches of three do get although one position would be stuck |
| `KeysetScan.OneRowRepeats` | EasyMod-backend/scripts/import-growth-prospects.js:163-176 | one row whose time the cursor rounds down is handed out for ever, whatever the batch size |
| `KeysetScan.MicrosecondsRepeat` | EasyMod-backend/scripts/import-growth-prospects.js:130-133 | such a row and cursor: one microsecond past a millisecond |
| `SourceIntegrity.AssertRealSourceIntegrity` | scripts/qdrant-migration-proof.js:645-680 | succeeds if and only if the counts and dimensions agree, points and sources correspond one to one with equal shop and type, and every point is sound; each error says which condition was the first to fail |
| `SourceIntegrity.CountingForces` | scripts/qdrant-migration-proof.js:652-660 | as many distinct known ids as sources means that no source id repeats and none is left out |
| `SourceIntegrity.EverySourceHasItsPoint` | scripts/qdrant-migration-proof.js:652-677 | under the correspondence every source has exactly one point |
| `CollectionState.Collection.SetState` | scripts/qdrant-migration-proof.js:426-439 | moves exactly along the allowed transitions |
| `CollectionState.AllowedExactly` | EasyMod-backend/src/modules/rag/embedding-space.js:116-133 | the eight moves allowed beside staying put; nothing leads back to validation or out of FAILED |
| `CollectionState.Collection.Fail` | scripts/qdrant-migration-proof.js:880-888 | only an undecided collection is marked failed |
| `CollectionState.CheckEvidence` | scripts/qdrant-migration-proof.js:896-913 | the checks of a real-source run succeed exactly when it answers, the counts and sizes agree and points and sources correspond one to one |
| `CollectionState.Collection.ValidateRealSource` | scripts/qdrant-migration-proof.js:891-937 | leaves the state its run settles and passes exactly when all its checks do |
| `CollectionState.Collection.ValidateControlled` | scripts/qdrant-migration-proof.js:715-889 | leaves the state its run settles; a throw before the try changes nothing, and without calibration it returns early and decides nothing |
| `CollectionState.FirstDecisiveRunSettles` | EasyMod-backend/src/modules/rag/embedding-space.js:116-133 | over any sequence of runs the first decisive one settles an undecided collection for good, READY exactly when all its checks passed; a READY collection is never demoted |
| `CollectionState.ReadyMeansOneToOne` | scripts/qdrant-migration-proof.js:891-937 | a collection that a real-source run made READY had exactly one matching point for every source |
| `Readiness.ProbeReadiness` | scripts/qdrant-restore-readiness.js:25-72 | a probe takes as long as the answer or its timeout, whichever is shorter, and is ready exactly when the answer was and came before the timeout |
| `Readiness.WaitForReadiness` | scripts/qdrant-restore-readiness.js:78-131 | the wait is the source's: probes start at zero and then one probe and one sleep apart, each with the time left or the request timeout, until one is ready or the deadline is used up |
| `Readiness.WaitIsBounded` | scripts/qdrant-restore-readiness.js:78-131 | it ends within the deadline, gives up only when all of it is used, makes at most ceil(deadline / interval) attempts with positive timeouts, and is ready exactly when its last probe was |
| `Readiness.EndpointUpIsFound` | scripts/qdrant-restore-readiness.js:78-131 | an endpoint that answers ready, faster than the request timeout, from some time on is found ready if a probe, a sleep and an answer still fit between that time and the deadline |

## Left out

- PurgeSchema.Connection.Execute: what ON DELETE CASCADE and SET NULL make of a state is a parameter; it
  matters only when stray rows exist. The schema's strays come by
  EasyMod-backend/src/database/migrations/20260522_001_fix_users_schema.js:21 (SET NULL) and
  EasyMod-backend/src/database/migrations/20260520_000_initial_schema.js:194 (CASCADE).
- PurgeMain.Purge: the upload directories removed after COMMIT, foreign keys over several columns or to
  columns that are not the primary key, and concurrent writers.
- PurgeRoots.ResolveRoots: membership rows have both columns set, as the schema's NOT NULL demands
  (EasyMod-backend/src/database/migrations/20260520_000_initial_schema.js:161-170).
- CaptureStore.SanitizeSettles: does not cover `pageUrl`, because `stripUrlCredentials` is a parameter;
  URL parsing is not part of this model. What is stored, delivered and handed over is told in terms of it.
- CaptureRelay.EveryRunIsSafe: a popup's nonce is fresh, and no page carries it before its popup
  navigated; service-worker restarts and failing storage calls do not occur. A popup may fail after
  navigating.
- CaptureRelay.DeliveredExactlyIfDeliverable: continuations in which the clock goes back are not looked at.
- Protobuf.ReadInvertsEncodeMessage: field numbers and lengths are those a JavaScript number holds
  exactly; groups are refused, as the reader refuses them. UTF-8 decoding is a parameter.
- Cosine.CosineSimilarity: exact reals instead of floating point; the square root is a parameter with
  its defining law.
- Acceptance.RoundUpBounds: `toFixed` is the identity on thousandths of exact reals.
- Acceptance.ReadyIsAccepted: `Date.parse` is a predicate on the text of the time.
- Fixtures.ValidateFixtures: the token and personal-data patterns are parameters.
- Calibration.RunDimension: embedding requests are replaced by their vectors, finite and of one length as
  the request function guarantees; the five best results and the texts copied into a case are not built.
- Calibration.RankCountsThoseAhead: `localeCompare` is any total order that separates the ids.
- GrowthTime.TwoStepsSuffice: the offset changes at most once within a day of the wall time, and then by
  at least a minute; `Intl` formats civil fields of the shifted instant, years before the common era
  aside.
- GraphPagination.PaginateGraphCollection: request failures.
- GraphPagination.ChainIsFetched: a server that answers a request the same way each time.
- WorkerPool.FinishedRunIsComplete: a mapper that rejects.
- KeysetScan.SourceRows: the table is fixed during the scan; the row mappers, related rows and the counters
  of the import are simple and not modelled.
- KeysetScan.FullScanExactly: cursors that round a time up.
- KeysetEnds.EndsByWalk: cursors that round a time up.
- PurgeMain.Plan: of a search that does not converge and a missing key either may be reported.
- SourceIntegrity.AssertRealSourceIntegrity: manifest flag, embedding space and text of a point are one
  fact about it.
- CollectionState.FirstDecisiveRunSettles: runs on one collection follow one another, and the marking of a
  failed run does not itself fail.
- Readiness.WaitForReadiness: time passes only in probes and sleeps, which are exact.
- Runners, shells, configuration, user interfaces and the remaining audit scripts have no property of
  this kind.
