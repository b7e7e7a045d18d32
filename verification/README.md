# oed-authz role reconciliation, modelled in Dafny

oed-authz is the policy information point (PIP) for estate settlement in
Altinn. The court publishes events for an estate. Each event carries a case
status and the authoritative list of (heir, court role) pairs. The service
keeps a table of role assignments in step with those events, and it answers
queries about who holds which role for an estate.

This project models the core of that service as pure functions over
immutable data:

- **The role table.** `RoleStore.Store` is a sequence of `Domain.RoleAssignment`
  rows plus the next identity value. It supports exact-match reads, insert and
  exact-match delete. Its table constraints are stated in `Schema`: two unique
  indexes, the primary key and the column widths.
- **The current event handler.** `EventHandler` covers:
  - dispatch on the event type;
  - the ordering guard on the per-(estate, event type) cursor;
  - the court-role diff;
  - the wipe of a wrongly filed (FEILFORT) estate;
  - the all-or-nothing transaction. A `Response` whose outcome is not
    `Committed` carries the state from before the call.
- **The legacy event handler.** `LegacyEventHandler` has no cursor and no
  transaction. It treats an event as outdated when some court role is at
  least as new as the event.
- **The read side.**
  - `PipService`: validation, choosing the estate or the recipient query, and
    the field-preserving projection.
  - `PipController`: drops individual-proxy rows.
  - `ExternalAuthorization`: probate-only disclosure unless the caller holds
    the all-roles scope.
  - `LegacyPip`: the legacy query dispatch.
  - `Web`: how an `ArgumentException` becomes a 400 reply.
- **Identity numbers and tokens.**
  - `Ssn.IsValidSsn`: the eleven-digit check.
  - `JwtReader`: finds the payload segment of a JWS Compact Serialization
    (section 7.1 of RFC 7515) and turns its base64url text into padded base64
    (sections 4 and 5 of RFC 4648), so that the `iss` claim (section 4.1.1 of
    RFC 7519) can be read.

Time is modelled as `Domain.Instant = nat`. The value `0` stands for
`default(DateTimeOffset)`, which is also its minimum, and `ToUniversalTime`
is the identity.

Some of what the handler needs lives outside this model. Each of these is a
parameter of `EventHandler.Env`:

- the role-code constants;
- the extraction of the estate number from the event subject;
- the collective-proxy step. It is not part of this model; it reads and
  rewrites the table inside the same transaction and may fail.

The PIP query the external controller calls is a parameter as well, and so is
the base64 and JSON decoding in `JwtReader`.

Where the design description and the code disagree, the model follows the
code:

- **Estate number.** The handler does not check the estate number it extracts
  from the event subject. No such check is modelled.
- **A cursor created for a discarded event.** Such a cursor would be rolled
  back with the transaction. This case cannot arise in any event: a new
  cursor's watermark is the default instant, and the ordering guard never
  discards against it (`EventHandler.FirstEventNeverDiscarded`).

## Model

| member | source | states |
|---|---|---|
| Ssn.IsValidSsn | Utils.cs:10-23 | An identity number is valid exactly when it has eleven characters, all of them in '0'..'9'. Any other length and any non-digit is rejected. |
| Ssn.AllDigits | Utils.cs:14-20 | The character scan accepts exactly the strings with no character outside '0'..'9'. |
| Ssn.RejectedExamples | Utils.cs:12-20 | "", "abc123" and "1234567890a" are rejected. |
| Ssn.LeadingZerosAccepted | Utils.cs:10-23 | "00000000001" is accepted: leading zeros do not matter. |
| Schema.IndexesMeanUniqueKeys | src/oed-authz/Infrastructure/Database/Model/RoleAssignmentConfiguration.cs:16-26 | The four-column unique index, where SQL NULLs are distinct, together with the filtered index over rows with a null heir, holds exactly when (estate, recipient, role code, heir) is unique with null equal to null. |
| Schema.IndexOneAloneAdmitsDuplicates | src/oed-authz/Infrastructure/Database/Model/RoleAssignmentConfiguration.cs:16-17 | Without the filtered index, two identical null-heir grants would satisfy the first index. |
| RoleStore.WellFormedMeetsConstraints | src/oed-authz/Infrastructure/Database/Model/RoleAssignmentConfiguration.cs:13-26 | A well-formed table satisfies both unique indexes and the primary key. |
| RoleStore.ForEstate | Repositories/RoleAssignmentsRepository.cs:31-37 | Returns exactly the rows whose estate equals the argument. |
| RoleStore.ForPerson | Repositories/RoleAssignmentsRepository.cs:39-47 | Returns exactly the rows that match both the estate and the recipient. |
| RoleStore.ForPersonNarrowsForEstate | Repositories/RoleAssignmentsRepository.cs:31-47 | The person query is the estate query narrowed to the recipient, in the same order (in the model's table order; see Left out). |
| RoleStore.Insert | Repositories/RoleAssignmentsRepository.cs:22-29 | Fails with a database error exactly when a value is longer than its column or the business key is already taken (Postgres cuts an excess of spaces instead; see Left out). Otherwise it appends exactly one row, carrying a fresh identity value, and changes nothing else. |
| RoleStore.InsertPreservesWellFormed | src/oed-authz/Infrastructure/Database/Model/RoleAssignmentConfiguration.cs:13-58 | A successful insert keeps every table constraint. |
| RoleStore.Remove | Repositories/RoleAssignmentsRepository.cs:49-60 | Deletes exactly the rows that agree on estate, recipient, role code and heir, where a null heir matches only a null heir. The identity sequence is untouched. |
| RoleStore.RemoveMatching | Repositories/RoleAssignmentsRepository.cs:49-60 | Removing by an assignment deletes exactly the rows that share its key fields. |
| RoleStore.RemoveIgnoresIdAndCreated | Repositories/RoleAssignmentsRepository.cs:55-59 | Two assignments that agree on the four key fields delete the same rows, whatever their id and creation time. |
| RoleStore.RemoveAbsentIsNoop | Repositories/RoleAssignmentsRepository.cs:54-60 | Removing a key that no row carries leaves the table unchanged. |
| RoleStore.RemoveIdempotent | Repositories/RoleAssignmentsRepository.cs:54-60 | Removing twice is the same as removing once. |
| RoleStore.NullHeirRemoveSparesDelegations | Repositories/RoleAssignmentsRepository.cs:59 | A null-heir delete never removes a row that has a delegating heir. |
| RoleStore.RemovePreservesWellFormed | Repositories/RoleAssignmentsRepository.cs:49-60 | Deleting keeps every table constraint. |
| RoleStore.InsertAll | src/oed-authz/Services/EventHandlerService.cs:137-140 | A batch of inserts that succeeds appends the batch, with ids handed out in order. A failure is a database error. |
| RoleStore.InsertAllWritesPrefix | Services/EventHandlerService.cs:135-138 | Without a transaction, a failing batch leaves exactly some prefix of its inserts in the table. |
| RoleStore.InsertAllSucceeds | src/oed-authz/Services/EventHandlerService.cs:137-140 | A batch whose rows fit their columns, whose keys are free and whose keys are pairwise distinct succeeds. |
| RoleStore.InsertAllPreservesWellFormed | src/oed-authz/Services/EventHandlerService.cs:137-140 | A batch of inserts, complete or partial, keeps every table constraint. |
| RoleStore.RemoveAll | src/oed-authz/Services/EventHandlerService.cs:142-145 | A batch of deletes keeps exactly the rows whose key is not in the batch. |
| RoleStore.RemoveAllPreservesWellFormed | src/oed-authz/Services/EventHandlerService.cs:142-145 | A batch of deletes keeps every table constraint. |
| CourtRoles.CurrentCourtRoles | src/oed-authz/Services/EventHandlerService.cs:82-84 | The current court roles are exactly the estate's rows whose role code has the court prefix. |
| CourtRoles.EntryError | src/oed-authz/Services/EventHandlerService.cs:90-99 | An heir entry is accepted exactly when its number is valid and its role has the court prefix. The number is checked first, and both failures are argument exceptions. |
| CourtRoles.RemovalKeys | src/oed-authz/Services/EventHandlerService.cs:116-132 | A delete is issued exactly for each current court row whose (recipient, role) pair is no longer listed. The delete names that pair with a null heir. |
| CourtRoles.RemoveAllRoleAssignmentsForEstate | src/oed-authz/Services/EventHandlerService.cs:148-160 | Removes every row of the estate, whatever its role code or heir, and keeps every other row. |
| CourtRoles.WipePreservesWellFormed | src/oed-authz/Services/EventHandlerService.cs:148-160 | The wipe keeps every table constraint. |
| EventHandler.PlanAdds | src/oed-authz/Services/EventHandlerService.cs:86-114 | The add loop succeeds exactly when every entry is valid. A failure reports the first bad entry. A success plans one new row for each listed pair that no current court row holds, in list order. |
| EventHandler.UpdateCourtAssignedRoleAssignments | src/oed-authz/Services/EventHandlerService.cs:75-146 | The diff fails with an argument exception exactly when some heir entry is bad. Any other failure is a database error. |
| EventHandler.DiffShape | src/oed-authz/Services/EventHandlerService.cs:137-145 | A successful diff runs all the inserts first and then all the deletes. |
| EventHandler.DiffDeletesExactlyStaleRows | src/oed-authz/Services/EventHandlerService.cs:116-145 | A stored row survives the diff exactly when it is not a null-heir court row of the estate whose pair the list no longer names. Listed pairs keep their original row. |
| EventHandler.StampedRowIsAdded | src/oed-authz/Services/EventHandlerService.cs:101-112 | Every inserted row is a null-heir court grant created at the event time for a listed pair that no court row held before, with a fresh id. |
| EventHandler.DiffAddsOnlyNewCourtRows | src/oed-authz/Services/EventHandlerService.cs:101-112 | Every row after the diff was either stored before or is such an added grant. |
| EventHandler.DiffCoversHeirList | src/oed-authz/Services/EventHandlerService.cs:88-114 | After the diff, every listed pair is held by a court row of the estate. |
| EventHandler.DiffLeavesOutOfScopeRowsAlone | src/oed-authz/Services/EventHandlerService.cs:82-84 | Rows of other estates and rows without the court prefix are neither created nor deleted by the diff. |
| EventHandler.DiffCourtPairsEqualHeirList | src/oed-authz/Services/EventHandlerService.cs:82-145 | When no court row of the estate is delegated, the estate's court pairs after the diff are exactly the pairs of the heir list. |
| EventHandler.DiffPreservesWellFormed | src/oed-authz/Services/EventHandlerService.cs:75-146 | The diff keeps the null-heir uniqueness and every other table constraint. |
| EventHandler.PlannedAddIsInsertable | src/oed-authz/Services/EventHandlerService.cs:101-112 | A planned row fits its columns (given an estate of at most 11 characters and roles of at most 60) and its key is free. |
| EventHandler.PlannedAddsDistinct | src/oed-authz/Services/EventHandlerService.cs:101-112 | When the heir list repeats no (number, role) pair, the planned rows have pairwise distinct keys. |
| EventHandler.DiffSucceeds | src/oed-authz/Services/EventHandlerService.cs:75-146 | With valid entries, no repeated pair, and values that fit their columns, the diff never hits a unique index. |
| EventHandler.WatermarkOf | src/oed-authz/Services/EventHandlerService.cs:168-185 | A missing cursor is created with the default watermark. |
| EventHandler.ApplyEventData | src/oed-authz/Services/EventHandlerService.cs:59-68 | A FEILFORT payload wipes the estate. Otherwise a bad heir entry fails before the proxy step. |
| EventHandler.HandleEstateInstanceCreatedOrUpdated | src/oed-authz/Services/EventHandlerService.cs:30-73 | The event is discarded exactly when the ordering guard says so. Every outcome other than commit leaves roles and cursors as they were. A commit sets exactly this event's cursor to the event time. A cursor created for the event is written when the transaction saves. If its estate is wider than `character(11)` or its event type wider than 255 characters, the event fails with a database error and is rolled back (an excess of spaces aside; see Left out). |
| EventHandler.HandleEvent | src/oed-authz/Services/EventHandlerService.cs:20-28 | The subscription handshake (`ValidateSubscription`, line 198) is ignored without effect. An unknown type fails with "Unknown event type" and changes nothing. Only a `CaseStatusUpdateValidated` event (line 193) can commit. No watermark ever moves back. |
| EventHandler.EventIsOutOfOrder | src/oed-authz/Services/EventHandlerService.cs:162-166 | A cursor at the default instant accepts every event. Otherwise an event is accepted exactly when it is strictly newer than the watermark. |
| EventHandler.RaisedWatermarkDiscardsMore | src/oed-authz/Services/EventHandlerService.cs:162-166 | A higher watermark discards every event a lower one discards. An event whose time is not the default is out of order against its own time. |
| EventHandler.DiscardedIff | src/oed-authz/Services/EventHandlerService.cs:162-166 | An event is discarded exactly when its cursor exists, is not at the default instant, and is not older than the event. Ties are discarded. |
| EventHandler.FirstEventNeverDiscarded | src/oed-authz/Services/EventHandlerService.cs:168-185 | The first event for an (estate, event type) pair is never discarded. |
| EventHandler.MissingDataAfterGuard | src/oed-authz/Services/EventHandlerService.cs:37-52 | An event without data is discarded silently when it is out of order. Otherwise it fails with an ArgumentNullException for "Data". |
| EventHandler.InvalidEntryRollsBack | src/oed-authz/Services/EventHandlerService.cs:88-99 | A bad heir entry anywhere in the list fails the event with the first bad entry's exception. Roles and cursor are left exactly as before. |
| EventHandler.FeilfortWipesEstate | src/oed-authz/Services/EventHandlerService.cs:59-62 | An accepted FEILFORT event commits exactly when its cursor already exists or a new one fits the cursor table. On commit, every row of the estate is removed and every other row is kept. Otherwise the save fails with a value-too-long database error and nothing changes (an excess of spaces aside; see Left out). |
| EventHandler.FeilfortSkipsDiffAndProxy | src/oed-authz/Services/EventHandlerService.cs:59-68 | For a FEILFORT event, neither the heir list nor the proxy step affects the result. |
| EventHandler.DiffThenProxy | src/oed-authz/Services/EventHandlerService.cs:63-72 | Any other accepted event commits exactly when the diff and the proxy step both succeed and the cursor can be saved: it already exists, or a new one fits its columns (an excess of spaces aside; see Left out). It commits with the table the proxy step returns. |
| EventHandler.AcceptedTimesIncrease | src/oed-authz/Services/EventHandlerService.cs:37-72 | Of two committed events on the same cursor, the later one is strictly newer, unless the earlier one carried the default instant. |
| EventHandler.ReplayIsDiscarded | src/oed-authz/Services/EventHandlerService.cs:37-72 | Redelivering a committed event, whose time is not the default, is discarded and changes nothing. |
| EventHandler.OlderAfterNewerDiscarded | src/oed-authz/Services/EventHandlerService.cs:37-72 | An event no newer than one already committed on the same cursor is discarded. |
| EventHandler.HandleEventKeepsCursorsFit | src/oed-authz/Infrastructure/Database/Model/EventCursorConfiguration.cs:16-23 | Handling an event never stores a cursor whose estate or event type is wider than its column. |
| EventHandler.OverWideEstateNeverCommits | src/oed-authz/Services/EventHandlerService.cs:30-73 | An event whose estate number is wider than 11 characters never commits and changes nothing. Its cursor cannot exist, and creating it fails the save. In Postgres this holds only when the excess is not all spaces; see Left out. |
| EventHandler.HandleEventPreservesWellFormed | src/oed-authz/Services/EventHandlerService.cs:20-73 | Handling any event keeps the table well formed, provided the proxy step does. |
| EventHandler.RunWatermarksNeverDecrease | src/oed-authz/Services/EventHandlerService.cs:37-72 | Along any stream of deliveries, no cursor disappears and no watermark moves back. |
| EventHandler.RunPreservesWellFormed | src/oed-authz/Services/EventHandlerService.cs:20-73 | Along any stream of deliveries, the table stays well formed, provided the proxy step keeps it so. |
| LegacyEventHandler.PlanAdds | Services/EventHandlerService.cs:79-112 | An empty list plans nothing. When some court role is at least as new as the event, the first entry decides: an invalid number throws, a valid one bails. Otherwise the plan is the current handler's plan. |
| LegacyEventHandler.UpdateCourtAssignedRoleAssignments | Services/EventHandlerService.cs:66-144 | A validation failure leaves the table unchanged. Every failure is an argument exception or a database error. |
| LegacyEventHandler.ReplayAfterAddBails | Services/EventHandlerService.cs:86-111 | An event applied by the legacy diff that added a court role is outdated afterwards, because the role it added carries the event time. Redelivering it bails without writing. |
| LegacyEventHandler.OutdatedEventBails | Services/EventHandlerService.cs:86-91 | With a non-empty list, a valid first number and an outdated event, the diff changes nothing and reports nothing. |
| LegacyEventHandler.EmptyListClearsCourtRoles | Services/EventHandlerService.cs:79-143 | An empty list never reaches the outdated test. Every null-heir court row of the estate is deleted and every other row is kept. |
| LegacyEventHandler.AgreesWithCurrentWhenNotOutdated | Services/EventHandlerService.cs:99-143 | When the event is not outdated, the legacy diff fails exactly when the current one does, with the same exception. On success it produces the same table. |
| LegacyEventHandler.HandleEstateInstanceCreatedOrUpdated | Services/EventHandlerService.cs:41-64 | Missing data fails with an ArgumentNullException and changes nothing. A FEILFORT event wipes the estate and skips the proxy step. |
| LegacyEventHandler.HandleEvent | Services/EventHandlerService.cs:24-39 | Both estate event types go to the same handler. The subscription handshake does nothing. Any other type fails with "Unknown event type" and no effect. |
| LegacyEventHandler.EstateEventTypesAlike | Services/EventHandlerService.cs:28-33 | case-status-updated and heir-roles-updated events are handled identically. |
| LegacyEventHandler.ProxyRunsAfterBail | Services/EventHandlerService.cs:58-91 | After a bail, the proxy step still runs, on the untouched table. |
| LegacyEventHandler.InvalidEntryWritesNothing | Services/EventHandlerService.cs:79-97 | A bad entry fails the event before anything is written, and the proxy step does not run. |
| PipService.BlankCases | src/oed-authz/Services/PipService.cs:11 | `IsNullOrWhiteSpace` holds for a missing value, for "", for ASCII white space and for the non-breaking and typographic spaces .NET counts as white space. It fails for " 1 ". |
| PipService.BlankTestSubsumed | src/oed-authz/Services/PipService.cs:11 | A valid estate number is never blank, so the blank test adds nothing once the value is present. |
| PipService.Answer | src/oed-authz/Services/PipService.cs:21-37 | The answer has one row per row the repository read returns, in that order. Row i is the projection of read row i. As a set, it holds exactly the projections of the stored rows that match the estate, and the recipient when one is given. |
| PipService.HandlePipRequest | src/oed-authz/Services/PipService.cs:8-39 | The request fails exactly when the estate number is missing, blank or malformed, or a recipient number is present and malformed. The estate is checked first, and each check has its own message with parameter "pipRequest". A success echoes the estate and returns exactly the matching rows, projected. It has as many rows as the repository read returned. |
| PipService.RecipientAnswerNarrowsEstateAnswer | src/oed-authz/Services/PipService.cs:21-37 | The answer for a recipient is the estate's answer narrowed to that recipient, in the same order (in the model's table order; see Left out). |
| PipService.ResponseFollowsTable | src/oed-authz/Services/PipService.cs:27-37 | The response has exactly as many rows as the repository result. Response row i copies id, estate, role code, creation time, heir and recipient from row i of that result. |
| PipController.RemoveIndividualProxyRole | Controllers/PipController.cs:69-72 | No individual-proxy row remains, and every other row is kept. |
| PipController.RemoveDistributes | Controllers/PipController.cs:71 | Filtering a concatenation filters each part and keeps the parts in order. With RemoveSingleRow, this fixes the result as the input with its individual-proxy rows dropped, in the original order. |
| PipController.RemoveSingleRow | Controllers/PipController.cs:71 | A single row is dropped exactly when it carries the individual-proxy role. |
| PipController.RemoveKeepsOtherRoles | Controllers/PipController.cs:71 | Without individual-proxy rows, the filter keeps the list as it is, order included. |
| PipController.ToDtos | Controllers/PipController.cs:52-59 | Produces one output row per service row, in the same order. Output row i has row i's estate as From, its recipient as To, its role code as Role, and its creation time as Created. |
| PipController.HandleRequest | Controllers/PipController.cs:38-67 | Sends From as the estate and To as the recipient. It fails exactly when the service refuses, with the service's exception. Otherwise it answers exactly the service's rows other than individual-proxy rows. The answer has one row per kept row, in the kept order, with row i mapped from kept row i. |
| PipController.ResponseMatchesTable | Controllers/PipController.cs:38-72 | Each response row stands for a stored row of the requested estate (and recipient) whose role is not the individual proxy, and each such stored row is answered. |
| PipController.HandlePipRequest | Controllers/PipController.cs:22-36 | The reply is OK exactly when the service accepts the request. Otherwise it is a 400 "Bad Input" problem. |
| PipController.InvalidFromDetail | Controllers/PipController.cs:28-34 | A missing From yields the detail "ArgumentException: Invalid EstateSsn (Parameter 'pipRequest')". |
| PipController.NoIndividualProxyRows | Controllers/PipController.cs:69-72 | No response row carries the individual-proxy role. |
| Domain.Exception.Message | Controllers/PipController.cs:32 | An argument exception's message starts with its own text. It is exactly that text when no parameter is named; otherwise it is followed by " (Parameter '<name>')". A null-argument message ends with "(Parameter '<name>')". |
| Web.CatchBadInput | Controllers/PipController.cs:24-35 | An argument exception, including an ArgumentNullException, becomes a 400 "Bad Input" problem whose detail is the type name, ": " and the message. Any other exception escapes. |
| Web.BadInputDetail | Controllers/PipController.cs:24-35 | For every argument exception the detail is the type name, ": " and the caller's message, followed by " (Parameter 'name')" when a parameter is named. An ArgumentNullException's detail ends with its parameter's "(Parameter 'name')". Every other exception escapes unchanged. |
| ExternalAuthorization.FirstScopeClaim | Controllers/ExternalAuthorizationController.cs:41 | Finds the first claim whose type is "scope", ignoring case, or reports that there is none. |
| ExternalAuthorization.HasAllRolesScope | Controllers/ExternalAuthorizationController.cs:39-48 | With no scope claim it fails with "Missing scope claim". Otherwise it is true exactly when the first scope claim's value contains the all-roles scope. |
| ExternalAuthorization.Disclosed | Controllers/ExternalAuthorizationController.cs:60-63 | With probate only, exactly the probate rows are kept. Otherwise every row passes. |
| ExternalAuthorization.HandleRequest | Controllers/ExternalAuthorizationController.cs:50-77 | Fails exactly when the query fails. The response echoes the request's estate and recipient, has one row per disclosed row, and contains only probate rows when probate only is set. |
| ExternalAuthorization.GetRoles | Controllers/ExternalAuthorizationController.cs:23-37 | A caller without a scope claim gets a 400 reply. The reply is OK exactly when a scope claim is present and the query succeeds. Only a query failure that is not an argument exception escapes. |
| ExternalAuthorization.ScopeReadBeforeQuery | Controllers/ExternalAuthorizationController.cs:27 | Without a scope claim, the reply does not depend on the query: the scope is read first. |
| ExternalAuthorization.NarrowScopeSeesProbateOnly | Controllers/ExternalAuthorizationController.cs:27-67 | Without the all-roles scope, the reply holds the probate rows of the answer, in order, with role and creation time. |
| ExternalAuthorization.FullScopeSeesEverything | Controllers/ExternalAuthorizationController.cs:60-67 | With the all-roles scope, reply row i copies the role and creation time of answer row i. |
| JwtReader.Payload | src/oed-authz/Utils/JwtReader.cs:12-18 | A payload exists exactly when the token has two dots. It is the text strictly between the first and the second dot; later dots are ignored. |
| JwtReader.PayloadOfCompactSerialization | src/oed-authz/Utils/JwtReader.cs:12-18 | For `header.payload.rest`, with no dot in the header or the payload, the payload segment is recovered exactly. |
| JwtReader.FromUrlAlphabet | src/oed-authz/Utils/JwtReader.cs:34-37 | Maps '-' to '+' and '_' to '/', keeps every other character and preserves length. |
| JwtReader.FromUrlUndoesToUrl | src/oed-authz/Utils/JwtReader.cs:34-37 | The rewrite undoes the base64url encoding table of section 5 of RFC 4648 on any base64 text. |
| JwtReader.Base64UrlToBase64 | src/oed-authz/Utils/JwtReader.cs:31-41 | The text handed to the base64 decoder has a length that is a multiple of four and contains no '-' or '_'. Position i holds the rewritten payload character i, and only '=' follows, fewer than four of them. |
| JwtReader.UnpaddedBase64UrlRoundTrips | src/oed-authz/Utils/JwtReader.cs:31-41 | Base64 text turned into base64url with its padding stripped comes back as the original padded base64 text. |
| JwtReader.Pad | src/oed-authz/Utils/JwtReader.cs:40-41 | The padded text keeps the original as its prefix, appends only '=' and fewer than four of them, and has a length that is a multiple of four. |
| JwtReader.PadIsUnique | src/oed-authz/Utils/JwtReader.cs:40-41 | This padding is the only one with fewer than four '=' that reaches a multiple of four. |
| JwtReader.GetIssuerFromJwt | src/oed-authz/Utils/JwtReader.cs:7-29 | A missing or empty token, or one with fewer than two dots, yields no issuer. Otherwise the decoder is applied to the rewritten, padded payload. |
| JwtReader.DecoderSeesPayload | src/oed-authz/Utils/JwtReader.cs:7-44 | For a compact serialization, the decoder receives exactly the padded payload segment. |
| LegacyPip.ForUser | Services/PolicyInformationPointService.cs:21-24 | With only CoveredBy, the query returns exactly that recipient's rows in every estate. |
| LegacyPip.Selected | Services/PolicyInformationPointService.cs:16-28 | With neither party given, nothing is selected. Otherwise exactly the rows that agree with every party given are selected. |
| LegacyPip.HandlePipRequest | Services/PolicyInformationPointService.cs:14-42 | Produces one answer row per selected row, in order: OfferedBy is the estate, CoveredBy the recipient, and RoleCode is copied. |
| LegacyPip.EstateNarrowsRecipientAnswer | Services/PolicyInformationPointService.cs:17-24 | Naming the estate as well narrows the recipient's answer to that estate, in the same order (in the model's table order; see Left out). |
| LegacyPip.AnswerNamesStoredTriples | Services/PolicyInformationPointService.cs:31-39 | Every answer row names a selected row's estate, recipient and role, and every selected row is named. |
| Seqs.FilterMap | src/oed-authz/Services/PipService.cs:27-37 | Filtering after the projection is the same as projecting after the filter. The narrowing lemmas for the PIP service and the legacy PIP rely on this. |
| Strings.Contains | Controllers/ExternalAuthorizationController.cs:47 | `string.Contains` is true exactly when the substring occurs at some position. |
| Strings.IndexOf | src/oed-authz/Utils/JwtReader.cs:12-15 | `IndexOf(c, from)` is the first position at or after `from` that holds `c`, or -1 when there is none. |

## Left out

- **JSON deserialisation.** Event data, DTO bodies and the `iss` lookup in
  `JwtReader` are not modelled. Event data arrives already parsed as
  `Events.EventData`. `Convert.FromBase64String` together with the JSON parse
  is the `JwtReader.IssuerDecoder` parameter.
- **Estate extraction.** The estate number carried by an event subject
  (`GetEstateSsnFromCloudEvent`) is the parameter `Env.estateOf`; it is not
  part of this model.
- **The collective-proxy step.** `ProxyManagementService.UpdateProxyRoleAssigments`
  is not part of this model. It is the parameter `Env.proxy`, and no coverage
  rule for it is stated here.
- **Concurrency and persistence mechanics.** Locking the cursor row for
  update, lock timeouts, EF change tracking and when `SaveChanges` runs are
  not modelled. The transaction is modelled only as all-or-nothing.
- **Logging, dependency injection, routing, authentication policies, health
  checks and migrations.** None of these affect the state the model tracks.
- **Role-code constants and the all-roles scope.** Their values are not part
  of this model, so they are parameters (`Domain.RoleCodes` and the
  `scopeAllRoles` argument).
- **Row order of reads.** The repository reads have no `ORDER BY`
  (Repositories/RoleAssignmentsRepository.cs:33-36 and 41-46), and
  PostgreSQL promises no row order. The model's reads return rows in table
  order, which is insertion order. Statements about order between two reads
  hold for the model only; set membership, counts and positions within one
  read's result are what the program promises.
- RoleStore.ForPersonNarrowsForEstate: the "same order" half rests on the table-order assumption above.
- PipService.RecipientAnswerNarrowsEstateAnswer: the "same order" half rests on the table-order assumption above.
- LegacyPip.EstateNarrowsRecipientAnswer: the "same order" half rests on the table-order assumption above.
- **Timestamp precision.** Cursor watermarks and `Created` values are
  `timestamp with time zone` columns, which hold microseconds. A
  `DateTimeOffset` holds 100 ns ticks. The model assumes every instant makes
  the round trip through the database exactly. An event time with
  sub-microsecond digits would come back rounded.
- EventHandler.ReplayIsDiscarded: depends on the stored watermark equalling the event time exactly, per the timestamp assumption above.
- EventHandler.AcceptedTimesIncrease: depends on the stored watermark equalling the event time exactly, per the timestamp assumption above.
- EventHandler.OlderAfterNewerDiscarded: depends on the stored watermark equalling the event time exactly, per the timestamp assumption above.
- LegacyEventHandler.ReplayAfterAddBails: depends on the stored `Created` equalling the event time exactly.
- **Identity values after a rollback.** PostgreSQL does not give back
  sequence values drawn inside a rolled-back transaction. The model restores
  `nextId` with the rest of the state, so it may reuse identity values the
  database would skip. Only their uniqueness is relied on.
- **The restricted flag.** The PIP response in `src/oed-authz/Services/PipService.cs`
  never sets it.
- **Blank-padding of `char(11)` columns.** Postgres pads shorter values with
  blanks; this is not modelled. The widths of the role table and of the
  event cursor table are checked as upper bounds only.
- RoleStore.Insert: rejects every value longer than its column. Postgres
  rejects only a non-space excess: for `character(n)` and `varchar(n)` it cuts
  an excess made only of spaces and stores the value. So a 60-character role
  code followed by a space is stored by the database and rejected here.
- EventHandler.HandleEstateInstanceCreatedOrUpdated: fails the save for every
  new cursor whose estate or event type is longer than its column. Postgres
  cuts an excess made only of spaces and commits, storing the shortened value;
  an estate such as "12345678901 " is one case.
- EventHandler.FeilfortWipesEstate: "commits exactly when the cursor exists or
  fits" holds for the model's column check. A new cursor whose excess is all
  spaces commits in Postgres and fails here.
- EventHandler.DiffThenProxy: the cursor condition is the model's column
  check. A new cursor whose excess is all spaces commits in Postgres and fails
  here.
- EventHandler.OverWideEstateNeverCommits: holds for the model only. In
  Postgres an estate whose characters past the eleventh are all spaces is cut
  to eleven and the event commits. Modelling the cut would change every stored
  value and every key comparison on the role and cursor tables, so all
  over-long values are treated as errors.
- EventHandler.HandleEstateInstanceCreatedOrUpdated: a new cursor is modelled
  as written at the final save. In the source, the first save of the
  transaction writes it: that is the first role insert, a save inside the
  proxy step, or the final save. So when a new cursor does not fit and the
  proxy step fails with an error of its own, the model reports the proxy
  step's error. The source may report the value-too-long error. Either way
  the event fails and is rolled back.
- **Text comparisons.**
  - `StartsWith(prefix)` is culture-sensitive in .NET. It is modelled as an
    ordinal prefix test.
  - The case-insensitive match of the "scope" claim type is modelled as ASCII
    case folding.
- **Null strings.** Null heir numbers, null role codes in the event data and
  a null claim value are not modelled. The request fields the source
  null-checks are `Option`s.
- **The legacy repository.** `IOedRoleRepositoryService`, which the legacy
  handler and the legacy PIP call, is not part of this model. Its reads and
  writes are taken to be the role table's exact-match operations.
- **The external controller's query.** The PIP request it builds (From/To)
  matches neither service's request type shown. The query is the
  `ExternalAuthorization.PipQuery` parameter.
- LegacyEventHandler.HandleEstateInstanceCreatedOrUpdated: a failing proxy
  step is modelled as leaving the diff's table. Any writes the proxy step
  made before failing are not visible to this model.
- EventHandler.ReplayIsDiscarded: holds only for events whose time is not the
  default instant. An accepted event at the default instant leaves the cursor
  at the default, so a replay of it is accepted again.
- EventHandler.DiffSucceeds: requires that no (number, role) pair is repeated
  in the heir list. A repeated pair makes the second insert hit the unique
  index, and the event then fails and rolls back.
