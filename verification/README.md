# Message store: a Dafny model

`theotchlx/message` is a small chat-message service written in Rust. HTTP
handlers create, fetch, list, update and delete messages that belong to
channels. A domain service validates each request and delegates to a
repository port, and a MongoDB adapter implements that port. The repository
holds two copies of this layering:

- the hexagonal `core`/`api` crates: `MessageService`, `MockMessageRepository`,
  `MongoMessageRepository` and the axum handlers;
- an older ports-and-adapters crate under `src/`. Its `MongoRepo` soft-deletes,
  pages through a channel with a `before` cursor, and pins messages.

This project models that core as pure functions over immutable values:

- A store is a `seq` of records in insertion (natural) order.
- Every operation returns the store after it together with its result. A
  `Step`, an `Outcome` and an `Exchange` hold that pair for the three layers.
- Clocks, fresh UUIDs and the authorization backend are parameters.

The modules follow the source's components:

| module | component |
|---|---|
| `Uuids` | UUID as bytes and as hyphenated hex |
| `Text` | `char::is_whitespace`, `trim` |
| `Entities` | ids, `Message`, request/input conversions, the partial update |
| `Common` | `CoreError`, `GetPaginated`, the page offset |
| `Sequences` | `skip`/`take`, MongoDB `sort`/`skip`/`limit` |
| `MockRepository` | `MockMessageRepository` |
| `MessageService` | the domain service |
| `MongoRepository` | `MongoMessageRepository` |
| `LegacyRepository` | the older `MongoRepo` |
| `Health` | `IsHealthy` |
| `Responses` | `Response<T>` |
| `ApiErrors` | `ApiError` and `ErrorBody` |
| `Handlers` | the message handlers |

The MongoDB adapters are abstracted as follows:

- A collection is a sequence of documents.
- A filter on `_id` or `id` selects the first match.
- `sort({created_at: -1})` is a newest-first rearrangement, proved to be a
  permutation. MongoDB does not fix the order of messages with equal
  `created_at`, while the model breaks such ties one fixed way for every
  query. With distinct creation times the two agree, since there is only
  one newest-first order (`MongoRepository.AnyNewestFirstOrderIsModel`).
- `limit(0)` means no limit, as in MongoDB.

In a few places the code does not do what its own annotations or names
suggest. In each case the model follows the code:

- The OpenAPI annotation of the PUT handler (handlers.rs:143-151) lists a 400
  for an invalid message, but only create rejects blank content.
  `update_message` (services.rs:54-70) checks existence and nothing else, so
  a PUT with empty content is accepted and stored
  (`MessageService.UpdateAcceptsBlankContent`).
- Blank content on create reaches the client as 400 with the text `Bad request:
  Server name cannot be empty`. The domain error's own text is `Message name
  cannot be empty` (mod.rs:20-21), and the mapping at api_error.rs:78-80
  replaces it.
- The domain's `CoreError::ServiceUnavailable` falls into the catch-all of
  api_error.rs:71-84 and becomes 500. It is not mapped to the `ApiError`
  variant of the same name, which would be 503 (api_error.rs:35). Only
  `Unhealthy` becomes 503.
- The application wires the service to `MongoMessageRepository`. The model
  runs the service and handlers on the in-memory reference store, and models
  the Mongo adapter on its own (see "## Left out").
- The handler calls `list_messages(&channel, &pagination)` (handlers.rs:125).
  The service (services.rs:43-52) and the repository port take only the
  pagination, so that call does not match the signature it targets. The
  route, `/channels/{channel_id}/messages` (handlers.rs:92-105), suggests
  listing one channel's messages. The model gives the
  service the pagination alone: the channel decides only the authorization
  check, and the page covers the whole store (`Handlers.ListIgnoresChannel`).
  This is the model's reading of a call that does not type-check, not
  behaviour the program shows.

## Model

| member | source | states |
|---|---|---|
| `Uuids.AsBytes` | core/src/infrastructure/message/repositories/mongo.rs:72-78 | `as_bytes()`: sixteen bytes whose big-endian base-256 value is the UUID |
| `Uuids.AsBytesInjective` | core/src/infrastructure/message/repositories/mongo.rs:72-78 | two UUIDs have the same sixteen bytes exactly when they are equal |
| `Uuids.Hyphenated` | core/src/domain/message/entities.rs:9-13 | `Display`: 36 characters, hyphens at positions 8, 13, 18 and 23, and the other 32 are the lowercase hex digits of the UUID |
| `Uuids.HyphenatedInjective` | core/src/domain/message/entities.rs:9-13 | two ids print the same exactly when they are the same id |
| `Text.TrimStart` | core/src/domain/message/services.rs:18 | removes a whitespace-only prefix and leaves a string that is empty or starts with non-whitespace |
| `Text.TrimEnd` | core/src/domain/message/services.rs:18 | removes a whitespace-only suffix and leaves a string that is empty or ends with non-whitespace |
| `Text.TrimEmptyIffBlank` | core/src/domain/message/services.rs:18-20 | `trim().is_empty()` holds exactly when every character is Unicode whitespace |
| `Entities.IdConversionsRoundTrip` | core/src/domain/message/entities.rs:15-88 | for each of the four id types, wrapping then unwrapping gives back the UUID, and unwrapping then wrapping gives back the id |
| `Entities.CreateInput` | core/src/domain/message/entities.rs:130-141 | the input copies channel, content, reply-to and attachments from the request, the author is the argument and the id is the fresh value |
| `Entities.CreateInputKeepsRequest` | core/src/domain/message/entities.rs:130-141 | `into_input` loses nothing of the request, and the id does not depend on the request |
| `Entities.UpdateInput` | core/src/domain/message/entities.rs:156-164 | the id is the path argument; content and pin flag are copied verbatim |
| `Entities.NewMessage` | core/src/domain/message/ports.rs:169-180 | the stored record copies every input field, is unpinned, has never been updated and was created at `now` |
| `Entities.ApplyUpdate` | core/src/domain/message/ports.rs:197-203 | content and pin flag change only when present, the update time is always set, and id, channel, author, reply-to, attachments and creation time are untouched |
| `Entities.ApplyUpdateIdempotent` | core/src/domain/message/ports.rs:197-203 | applying the same update twice at the same instant equals applying it once |
| `Entities.EmptyUpdateOnlyTouchesTime` | core/src/domain/message/ports.rs:197-203 | an update with no fields present changes nothing but `updated_at` |
| `Common.NotFoundTextNamesId` | core/src/domain/common/mod.rs:14-15 | the not-found text contains "not found" and the id's text, and two such texts are equal exactly when the ids are |
| `Common.FixedErrorTexts` | core/src/domain/common/mod.rs:9-35 | the fixed `Display` texts of `InvalidMessageName`, `Unhealthy` and `ServiceUnavailable` |
| `Common.WrappingPageOffset` | core/src/domain/message/ports.rs:157 | the `u32` product `(page - 1) * limit` equals the true offset whenever that fits in 32 bits |
| `Common.OffsetOverflowExample` | core/src/domain/message/ports.rs:157 | page 2^31 + 1 with limit 2 has offset 2^32, which wraps to 0 |
| `Sequences.SortNewestFirst` | core/src/infrastructure/message/repositories/mongo.rs:41 | `sort({created_at: -1})` returns a permutation of its input that is ordered newest first |
| `Sequences.NewestPage` | core/src/infrastructure/message/repositories/mongo.rs:40-44 | sort, skip, limit: newest first, drawn from the input, at most `limit` long unless the limit is 0, and the sorted prefix when nothing is skipped |
| `Sequences.NewestFirstUnique` | core/src/infrastructure/message/repositories/mongo.rs:41 | among elements with distinct keys, any two newest-first rearrangements of the same elements are equal, so a sort on such a key has a single possible result |
| `Sequences.WindowsTile` | core/src/domain/message/ports.rs:157-161 | runs of `size` taken at offsets 0, size, 2·size, … laid end to end are exactly the first `k * size` elements |
| `MockRepository.IndexOf` | core/src/domain/message/ports.rs:211-214 | `position`: None exactly when no record has the id, otherwise the first record that has it |
| `MockRepository.FindById` | core/src/domain/message/ports.rs:142-148 | the first record carrying the id, or None exactly when no record carries it |
| `MockRepository.FindByIdOfUnique` | core/src/domain/message/ports.rs:142-148 | when ids are distinct, every stored record is found by its own id |
| `MockRepository.List` | core/src/domain/message/ports.rs:150-164 | `list` as written: the total is the store size on every page; the items are the records from the offset `(page - 1) * limit` taken modulo 2^32, in insertion order, `limit` of them or all that remain |
| `MockRepository.ListIntended` | core/src/domain/message/ports.rs:150-164 | `list` with the unwrapped offset: the records from `(page - 1) * limit`, `limit` of them or all that remain; pages past the end are empty |
| `MockRepository.ListAgreesWithoutOverflow` | core/src/domain/message/ports.rs:157 | whenever `(page - 1) * limit` fits in a `u32`, the list as written returns exactly the intended page |
| `MockRepository.PagesTileStore` | core/src/domain/message/ports.rs:157-161 | with the intended offset, page `j` is the `j`-th run of `limit` records, and pages 1 to `k` together are the first `k * limit` records, each once and in order |
| `MockRepository.RecordOnItsPage` | core/src/domain/message/ports.rs:157-161 | with the intended offset, record `i` appears on page `i / limit + 1` at position `i % limit` |
| `MockRepository.TwentyFiveInPagesOfTen` | core/src/domain/message/ports.rs:150-164 | 25 records in pages of 10 give pages of 10, 10 and 5 records, with a total of 25 on each |
| `MockRepository.DefaultPageIsFirstTwenty` | core/src/domain/common/mod.rs:44-48 | the default request (page 1, limit 20) lists the first twenty records |
| `MockRepository.OverflowedPageRepeatsFirstRecords` | core/src/domain/message/ports.rs:157 | page 2^31 + 1 with limit 2 is empty in the intended list, but the list as written returns the first two records again |
| `MockRepository.Insert` | core/src/domain/message/ports.rs:166-185 | appends exactly one record at the end and returns it: input fields copied, unpinned, not updated, created at `now` |
| `MockRepository.InsertThenFind` | core/src/domain/message/ports.rs:166-185 | a record inserted under a fresh id is what `find_by_id` then returns |
| `MockRepository.InsertKeepsIdsUnique` | core/src/domain/message/ports.rs:166-185 | inserting under a fresh id keeps ids distinct |
| `MockRepository.Update` | core/src/domain/message/ports.rs:187-206 | an unknown id gives `MessageNotFound` with that id and leaves the store unchanged; otherwise only the first matching record changes, by the partial update, and it is returned |
| `MockRepository.UpdateThenFind` | core/src/domain/message/ports.rs:187-206 | after an update, `find_by_id` returns the updated record |
| `MockRepository.UpdateKeepsIdsUnique` | core/src/domain/message/ports.rs:187-206 | an update keeps ids distinct |
| `MockRepository.Delete` | core/src/domain/message/ports.rs:208-219 | an unknown id gives `MessageNotFound` and leaves the store unchanged; otherwise exactly the first matching record is removed and the rest keep their order |
| `MockRepository.DeleteRemovesOneRecord` | core/src/domain/message/ports.rs:208-219 | as a multiset, the store loses exactly one record carrying the id |
| `MockRepository.DeleteThenFind` | core/src/domain/message/ports.rs:208-219 | when ids are distinct, a deleted record is no longer found |
| `MockRepository.DeleteKeepsIdsUnique` | core/src/domain/message/ports.rs:208-219 | a delete keeps ids distinct |
| `MessageService.CreateMessage` | core/src/domain/message/services.rs:16-28 | blank content gives `InvalidMessageName` and the repository is not touched; otherwise the result is exactly the repository's insert |
| `MessageService.GetMessage` | core/src/domain/message/services.rs:30-41 | returns a stored record with the id, or `MessageNotFound` naming the id exactly when none is stored |
| `MessageService.ListMessages` | core/src/domain/message/services.rs:43-52 | passes through the in-memory repository's page and total unchanged, so the page is the one at the wrapped offset |
| `MessageService.UpdateMessage` | core/src/domain/message/services.rs:54-70 | an absent id gives `MessageNotFound` before any write; otherwise the result is the repository update, which succeeds |
| `MessageService.DeleteMessage` | core/src/domain/message/services.rs:72-88 | an absent id gives `MessageNotFound` before any write; otherwise the result is the repository delete, which succeeds |
| `MessageService.BlankContentRejected` | core/src/domain/message/services.rs:18-20 | content made only of spaces, tabs and line breaks is refused, and the store is unchanged |
| `MessageService.CreateThenGet` | core/src/domain/message/services.rs:16-41 | create followed by get under a fresh id returns the created record, with the same id and content |
| `MessageService.UpdateAcceptsBlankContent` | core/src/domain/message/services.rs:54-70 | an update to whitespace-only content succeeds and stores it |
| `MessageService.UpdateThenGet` | core/src/domain/message/services.rs:54-70 | get after update returns what the update returned |
| `MessageService.DeleteThenGet` | core/src/domain/message/services.rs:72-88 | when ids are distinct, get after a successful delete is `MessageNotFound` |
| `MessageService.DeleteTwice` | core/src/domain/message/services.rs:72-88 | a second delete of the same id is `MessageNotFound` and changes nothing |
| `MessageService.ServiceKeepsIdsUnique` | core/src/domain/message/services.rs:16-88 | create under a fresh id, update and delete all keep the store's ids distinct |
| `MongoRepository.EncodeId` | core/src/infrastructure/message/repositories/mongo.rs:72-78 | the `_id` key is the id's sixteen bytes |
| `MongoRepository.EncodeIdInjective` | core/src/infrastructure/message/repositories/mongo.rs:131-141 | two ids get the same key exactly when they are the same id |
| `MongoRepository.KeyIndex` | core/src/infrastructure/message/repositories/mongo.rs:137-138 | the `{_id: key}` filter selects the first document with that key, and finds none exactly when no document has it |
| `MongoRepository.KeySelectsId` | core/src/infrastructure/message/repositories/mongo.rs:131-141 | in a well-keyed collection, the filter built from an id matches exactly the documents holding that id |
| `MongoRepository.NewestFirstMessages` | core/src/infrastructure/message/repositories/mongo.rs:41 | the whole collection newest first, as a permutation of its messages |
| `MongoRepository.PaginationOptions` | core/src/infrastructure/message/repositories/mongo.rs:36-45 | the limit is `min(limit, 50)`; the skip is `(page - 1) * limit` on the uncapped limit, in wrapping `u32` arithmetic |
| `MongoRepository.UnlimitedOptions` | core/src/infrastructure/message/repositories/mongo.rs:36-45 | a limit of 0 skips nothing and imposes no limit |
| `MongoRepository.FindAllFacts` | core/src/infrastructure/message/repositories/mongo.rs:158-171 | a paged find is newest first, drawn from the collection, at most the limit, and the whole sorted collection when neither skip nor limit applies |
| `MongoRepository.FindAllSlice` | core/src/infrastructure/message/repositories/mongo.rs:158-171 | with a positive limit, a paged find is the run of at most `limit` newest-first messages that follows the first `skip` |
| `MongoRepository.List` | core/src/infrastructure/message/repositories/mongo.rs:143-174 | the total counts the whole collection on every page; with a positive limit the page is the run of `min(limit, 50)` newest-first messages after the first `(page - 1) * limit` (wrapping in `u32`), and with limit 0 the whole collection newest first |
| `MongoRepository.CorrectedPaginationOptions` | core/src/infrastructure/message/repositories/mongo.rs:36-45 | the skip is computed from the capped limit, with no wrap-around |
| `MongoRepository.ListCorrected` | core/src/infrastructure/message/repositories/mongo.rs:143-174 | page `p` is the `p`-th run of `min(limit, 50)` messages of the newest-first collection |
| `MongoRepository.CorrectedPagesTile` | core/src/infrastructure/message/repositories/mongo.rs:36-45 | with the corrected options, pages 1 to `k` are the first `k * size` newest messages, each once and in order |
| `MongoRepository.AnyNewestFirstOrderIsModel` | core/src/infrastructure/message/repositories/mongo.rs:41 | when no two messages share a `created_at`, every newest-first arrangement of the collection is the model's sorted sequence, so every page query pages the same sequence |
| `MongoRepository.UncappedSkipLeavesGap` | core/src/infrastructure/message/repositories/mongo.rs:37-38 | with limit 100 as written, page 2 starts at the 101st message and the 51st to 100th appear on no page; the corrected page 2 holds them |
| `MongoRepository.Insert` | core/src/infrastructure/message/repositories/mongo.rs:50-129 | returns the input's fields, unpinned, not updated and created at `now`, appended under the encoded id; an existing key is a database error and changes nothing |
| `MongoRepository.FindById` | core/src/infrastructure/message/repositories/mongo.rs:131-141 | in a well-keyed collection, the message with the id, or None exactly when none has it |
| `MongoRepository.InsertThenFind` | core/src/infrastructure/message/repositories/mongo.rs:50-141 | an inserted message is found again, because insert and find use the same encoding |
| `MongoRepository.Update` | core/src/infrastructure/message/repositories/mongo.rs:176-205 | no match gives `MessageNotFound` and changes nothing; otherwise the matched document gets the partial update with `updated_at` set, and the document after the update is returned |
| `MongoRepository.Delete` | core/src/infrastructure/message/repositories/mongo.rs:207-223 | a hard delete of the matched document; zero documents deleted gives `MessageNotFound` and changes nothing |
| `MongoRepository.InsertKeepsInvariants` | core/src/infrastructure/message/repositories/mongo.rs:50-129 | an insert keeps every document under its own id's key and the keys distinct |
| `MongoRepository.UpdateKeepsInvariants` | core/src/infrastructure/message/repositories/mongo.rs:176-205 | an update keeps the keys well formed and distinct |
| `MongoRepository.ReplaceKeepsInvariants` | core/src/infrastructure/message/repositories/mongo.rs:198-199 | replacing a document's message with one that has the same id keeps the keys well formed and distinct |
| `MongoRepository.DeleteKeepsInvariants` | core/src/infrastructure/message/repositories/mongo.rs:207-223 | a delete keeps the keys well formed and distinct, and the deleted id is no longer found |
| `MongoRepository.RemoveKeepsInvariants` | core/src/infrastructure/message/repositories/mongo.rs:213-214 | removing one document keeps the keys distinct, and its key is gone |
| `LegacyRepository.IdIndex` | src/repositories/message.rs:146-149 | the `{id}` filter selects the first document with the id, whatever its channel or deletion state |
| `LegacyRepository.IdIndexOfUnique` | src/repositories/message.rs:146-149 | when ids are distinct, a document is the one its own id selects |
| `LegacyRepository.Get` | src/repositories/message.rs:45-54 | succeeds exactly when a document matches the id and the channel and is not deleted; otherwise `NotFound` |
| `LegacyRepository.CursorBound` | src/repositories/message.rs:64-74 | a `before` id bounds the page exactly when it names a stored document, at that document's key |
| `LegacyRepository.ListCandidates` | src/repositories/message.rs:62-74 | exactly the live messages of the channel that lie below the cursor |
| `LegacyRepository.ListItems` | src/repositories/message.rs:76-95 | a prefix of the candidates sorted highest key first: the first `limit` of them, or all of them when fewer remain or the limit is 0 |
| `LegacyRepository.ListBy` | src/repositories/message.rs:56-104 | keyset page: the `limit` (default 50) highest-key live messages of the channel below the cursor, or all of them when fewer remain or the limit is 0, highest key first; `next_before` is the last id exactly when the page is full and not empty |
| `LegacyRepository.List` | src/repositories/message.rs:56-104 | `list` as written: the newest `limit` (default 50) non-deleted messages of the channel strictly older than the cursor message, or all of them when fewer remain or the limit is 0, newest first; `next_before` is the last id exactly when the page is full |
| `LegacyRepository.ShortPageHoldsAll` | src/repositories/message.rs:76-101 | a page that is not full holds every message that passes the filter |
| `LegacyRepository.UnknownCursorIgnored` | src/repositories/message.rs:64-74 | a `before` id that names no document gives the same page as no cursor |
| `LegacyRepository.NextPageIsBelow` | src/repositories/message.rs:56-104 | every message on the page after the cursor has a lower key than every message on the page that produced the cursor |
| `LegacyRepository.NextPageIsOlder` | src/repositories/message.rs:64-101 | as written, following `next_before` moves strictly back in time, so no message is listed twice |
| `LegacyRepository.FirstPageOfSorted` | src/repositories/message.rs:76-101 | when every message passes the filter, the first page is the sorted prefix and the cursor is the id of its last message |
| `LegacyRepository.AsWrittenExampleFirstPage` | src/repositories/message.rs:56-104 | messages created at 3, 2 and 2, limit 2: the first page holds the one at 3 and the first one at 2 |
| `LegacyRepository.AsWrittenExampleSecondPage` | src/repositories/message.rs:64-74 | following that page's cursor gives an empty page |
| `LegacyRepository.TiedTimestampSkipped` | src/repositories/message.rs:64-81 | as written, a message that shares the cursor's `created_at` is never listed |
| `LegacyRepository.CursorKeyInjective` | src/repositories/message.rs:79 | the corrected key (`created_at`, then id) separates any two messages with different ids |
| `LegacyRepository.CursorKeyFollowsTime` | src/repositories/message.rs:79 | ordering by the corrected key never puts an older message before a newer one |
| `LegacyRepository.ListCorrected` | src/repositories/message.rs:56-104 | `list` with the corrected key: still newest first by `created_at`, bounded, with the same `next_before` rule |
| `LegacyRepository.FullPageIsSortedPrefix` | src/repositories/message.rs:76-101 | a full corrected page is the first `limit` candidates in key order |
| `LegacyRepository.NextBoundIsLastKey` | src/repositories/message.rs:97-101 | the next cursor bounds the next page at the last listed message's key |
| `LegacyRepository.OnPageOrBelow` | src/repositories/message.rs:56-104 | every message that passes the filter is on the corrected page or has a lower key than its last message |
| `LegacyRepository.CorrectedCursorSkipsNothing` | src/repositories/message.rs:56-104 | with the corrected key and distinct ids, every message that passes a full page's filter is on that page or passes the filter of the page its cursor leads to |
| `LegacyRepository.CorrectedExampleFirstPage` | src/repositories/message.rs:56-104 | in the tied example, the corrected first page holds the message at 3 and the message at 2 with the higher id |
| `LegacyRepository.CorrectedExampleSecondPage` | src/repositories/message.rs:56-104 | the corrected second page holds the remaining message at 2 |
| `LegacyRepository.TiedTimestampListedWhenCorrected` | src/repositories/message.rs:64-81 | with the corrected key, every message of the tied example is listed |
| `LegacyRepository.Post` | src/repositories/message.rs:106-124 | appends one message under the fresh id: the request's fields, unpinned, created at `now`, neither edited nor deleted |
| `LegacyRepository.PostThenGet` | src/repositories/message.rs:45-124 | a posted message is found by `get` in its channel |
| `LegacyRepository.Update` | src/repositories/message.rs:126-156 | matches the first document with the id, whatever its channel or deletion state, sets `edited_at`, and sets content and mentions only when present; no match gives `NotFound` and changes nothing |
| `LegacyRepository.UpdateReachesDeleted` | src/repositories/message.rs:146-156 | a soft-deleted message can still be updated, and it stays deleted |
| `LegacyRepository.Delete` | src/repositories/message.rs:158-177 | a soft delete: `deleted_at` is set on the first document with the id; no match gives `NotFound` |
| `LegacyRepository.DeleteIsSoft` | src/repositories/message.rs:158-177 | the document stays, a second delete also succeeds, and `get` no longer finds it in any channel |
| `LegacyRepository.Pin` | src/repositories/message.rs:179-196 | sets `pinned` on the first document with the id; no match gives `NotFound` and changes nothing |
| `LegacyRepository.PinIdempotent` | src/repositories/message.rs:179-196 | pinning twice is pinning once |
| `LegacyRepository.PinnedCandidates` | src/repositories/message.rs:207-208 | exactly the pinned, non-deleted messages of the channel, and as many as the count |
| `LegacyRepository.ListPins` | src/repositories/message.rs:198-237 | the total is the number of pinned live messages of the channel, whatever the limit and offset; the items are such messages, newest first, at most `limit` (default 50) |
| `LegacyRepository.PinsPage` | src/repositories/message.rs:204-214 | `list_pins` sorts the pinned messages newest first, skips `offset` and applies `limit` |
| `LegacyRepository.ListPinsIsSlice` | src/repositories/message.rs:204-214 | a page of pins is the run of `limit` pinned messages after the first `offset`, newest first |
| `LegacyRepository.PinCountsOnce` | src/repositories/message.rs:179-237 | pinning an unpinned live message of the channel raises the pin total by exactly one |
| `LegacyRepository.Snippet` | src/repositories/message.rs:277 | a search snippet is the first 200 characters of the content, or all of it when shorter |
| `Health.New` | core/src/domain/health/entities.rs:6-12 | `IsHealthy::new(b).value() == b` |
| `Health.ToResult` | core/src/domain/health/entities.rs:14-20 | `Ok` exactly when the value is true, carrying a true value; otherwise `Unhealthy` |
| `Health.ToResultOfNew` | core/src/domain/health/entities.rs:6-20 | `to_result(new(b))` is `Ok(new(b))` when `b` holds and `Err(Unhealthy)` otherwise |
| `Responses.Ok` | api/src/http/server/response.rs:22-27 | the reply has status 200 and the data unchanged |
| `Responses.Created` | api/src/http/server/response.rs:30-35 | the reply has status 201 and the data unchanged |
| `Responses.Deleted` | api/src/http/server/response.rs:38-43 | the reply has status 200, not 204, and the data unchanged |
| `Responses.WithStatus` | api/src/http/server/response.rs:47-49 | the reply has the given status and the data unchanged |
| `Responses.ReplyRoundTrip` | api/src/http/server/response.rs:47-59 | `into_response` loses nothing; `deleted` and `ok` are the same response, and `created` differs from them |
| `ApiErrors.StatusCode` | api/src/http/server/api_error.rs:31-44 | the status table: 500 exactly for internal and startup errors, 503 exactly for service-unavailable, and below 500 for every client error |
| `ApiErrors.StatusCodeSeparatesKinds` | api/src/http/server/api_error.rs:31-44 | two errors share a status exactly when they are of the same kind or both are 500s |
| `ApiErrors.DisplayCarriesDetail` | api/src/http/server/api_error.rs:12-29 | the text of an error that carries a message ends with that message |
| `ApiErrors.DisplayDistinguishesDetail` | api/src/http/server/api_error.rs:12-29 | two errors of the same kind have the same text exactly when they carry the same message |
| `ApiErrors.ToErrorBody` | api/src/http/server/api_error.rs:46-63 | the body's status is the variant's status, its message is the `Display` text, and `error_code` is present exactly for `Conflict` |
| `ApiErrors.ErrorReply` | api/src/http/server/api_error.rs:65-69 | the status line and the body's `status` field agree |
| `ApiErrors.UnauthorizedBody` | api/src/http/server/api_error.rs:46-63 | the Unauthorized body is "Unauthorized access", no error code, status 401 |
| `ApiErrors.FromCoreError` | api/src/http/server/api_error.rs:71-84 | `Unhealthy` becomes service-unavailable, `MessageNotFound` becomes not-found, blank content becomes bad-request, and every other variant becomes an internal error |
| `ApiErrors.CoreErrorStatus` | api/src/http/server/api_error.rs:71-84 | a domain error reaches the client as 404, 400, 503 or 500 according to the same table, in both directions |
| `ApiErrors.UnhealthyProbeIs503` | api/src/http/server/api_error.rs:71-84 | a failed health probe reaches the client as 503 with the text "Service is unavailable: Service is unhealthy" |
| `Handlers.Authorize` | api/src/http/messages/handlers.rs:40-47 | the check passes exactly when the backend allows; a denial is `Forbidden` and a backend error is `InternalServerError` |
| `Handlers.CreateMessage` | api/src/http/messages/handlers.rs:33-53 | a denied or failed check, or blank content, leaves the store unchanged; otherwise 201 with a record authored by the caller and appended to the store |
| `Handlers.GetMessage` | api/src/http/messages/handlers.rs:71-90 | a missing message is `NotFound` whatever the backend says; otherwise success exactly when viewing the message's own channel is allowed, `Forbidden` when the check denies it and `InternalServerError` when the backend fails |
| `Handlers.ListMessages` | api/src/http/messages/handlers.rs:107-134 | success exactly when viewing the channel is allowed; the body echoes the requested page and carries the service's total and the in-memory list's page at the wrapped offset |
| `Handlers.UpdateMessage` | api/src/http/messages/handlers.rs:154-171 | `NotFound` before `Forbidden` before any write; only the author's update succeeds and changes the store |
| `Handlers.DeleteMessage` | api/src/http/messages/handlers.rs:189-204 | the same order of checks; only the author's delete succeeds, with 200 and an empty body, and removes one record |
| `Handlers.ListIgnoresChannel` | api/src/http/messages/handlers.rs:125 | in the model's reading of a call the service signature does not accept, and with permissive authorization, the page does not depend on the channel in the path |
| `Handlers.CreateThenGet` | api/src/http/messages/handlers.rs:33-90 | a message created by an authorized caller is then served unchanged to any caller allowed to view its channel |
| `Handlers.DeleteThenGet` | api/src/http/messages/handlers.rs:189-204 | after its author deletes a message, every caller gets `NotFound` |
| `Handlers.OnlyAuthorChangesStore` | api/src/http/messages/handlers.rs:154-204 | an update or delete that changes the store was made by the message's author, and ids stay distinct |

## Left out

- MongoDB driver, BSON and transport failures: the `DatabaseError`/`Other` results of failed driver calls, cursor iteration and BSON conversion are not modelled. They come from the network and the driver, not from the repository's logic.
- `MongoRepository.Insert`: the duplicate-key failure carries a fixed placeholder text, because the real text comes from the MongoDB server.
- The manual re-encoding of `_id` as generic binary and the RFC 3339 rewrite of `created_at` (mongo.rs:65-123) are abstracted: one injective `EncodeId` is used on both the write side and the read side, and timestamps are integers ordered like the instants they stand for.
- In the older repository, a failed lookup of the cursor message (message.rs:68) is treated like a missing one (no bound). The model has no failing lookups.
- `search` (message.rs:239-291): MongoDB's case-insensitive `$regex` matching, the floating-point `score` and the total are left out, because they are the database's semantics. Only the snippet is modelled.
- Outbox events (entities.rs:166-176 and the outbox writer): a single database insert with no logic of its own.
- JWT and cookie authentication, and the SpiceDB authorization client: external libraries and services. The caller's identity is a value and authorization is a function parameter; `DummyAuthz` is the constant-true one.
- Configuration, routes, the health handler and the Mongo ping: glue with no decisions of their own.
- Application wiring (core/src/application/mod.rs:13-52, api/src/http/server/app_state.rs:21-28): the application builds the service on `MongoMessageRepository`. The model instead runs `MessageService` and `Handlers` on the in-memory reference store `MockRepository`, the repository the core's own tests use. The Mongo adapter is modelled separately in `MongoRepository`, and the differences this choice hides are listed on the next lines.
- `Handlers.CreateMessage`: runs on the in-memory store, whose insert always succeeds. Deployed on MongoDB, a fresh id that is already a stored `_id` makes `insert_one` fail with `DatabaseError` (mongo.rs:120-123), which reaches the client as 500 (api_error.rs:71-84). The model instead returns 201 and appends a second record under that id (`MongoRepository.Insert` states the Mongo behaviour).
- `Handlers.ListMessages`: runs on the in-memory list, whose pages are in insertion order with no cap. Deployed on MongoDB, a page is newest first, capped at 50 messages, and skips by the uncapped limit (`MongoRepository.List`, finding 2 below).
- `MessageService.CreateMessage`, `MessageService.ListMessages`: the same two differences, one layer down.
- The older actix handlers and use cases (src/adapters/http.rs, src/usecases.rs): framework glue and pure delegation.
- The mutex around the in-memory store and the async runtime: the model is one sequential state.
- Clocks and `Uuid::new_v4()` are parameters (`now`, `freshId`), so nothing is proved about the freshness of ids beyond what each lemma requires.
- Totals (`u64`, `usize`) are unbounded naturals, since no store in the model reaches 2^64 records.
- Overflow in debug builds: Rust panics on `u32` overflow in a debug build. The model follows the release build, which wraps, and states the wrapped offset explicitly.
- `MockRepository.List`: requires page ≥ 1. In the source, `page - 1` on page 0 panics in a debug build and wraps in a release build; that path is not modelled.
- `MockRepository.ListIntended`: requires page ≥ 1, for the same reason.
- `MessageService.ListMessages`: requires page ≥ 1, for the same reason.
- `Handlers.ListMessages`: requires page ≥ 1, for the same reason.
- `MongoRepository.List`: requires page ≥ 1, for the same reason.
- `MongoRepository.PaginationOptions`: requires page ≥ 1, for the same reason.
- `MongoRepository.ListCorrected`: requires page ≥ 1, for the same reason.
- `MongoRepository.CorrectedPaginationOptions`: requires page ≥ 1, for the same reason.
- `Common.WrappingPageOffset`: requires page ≥ 1, for the same reason.
- `CorrectedPagesTile`: the tiling is proved for the model's sort, which orders messages with equal `created_at` the same way in every query. MongoDB does not promise that, so with tied timestamps two page queries may disagree and a tied message may be repeated or missed. For collections without ties, `MongoRepository.AnyNewestFirstOrderIsModel` shows every order MongoDB may return is the model's, and the tiling holds as stated.
- `Sequences.SortNewestFirst`: one deterministic order among equal timestamps stands for MongoDB's unspecified one, in both repositories and in `list_pins`. Contracts that name the sorted sequence describe that one choice when timestamps tie.
- `Handlers.ListIgnoresChannel`: the channel argument that handlers.rs:125 passes has no parameter to go to in services.rs:43-52. The model drops it rather than guessing a channel filter.
- `LegacyRepository.List`, `LegacyRepository.ListBy`, `LegacyRepository.ListPins`, `LegacyRepository.CursorBound`: timestamps are integers ordered like the instants they stand for. In the older crate `created_at` is a `DateTime<Utc>` with derived `Serialize` (src/domain.rs:32), so it is stored as chrono's RFC 3339 text. The cursor's `$lt` (message.rs:70-72) and `sort({created_at: -1})` (message.rs:79, 211) therefore compare strings, and that order differs from time order within one second when one fraction is a prefix of the other: "…:00.123456Z" sorts above the later "…:00.123456789Z", and "…:00Z" above "…:00.5Z", because 'Z' follows every digit. For such pairs the real "newest first" and the strict cursor follow string order, which the model does not reproduce.
- The tests in core/src/domain/test/message/mock_test.rs and api/tests/messages.rs target an older shape of the entity (name, owner, visibility). Their fields and expectations are not modelled.

## Findings

| source | as written | input that shows it | evidently intended | confidence | as-written member | corrected member |
|---|---|---|---|---|---|---|
| core/src/domain/message/ports.rs:157 | the offset `(page - 1) * limit` is computed in `u32` and wraps around in a release build (and again at mongo.rs:38) | page 2^31 + 1, limit 2, at least two records: the offset 2^32 wraps to 0, so the first two records come back for a page far beyond the store | the offset of the requested page, so pages past the end are empty | not executed | `MockRepository.OverflowedPageRepeatsFirstRecords` | `MockRepository.PagesTileStore` |
| core/src/infrastructure/message/repositories/mongo.rs:37-38 | the limit is capped at 50, but the skip multiplies the uncapped limit | limit 100 on a collection of 150 messages: page 1 holds the newest 50, page 2 starts at the 101st, and the 51st to 100th are on no page | skip `(page - 1) * min(limit, 50)`, so that consecutive pages tile the collection (for every order MongoDB may choose when no two messages share a `created_at`) | not executed | `MongoRepository.UncappedSkipLeavesGap` | `MongoRepository.CorrectedPagesTile` |
| src/repositories/message.rs:64-81 | the keyset cursor bounds the next page by `created_at < cursor.created_at` alone, and the sort is on `created_at` alone | three live messages created at 3, 2 and 2, limit 2: the first page ends on one message at 2, and the next page, below 2, is empty, so the other message at 2 is never listed | a cursor and a sort that break ties by id, so every message is listed exactly once | not executed | `LegacyRepository.TiedTimestampSkipped` | `LegacyRepository.CorrectedCursorSkipsNothing` |

The service and the handlers run on the list as written (`MockRepository.List`), so their
contracts show the page at the wrapped offset. `MockRepository.ListIntended` carries the
corrected offset, and `MockRepository.ListAgreesWithoutOverflow` shows the two agree on
every request whose offset fits in a `u32`.
