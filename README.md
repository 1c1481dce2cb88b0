# WhatsApp webhook backend — Dafny model of the ingestion and read side

This project models the core of a NestJS/Mongoose backend that receives chat
messages from a messaging webhook, stores each one in a message collection,
keeps one summary row per contact phone in a conversation collection (last
message, its timestamp, an unread counter), announces every stored message to
connected viewers over a websocket, and serves the read side: the list of
conversations, a contact's message page (which marks the conversation read),
and deletion of a whole thread.

Each Mongoose call is modelled by its documented semantics, not by Mongo's
implementation:

- the **message collection** (`MessageStore.MessagesService`) is an
  append-only `seq<Message>` with a natural-number id counter; a page is
  filter by phone, sort by timestamp descending, keep the first `limit`;
- the **conversation collection** (`ConversationStore.ConversationsService`)
  is a `seq<Conversation>` in natural order under the unique index on
  `phone` (`UniquePhones`); the atomic `findOneAndUpdate` upsert with `$set`
  and `$inc`, `updateOne` and `deleteOne` are the pure functions `Upserted`,
  `MarkedRead` and `Removed`, each applied by one assignment, as the store
  applies each as one command;
- the **websocket gateway** is an outbox `seq<Event>`; a broadcast appends;
- the **controllers** are classes holding their collaborators as constructor
  arguments; their methods perform the store calls in the source's order.

Every store write that can fail takes a `reachable` flag (whether the database
answers). The reads `FindByPhone` and `FindAll` are functions without a flag;
their failure is modelled by the calling controller's flag (`findReachable`,
`reachable`). A controller takes one flag per store call it makes, and a failing
step returns `Failure(...)` and skips every later step. The clock reading
(`now`), date parsing (`parseDate`), `parseInt` and the date-string check
(`isDateString`) are parameters. Timestamps are integers (milliseconds since
the epoch).

Modules: `Wrappers` (Option, Result), `Ordering` (descending sort, limit,
reversal), `Schemas` (record shapes, defaults, the unique-phone rule),
`WebhookDto`, `MessageStore`, `ConversationStore`, `UnreadCounter` (the
meaning of the unread counter over a history of writes), `Gateway`,
`Webhook`, `MessagesApi`, `ConversationsApi`.

Behaviour that the code has and a plain reading might miss, all modelled:

- `messageDto.timestamp ? … : new Date()` and `limit ? parseInt(limit) : 50`
  test JavaScript truthiness, so an empty string counts as absent.
- The page size is passed to the store unchanged: `limit(0)` means no limit
  and a negative `limit(n)` returns at most `|n|` documents. Limits of 0 or
  less do not fall back to 50, so the bound
  "at most `limit` items" is proved for positive limits only.
- Mongoose's `required` validator rejects an empty string, so `create`
  fails with a validation error when phone, name or text is empty; update
  validators do not run on `findOneAndUpdate`, so the upsert has no such
  check. Request validation (`WebhookDto.IsValid`) makes the first case
  unreachable from the webhook (`Webhook.ValidBodyPassesSchema`).
- `{ phone }` filters act on the first matching row; `deleteOne` removes
  one row, which is all of them because of the unique index.

## Model

| member | source | states |
|---|---|---|
| `Schemas.NewMessage` | src/schemas/message.schema.ts:7-23 | a saved message carries its id and the given phone, name, text and timestamp; an omitted `isFromBot` becomes false, and it is true exactly when `true` was passed |
| `WebhookDto.Violations` | src/dto/webhook-message.dto.ts:3-19 | the failing fields are empty exactly when the body is valid; phone, name and message are reported exactly when empty, a timestamp exactly when present and not a date string |
| `Ordering.SortDesc` | src/messages/messages.service.ts:26 | `sort({ field: -1 })`: the result is a permutation of the input, ordered by the key non-increasing |
| `Ordering.LimitCount` | src/messages/messages.service.ts:27 | `limit(n)` keeps everything for n = 0 and otherwise at most `|n|` documents, fewer only when fewer are available |
| `Ordering.Reversed` | src/messages/messages.controller.ts:22 | the reversal has the same length and elements, element k being the input's element `|s|-1-k` |
| `Ordering.ReversedSortedDescIsSortedAsc` | src/messages/messages.controller.ts:22 | reversing a newest-first page yields an oldest-first page |
| `MessageStore.Thread` | src/messages/messages.service.ts:25 | the `{ phone }` filter keeps exactly the stored messages of that phone |
| `MessageStore.Without` | src/messages/messages.service.ts:31-32 | `deleteMany({ phone })` keeps exactly the messages of other phones, and removes as many as the phone's thread holds |
| `MessageStore.ThreadAppend` | src/messages/messages.service.ts:25 | filtering by phone distributes over concatenation of logs |
| `MessageStore.WithoutKeepsOtherThreads` | src/messages/messages.service.ts:31-32 | deleting one phone's messages leaves every other phone's thread unchanged, element for element |
| `MessageStore.WithoutIdempotent` | src/messages/messages.service.ts:31-32 | deleting a phone's messages twice equals deleting them once |
| `MessageStore.DeletedThreadReadsEmpty` | src/messages/messages.service.ts:23-32 | after deleting a phone's messages its thread is empty |
| `MessageStore.MessagesService.Create` | src/messages/messages.service.ts:12-21 | a save succeeds exactly when the required strings are non-empty and the store answers; it then appends exactly one message built by `NewMessage` with a fresh id and changes nothing already stored; on failure nothing changes |
| `MessageStore.MessagesService.FindByPhone` | src/messages/messages.service.ts:23-29 | the page holds only that phone's stored messages, newest first, `LimitCount(limit, thread size)` of them, and is a prefix of the whole thread sorted newest first; the limit defaults to 50 |
| `MessageStore.FindByPhoneReturnsNewest` | src/messages/messages.service.ts:26-27 | every message of the phone left out of a page is no newer than any message in it |
| `MessageStore.PageSize` | src/messages/messages.service.ts:23-27 | for a positive limit a page holds `min(limit, thread size)` messages |
| `MessageStore.MessagesService.DeleteByPhone` | src/messages/messages.service.ts:31-33 | on success the log becomes `Without(log, phone)` and the deleted count is the size of the phone's thread; on failure nothing changes |
| `ConversationStore.IndexOf` | src/conversations/conversations.service.ts:21 | the `{ phone }` filter matches the first row with that phone, or none when no row has it |
| `ConversationStore.Find` | src/conversations/conversations.service.ts:21 | the matched row is a stored row of that phone; there is none exactly when no row has the phone; under the unique index it is the phone's only row |
| `ConversationStore.Upserted` | src/conversations/conversations.service.ts:19-32 | after the upsert the phone's row has the new name, last message and timestamp and its old counter (0 when new) plus one; every other phone's row is unchanged; a row is added only when the phone had none; one-row-per-phone and non-negative counters are kept |
| `ConversationStore.MarkedRead` | src/conversations/conversations.service.ts:42-45 | the phone's counter becomes 0 and no other field or row changes; a phone without a row changes nothing and gains no row |
| `ConversationStore.Removed` | src/conversations/conversations.service.ts:48-49 | the phone's row is gone (under the unique index), other rows are unchanged, a missing phone is a no-op |
| `ConversationStore.RemovedIdempotent` | src/conversations/conversations.service.ts:48-49 | deleting a phone's row twice equals deleting it once |
| `ConversationStore.ConversationsService.UpdateOrCreate` | src/conversations/conversations.service.ts:13-33 | on success the rows become `Upserted(...)` and the returned row is the post-update one (`new: true`), with counter old + 1; on failure nothing changes |
| `ConversationStore.ConversationsService.FindAll` | src/conversations/conversations.service.ts:35-39 | the list is a permutation of all rows ordered by `lastTimestamp` non-increasing, and reads without writing |
| `ConversationStore.ConversationsService.MarkAsRead` | src/conversations/conversations.service.ts:42-46 | on success the rows become `MarkedRead(...)` and the matched count is 1 or 0; on failure nothing changes |
| `ConversationStore.ConversationsService.DeleteByPhone` | src/conversations/conversations.service.ts:48-50 | on success the rows become `Removed(...)` and the deleted count is 1 or 0; on failure nothing changes |
| `UnreadCounter.ReplayKeepsWellFormed` | src/schemas/conversation.schema.ts:8-21 | any sequence of upserts, mark-reads and deletes keeps at most one row per phone and every counter non-negative |
| `UnreadCounter.UnreadCountsUpsertsSinceReset` | src/conversations/conversations.service.ts:19-49 | from an empty collection, every phone's counter equals the number of its upserts since it was last marked read or deleted |
| `UnreadCounter.UpsertsRaiseUnreadByCount` | src/conversations/conversations.service.ts:28 | when no write in a history marks `phone` read or deletes it (other contacts' writes may be interleaved), its counter rises by exactly the number of its upserts in that history |
| `Gateway.WebsocketGateway.BroadcastNewMessage` | src/websocket/websocket.gateway.ts:35-38 | a broadcast appends exactly that event to the outbox |
| `Webhook.WebhookController.ReceiveMessage` | src/webhook/webhook.controller.ts:16-58 | one timestamp (the supplied date unless absent or empty, else `now`) goes to both stores; success exactly when save and upsert both succeed; a failed save changes nothing and emits nothing; a failed upsert keeps the stored message but changes no row and emits nothing; on success exactly one message with `isFromBot` false and a fresh id is appended, the phone's row has the body's name and text and counter old + 1, exactly one `new_message` event copying the stored message is emitted, and the reply is `success`, the fixed text and the new id |
| `Webhook.ValidBodyPassesSchema` | src/dto/webhook-message.dto.ts:4-14 | a body that passes request validation always passes the message schema's required-field check |
| `MessagesApi.ReverseInPlace` | src/messages/messages.controller.ts:22 | the array's contents become their reversal |
| `MessagesApi.MessagesController.GetMessages` | src/messages/messages.controller.ts:12-36 | the limit is the parsed query value when one is given, else 50; success exactly when both store calls succeed; the reply is the page reversed, copied field for field, oldest first, only of that phone, each item a copy of a stored message, at most `limit` items for a positive limit; afterwards the phone's counter is 0 and no row is created; stored messages never change; a failed page query changes nothing |
| `ConversationsApi.ConversationsController.GetConversations` | src/conversations/conversations.controller.ts:12-25 | one item per stored row, in `findAll` order (`lastTimestamp` descending), each copying phone, name, last message, timestamp and counter; no state changes |
| `ConversationsApi.ConversationsController.DeleteConversation` | src/conversations/conversations.controller.ts:27-36 | messages are deleted before the row: a failed first step changes nothing, a failed second step leaves the row in place; on success the phone has no messages and no row, every other phone's messages and row are unchanged, and the reply is `success` even when the phone had no data |

## Left out

- Websocket connection handling (`handleConnection`, `handleDisconnect` and
  the connected-client counter): the counter only feeds log lines; the
  socket.io fan-out to individual clients is I/O, so a broadcast is an
  append to an outbox.
- Module wiring (`app.module.ts` and the feature modules): dependency
  injection is replaced by constructor arguments.
- Date and number parsing (`new Date(s)`, the ISO 8601 check behind
  `@IsDateString`, `parseInt`): parameters of the model; an unparsable date
  (Invalid Date) and `parseInt` returning NaN are not modelled.
- `_id.toString()` in the event: the event carries the numeric id itself.
- The automatic `createdAt`/`updatedAt` fields of `timestamps: true`: no
  core operation reads them.
- Order among messages or conversations with equal timestamps: the store
  promises none; the model fixes one (insertion sort) and no property
  depends on it.
- Concurrency: requests are modelled one at a time, so the atomicity of the
  upsert is represented by a single assignment, not proved against
  interleavings.
- Logging (`console.log`, `console.error`) and HTTP routing decorators.
- `@IsString` on the body fields: the model's fields are strings by type.
