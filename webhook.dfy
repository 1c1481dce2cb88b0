/**
 * The ingestion pipeline: one inbound chat message is stored, folded into
 * its conversation's summary, and announced to connected viewers, in that
 * order; the first step that fails ends the call with its error.
 */
module Webhook {
  import opened Wrappers
  import opened Schemas
  import WebhookDto
  import opened MessageStore
  import opened ConversationStore
  import opened Gateway

  const SuccessStatus := "success"
  const ReceivedText := "Mensaje recibido y procesado"

  datatype Ack = Ack(status: string, message: string, id: MessageId)

  /**
   * The one timestamp of the call: the supplied date when there is a
   * non-empty one (an empty string is falsy), otherwise the current time.
   */
  function ChooseTimestamp(dto: WebhookDto.WebhookMessage, now: Timestamp, parseDate: string -> Timestamp): Timestamp
  {
    match dto.timestamp
    case Some(t) => if t != "" then parseDate(t) else now
    case None => now
  }

  /** What the pipeline asks the message store to save: an inbound, not a bot, message. */
  function InboundData(dto: WebhookDto.WebhookMessage, timestamp: Timestamp): MessageData
  {
    MessageData(dto.phone, dto.name, dto.message, timestamp, Some(false))
  }

  class WebhookController {
    const messages: MessagesService
    const conversations: ConversationsService
    const gateway: WebsocketGateway

    ghost predicate Valid()
      reads messages, conversations
    {
      messages.Valid() && conversations.Valid()
    }

    constructor (messages: MessagesService, conversations: ConversationsService, gateway: WebsocketGateway)
      ensures this.messages == messages
      ensures this.conversations == conversations
      ensures this.gateway == gateway
    {
      this.messages := messages;
      this.conversations := conversations;
      this.gateway := gateway;
    }

    /**
     * Handles one webhook delivery. `now` is the clock reading, `parseDate`
     * turns the supplied date string into a timestamp, and the two flags say
     * whether the database answers the save and the upsert.
     */
    method ReceiveMessage(dto: WebhookDto.WebhookMessage, now: Timestamp, parseDate: string -> Timestamp,
                          createReachable: bool, upsertReachable: bool)
      returns (r: Result<Ack, StoreError>)
      requires Valid()
      modifies messages, conversations, gateway
      ensures Valid()
      ensures r.Success? <==> HasRequiredFields(InboundData(dto, now)) && createReachable && upsertReachable
      // (whether the schema accepts the save does not depend on the timestamp, so `now` stands in for it)
      // step 1 fails: nothing is stored, summarised or emitted
      ensures !HasRequiredFields(InboundData(dto, now)) ==> r == Failure(ValidationFailed)
      ensures HasRequiredFields(InboundData(dto, now)) && !createReachable ==> r == Failure(StorageUnavailable)
      ensures !(HasRequiredFields(InboundData(dto, now)) && createReachable) ==>
                && messages.log == old(messages.log)
                && conversations.rows == old(conversations.rows)
                && gateway.sent == old(gateway.sent)
      // step 1 succeeds: exactly one inbound message with the call's timestamp is appended
      ensures HasRequiredFields(InboundData(dto, now)) && createReachable ==>
                var ts := ChooseTimestamp(dto, now, parseDate);
                var m := Message(old(messages.nextId), dto.phone, dto.name, dto.message, ts, false);
                && messages.log == old(messages.log) + [m]
                && (forall old_m :: old_m in old(messages.log) ==> old_m.id != m.id)
      // step 2 fails: the message stays, the summary is untouched, nothing is emitted
      ensures HasRequiredFields(InboundData(dto, now)) && createReachable && !upsertReachable ==>
                && r == Failure(StorageUnavailable)
                && conversations.rows == old(conversations.rows)
                && gateway.sent == old(gateway.sent)
      // all steps succeed
      ensures r.Success? ==>
                var ts := ChooseTimestamp(dto, now, parseDate);
                var m := Message(old(messages.nextId), dto.phone, dto.name, dto.message, ts, false);
                && conversations.rows == Upserted(old(conversations.rows), dto.phone, dto.name, dto.message, ts)
                && Find(conversations.rows, dto.phone)
                   == Some(Conversation(dto.phone, dto.name, dto.message, ts,
                                        UnreadOf(old(conversations.rows), dto.phone) + 1))
                && gateway.sent == old(gateway.sent) + [NewMessageEvent(m)]
                && gateway.sent[|gateway.sent| - 1].kind == NewMessageType
                && r.value == Ack(SuccessStatus, ReceivedText, m.id)
    {
      var timestamp := ChooseTimestamp(dto, now, parseDate);

      var created := messages.Create(InboundData(dto, timestamp), createReachable);
      if created.Failure? {
        return Failure(created.error);
      }
      var message := created.value;

      var upserted := conversations.UpdateOrCreate(dto.phone, dto.name, dto.message, timestamp, upsertReachable);
      if upserted.Failure? {
        return Failure(upserted.error);
      }

      gateway.BroadcastNewMessage(NewMessageEvent(message));

      r := Success(Ack(SuccessStatus, ReceivedText, message.id));
    }
  }

  /** A body that passed request validation always passes the message schema. */
  lemma ValidBodyPassesSchema(dto: WebhookDto.WebhookMessage, isDateString: string -> bool, timestamp: Timestamp)
    requires WebhookDto.IsValid(dto, isDateString)
    ensures HasRequiredFields(InboundData(dto, timestamp))
  {
  }
}
