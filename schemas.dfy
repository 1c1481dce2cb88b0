/**
 * The two record shapes the service stores: one message per inbound or
 * outbound chat message, and one conversation summary per contact phone.
 */
module Schemas {
  import opened Wrappers

  /** A point in time, in milliseconds since the Unix epoch. */
  type Timestamp = int

  /** The identity the store gives a message when it saves it. */
  type MessageId = nat

  const DefaultIsFromBot := false
  const DefaultUnreadCount := 0

  /** Why a store call failed. */
  datatype StoreError =
    | StorageUnavailable  // the database did not answer
    | ValidationFailed    // the document broke a schema rule before it was sent

  datatype Message = Message(
    id: MessageId,
    phone: string,
    name: string,
    message: string,
    timestamp: Timestamp,
    isFromBot: bool)

  /** The fields a caller hands to `create`; `isFromBot` may be left out. */
  datatype MessageData = MessageData(
    phone: string,
    name: string,
    message: string,
    timestamp: Timestamp,
    isFromBot: Option<bool>)

  /** Messages are ordered by the timestamp the caller supplied. */
  function TimestampOf(m: Message): Timestamp { m.timestamp }

  /**
   * A `required` string path rejects the empty string, so a message whose
   * phone, name or text is empty never passes validation.
   */
  predicate HasRequiredFields(d: MessageData)
  {
    d.phone != "" && d.name != "" && d.message != ""
  }

  /** The document a save stores, with the schema default filled in. */
  function NewMessage(id: MessageId, d: MessageData): (m: Message)
    ensures m.id == id
    ensures m.phone == d.phone && m.name == d.name && m.message == d.message
    ensures m.timestamp == d.timestamp
    ensures d.isFromBot == None ==> m.isFromBot == DefaultIsFromBot
    ensures d.isFromBot == Some(true) <==> m.isFromBot
  {
    Message(id, d.phone, d.name, d.message, d.timestamp,
            match d.isFromBot case Some(b) => b case None => DefaultIsFromBot)
  }

  predicate DistinctIds(log: seq<Message>)
  {
    forall i, j :: 0 <= i < j < |log| ==> log[i].id != log[j].id
  }

  datatype Conversation = Conversation(
    phone: string,
    name: string,
    lastMessage: string,
    lastTimestamp: Timestamp,
    unreadCount: int)

  function LastTimestampOf(c: Conversation): Timestamp { c.lastTimestamp }

  /** The unique index on `phone`: no two rows share a phone. */
  predicate UniquePhones(rows: seq<Conversation>)
  {
    forall i, j :: 0 <= i < j < |rows| ==> rows[i].phone != rows[j].phone
  }

  /** What every stored conversation collection satisfies. */
  predicate WellFormed(rows: seq<Conversation>)
  {
    && UniquePhones(rows)
    && forall i :: 0 <= i < |rows| ==> rows[i].unreadCount >= 0
  }
}
