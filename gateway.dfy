/**
 * The real-time channel, seen from the server: every broadcast is one
 * event appended to the outbox of events sent to all connected viewers.
 */
module Gateway {
  import opened Schemas

  const NewMessageType := "new_message"

  datatype EventData = EventData(
    id: MessageId,
    phone: string,
    name: string,
    message: string,
    timestamp: Timestamp,
    isFromBot: bool)

  /** A socket event; `kind` is the event's `type` field. */
  datatype Event = Event(kind: string, data: EventData)

  /** The `new_message` event announcing a stored message. */
  function NewMessageEvent(m: Message): Event
  {
    Event(NewMessageType, EventData(m.id, m.phone, m.name, m.message, m.timestamp, m.isFromBot))
  }

  class WebsocketGateway {
    /** Every event emitted so far, oldest first. */
    var sent: seq<Event>

    constructor ()
      ensures sent == []
    {
      sent := [];
    }

    /** Emits one event to every connected client. */
    method BroadcastNewMessage(e: Event)
      modifies this
      ensures sent == old(sent) + [e]
    {
      sent := sent + [e];
    }
  }
}
