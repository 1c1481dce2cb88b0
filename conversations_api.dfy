/**
 * The conversation list and thread deletion: the list is a field-for-field
 * copy of every row, most recent first; deletion removes the thread's
 * messages first and its summary row second.
 */
module ConversationsApi {
  import opened Wrappers
  import opened Schemas
  import opened Ordering
  import opened MessageStore
  import opened ConversationStore

  const SuccessStatus := "success"
  const DeletedText := "Conversación eliminada"

  datatype ConversationItem = ConversationItem(
    phone: string,
    name: string,
    lastMessage: string,
    lastTimestamp: Timestamp,
    unreadCount: int)

  datatype Done = Done(status: string, message: string)

  function ItemOf(c: Conversation): ConversationItem
  {
    ConversationItem(c.phone, c.name, c.lastMessage, c.lastTimestamp, c.unreadCount)
  }

  function ItemLastTimestampOf(it: ConversationItem): Timestamp { it.lastTimestamp }

  class ConversationsController {
    const conversations: ConversationsService
    const messages: MessagesService

    constructor (conversations: ConversationsService, messages: MessagesService)
      ensures this.conversations == conversations && this.messages == messages
    {
      this.conversations := conversations;
      this.messages := messages;
    }

    /** `GET /conversations`; `reachable` says whether the database answers. */
    method GetConversations(reachable: bool) returns (r: Result<seq<ConversationItem>, StoreError>)
      ensures r.Success? <==> reachable
      ensures r.Failure? ==> r.error == StorageUnavailable
      ensures r.Success? ==> |r.value| == |conversations.rows|
      ensures r.Success? ==> forall k :: 0 <= k < |r.value| ==> r.value[k] == ItemOf(conversations.FindAll()[k])
      ensures r.Success? ==> forall c :: c in conversations.rows <==> ItemOf(c) in r.value
      ensures r.Success? ==> SortedDesc(r.value, ItemLastTimestampOf)
    {
      if !reachable {
        return Failure(StorageUnavailable);
      }
      var all := conversations.FindAll();
      var items := seq(|all|, k requires 0 <= k < |all| => ItemOf(all[k]));
      assert forall c :: c in all ==> ItemOf(c) in items by {
        forall c | c in all ensures ItemOf(c) in items {
          var k :| 0 <= k < |all| && all[k] == c;
          assert items[k] == ItemOf(c);
        }
      }
      r := Success(items);
    }

    /**
     * `DELETE /conversations/:phone`. The two flags say whether the database
     * answers the message deletion and the row deletion.
     */
    method DeleteConversation(phone: string, messagesReachable: bool, conversationsReachable: bool)
      returns (r: Result<Done, StoreError>)
      requires messages.Valid() && conversations.Valid()
      modifies messages, conversations
      ensures messages.Valid() && conversations.Valid()
      ensures r.Success? <==> messagesReachable && conversationsReachable
      ensures r.Failure? ==> r.error == StorageUnavailable
      // step 1 fails: both stores untouched
      ensures !messagesReachable ==>
                messages.log == old(messages.log) && conversations.rows == old(conversations.rows)
      // step 1 succeeds: exactly the phone's messages are gone
      ensures messagesReachable ==> messages.log == Without(old(messages.log), phone)
      // step 2 fails: the row stays, so the contact still shows in the list
      ensures messagesReachable && !conversationsReachable ==> conversations.rows == old(conversations.rows)
      ensures r.Success? ==> conversations.rows == Removed(old(conversations.rows), phone)
      ensures r.Success? ==> r.value == Done(SuccessStatus, DeletedText)
      // what a caller sees
      ensures r.Success? ==> Thread(messages.log, phone) == [] && Find(conversations.rows, phone).None?
      ensures r.Success? ==> forall q :: q != phone ==> Thread(messages.log, q) == Thread(old(messages.log), q)
      ensures r.Success? ==> forall q :: q != phone ==> Find(conversations.rows, q) == Find(old(conversations.rows), q)
    {
      var deletedMessages := messages.DeleteByPhone(phone, messagesReachable);
      if deletedMessages.Failure? {
        return Failure(deletedMessages.error);
      }
      var deletedRow := conversations.DeleteByPhone(phone, conversationsReachable);
      if deletedRow.Failure? {
        return Failure(deletedRow.error);
      }
      DeletedThreadReadsEmpty(old(messages.log), phone);
      forall q | q != phone ensures Thread(messages.log, q) == Thread(old(messages.log), q) {
        WithoutKeepsOtherThreads(old(messages.log), phone, q);
      }
      r := Success(Done(SuccessStatus, DeletedText));
    }
  }
}
