/**
 * Reading a thread: fetch the newest page, turn it oldest-first in place,
 * mark the conversation read, and answer with a copy of each message.
 */
module MessagesApi {
  import opened Wrappers
  import opened Schemas
  import opened Ordering
  import opened MessageStore
  import opened ConversationStore

  datatype MessageItem = MessageItem(
    id: MessageId,
    phone: string,
    name: string,
    message: string,
    timestamp: Timestamp,
    isFromBot: bool)

  function ItemOf(m: Message): MessageItem
  {
    MessageItem(m.id, m.phone, m.name, m.message, m.timestamp, m.isFromBot)
  }

  function ItemTimestampOf(it: MessageItem): Timestamp { it.timestamp }

  /** The reply body: each message copied field for field, in the same order. */
  function Items(ms: seq<Message>): (r: seq<MessageItem>)
    ensures |r| == |ms|
    ensures forall k :: 0 <= k < |ms| ==> r[k] == ItemOf(ms[k])
    ensures forall it :: it in r ==> exists m :: m in ms && ItemOf(m) == it
    ensures SortedAsc(ms, TimestampOf) ==> SortedAsc(r, ItemTimestampOf)
  {
    if ms == [] then []
    else [ItemOf(ms[0])] + Items(ms[1..])
  }

  /**
   * The page size: the parsed query value when the query string is
   * non-empty (an empty string is falsy), otherwise the default.
   */
  function EffectiveLimit(limit: Option<string>, parseInt: string -> int): int
  {
    match limit
    case Some(s) => if s != "" then parseInt(s) else DefaultLimit
    case None => DefaultLimit
  }

  /** Reverses the array in place. */
  method ReverseInPlace<T>(a: array<T>)
    modifies a
    ensures a[..] == Reversed(old(a[..]))
  {
    ghost var was := a[..];
    var n, i := a.Length, 0;
    while i < n / 2
      invariant 0 <= i <= n / 2
      invariant forall k :: 0 <= k < i ==> a[k] == was[n - 1 - k] && a[n - 1 - k] == was[k]
      invariant forall k :: i <= k < n - i ==> a[k] == was[k]
    {
      a[i], a[n - 1 - i] := a[n - 1 - i], a[i];
      i := i + 1;
    }
    forall k | n - i <= k < n ensures a[k] == was[n - 1 - k] {
      var j := n - 1 - k;
      assert a[n - 1 - j] == was[j];
    }
    ReversedPointwise(was, a[..]);
  }

  class MessagesController {
    const messages: MessagesService
    const conversations: ConversationsService

    constructor (messages: MessagesService, conversations: ConversationsService)
      ensures this.messages == messages && this.conversations == conversations
    {
      this.messages := messages;
      this.conversations := conversations;
    }

    /**
     * `GET /messages/:phone?limit=`. The two flags say whether the database
     * answers the page query and the mark-as-read update.
     */
    method GetMessages(phone: string, limit: Option<string>, parseInt: string -> int,
                       findReachable: bool, markReachable: bool)
      returns (r: Result<seq<MessageItem>, StoreError>)
      requires conversations.Valid()
      modifies conversations
      ensures conversations.Valid()
      ensures messages.log == old(messages.log)
      ensures r.Success? <==> findReachable && markReachable
      ensures r.Failure? ==> r.error == StorageUnavailable && conversations.rows == old(conversations.rows)
      ensures r.Success? ==> conversations.rows == MarkedRead(old(conversations.rows), phone)
      ensures r.Success? ==> r.value == Items(Reversed(messages.FindByPhone(phone, EffectiveLimit(limit, parseInt))))
      // what a caller sees
      ensures r.Success? ==> SortedAsc(r.value, ItemTimestampOf)
      ensures r.Success? ==> forall it :: it in r.value ==> it.phone == phone
      ensures r.Success? ==> forall it :: it in r.value ==> exists m :: m in messages.log && ItemOf(m) == it
      ensures r.Success? && EffectiveLimit(limit, parseInt) > 0 ==> |r.value| <= EffectiveLimit(limit, parseInt)
      ensures r.Success? ==> UnreadOf(conversations.rows, phone) == 0
      ensures r.Success? ==> (Find(conversations.rows, phone).None? <==> Find(old(conversations.rows), phone).None?)
    {
      if !findReachable {
        return Failure(StorageUnavailable);
      }
      var page := messages.FindByPhone(phone, EffectiveLimit(limit, parseInt));
      var a := new Message[|page|](k requires 0 <= k < |page| => page[k]);
      assert a[..] == page;

      ReverseInPlace(a);

      var marked := conversations.MarkAsRead(phone, markReachable);
      if marked.Failure? {
        return Failure(marked.error);
      }

      ghost var oldestFirst := a[..];
      var items := Items(a[..]);
      ReversedSortedDescIsSortedAsc(page, TimestampOf);
      assert forall m :: m in oldestFirst ==> m in multiset(page);
      r := Success(items);
    }
  }
}
