/**
 * The conversation collection: one summary row per phone, kept by an
 * atomic upsert-with-increment, listed most recent first, reset to read,
 * and deleted per phone. A `{ phone }` filter matches the first row with
 * that phone; the unique index makes it the only one.
 */
module ConversationStore {
  import opened Wrappers
  import opened Schemas
  import opened Ordering

  /** Position of the row a `{ phone }` filter matches. */
  function IndexOf(rows: seq<Conversation>, phone: string): (r: Option<nat>)
    ensures r.Some? ==> r.value < |rows| && rows[r.value].phone == phone
    ensures r.Some? ==> forall j :: 0 <= j < r.value ==> rows[j].phone != phone
    ensures r.None? ==> forall j :: 0 <= j < |rows| ==> rows[j].phone != phone
  {
    if rows == [] then None
    else if rows[0].phone == phone then Some(0)
    else match IndexOf(rows[1..], phone)
      case None => None
      case Some(k) => Some(k + 1)
  }

  /** The row stored for `phone`, if any. */
  function Find(rows: seq<Conversation>, phone: string): (r: Option<Conversation>)
    ensures r.Some? ==> r.value in rows && r.value.phone == phone
    ensures r.None? <==> forall c :: c in rows ==> c.phone != phone
    ensures UniquePhones(rows) ==> forall c :: c in rows && c.phone == phone ==> r == Some(c)
  {
    match IndexOf(rows, phone)
    case Some(i) => Some(rows[i])
    case None => None
  }

  /** The unread counter of `phone`, or the schema default when it has no row. */
  function UnreadOf(rows: seq<Conversation>, phone: string): int
  {
    match Find(rows, phone)
    case Some(c) => c.unreadCount
    case None => DefaultUnreadCount
  }

  /** The first row carrying the phone is the one a filter matches. */
  lemma FirstMatch(rows: seq<Conversation>, phone: string, i: nat)
    requires i < |rows| && rows[i].phone == phone
    requires forall j :: 0 <= j < i ==> rows[j].phone != phone
    ensures IndexOf(rows, phone) == Some(i)
  {
  }

  lemma NoMatch(rows: seq<Conversation>, phone: string)
    requires forall j :: 0 <= j < |rows| ==> rows[j].phone != phone
    ensures IndexOf(rows, phone) == None
  {
  }

  /** Rewriting one row with a value for the same phone moves no other phone's match. */
  lemma ReplaceKeepsOtherMatches(rows: seq<Conversation>, i: nat, c: Conversation)
    requires i < |rows| && c.phone == rows[i].phone
    ensures forall q :: q != c.phone ==> IndexOf(rows[i := c], q) == IndexOf(rows, q)
  {
    var rows' := rows[i := c];
    forall q | q != c.phone ensures IndexOf(rows', q) == IndexOf(rows, q) {
      match IndexOf(rows, q)
      case Some(k) => FirstMatch(rows', q, k);
      case None => NoMatch(rows', q);
    }
  }

  /** Appending a row for a new phone moves no other phone's match. */
  lemma AppendKeepsOtherMatches(rows: seq<Conversation>, c: Conversation)
    ensures forall q :: q != c.phone ==> IndexOf(rows + [c], q) == IndexOf(rows, q)
  {
    assert forall j :: 0 <= j < |rows| ==> (rows + [c])[j] == rows[j];
  }

  /** Dropping row `i` moves no other phone's match to a different row. */
  lemma RemoveKeepsOtherRows(rows: seq<Conversation>, i: nat)
    requires i < |rows|
    ensures forall q :: q != rows[i].phone ==> Find(rows[..i] + rows[i + 1..], q) == Find(rows, q)
  {
    var rows' := rows[..i] + rows[i + 1..];
    assert forall j :: 0 <= j < i ==> rows'[j] == rows[j];
    assert forall j :: i <= j < |rows'| ==> rows'[j] == rows[j + 1];
    forall q | q != rows[i].phone ensures Find(rows', q) == Find(rows, q) {
      match IndexOf(rows, q)
      case Some(k) =>
        var k' := if k < i then k else k - 1;
        assert rows'[k'] == rows[k];
        FirstMatch(rows', q, k');
      case None => NoMatch(rows', q);
    }
  }

  /**
   * `findOneAndUpdate({ phone }, { $set: { name, lastMessage, lastTimestamp },
   * $inc: { unreadCount: 1 } }, { upsert: true })`: the matched row is
   * overwritten and its counter raised by one; with no match, a row starting
   * from the default counter is inserted and raised the same way.
   */
  function Upserted(rows: seq<Conversation>, phone: string, name: string,
                    lastMessage: string, lastTimestamp: Timestamp): (r: seq<Conversation>)
    ensures Find(r, phone) == Some(Conversation(phone, name, lastMessage, lastTimestamp, UnreadOf(rows, phone) + 1))
    ensures forall q :: q != phone ==> Find(r, q) == Find(rows, q)
    ensures |r| == if Find(rows, phone).Some? then |rows| else |rows| + 1
    ensures WellFormed(rows) ==> WellFormed(r)
  {
    match IndexOf(rows, phone)
    case Some(i) =>
      var c := rows[i].(name := name, lastMessage := lastMessage, lastTimestamp := lastTimestamp,
                        unreadCount := rows[i].unreadCount + 1);
      ReplaceKeepsOtherMatches(rows, i, c);
      FirstMatch(rows[i := c], phone, i);
      rows[i := c]
    case None =>
      var c := Conversation(phone, name, lastMessage, lastTimestamp, DefaultUnreadCount + 1);
      AppendKeepsOtherMatches(rows, c);
      FirstMatch(rows + [c], phone, |rows|);
      rows + [c]
  }

  /** `updateOne({ phone }, { $set: { unreadCount: 0 } })`: no upsert, so a missing phone changes nothing. */
  function MarkedRead(rows: seq<Conversation>, phone: string): (r: seq<Conversation>)
    ensures Find(rows, phone).None? ==> r == rows
    ensures Find(rows, phone).Some? ==> Find(r, phone) == Some(Find(rows, phone).value.(unreadCount := 0))
    ensures UnreadOf(r, phone) == 0
    ensures forall q :: q != phone ==> Find(r, q) == Find(rows, q)
    ensures |r| == |rows|
    ensures WellFormed(rows) ==> WellFormed(r)
  {
    match IndexOf(rows, phone)
    case Some(i) =>
      var c := rows[i].(unreadCount := 0);
      ReplaceKeepsOtherMatches(rows, i, c);
      FirstMatch(rows[i := c], phone, i);
      rows[i := c]
    case None => rows
  }

  /** `deleteOne({ phone })`: drops the matched row, if any. */
  function Removed(rows: seq<Conversation>, phone: string): (r: seq<Conversation>)
    ensures Find(rows, phone).None? ==> r == rows
    ensures UniquePhones(rows) ==> Find(r, phone).None?
    ensures forall q :: q != phone ==> Find(r, q) == Find(rows, q)
    ensures |r| == if Find(rows, phone).Some? then |rows| - 1 else |rows|
    ensures WellFormed(rows) ==> WellFormed(r)
  {
    match IndexOf(rows, phone)
    case Some(i) =>
      var r := rows[..i] + rows[i + 1..];
      RemoveKeepsOtherRows(rows, i);
      assert forall j :: 0 <= j < i ==> r[j] == rows[j];
      assert forall j :: i <= j < |r| ==> r[j] == rows[j + 1];
      r
    case None => rows
  }

  /** Deleting a phone's row a second time changes nothing. */
  lemma RemovedIdempotent(rows: seq<Conversation>, phone: string)
    requires UniquePhones(rows)
    ensures Removed(Removed(rows, phone), phone) == Removed(rows, phone)
  {
  }

  class ConversationsService {
    /** The stored rows, in the collection's natural order. */
    var rows: seq<Conversation>

    ghost predicate Valid()
      reads this
    {
      WellFormed(rows)
    }

    constructor ()
      ensures Valid() && rows == []
    {
      rows := [];
    }

    /** One atomic upsert-with-increment; returns the row as it is after the update. */
    method UpdateOrCreate(phone: string, name: string, lastMessage: string,
                          lastTimestamp: Timestamp, reachable: bool)
      returns (r: Result<Conversation, StoreError>)
      requires Valid()
      modifies this
      ensures Valid()
      ensures !reachable ==> r == Failure(StorageUnavailable) && rows == old(rows)
      ensures reachable ==> rows == Upserted(old(rows), phone, name, lastMessage, lastTimestamp)
      ensures reachable ==> r == Success(Conversation(phone, name, lastMessage, lastTimestamp,
                                                      UnreadOf(old(rows), phone) + 1))
      ensures reachable ==> Find(rows, phone) == Some(r.value)
    {
      if !reachable {
        return Failure(StorageUnavailable);
      }
      rows := Upserted(rows, phone, name, lastMessage, lastTimestamp);
      r := Success(Find(rows, phone).value);
    }

    /** Every row, most recent `lastTimestamp` first. */
    function FindAll(): (r: seq<Conversation>)
      reads this
      ensures multiset(r) == multiset(rows)
      ensures SortedDesc(r, LastTimestampOf)
      ensures forall c :: c in r <==> c in rows
    {
      SortDesc(rows, LastTimestampOf)
    }

    /** Resets the phone's counter; reports how many rows matched (0 or 1). */
    method MarkAsRead(phone: string, reachable: bool) returns (r: Result<nat, StoreError>)
      requires Valid()
      modifies this
      ensures Valid()
      ensures !reachable ==> r == Failure(StorageUnavailable) && rows == old(rows)
      ensures reachable ==> rows == MarkedRead(old(rows), phone)
      ensures reachable ==> r == Success(if Find(old(rows), phone).Some? then 1 else 0)
    {
      if !reachable {
        return Failure(StorageUnavailable);
      }
      r := Success(if Find(rows, phone).Some? then 1 else 0);
      rows := MarkedRead(rows, phone);
    }

    /** Deletes the phone's row; reports how many rows went (0 or 1). */
    method DeleteByPhone(phone: string, reachable: bool) returns (r: Result<nat, StoreError>)
      requires Valid()
      modifies this
      ensures Valid()
      ensures !reachable ==> r == Failure(StorageUnavailable) && rows == old(rows)
      ensures reachable ==> rows == Removed(old(rows), phone)
      ensures reachable ==> r == Success(if Find(old(rows), phone).Some? then 1 else 0)
    {
      if !reachable {
        return Failure(StorageUnavailable);
      }
      r := Success(if Find(rows, phone).Some? then 1 else 0);
      rows := Removed(rows, phone);
    }
  }
}
