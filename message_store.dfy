/**
 * The message collection: an append-only log of saved messages, read back
 * per phone newest first, and deleted per phone in bulk.
 */
module MessageStore {
  import opened Wrappers
  import opened Schemas
  import opened Ordering

  /** The page size a reader gets when it names none. */
  const DefaultLimit := 50

  /** The messages of one phone, in store order (the `find({ phone })` filter). */
  function Thread(log: seq<Message>, phone: string): (r: seq<Message>)
    ensures forall m :: m in r <==> m in log && m.phone == phone
    ensures |r| <= |log|
  {
    if log == [] then []
    else (if log[0].phone == phone then [log[0]] else []) + Thread(log[1..], phone)
  }

  /** The log with every message of one phone removed (the `deleteMany({ phone })` filter). */
  function Without(log: seq<Message>, phone: string): (r: seq<Message>)
    ensures forall m :: m in r <==> m in log && m.phone != phone
    ensures |r| + |Thread(log, phone)| == |log|
  {
    if log == [] then []
    else (if log[0].phone == phone then [] else [log[0]]) + Without(log[1..], phone)
  }

  /** Removing one phone's messages leaves every other phone's thread exactly as it was. */
  lemma {:induction false} WithoutKeepsOtherThreads(log: seq<Message>, phone: string, other: string)
    requires phone != other
    ensures Thread(Without(log, phone), other) == Thread(log, other)
  {
    if log != [] {
      WithoutKeepsOtherThreads(log[1..], phone, other);
      var head := if log[0].phone == phone then [] else [log[0]];
      ThreadAppend(head, Without(log[1..], phone), other);
    }
  }

  /** Filtering distributes over concatenation. */
  lemma {:induction false} ThreadAppend(a: seq<Message>, b: seq<Message>, phone: string)
    ensures Thread(a + b, phone) == Thread(a, phone) + Thread(b, phone)
  {
    if a == [] {
      assert a + b == b;
    } else {
      assert (a + b)[1..] == a[1..] + b;
      ThreadAppend(a[1..], b, phone);
    }
  }

  /** Deleting a phone's messages a second time changes nothing. */
  lemma {:induction false} WithoutIdempotent(log: seq<Message>, phone: string)
    ensures Without(Without(log, phone), phone) == Without(log, phone)
  {
    WithoutNothingToRemove(Without(log, phone), phone);
  }

  lemma {:induction false} WithoutNothingToRemove(log: seq<Message>, phone: string)
    requires forall m :: m in log ==> m.phone != phone
    ensures Without(log, phone) == log
  {
    if log != [] {
      WithoutNothingToRemove(log[1..], phone);
      assert log == [log[0]] + log[1..];
    }
  }

  class MessagesService {
    /** Every saved message, in the order it was saved. */
    var log: seq<Message>
    /** The identity the next save hands out. */
    var nextId: MessageId

    ghost predicate Valid()
      reads this
    {
      && DistinctIds(log)
      && forall i :: 0 <= i < |log| ==> log[i].id < nextId
    }

    constructor ()
      ensures Valid() && log == [] && nextId == 0
    {
      log := [];
      nextId := 0;
    }

    /**
     * Saves one message. Schema validation runs first (a required string
     * must not be empty); then the database must answer.
     */
    method Create(data: MessageData, reachable: bool) returns (r: Result<Message, StoreError>)
      requires Valid()
      modifies this
      ensures Valid()
      ensures !HasRequiredFields(data) ==> r == Failure(ValidationFailed)
      ensures HasRequiredFields(data) && !reachable ==> r == Failure(StorageUnavailable)
      ensures r.Success? <==> HasRequiredFields(data) && reachable
      ensures r.Failure? ==> log == old(log) && nextId == old(nextId)
      ensures r.Success? ==> r.value == NewMessage(old(nextId), data)
      ensures r.Success? ==> log == old(log) + [r.value]
      ensures r.Success? ==> forall m :: m in old(log) ==> m.id != r.value.id
    {
      if !HasRequiredFields(data) {
        return Failure(ValidationFailed);
      }
      if !reachable {
        return Failure(StorageUnavailable);
      }
      var m := NewMessage(nextId, data);
      log := log + [m];
      nextId := nextId + 1;
      r := Success(m);
    }

    /**
     * The newest `limit` messages of `phone`, newest first: filter by phone,
     * sort by timestamp descending, keep the first `limit`.
     */
    function FindByPhone(phone: string, limit: int := DefaultLimit): (r: seq<Message>)
      reads this
      ensures forall m :: m in r ==> m in log && m.phone == phone
      ensures SortedDesc(r, TimestampOf)
      ensures |r| == LimitCount(limit, |Thread(log, phone)|)
      ensures r == SortDesc(Thread(log, phone), TimestampOf)[..|r|]
    {
      var sorted := SortDesc(Thread(log, phone), TimestampOf);
      sorted[..LimitCount(limit, |sorted|)]
    }

    /** Removes every message of `phone` and reports how many there were. */
    method DeleteByPhone(phone: string, reachable: bool) returns (r: Result<nat, StoreError>)
      requires Valid()
      modifies this
      ensures Valid()
      ensures nextId == old(nextId)
      ensures r.Success? <==> reachable
      ensures !reachable ==> r == Failure(StorageUnavailable) && log == old(log)
      ensures reachable ==> log == Without(old(log), phone)
      ensures reachable ==> r.value == |Thread(old(log), phone)|
    {
      if !reachable {
        return Failure(StorageUnavailable);
      }
      var kept := Without(log, phone);
      WithoutKeepsDistinctIds(log, phone);
      r := Success(|log| - |kept|);
      log := kept;
    }
  }

  /** What `Without` keeps keeps its place and its identity, so distinct ids stay distinct. */
  lemma {:induction false} WithoutKeepsDistinctIds(log: seq<Message>, phone: string)
    ensures DistinctIds(log) ==> DistinctIds(Without(log, phone))
  {
    if log != [] {
      WithoutKeepsDistinctIds(log[1..], phone);
      var rest := Without(log[1..], phone);
      if DistinctIds(log) {
        assert DistinctIds(log[1..]);
        if log[0].phone != phone {
          forall m | m in rest ensures m.id != log[0].id {
            var j :| 1 <= j < |log| && log[j] == m;
          }
        }
      }
    }
  }

  /** A page read right after the phone's thread was deleted is empty. */
  lemma {:induction false} DeletedThreadReadsEmpty(log: seq<Message>, phone: string)
    ensures Thread(Without(log, phone), phone) == []
  {
    if log != [] {
      DeletedThreadReadsEmpty(log[1..], phone);
      var head := if log[0].phone == phone then [] else [log[0]];
      ThreadAppend(head, Without(log[1..], phone), phone);
    }
  }

  /**
   * A page holds the newest messages of the phone: every message of that
   * phone that was left out is no newer than any message that was kept.
   */
  lemma FindByPhoneReturnsNewest(svc: MessagesService, phone: string, limit: int, left: Message, kept: Message)
    requires left in svc.log && left.phone == phone
    requires left !in svc.FindByPhone(phone, limit)
    requires kept in svc.FindByPhone(phone, limit)
    ensures left.timestamp <= kept.timestamp
  {
    var sorted := SortDesc(Thread(svc.log, phone), TimestampOf);
    var page := svc.FindByPhone(phone, limit);
    assert left in multiset(sorted);
    PrefixHoldsLargest(sorted, |page|, TimestampOf, left, kept);
  }

  /** With a positive limit a page holds min(limit, thread size) messages. */
  lemma PageSize(svc: MessagesService, phone: string, limit: int)
    requires limit > 0
    ensures |svc.FindByPhone(phone, limit)| == Min(limit, |Thread(svc.log, phone)|)
  {
  }
}
