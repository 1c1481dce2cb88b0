/**
 * What the unread counter means over a whole history of writes to the
 * conversation collection: for every phone it equals the number of upserts
 * since that phone was last marked read or deleted.
 */
module UnreadCounter {
  import opened Schemas
  import opened ConversationStore

  /** The three writes the service makes to the conversation collection. */
  datatype Write =
    | Upsert(phone: string, name: string, lastMessage: string, lastTimestamp: Timestamp)
    | MarkRead(phone: string)
    | Delete(phone: string)

  function Apply(rows: seq<Conversation>, w: Write): seq<Conversation>
  {
    match w
    case Upsert(p, n, m, t) => Upserted(rows, p, n, m, t)
    case MarkRead(p) => MarkedRead(rows, p)
    case Delete(p) => Removed(rows, p)
  }

  /** The collection after the writes `ws`, applied in order from `rows`. */
  function Replay(rows: seq<Conversation>, ws: seq<Write>): seq<Conversation>
    decreases |ws|
  {
    if ws == [] then rows
    else Apply(Replay(rows, ws[..|ws| - 1]), ws[|ws| - 1])
  }

  /** Reference count: upserts of `phone` after its last reset (mark-read or delete). */
  function UpsertsSinceReset(ws: seq<Write>, phone: string): nat
    decreases |ws|
  {
    if ws == [] then 0
    else
      var before := UpsertsSinceReset(ws[..|ws| - 1], phone);
      var w := ws[|ws| - 1];
      if w.phone != phone then before
      else if w.Upsert? then before + 1
      else 0
  }

  /** Every write keeps one row per phone and non-negative counters. */
  lemma {:induction false} ReplayKeepsWellFormed(rows: seq<Conversation>, ws: seq<Write>)
    requires WellFormed(rows)
    ensures WellFormed(Replay(rows, ws))
    decreases |ws|
  {
    if ws != [] {
      ReplayKeepsWellFormed(rows, ws[..|ws| - 1]);
    }
  }

  /**
   * Starting from an empty collection, the unread counter of every phone
   * is the number of upserts of that phone since its last reset.
   */
  lemma {:induction false} UnreadCountsUpsertsSinceReset(ws: seq<Write>, phone: string)
    ensures UnreadOf(Replay([], ws), phone) == UpsertsSinceReset(ws, phone)
    decreases |ws|
  {
    if ws != [] {
      var prefix := ws[..|ws| - 1];
      UnreadCountsUpsertsSinceReset(prefix, phone);
      ReplayKeepsWellFormed([], prefix);
      var before := Replay([], prefix);
      assert Replay([], ws) == Apply(before, ws[|ws| - 1]);
      match ws[|ws| - 1]
      case Upsert(p, n, m, t) =>
      case MarkRead(p) =>
      case Delete(p) =>
    }
  }

  /** Reference count: every upsert of `phone` in `ws`, whatever else comes between. */
  function UpsertsOf(ws: seq<Write>, phone: string): nat
    decreases |ws|
  {
    if ws == [] then 0
    else
      var w := ws[|ws| - 1];
      UpsertsOf(ws[..|ws| - 1], phone) + (if w.phone == phone && w.Upsert? then 1 else 0)
  }

  /**
   * When no write in `ws` resets `phone` (other contacts' writes may come in
   * between), its counter rises by exactly the number of its upserts.
   */
  lemma {:induction false} UpsertsRaiseUnreadByCount(rows: seq<Conversation>, phone: string, ws: seq<Write>)
    requires forall k :: 0 <= k < |ws| && ws[k].phone == phone ==> ws[k].Upsert?
    ensures UnreadOf(Replay(rows, ws), phone) == UnreadOf(rows, phone) + UpsertsOf(ws, phone)
    decreases |ws|
  {
    if ws != [] {
      UpsertsRaiseUnreadByCount(rows, phone, ws[..|ws| - 1]);
    }
  }
}
