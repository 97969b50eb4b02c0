/**
 * The recent-transactions list: every transaction shown in the given order,
 * a delete button only on rows dated today, and a delete handler that refuses
 * other rows without calling the store and asks the caller to refresh only
 * after the store has deleted the row.
 */
module TransactionList {
  import opened Calendar
  import opened Ledger
  import opened Feedback

  /** Deletion is offered and allowed only for a row dated today. */
  predicate Deletable(t: Transaction, today: Date) {
    t.date == today
  }

  /** One rendered row: the transaction and whether it carries a delete button. */
  datatype Row = Row(transaction: Transaction, showsDelete: bool)

  /** The rendered list. */
  function Listing(ts: seq<Transaction>, today: Date): (rows: seq<Row>)
    ensures |rows| == |ts|
    ensures forall i :: 0 <= i < |ts| ==> rows[i].transaction == ts[i]
    ensures forall i :: 0 <= i < |ts| ==> (rows[i].showsDelete <==> ts[i].date == today)
  {
    if ts == [] then [] else [Row(ts[0], Deletable(ts[0], today))] + Listing(ts[1..], today)
  }

  /** The condition of the store's delete by id: rows whose id differs survive. */
  function KeepsId(id: string): Transaction -> bool {
    (t: Transaction) => t.id != id
  }

  /** The store after a successful delete by id. */
  function RemoveById(stored: seq<Transaction>, id: string): (r: seq<Transaction>)
    ensures forall t :: t in r <==> t in stored && t.id != id
  {
    Filter(stored, KeepsId(id))
  }

  /** What a delete request leaves behind: the stored rows, whether the store was asked, how often the caller was asked to refresh, and the toast. */
  datatype DeleteOutcome = DeleteOutcome(stored: seq<Transaction>, storeCalled: bool, refreshes: nat, notice: Notice)

  /**
   * `handleDelete(id, date)`. `stored` stands for the store's rows and
   * `reply` for its answer to the delete, when it is asked.
   */
  function HandleDelete(stored: seq<Transaction>, id: string, date: Date, today: Date, reply: StoreReply): (r: DeleteOutcome)
    ensures date != today ==>
      && !r.storeCalled && r.stored == stored && r.refreshes == 0
      && r.notice == Error("You can only delete today's transactions")
    ensures date == today ==> r.storeCalled
    ensures r.refreshes <= 1
    ensures r.refreshes == 1 <==> date == today && reply == Done
    ensures r.refreshes == 1 ==> r.stored == RemoveById(stored, id) && r.notice == Info("Transaction deleted")
    ensures r.refreshes == 0 ==> r.stored == stored && r.notice.Error?
    ensures date == today && reply.Failed? ==> r.notice == Error(MessageOr(reply.message, "Failed to delete transaction"))
  {
    if date != today then
      DeleteOutcome(stored, false, 0, Error("You can only delete today's transactions"))
    else if reply.Done? then
      DeleteOutcome(RemoveById(stored, id), true, 1, Info("Transaction deleted"))
    else
      DeleteOutcome(stored, true, 0, Error(MessageOr(reply.message, "Failed to delete transaction")))
  }

  /**
   * Pressing the delete button of a listed row: the button exists only on a
   * row dated today, and once the store has deleted it the row is gone from
   * the next listing while every other row keeps its place in order.
   */
  lemma DeleteFromListing(ts: seq<Transaction>, i: nat, today: Date)
    requires i < |ts| && Listing(ts, today)[i].showsDelete
    ensures ts[i].date == today
    ensures var r := HandleDelete(ts, ts[i].id, ts[i].date, today, Done);
      && r.refreshes == 1
      && ts[i] !in r.stored
      && r.stored == Filter(ts, KeepsId(ts[i].id))
      && |r.stored| == |Positions(ts, KeepsId(ts[i].id))|
      && (forall k :: 0 <= k < |r.stored| ==> r.stored[k] == ts[Positions(ts, KeepsId(ts[i].id))[k]])
  {
    FilterSelectsInOrder(ts, KeepsId(ts[i].id));
  }

  /** A row not dated today is never offered for deletion, and a request for it never reaches the store. */
  lemma OtherDaysProtected(ts: seq<Transaction>, i: nat, today: Date, reply: StoreReply)
    requires i < |ts| && ts[i].date != today
    ensures !Listing(ts, today)[i].showsDelete
    ensures var r := HandleDelete(ts, ts[i].id, ts[i].date, today, reply);
      !r.storeCalled && r.stored == ts && r.refreshes == 0
  {
  }
}
