/**
 * Borrow records as the pages see them. The borrowing engine that creates and updates
 * these rows (limits, deadlines, collection and return dates) is outside the model; a
 * record's dates are whole-day timestamps supplied by the caller.
 */
module Loans {
  import opened Seqs

  /** The `status` column of a borrow row. */
  datatype Status = Borrowed | Returned

  /** One row of the borrowings table, with the book's name and author joined in. */
  datatype BorrowRecord = BorrowRecord(
    userEmail: string,
    bookId: int,
    name: string,
    author: string,
    status: Status,
    collected: bool,
    issueDate: int,
    returnDeadline: int)

  /** The two colours a return deadline is drawn in. */
  datatype DeadlineColour = Red | Green

  /** Days left under seven are drawn red, anything else green (both admin pages agree). */
  function DeadlineColourFor(daysLeft: int): (c: DeadlineColour)
    ensures c == Red <==> daysLeft < 7
  {
    if daysLeft < 7 then Red else Green
  }

  /** Borrowed, but not yet picked up at the desk. */
  predicate IsPending(r: BorrowRecord) { r.status == Borrowed && !r.collected }

  /** Borrowed and picked up. */
  predicate IsCollected(r: BorrowRecord) { r.status == Borrowed && r.collected }

  /** Handed back. */
  predicate IsReturned(r: BorrowRecord) { r.status == Returned }

  /** Every record is in exactly one of the three stages. */
  lemma StagesPartition(r: BorrowRecord)
    ensures IsPending(r) || IsCollected(r) || IsReturned(r)
    ensures !(IsPending(r) && IsCollected(r))
    ensures !(IsPending(r) && IsReturned(r))
    ensures !(IsCollected(r) && IsReturned(r))
  {
  }

  function Pending(records: seq<BorrowRecord>): seq<BorrowRecord> { Filter(records, (r: BorrowRecord) => IsPending(r)) }
  function Collected(records: seq<BorrowRecord>): seq<BorrowRecord> { Filter(records, (r: BorrowRecord) => IsCollected(r)) }
  function ReturnedOnes(records: seq<BorrowRecord>): seq<BorrowRecord> { Filter(records, (r: BorrowRecord) => IsReturned(r)) }

  /** The three stage views together hold every record once. */
  lemma {:induction false} StageCountsAddUp(records: seq<BorrowRecord>)
    ensures |Pending(records)| + |Collected(records)| + |ReturnedOnes(records)| == |records|
    decreases |records|
  {
    if records != [] {
      StageCountsAddUp(records[1..]);
      StagesPartition(records[0]);
    }
  }
}
