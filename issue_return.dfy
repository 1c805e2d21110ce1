/**
 * The administrator's issue-and-return page: the status filter over all borrow records,
 * what each record's card says, which action button it offers, and what the confirm-then-
 * update handlers do. The updates themselves belong to the borrowing engine and appear
 * here only as the success flag they return.
 */
module IssueReturn {
  import opened Seqs
  import opened Loans

  /** The four radio buttons above the list. */
  datatype StatusFilter = All | PendingOnly | CollectedOnly | ReturnedOnly

  /** The records a filter keeps. */
  predicate Selects(f: StatusFilter, r: BorrowRecord)
  {
    match f
    case All => true
    case PendingOnly => IsPending(r)
    case CollectedOnly => IsCollected(r)
    case ReturnedOnly => IsReturned(r)
  }

  /** `display_borrowed_books`: the records the chosen filter keeps, in table order. */
  function Shown(records: seq<BorrowRecord>, f: StatusFilter): (r: seq<BorrowRecord>)
    ensures f == All ==> r == records
    ensures forall x :: x in r <==> x in records && Selects(f, x)
    ensures forall x :: multiset(r)[x] == if Selects(f, x) then multiset(records)[x] else 0
  {
    match f
    case All => records
    case PendingOnly =>
      FilterMultiset(records, (r: BorrowRecord) => IsPending(r));
      Pending(records)
    case CollectedOnly =>
      FilterMultiset(records, (r: BorrowRecord) => IsCollected(r));
      Collected(records)
    case ReturnedOnly =>
      FilterMultiset(records, (r: BorrowRecord) => IsReturned(r));
      ReturnedOnes(records)
  }

  /** Every filter keeps records in their original order. */
  lemma ShownInOrder(records: seq<BorrowRecord>, f: StatusFilter)
    ensures IsSubsequence(Shown(records, f), records)
  {
    match f
    case All => SubsequenceOfSelf(records);
    case PendingOnly => FilterIsSubsequence(records, (r: BorrowRecord) => IsPending(r));
    case CollectedOnly => FilterIsSubsequence(records, (r: BorrowRecord) => IsCollected(r));
    case ReturnedOnly => FilterIsSubsequence(records, (r: BorrowRecord) => IsReturned(r));
  }

  /** No record shows up under two of the pending, collected and returned filters. */
  lemma FiltersDisjoint(records: seq<BorrowRecord>, f: StatusFilter, g: StatusFilter, x: BorrowRecord)
    requires f != All && g != All && f != g
    ensures !(x in Shown(records, f) && x in Shown(records, g))
  {
    StagesPartition(x);
  }

  /** The pending, collected and returned lists together are exactly as long as the full list. */
  lemma FiltersCoverAll(records: seq<BorrowRecord>)
    ensures |Shown(records, PendingOnly)| + |Shown(records, CollectedOnly)| + |Shown(records, ReturnedOnly)|
            == |Shown(records, All)|
  {
    StageCountsAddUp(records);
  }

  /**
   * The collection line of a card still out: collected (with the "collected on" date when
   * one is stored), or the date to collect by.
   */
  datatype CollectionLine = CollectedLine(showsDate: bool) | CollectBy

  /**
   * The text part of a card: returned (with the "returned on" date when one is stored), or the
   * collection line and the return deadline's colour.
   */
  datatype CardInfo = ReturnedCard(showsReturnDate: bool) | OutCard(collection: CollectionLine, returnColour: DeadlineColour)

  /**
   * `create_book_card`'s text; `daysLeft` is the whole days until the return deadline, and
   * `hasReturnDate` and `hasCollectionDate` say whether the record stores those dates.
   */
  function CardInfoFor(r: BorrowRecord, daysLeft: int, hasReturnDate: bool, hasCollectionDate: bool): (c: CardInfo)
    ensures c.ReturnedCard? <==> IsReturned(r)
    ensures c.ReturnedCard? ==> (c.showsReturnDate <==> hasReturnDate)
    ensures c.OutCard? ==> (c.collection == CollectBy <==> IsPending(r))
    ensures c.OutCard? && c.collection.CollectedLine? ==> (c.collection.showsDate <==> hasCollectionDate)
    ensures c.OutCard? ==> (c.returnColour == Red <==> daysLeft < 7)
  {
    if r.status == Returned then ReturnedCard(hasReturnDate)
    else OutCard(if r.collected then CollectedLine(hasCollectionDate) else CollectBy, DeadlineColourFor(daysLeft))
  }

  /** The two action buttons a card can carry. */
  datatype Action = MarkCollected | MarkReturned

  /** The buttons of a card: only borrowed records get one, and it depends on the collected flag. */
  function Actions(r: BorrowRecord): (a: seq<Action>)
    ensures a == [] <==> IsReturned(r)
    ensures a == [MarkCollected] <==> IsPending(r)
    ensures a == [MarkReturned] <==> IsCollected(r)
  {
    if r.status == Borrowed then
      if !r.collected then [MarkCollected] else [MarkReturned]
    else []
  }

  /** A card never offers more than one button, and never the return before the collection. */
  lemma ReturnOnlyAfterCollect(r: BorrowRecord)
    ensures |Actions(r)| <= 1
    ensures MarkReturned in Actions(r) ==> r.status == Borrowed && r.collected
    ensures MarkCollected in Actions(r) ==> r.status == Borrowed && !r.collected
  {
    StagesPartition(r);
  }

  /** What a marking handler ends in: the dialog declined, the page reloaded, or an error box. */
  datatype MarkOutcome = Cancelled | Refreshed | ErrorShown

  /**
   * `mark_collected` and `mark_returned`: the store is asked only after the admin confirms
   * (every outcome but `Cancelled`), and `storeOk` is what the store answers.
   */
  function MarkHandler(confirmed: bool, storeOk: bool): (o: MarkOutcome)
    ensures o == Cancelled <==> !confirmed
    ensures o == Refreshed <==> confirmed && storeOk
    ensures o == ErrorShown <==> confirmed && !storeOk
  {
    if !confirmed then Cancelled
    else if storeOk then Refreshed
    else ErrorShown
  }
}
