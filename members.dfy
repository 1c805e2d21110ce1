/**
 * The administrator's members page: which registered users are listed for a search,
 * the loan counts on each member's card, and the borrowing history dialog (its order,
 * the status badge of each record and the date line under it).
 */
module Members {
  import opened Seqs
  import opened Text
  import opened Store
  import opened Loans

  /** The hint text of the search box; typing nothing or leaving the hint means no search. */
  const SearchPlaceholder: string := "Search by member name, book name, author or ID..."

  /** The name as the search sees it: first and last name joined by one space. */
  function FullName(u: User): string { u.firstName + " " + u.lastName }

  /** The mask `borrowed_df['user_email'] == email`. */
  function BorrowedBy(email: string): BorrowRecord -> bool
  {
    (x: BorrowRecord) => x.userEmail == email
  }

  /** The borrowings of one member, joined on the exact stored email, in table order. */
  function RecordsOf(records: seq<BorrowRecord>, email: string): (r: seq<BorrowRecord>)
    ensures forall x :: x in r <==> x in records && x.userEmail == email
  {
    Filter(records, BorrowedBy(email))
  }

  /** A borrowing matches the lower-cased query through its book's name, author or id. */
  predicate RecordMatches(r: BorrowRecord, q: string)
  {
    IsSubstring(q, Lower(r.name)) || IsSubstring(q, Lower(r.author)) || IsSubstring(q, IntToString(r.bookId))
  }

  /**
   * `user_matches`: the lower-cased query `q` occurs in the name, in the email, or the mask
   * over the user's own borrowings selects any row; that is, one of them matches.
   */
  function UserMatches(u: User, records: seq<BorrowRecord>, q: string): (b: bool)
    ensures b <==> IsSubstring(q, Lower(FullName(u))) || IsSubstring(q, Lower(u.email))
                   || exists r :: r in records && r.userEmail == u.email && RecordMatches(r, q)
  {
    var hits := Filter(RecordsOf(records, u.email), (r: BorrowRecord) => RecordMatches(r, q));
    assert hits != [] ==> hits[0] in hits;
    IsSubstring(q, Lower(FullName(u))) || IsSubstring(q, Lower(u.email)) || hits != []
  }

  /** Whether the text in the search box filters at all. */
  predicate Searching(text: string) { text != "" && text != SearchPlaceholder }

  /** `display_members`' two masks: the role is the user role, and the search (if any) matches. */
  predicate Listed(u: User, records: seq<BorrowRecord>, text: string)
  {
    u.role == Member && (Searching(text) ==> UserMatches(u, records, Lower(text)))
  }

  /** The listed members: a subsequence of the users table, so nobody is reordered or repeated. */
  function MembersShown(users: seq<User>, records: seq<BorrowRecord>, text: string): (r: seq<User>)
    ensures IsSubsequence(r, users)
    ensures forall u :: u in r <==> u in users && u.role == Member && (Searching(text) ==> UserMatches(u, records, Lower(text)))
    ensures forall u :: multiset(r)[u] == if Listed(u, records, text) then multiset(users)[u] else 0
  {
    FilterIsSubsequence(users, (u: User) => Listed(u, records, text));
    FilterMultiset(users, (u: User) => Listed(u, records, text));
    Filter(users, (u: User) => Listed(u, records, text))
  }

  /** With no search every member is listed, in table order, and no administrator. */
  lemma NoSearchListsAllMembers(users: seq<User>, records: seq<BorrowRecord>, text: string)
    requires !Searching(text)
    ensures MembersShown(users, records, text) == Filter(users, (u: User) => u.role == Member)
  {
    FilterSameMask(users, (u: User) => Listed(u, records, text), (u: User) => u.role == Member);
  }

  /** Searching for (part of) a book's name finds every member who has borrowed that book. */
  lemma {:induction false} BorrowerFoundByBook(users: seq<User>, records: seq<BorrowRecord>, text: string,
                                               u: User, r: BorrowRecord)
    requires Searching(text) && u in users && u.role == Member
    requires r in records && r.userEmail == u.email && IsSubstring(Lower(text), Lower(r.name))
    ensures u in MembersShown(users, records, text)
  {
    assert RecordMatches(r, Lower(text));
  }

  /** All of a member's borrowings, returned ones included: none exactly when no record carries the email. */
  function TotalCount(records: seq<BorrowRecord>, email: string): (n: nat)
    ensures n <= |records|
    ensures n == 0 <==> forall r :: r in records ==> r.userEmail != email
  {
    var mine := RecordsOf(records, email);
    assert mine != [] ==> mine[0] in mine;
    |mine|
  }

  /** One more borrowing record raises the total of its own member by one and no other member's. */
  lemma TotalCountAppend(records: seq<BorrowRecord>, r: BorrowRecord, email: string)
    ensures TotalCount(records + [r], email) == TotalCount(records, email) + (if r.userEmail == email then 1 else 0)
  {
    FilterAppend(records, [r], BorrowedBy(email));
  }

  /** The mask `user_borrows['status'] == 'borrowed'`. */
  predicate StillOut(r: BorrowRecord) { r.status == Borrowed }

  /**
   * A member's loans still out: the member's borrowings whose status is borrowed, collected
   * or not. Never more than the total, and zero exactly when every one of them is returned.
   */
  function ActiveCount(records: seq<BorrowRecord>, email: string): (n: nat)
    ensures n <= TotalCount(records, email)
    ensures n == 0 <==> forall r :: r in records && r.userEmail == email ==> r.status != Borrowed
  {
    var active := Filter(RecordsOf(records, email), StillOut);
    assert active != [] ==> active[0] in active;
    |active|
  }

  /** One more record raises the active count of its own member by one exactly when it is still out. */
  lemma ActiveCountAppend(records: seq<BorrowRecord>, r: BorrowRecord, email: string)
    ensures ActiveCount(records + [r], email)
            == ActiveCount(records, email) + (if r.userEmail == email && r.status == Borrowed then 1 else 0)
  {
    FilterAppend(records, [r], BorrowedBy(email));
    assert [r][1..] == [];
    var tail := RecordsOf([r], email);
    FilterAppend(RecordsOf(records, email), tail, StillOut);
    assert tail == if r.userEmail == email then [r] else [];
  }

  /** The sort key of the history dialog. */
  function IssueDate(r: BorrowRecord): int { r.issueDate }

  /** The history dialog: exactly the member's borrowings, newest issue date first. */
  function History(records: seq<BorrowRecord>, email: string): (h: seq<BorrowRecord>)
    ensures SortedDesc(h, IssueDate)
    ensures multiset(h) == multiset(RecordsOf(records, email))
    ensures forall x :: x in h <==> x in records && x.userEmail == email
    ensures |h| == TotalCount(records, email)
  {
    var h := SortDesc(RecordsOf(records, email), IssueDate);
    assert forall x :: x in h <==> x in multiset(h);
    h
  }

  /** The badge at the top right of a history entry. */
  datatype Badge = ReturnedBadge | CollectedBadge | PendingBadge

  /** A returned record is marked returned whatever its collected flag; otherwise the flag decides. */
  function StatusBadge(r: BorrowRecord): (b: Badge)
    ensures b == ReturnedBadge <==> IsReturned(r)
    ensures b == CollectedBadge <==> IsCollected(r)
    ensures b == PendingBadge <==> IsPending(r)
  {
    if r.status == Returned then ReturnedBadge
    else if r.collected then CollectedBadge
    else PendingBadge
  }

  /** The date shown beside the issue date of a history entry. */
  datatype DateLine = ReturnedOn | ReturnBy(colour: DeadlineColour) | NoDate

  /**
   * A returned record with a return date shows that date; a borrowed one shows its deadline,
   * red when fewer than seven days are left. `daysLeft` is the whole days until the deadline.
   */
  function HistoryDateLine(r: BorrowRecord, hasReturnDate: bool, daysLeft: int): (d: DateLine)
    ensures d.ReturnBy? <==> r.status == Borrowed
    ensures d == ReturnBy(Red) <==> r.status == Borrowed && daysLeft < 7
    ensures d == ReturnedOn <==> r.status == Returned && hasReturnDate
  {
    if r.status == Returned && hasReturnDate then ReturnedOn
    else if r.status == Borrowed then ReturnBy(DeadlineColourFor(daysLeft))
    else NoDate
  }
}
