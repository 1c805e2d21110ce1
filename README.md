# LibraEase in Dafny

LibraEase is a desktop library application. Members sign up, browse the catalogue, keep a
cart and ask to borrow books. Administrators manage the catalogue, the members and the
issue-and-return desk, and look at usage charts. All data lives in three CSV tables (users,
books, cart) behind one store class, plus a borrowings table kept by a borrowing engine.

This project models:

- the store as a class `Store.Database`, which holds the three tables as sequences of typed
  rows. Its queries are functions of the tables and its updates are methods;
- the business rules inside the window handlers, as functions over plain inputs. Entry text
  is a string, a yes/no dialog is a `bool`, "days left" is an `int`, and the borrowing
  engine's answers are inputs;
- the handlers that change the store, as methods that carry out those rules on a
  `Database`.

Modules, one per source file or concern:

| module | file | models |
|---|---|---|
| `Wrappers` | wrappers.dfy | `Option` and `Result` |
| `Seqs` | seqs.dfy | boolean-mask filters, counting, `head`, a descending sort, array masks |
| `Text` | text.dfy | `strip`, ASCII `lower`, substring search, truncation with "...", decimal numerals |
| `Store` | store.dfy | database.py: rows, queries and the `Database` class |
| `Loans` | loans.dfy | borrow records and their three stages |
| `Auth` | auth.dfy | main.py: sign-up and login, and the `Session` object |
| `BookGrid` | book_grid.dfy | the search box and four-column card grid of both book pages |
| `ManageBook` | manage_book.dfy | admin/manage_book.py: the add, edit and delete dialogs |
| `Members` | members.dfy | admin/members.py: member search, loan counts, history |
| `IssueReturn` | issue_return.dfy | admin/admin_issue_return.py: status filter, cards, buttons |
| `Analysis` | analysis.dfy | admin/analysis.py: totals, the top-ten bar chart, the status pie |
| `UserBooks` | user_books.dfy | user/book.py: card buttons, the cart handler, borrow guards |

The role string `'User'` is `Store.Role.Member`, and `'Admin'` is `Store.Role.Admin`.

## Model

| member | source | states |
|---|---|---|
| `Store.FindUser` | database.py:51-57 | the row found has the lower-cased email; none is found iff no row has it |
| `Store.FindUserAtFirstIndex` | database.py:51-57 | the row found is the first with that email, as `iloc[0]` takes |
| `Store.ValidateLogin` | database.py:80-92 | a profile without the password is returned iff the lower-cased email's first row has exactly that password |
| `Store.UserExists` | database.py:59-62 | some row has the lower-cased email exactly when `get_user_by_email` finds one |
| `Store.CreatedUserExists` | database.py:64-78 | after `create_user`, the email exists in any letter case |
| `Store.FindUserAppended` | database.py:51-78 | an appended row is found for its email when no earlier row had it |
| `Store.LoginAfterCreate` | database.py:64-92 | a newly created user can log in with the same password, in any letter case of the email |
| `Store.GetUserStats` | database.py:215-228 | the total is the number of rows; the admin count is zero iff nobody is an admin and equals the total iff everybody is, and likewise for members |
| `Store.UserStatsAppend` | database.py:215-228 | one more user raises the total by one and exactly the count of that user's role, so with the empty table at zero each count is the number of rows with that role |
| `Store.UserStatsAddUp` | database.py:215-228 | admins plus members equals the total |
| `Store.FindBook` | database.py:104-110 | the book returned is in the table with the id; none is returned iff no row has the id |
| `Store.FirstIndexOfId` | database.py:104-110 | the position of the first row with the id, or the table length |
| `Store.FindBookAtFirstIndex` | database.py:104-110 | `get_book_by_id` returns the first matching row |
| `Store.FindAfterReplace` | database.py:163-183 | replacing the first matching row makes the lookup return the new row |
| `Store.SearchBooks` | database.py:112-121 | table order, and exactly the books whose lower-cased name or author holds the lower-cased query, each as often as in the table; ids are not searched |
| `Store.GetBooksByAuthor` | database.py:208-211 | table order, and exactly the books whose author equals the given one ignoring case |
| `Store.MaxId` | database.py:123-142 | the largest id of a non-empty table |
| `Store.NextId` | database.py:123-142 | 1 on an empty table, otherwise the largest id plus one, which is never taken |
| `Store.PatchBook` | database.py:163-183 | only the fields passed non-None change; the id never does |
| `Store.StoredImage` | database.py:185-201 | for a present id, the image path of its first row when that path is non-empty, else none; none for an absent id |
| `Store.DeleteSpec` | database.py:185-201 | every row with the id is gone, the rest stay in order, and an absent id changes nothing |
| `Store.FilterKeepsUniqueIds` | database.py:185-201 | deleting rows keeps the ids unique |
| `Store.AppendKeepsUniqueIds` | database.py:123-161 | appending a row with a fresh id keeps the ids unique |
| `Store.ReplaceKeepsUniqueIds` | database.py:163-183 | updating a row without changing its id keeps the ids unique |
| `Store.GetBookStats` | database.py:230-243 | the total is the row count; books with images are zero iff no book has an image path and equal the total iff every book has one |
| `Store.BookStatsAppend` | database.py:230-243 | one more book raises the total by one and the image count by one iff it has an image path, so the image count is the number of books with one |
| `Store.IsInCart` | database.py:271-275 | some cart row has the lower-cased email and the id; then the user's cart count is positive |
| `Store.GetCartCount` | database.py:301-305 | at most the cart's size, and zero iff the user has no row |
| `Store.GetCartCountAppend` | database.py:301-305 | one more cart row raises its own user's count by one and no other user's, so the count is the number of the user's rows |
| `Store.GetUserCart` | database.py:277-299 | book-table order, and exactly the existing books the user's rows name |
| `Store.RemoveSpec` | database.py:262-269 | the pair is gone, other rows stay in order, a second removal changes nothing, an absent pair changes nothing |
| `Store.ClearSpec` | database.py:307-311 | the user has no rows left, and every other user's rows are unchanged |
| `Store.DeletedBookLeavesCartView` | database.py:185-201 | a deleted book drops out of every cart view |
| `Store.IdSetSize` | database.py:277-299 | with unique ids a book list has as many ids as rows |
| `Store.RowIdSetSize` | database.py:277-299 | a list of cart rows names at most as many ids as it has rows |
| `Store.CartViewIds` | database.py:277-299 | every book in the cart view is named by one of the user's rows |
| `Store.CartViewAtMostCount` | database.py:277-305 | the view never shows more books than the count, and fewer once a carted book is deleted |
| `Store.UserCartUnique` | database.py:277-299 | each book appears in the view at most once |
| `Store.Database.constructor` | database.py:7-20 | the store starts with the given tables |
| `Store.Database.CreateUser` | database.py:64-78 | exactly one row is appended, with the email lower-cased; there is no duplicate check |
| `Store.Database.CreateBook` | database.py:123-142 | one row is appended under `NextId`; a missing image is stored as "" |
| `Store.Database.CreateBookWithId` | database.py:144-161 | an existing id is refused with nothing changed; otherwise one row is appended and the id returned |
| `Store.Database.UpdateBook` | database.py:163-183 | an absent id returns false with nothing changed; otherwise only the first matching row is patched |
| `Store.Database.DeleteBook` | database.py:185-201 | removes every row with the id and returns the stored image path |
| `Store.Database.AddToCart` | database.py:245-260 | refuses a present pair with nothing changed, else appends it and the user's cart count rises by one; afterwards the pair is in the cart |
| `Store.Database.RemoveFromCart` | database.py:262-269 | removes every row of the pair and always succeeds |
| `Store.Database.ClearCart` | database.py:307-311 | removes exactly that user's rows and always succeeds |
| `Text.Strip` | main.py:407-410 | the result has no white space at either end |
| `Text.StripSpec` | main.py:407-415 | the result is empty iff the text is all white space, and it is the piece of the text between a white-space prefix and a white-space suffix |
| `Text.StripIdempotent` | main.py:407-410 | stripping twice is stripping once |
| `Text.Lower` | main.py:409 | same length, each character lower-cased, no capital letter left |
| `Text.LowerIdempotent` | main.py:409 | lower-casing twice is lower-casing once, so a stored email is its own lookup key |
| `Text.LowerKeepsNonLetter` | main.py:409-423 | lower-casing does not add or remove '@' or '.' |
| `Text.TruncateShape` | admin/manage_book.py:536-537 | short text is unchanged; long text keeps its first n characters followed by "..." |
| `Text.IntRoundTrip` | admin/manage_book.py:744-745 | `int()` of an id's decimal text gives the id back |
| `Text.IntToStringInjective` | admin/manage_book.py:759-761 | different ids have different decimal texts |
| `Loans.DeadlineColourFor` | admin/members.py:532-535 | red iff fewer than seven days are left |
| `Loans.StagesPartition` | admin/admin_issue_return.py:183-195 | every record is exactly one of pending, collected or returned |
| `Loans.StageCountsAddUp` | admin/admin_issue_return.py:183-195 | the three stage lists together are as long as all records |
| `Auth.HomePage` | main.py:449-456 | administrators get the dashboard, everyone else the book list |
| `Auth.CheckSignup` | main.py:406-437 | on the raw entries: accepted iff no check fails, a refusal reports the first failed check, and an acceptance yields the stripped, lower-cased row |
| `Auth.CheckCleaned` | main.py:413-439 | the checks run in order; acceptance yields the row `create_user` writes |
| `Auth.SignupReportsFirstFailure` | main.py:413-437 | the error shown is the first of all failed checks, and sign-up passes iff none fails |
| `Auth.SignupAcceptedIff` | main.py:407-437 | accepted iff both names have at least 2 characters, the email holds '@' and '.', the password has at least 4 characters, an admin's passkey matches, and the email is new |
| `Auth.NoPasskeyNoAdmin` | main.py:20 | with no passkey configured, admin sign-up always fails |
| `Auth.CheckLogin` | main.py:606-619 | blank fields are refused; otherwise the login succeeds iff `validate_login` of the stripped, lower-cased email and the stripped password gives a profile, and a success is that profile |
| `Auth.SignupThenLogin` | main.py:406-447 | whoever signs up can log in again with the same entries |
| `Auth.Session.constructor` | main.py:20-29 | nobody is logged in at the start |
| `Auth.Session.HandleSignup` | main.py:406-456 | a failure changes nothing; a success appends the row, logs in its profile and opens the role's home page |
| `Auth.Session.Register` | main.py:439-456 | `create_user`, then the session switches to the new profile |
| `Auth.Session.HandleLogin` | main.py:606-630 | the session changes only when `validate_login` returns a profile |
| `BookGrid.BooksShown` | user/book.py:377-385 | the placeholder or an empty box shows the whole catalogue; any other text shows exactly `search_books`' matches, in order |
| `BookGrid.CellsDistinct` | user/book.py:399-407 | two books never share a cell |
| `BookGrid.RowsInOrder` | user/book.py:403-405 | a later book never sits on an earlier row |
| `BookGrid.PlaceInGrid` | user/book.py:398-407 | book i goes to row i div 4, column i mod 4; cells are distinct and rows never decrease |
| `BookGrid.CardTitle` | admin/manage_book.py:536 | the first 20 characters, followed by "..." when the name is longer |
| `BookGrid.CardAuthor` | admin/manage_book.py:537 | "by " and the first 18 characters, followed by "..." when the author is longer |
| `ManageBook.LastIndexOf` | admin/manage_book.py:759 | the last position of a character, or -1 |
| `ManageBook.Extension` | admin/manage_book.py:759 | non-empty iff the last dot is after the last '/' and some non-dot stands between them; then it is the text from the last dot on, which holds no '/' and no other dot |
| `ManageBook.IntToStringHasNoDot` | admin/manage_book.py:760 | an id's decimal text holds no dot |
| `ManageBook.FirstDot` | admin/manage_book.py:760 | the position of the first dot, or the length when there is none |
| `ManageBook.DotAfterPrefix` | admin/manage_book.py:760 | in `book_<id><ext>` the first dot is where the extension starts |
| `ManageBook.CoverPathsDistinct` | admin/manage_book.py:759-761 | covers of different ids never share a file name |
| `ManageBook.CheckAdd` | admin/manage_book.py:734-754 | accepted iff no entry is blank, both numbers parse, the count is not negative and the id is free, so a free id of 0 or less is accepted; otherwise the first failing check is reported: blank entry, then unreadable number or negative count, then the taken id |
| `ManageBook.AddOutcomeAsWritten` | admin/manage_book.py:766 | as written, every accepted add raises |
| `ManageBook.AddAsWrittenDropsBook` | admin/manage_book.py:752-766 | as written the book is missing after an accepted add; as intended it is present |
| `ManageBook.AddStoresBook` | admin/manage_book.py:756-766 | the intended add stores exactly the new row under its id, keeps the old rows, and keeps ids unique |
| `ManageBook.FindUnchangedPrefix` | admin/manage_book.py:766 | a row appended under a fresh id is what the lookup finds |
| `ManageBook.StripOfClean` | admin/manage_book.py:734-737 | text without white space at either end is its own strip |
| `ManageBook.AddBook` | admin/manage_book.py:733-770 | a rejection changes nothing; an acceptance appends the checked row |
| `ManageBook.CheckEdit` | admin/manage_book.py:968-993 | accepted iff no entry is blank, the count is not negative, the new id is positive and either unchanged or free; otherwise the first failing check is reported in the same order; a changed id recreates, an unchanged one edits in place |
| `ManageBook.EditOutcomeAsWritten` | admin/manage_book.py:1023-1043 | as written, every accepted edit raises |
| `ManageBook.RecreateAsWrittenLosesBook` | admin/manage_book.py:996-1023 | as written, changing the id deletes the old row and stores no new one |
| `ManageBook.RecreateMovesBook` | admin/manage_book.py:996-1023 | as intended, the new id holds the edited row, the old id is gone, other rows stay, and ids stay unique |
| `ManageBook.InPlaceUpdatesRow` | admin/manage_book.py:1024-1043 | as intended, the same id afterwards holds the edited name, author and image |
| `ManageBook.InPlaceAsWrittenKeepsOldRow` | admin/manage_book.py:1037-1043 | as written, a renamed book keeps its old row |
| `ManageBook.EditBook` | admin/manage_book.py:967-1046 | a rejection changes nothing; an acceptance carries out the plan on the store |
| `ManageBook.ApplyEdit` | admin/manage_book.py:996-1043 | delete and recreate under the new id, or patch the first row in place |
| `ManageBook.DeleteBookHandler` | admin/manage_book.py:933-955 | without confirmation nothing changes; with it every row of the id is removed and its stored path returned for removal |
| `Members.RecordsOf` | admin/members.py:284-285 | exactly the records whose email equals the member's |
| `Members.MembersShown` | admin/members.py:140-196 | a subsequence of the users table, each listed user as often as in the table; a user is listed iff the role is 'User' and, when searching, the query matches the name, email or a borrowed book |
| `Members.NoSearchListsAllMembers` | admin/members.py:133-138 | the placeholder or an empty box lists every member in table order |
| `Members.BorrowerFoundByBook` | admin/members.py:181-192 | a search for a borrowed book's name finds each member who borrowed it |
| `Members.UserMatches` | admin/members.py:170-192 | the query occurs in the lower-cased full name or email, or in the name, author or id of one of the user's own borrowings |
| `Members.TotalCount` | admin/members.py:284-288 | at most the number of records, and zero iff no record has the member's email |
| `Members.TotalCountAppend` | admin/members.py:284-288 | one more record raises its own member's total by one and leaves every other total unchanged |
| `Members.ActiveCount` | admin/members.py:284-287 | never more than the total, and zero iff every one of the member's records is returned |
| `Members.ActiveCountAppend` | admin/members.py:284-287 | one more record raises the active count by one iff it is the member's and still borrowed, so the count is the number of those records |
| `Members.History` | admin/members.py:433-435 | exactly the member's records, newest issue date first |
| `Members.StatusBadge` | admin/members.py:488-499 | RETURNED iff returned, COLLECTED iff borrowed and collected, PENDING iff borrowed and not collected |
| `Members.HistoryDateLine` | admin/members.py:523-543 | a borrowed record shows its deadline, red iff fewer than 7 days are left; a returned one shows its return date when it has one |
| `IssueReturn.Shown` | admin/admin_issue_return.py:172-195 | "all" is the identity; every other filter keeps exactly the records of its stage, each as often as in the table |
| `IssueReturn.ShownInOrder` | admin/admin_issue_return.py:183-195 | every filter keeps the original order |
| `IssueReturn.FiltersDisjoint` | admin/admin_issue_return.py:183-195 | no record appears under two stage filters |
| `IssueReturn.FiltersCoverAll` | admin/admin_issue_return.py:172-195 | the three stage lists together are as long as "all" |
| `IssueReturn.CardInfoFor` | admin/admin_issue_return.py:305-370 | a returned card shows "returned" and its return date iff one is stored; any other card shows "collect by" iff not collected, its collection date iff collected and stored, and the deadline red iff fewer than 7 days are left |
| `IssueReturn.Actions` | admin/admin_issue_return.py:374-409 | no button when returned, "collected" iff pending, "returned" iff collected |
| `IssueReturn.ReturnOnlyAfterCollect` | admin/admin_issue_return.py:374-409 | at most one button, and "returned" only on a collected record |
| `IssueReturn.MarkHandler` | admin/admin_issue_return.py:411-459 | the store is asked only after confirmation; refresh iff it succeeds, error otherwise |
| `Analysis.TotalMembers` | admin/analysis.py:51 | the store's member count, so by `Store.UserStatsAppend` the number of rows with role 'User'; zero iff there is none |
| `Analysis.Counted` | admin/analysis.py:176-180 | every catalogue book, in order, with the number of records of its id (0 if none) |
| `Analysis.BarLabel` | admin/analysis.py:199-200 | the first 15 characters, followed by "..." when the name is longer |
| `Analysis.Ranking` | admin/analysis.py:183-186 | ten rows, or every book when fewer; in non-increasing count order; the rows are a sub-multiset of the counted catalogue, so no book is charted more often than it is catalogued |
| `Analysis.BarLabels` | admin/analysis.py:199-200 | one label per ranked book |
| `Analysis.BorrowingChart` | admin/analysis.py:162-200 | no chart iff there are no records or no books; otherwise 1 to 10 bars of the ranking |
| `Analysis.RankingIsTop` | admin/analysis.py:183-186 | a book left off the chart has no more borrows than any charted book |
| `Analysis.SmallCatalogueFullyCharted` | admin/analysis.py:176-186 | with at most 10 books, all are charted, never-borrowed ones included |
| `Analysis.NonzeroMask` | admin/analysis.py:298 | the mask is set exactly at the positive sizes |
| `Analysis.MaskedSlicesAligned` | admin/analysis.py:298-315 | the masked labels, sizes and colours stay aligned: slice i has the label, size and colour of one stage |
| `Analysis.MaskedSlicesKept` | admin/analysis.py:298-315 | every remaining size is positive, no positive size is dropped, and nothing is left iff all are zero |
| `Analysis.ActivityChart` | admin/analysis.py:278-315 | nothing when nothing was borrowed, "no data" iff all three sizes are 0, else the masked slices |
| `Analysis.PieAligned` | admin/analysis.py:298-315 | each slice keeps its own label and colour, and every nonzero stage is drawn |
| `UserBooks.CartButtonFor` | user/book.py:475-488 | the button reads "In Cart" iff the book was in the cart |
| `UserBooks.BorrowButtonFor` | user/book.py:491-508 | the button reads "Borrowed" iff someone has the book |
| `UserBooks.CartClick` | user/book.py:486-488 | an "In Cart" button does nothing |
| `UserBooks.BorrowClick` | user/book.py:505-508 | a "Borrowed" button does nothing |
| `UserBooks.AddToCartHandler` | user/book.py:554-568 | a carted book only redraws and never reaches the store's add; otherwise the pair is appended, and the error branch cannot be reached |
| `UserBooks.BorrowHandler` | user/book.py:570-610 | the limit first, then availability, then the terms; the engine is called iff all pass |
| `UserBooks.EngineAnswerUnusedUnlessCalled` | user/book.py:592-604 | when the request is never made, the engine's answer cannot change the outcome |
| `UserBooks.TakenBookUnavailableToEveryone` | user/book.py:491-508 | a borrowed book's button is dead and its request refused for every member under the limit |

## Left out

- CSV files and pandas are left out: reading and writing the tables, creating them, and dtype
  inference. For example, an all-digit password read back as a number no longer matches the
  text typed at login. So do empty cells read back as NaN: the edit dialog treats a NaN image
  path as a present one. Rows here are typed records.
- `str.contains` treats the query as a regular expression. In the model it is a plain
  substring test, so queries with regex metacharacters can behave differently.
- The borrowing engine (`borrow_book`, `can_borrow_book`, `is_book_borrowed`,
  `mark_book_collected`, `mark_book_returned`, `get_borrowed_stats`,
  `get_all_borrowed_books`) is not defined in database.py and is not part of this model. Its
  answers are inputs: the record list, the success flags, and the book ids currently out. The
  issue-and-return page's stats cards only show the engine's numbers, so they are left out too.
- No stock count is modelled. The books table has no count column, and neither
  `create_book_with_id` nor `update_book` takes one.
- Image files are not copied, moved or deleted. Whether a copy or move succeeds is the
  `fileOk` input. In `add_book` a failed copy still stores the cover path, and the model does
  the same.
- `ManageBook.Extension` follows `os.path.splitext` with '/' as the only separator. Windows
  paths are not handled.
- `Text.ParseInt` accepts an optional '-' followed by ASCII digits, after stripping. Python's
  `int()` also accepts '+', underscores and non-ASCII digits. The edit dialog's
  `int(float(...))` is replaced by its result, or by none when it raises.
- `ManageBook.CheckEdit` reports `NotANumber` for every entry `int(float(...))` cannot turn
  into a number. For "inf", "-inf" or "1e400" it raises OverflowError, which the handler's
  `except ValueError` (admin/manage_book.py:982) does not catch: the source shows no message and
  the exception leaves the callback. The model does not distinguish the two.
- Dates are whole numbers. "Days left" is an input. Issue dates stored as ISO text are compared
  as numbers, with the same order.
- `Members.History` and `Analysis.Ranking` use a stable insertion sort. pandas' default sort is
  not stable, so the source does not fix the order among ties. The model states the
  ordering, and for the history a permutation of the member's records and for the ranking a
  sub-multiset of the counted catalogue.
- Environment loading is left out: the admin passkey is a constant of `Auth.Session`.
- Rendering is left out: widgets, colours, layout, hover effects, scrolling, charts, the bar
  gradient loop, message boxes, and the `user/cart.py` and `user/borrowing.py` views.
- Lower-casing is ASCII only. Python's `str.lower` also folds non-ASCII letters.
- Status and role columns with values other than the two known ones are not modelled.
- The administrator placeholder says "Search by name, author or ID...", but the search
  follows `search_books` and never matches ids. The model follows the code.

## Findings

| source | as written | input that shows it | evidently intended | confidence | as-written member | corrected member |
|---|---|---|---|---|---|---|
| admin/manage_book.py:766 | the call to `create_book_with_id` passes five arguments to a method that takes four (database.py:144), so it raises TypeError | add dialog with name "Dune", author "Herbert", id "7", count "1" on a catalogue without id 7 | the book is stored under id 7 | not executed | `ManageBook.AddAsWrittenDropsBook` | `ManageBook.AddStoresBook` |
| admin/manage_book.py:996-1023 | the old row is deleted, then the same five-argument `create_book_with_id` call raises, so the book is lost | edit of book 7 "Dune" to id 8 on a catalogue without id 8 | the book moves to id 8 | not executed | `ManageBook.RecreateAsWrittenLosesBook` | `ManageBook.RecreateMovesBook` |
| admin/manage_book.py:1037-1043 | the call to `update_book` passes a `count` keyword the method lacks (database.py:163), so it raises before changing anything | edit of book 7 "Dune" renaming it to "Dune Messiah" with id 7 kept | row 7 holds the new name | not executed | `ManageBook.InPlaceAsWrittenKeepsOldRow` | `ManageBook.InPlaceUpdatesRow` |
