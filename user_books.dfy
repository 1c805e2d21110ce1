/**
 * The member's book page: the two buttons on each card and what their clicks do, the
 * add-to-cart handler, and the order of the guards before a borrow request reaches the
 * borrowing engine. The engine's answers (the borrow limit, whether a book is out, the
 * outcome of the request) are inputs here.
 */
module UserBooks {
  import opened Text
  import opened Store

  /** The left button of a card. */
  datatype CartButton = InCartButton | AddToCartButton

  /** The right button of a card. */
  datatype BorrowButton = BorrowedButton | BorrowAvailableButton

  /** What a click on a card button sets off. */
  datatype Click = NoOp | AddToCartClicked | BorrowClicked

  /** The cart button shows whether the book was in the member's cart when the card was drawn. */
  function CartButtonFor(inCart: bool): (b: CartButton)
    ensures b == InCartButton <==> inCart
  {
    if inCart then InCartButton else AddToCartButton
  }

  /** The borrow button is greyed out for a book anybody has borrowed. */
  function BorrowButtonFor(bookTaken: bool): (b: BorrowButton)
    ensures b == BorrowedButton <==> bookTaken
  {
    if bookTaken then BorrowedButton else BorrowAvailableButton
  }

  /** A click on the cart button: an "In Cart" button does nothing. */
  function CartClick(b: CartButton): (c: Click)
    ensures c == NoOp <==> b == InCartButton
    ensures c != BorrowClicked
  {
    if b == InCartButton then NoOp else AddToCartClicked
  }

  /** A click on the borrow button: a "Borrowed" button does nothing. */
  function BorrowClick(b: BorrowButton): (c: Click)
    ensures c == NoOp <==> b == BorrowedButton
    ensures c != AddToCartClicked
  {
    if b == BorrowedButton then NoOp else BorrowClicked
  }

  /** Whether a book counts as out is asked per book id, so the answer is the same for every member. */
  predicate BookTaken(borrowedIds: set<int>, bookId: int) { bookId in borrowedIds }

  /** What the cart handler ends in. */
  datatype CartOutcome = Redrawn | Added | AddFailed

  /**
   * `add_to_cart` on the page: a book already in the cart only redraws the grid and the
   * store's add is never reached; otherwise the store adds the row, which then cannot fail.
   */
  method AddToCartHandler(db: Database, email: string, book: Book) returns (o: CartOutcome)
    modifies db
    ensures o != AddFailed
    ensures o == Redrawn <==> IsInCart(old(db.cart), email, book.id)
    ensures db.cart == if o == Redrawn then old(db.cart) else old(db.cart) + [CartItem(Lower(email), book.id)]
    ensures IsInCart(db.cart, email, book.id)
    ensures db.users == old(db.users) && db.books == old(db.books)
    ensures old(db.Valid()) ==> db.Valid()
  {
    if IsInCart(db.cart, email, book.id) {
      return Redrawn;
    }
    var ok := db.AddToCart(email, book.id);
    o := if ok then Added else AddFailed;
  }

  /** How a borrow request ends, in the order the handler can stop. */
  datatype BorrowOutcome = LimitReached | AlreadyBorrowed | Declined | BorrowSucceeded | BorrowRefused

  /** The outcomes in which the engine's `borrow_book` was called. */
  predicate EngineCalled(o: BorrowOutcome) { o == BorrowSucceeded || o == BorrowRefused }

  /**
   * `borrow_book` on the page: the borrow limit first, then whether the book is out, then
   * the terms dialog, and only then the engine's request, whose answer is `engineOk`.
   */
  function BorrowHandler(canBorrow: bool, bookTaken: bool, accepted: bool, engineOk: bool): (o: BorrowOutcome)
    ensures o == LimitReached <==> !canBorrow
    ensures o == AlreadyBorrowed <==> canBorrow && bookTaken
    ensures o == Declined <==> canBorrow && !bookTaken && !accepted
    ensures EngineCalled(o) <==> canBorrow && !bookTaken && accepted
    ensures o == BorrowSucceeded <==> canBorrow && !bookTaken && accepted && engineOk
  {
    if !canBorrow then LimitReached
    else if bookTaken then AlreadyBorrowed
    else if !accepted then Declined
    else if engineOk then BorrowSucceeded
    else BorrowRefused
  }

  /** Before the request is made the engine's answer cannot matter: the handler has already stopped. */
  lemma EngineAnswerUnusedUnlessCalled(canBorrow: bool, bookTaken: bool, accepted: bool)
    requires !EngineCalled(BorrowHandler(canBorrow, bookTaken, accepted, true))
    ensures BorrowHandler(canBorrow, bookTaken, accepted, true) == BorrowHandler(canBorrow, bookTaken, accepted, false)
  {
  }

  /**
   * Availability is a property of the book, not of the member: once anybody has the book,
   * every member's card for it has a dead borrow button, and a request that gets past the
   * limit check is refused before any dialog.
   */
  lemma TakenBookUnavailableToEveryone(borrowedIds: set<int>, bookId: int, accepted: bool, engineOk: bool)
    requires BookTaken(borrowedIds, bookId)
    ensures BorrowClick(BorrowButtonFor(BookTaken(borrowedIds, bookId))) == NoOp
    ensures BorrowHandler(true, BookTaken(borrowedIds, bookId), accepted, engineOk) == AlreadyBorrowed
  {
  }
}
