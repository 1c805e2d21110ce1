/**
 * The table store of the library (`DatabaseManager` in database.py): three tables of typed
 * rows, users, books and cart entries. Every operation of the source loads a whole table,
 * filters or changes it and writes it back; here the tables are the fields of a `Database`
 * object, the read-only operations are functions of the tables and the changing ones are
 * methods whose postconditions give the new tables in terms of the old ones.
 */
module Store {
  import opened Wrappers
  import opened Seqs
  import opened Text

  /** The two roles the sign-up form offers; `Member` is stored as 'User'. */
  datatype Role = Member | Admin

  /** A row of the users table. The email is stored lower-cased. */
  datatype User = User(email: string, firstName: string, lastName: string, password: string, role: Role)

  /** What a successful login hands to the application: the user's row without the password. */
  datatype Profile = Profile(email: string, firstName: string, lastName: string, role: Role)

  /** A row of the books table; an image path of "" stands for no image. */
  datatype Book = Book(id: int, name: string, author: string, imagePath: string)

  /** A row of the cart table: one book a user has put aside. */
  datatype CartItem = CartItem(userEmail: string, bookId: int)

  datatype BookError = DuplicateId(id: int)

  datatype UserStats = UserStats(total: nat, admins: nat, members: nat)

  datatype BookStats = BookStats(total: nat, withImages: nat)

  // ==================== users ====================

  function ProfileOf(u: User): Profile
  {
    Profile(u.email, u.firstName, u.lastName, u.role)
  }

  /** `get_user_by_email`: the first row whose email equals the lower-cased argument. */
  function FindUser(users: seq<User>, email: string): (r: Option<User>)
    ensures r.Some? ==> r.value in users && r.value.email == Lower(email)
    ensures r.None? <==> forall u :: u in users ==> u.email != Lower(email)
  {
    if users == [] then None
    else if users[0].email == Lower(email) then Some(users[0])
    else FindUser(users[1..], email)
  }

  /** `get_user_by_email` returns the first row with the email, as `iloc[0]` does. */
  lemma {:induction false} FindUserAtFirstIndex(users: seq<User>, email: string)
    ensures FindUser(users, email).Some? ==>
      exists k :: 0 <= k < |users| && users[k] == FindUser(users, email).value
                  && forall j :: 0 <= j < k ==> users[j].email != Lower(email)
  {
    if users != [] && users[0].email != Lower(email) && FindUser(users, email).Some? {
      var rest := users[1..];
      FindUserAtFirstIndex(rest, email);
      var k :| 0 <= k < |rest| && rest[k] == FindUser(rest, email).value
               && forall j :: 0 <= j < k ==> rest[j].email != Lower(email);
      assert users[k + 1] == FindUser(users, email).value;
      forall j | 0 <= j < k + 1 ensures users[j].email != Lower(email) {
        if j > 0 { assert users[j] == rest[j - 1]; }
      }
    } else if users != [] && FindUser(users, email).Some? {
      assert users[0] == FindUser(users, email).value;
    }
  }

  /** `user_exists`: some row carries the lower-cased email, which is when `get_user_by_email` finds one. */
  function UserExists(users: seq<User>, email: string): (b: bool)
    ensures b <==> FindUser(users, email).Some?
  {
    exists u :: u in users && u.email == Lower(email)
  }

  /** `validate_login`: the profile of the user found by email when the stored password equals the given one. */
  function ValidateLogin(users: seq<User>, email: string, password: string): (r: Option<Profile>)
    ensures r.Some? <==> FindUser(users, email).Some? && FindUser(users, email).value.password == password
    ensures r.Some? ==> r.value == ProfileOf(FindUser(users, email).value) && r.value.email == Lower(email)
  {
    match FindUser(users, email)
    case Some(u) => if u.password == password then Some(ProfileOf(u)) else None
    case None => None
  }

  /** The row `create_user` appends: everything as given, the email lower-cased. */
  function NewUserRow(email: string, firstName: string, lastName: string, password: string, role: Role): User
  {
    User(Lower(email), firstName, lastName, password, role)
  }

  /** After `create_user`, the user exists under its email written in any letter case. */
  lemma CreatedUserExists(users: seq<User>, email: string, firstName: string, lastName: string,
                          password: string, role: Role, other: string)
    requires Lower(other) == Lower(email)
    ensures UserExists(users + [NewUserRow(email, firstName, lastName, password, role)], other)
  {
    var u := NewUserRow(email, firstName, lastName, password, role);
    assert u in users + [u];
  }

  /** A lookup that finds nothing in a table finds the row appended to it. */
  lemma {:induction false} FindUserAppended(users: seq<User>, u: User, email: string)
    requires FindUser(users, email).None? && u.email == Lower(email)
    ensures FindUser(users + [u], email) == Some(u)
  {
    if users != [] {
      assert (users + [u])[1..] == users[1..] + [u];
      FindUserAppended(users[1..], u, email);
    }
  }

  /** A new user whose email was not yet registered can log in with the password it was created with. */
  lemma LoginAfterCreate(users: seq<User>, email: string, firstName: string, lastName: string,
                         password: string, role: Role, other: string)
    requires !UserExists(users, email) && Lower(other) == Lower(email)
    ensures ValidateLogin(users + [NewUserRow(email, firstName, lastName, password, role)], other, password)
            == Some(Profile(Lower(email), firstName, lastName, role))
  {
    FindUserAppended(users, NewUserRow(email, firstName, lastName, password, role), other);
  }

  /** The mask `df['role'] == role`. */
  function HasRole(role: Role): User -> bool
  {
    (u: User) => u.role == role
  }

  /** `get_user_stats`: the number of users, of administrators and of members. */
  function GetUserStats(users: seq<User>): (r: UserStats)
    ensures r.total == |users|
    ensures r.admins == 0 <==> forall u :: u in users ==> u.role != Admin
    ensures r.admins == r.total <==> forall u :: u in users ==> u.role == Admin
    ensures r.members == 0 <==> forall u :: u in users ==> u.role != Member
    ensures r.members == r.total <==> forall u :: u in users ==> u.role == Member
  {
    CountZero(users, HasRole(Admin));
    CountFull(users, HasRole(Admin));
    CountZero(users, HasRole(Member));
    CountFull(users, HasRole(Member));
    UserStats(|users|, Count(users, HasRole(Admin)), Count(users, HasRole(Member)))
  }

  /** One more user raises the total by one and exactly the count of that user's role. */
  lemma UserStatsAppend(users: seq<User>, u: User)
    ensures GetUserStats(users + [u]) == UserStats(GetUserStats(users).total + 1,
      GetUserStats(users).admins + (if u.role == Admin then 1 else 0),
      GetUserStats(users).members + (if u.role == Member then 1 else 0))
  {
    CountAppend(users, u, HasRole(Admin));
    CountAppend(users, u, HasRole(Member));
  }

  /** Every user is either an administrator or a member. */
  lemma {:induction false} UserStatsAddUp(users: seq<User>)
    ensures GetUserStats(users).admins + GetUserStats(users).members == GetUserStats(users).total
  {
    if users != [] {
      UserStatsAddUp(users[1..]);
    }
  }

  // ==================== books ====================

  predicate HasId(books: seq<Book>, id: int)
  {
    exists b :: b in books && b.id == id
  }

  /** No two rows of the books table share an id. */
  ghost predicate UniqueIds(books: seq<Book>)
  {
    forall i, j :: 0 <= i < j < |books| ==> books[i].id != books[j].id
  }

  /** `get_book_by_id`: the first row with that id. */
  function FindBook(books: seq<Book>, id: int): (r: Option<Book>)
    ensures r.Some? ==> r.value in books && r.value.id == id
    ensures r.None? <==> !HasId(books, id)
  {
    if books == [] then None
    else if books[0].id == id then Some(books[0])
    else FindBook(books[1..], id)
  }

  /** The position of the first row with that id, or the length of the table when there is none. */
  function FirstIndexOfId(books: seq<Book>, id: int): (k: nat)
    ensures k <= |books|
    ensures k < |books| ==> books[k].id == id
    ensures forall j :: 0 <= j < k ==> books[j].id != id
  {
    if books == [] then 0
    else if books[0].id == id then 0
    else 1 + FirstIndexOfId(books[1..], id)
  }

  /** `get_book_by_id` returns the row at the first position carrying the id. */
  lemma {:induction false} FindBookAtFirstIndex(books: seq<Book>, id: int)
    requires HasId(books, id)
    ensures FirstIndexOfId(books, id) < |books|
    ensures FindBook(books, id) == Some(books[FirstIndexOfId(books, id)])
  {
    if books[0].id != id {
      var b :| b in books && b.id == id;
      assert b in books[1..];
      FindBookAtFirstIndex(books[1..], id);
    }
  }

  /** After the first row with an id is replaced by a row with the same id, the lookup finds the new row. */
  lemma {:induction false} FindAfterReplace(books: seq<Book>, id: int, b: Book)
    requires FirstIndexOfId(books, id) < |books| && b.id == id
    ensures FindBook(books[FirstIndexOfId(books, id) := b], id) == Some(b)
  {
    if books[0].id != id {
      var k := FirstIndexOfId(books, id);
      assert books[k := b][1..] == books[1..][k - 1 := b];
      FindAfterReplace(books[1..], id, b);
    }
  }

  /** The lower-cased query occurs in the lower-cased name or the lower-cased author; the id is not looked at. */
  predicate MatchesQuery(b: Book, query: string)
  {
    IsSubstring(Lower(query), Lower(b.name)) || IsSubstring(Lower(query), Lower(b.author))
  }

  /** `search_books`: the rows matched by the query, in table order. */
  function SearchBooks(books: seq<Book>, query: string): (r: seq<Book>)
    ensures IsSubsequence(r, books)
    ensures forall b :: b in r ==> b in books && MatchesQuery(b, query)
    ensures forall b :: b in books && MatchesQuery(b, query) ==> b in r
    ensures forall b :: multiset(r)[b] == if MatchesQuery(b, query) then multiset(books)[b] else 0
  {
    FilterIsSubsequence(books, (b: Book) => MatchesQuery(b, query));
    FilterMultiset(books, (b: Book) => MatchesQuery(b, query));
    Filter(books, (b: Book) => MatchesQuery(b, query))
  }

  /** `get_books_by_author`: the rows whose author equals the given one up to letter case. */
  function GetBooksByAuthor(books: seq<Book>, author: string): (r: seq<Book>)
    ensures IsSubsequence(r, books)
    ensures forall b :: b in r ==> b in books && Lower(b.author) == Lower(author)
    ensures forall b :: b in books && Lower(b.author) == Lower(author) ==> b in r
  {
    FilterIsSubsequence(books, (b: Book) => Lower(b.author) == Lower(author));
    Filter(books, (b: Book) => Lower(b.author) == Lower(author))
  }

  /** The largest id in a non-empty table. */
  function MaxId(books: seq<Book>): (m: int)
    requires books != []
    ensures forall b :: b in books ==> b.id <= m
    ensures exists b :: b in books && b.id == m
  {
    if |books| == 1 then books[0].id
    else
      var rest := MaxId(books[1..]);
      assert books == [books[0]] + books[1..];
      if books[0].id >= rest then books[0].id else rest
  }

  /** The id `create_book` chooses: one more than the largest, or 1 for an empty table. */
  function NextId(books: seq<Book>): (id: int)
    ensures books == [] ==> id == 1
    ensures books != [] ==> id == MaxId(books) + 1
    ensures !HasId(books, id)
  {
    if books == [] then 1 else MaxId(books) + 1
  }

  /** The stored form of an optional image path: the path, or "" when there is none. */
  function StoredPath(imagePath: Option<string>): string
  {
    if imagePath.Some? then imagePath.value else ""
  }

  /** `update_book`'s change to one row: each field given is replaced, the others and the id are kept. */
  function PatchBook(b: Book, name: Option<string>, author: Option<string>, imagePath: Option<string>): (r: Book)
    ensures r.id == b.id
    ensures r.name == (if name.Some? then name.value else b.name)
    ensures r.author == (if author.Some? then author.value else b.author)
    ensures r.imagePath == (if imagePath.Some? then imagePath.value else b.imagePath)
  {
    var b1 := if name.Some? then b.(name := name.value) else b;
    var b2 := if author.Some? then b1.(author := author.value) else b1;
    if imagePath.Some? then b2.(imagePath := imagePath.value) else b2
  }

  /** The books table after `delete_book`: every row with that id removed. */
  function WithoutId(books: seq<Book>, id: int): seq<Book>
  {
    Filter(books, (b: Book) => b.id != id)
  }

  /** What `delete_book` returns: the image path of the first row with that id, when it is not empty. */
  function StoredImage(books: seq<Book>, id: int): (r: Option<string>)
    ensures r.Some? ==> r.value != "" && HasId(books, id)
    ensures !HasId(books, id) ==> r.None?
    ensures HasId(books, id) ==> r == (if books[FirstIndexOfId(books, id)].imagePath != ""
                                       then Some(books[FirstIndexOfId(books, id)].imagePath) else None)
  {
    match FindBook(books, id)
    case Some(b) =>
      FindBookAtFirstIndex(books, id);
      if b.imagePath != "" then Some(b.imagePath) else None
    case None => None
  }

  /** Deleting removes every row with the id and keeps all other rows, in their order; an absent id changes nothing. */
  lemma DeleteSpec(books: seq<Book>, id: int)
    ensures IsSubsequence(WithoutId(books, id), books)
    ensures !HasId(WithoutId(books, id), id)
    ensures forall b :: b in books && b.id != id ==> b in WithoutId(books, id)
    ensures !HasId(books, id) ==> WithoutId(books, id) == books
  {
    FilterIsSubsequence(books, (b: Book) => b.id != id);
    if !HasId(books, id) {
      FilterAll(books, (b: Book) => b.id != id);
    }
  }

  /** Removing rows keeps ids unique. */
  lemma {:induction false} FilterKeepsUniqueIds(books: seq<Book>, p: Book -> bool)
    requires UniqueIds(books)
    ensures UniqueIds(Filter(books, p))
  {
    if books != [] {
      assert UniqueIds(books[1..]);
      FilterKeepsUniqueIds(books[1..], p);
      var rest := Filter(books[1..], p);
      if p(books[0]) {
        assert forall b :: b in books[1..] ==> b.id != books[0].id by {
          forall b | b in books[1..] ensures b.id != books[0].id {
            var k :| 0 <= k < |books[1..]| && books[1..][k] == b;
            assert books[k + 1] == b;
          }
        }
        var r := [books[0]] + rest;
        forall i, j | 0 <= i < j < |r| ensures r[i].id != r[j].id {
          if i == 0 {
            assert r[j] == rest[j - 1] && r[j] in rest;
          } else {
            assert r[i] == rest[i - 1] && r[j] == rest[j - 1];
          }
        }
      }
    }
  }

  /** Appending a row with a fresh id keeps ids unique. */
  lemma AppendKeepsUniqueIds(books: seq<Book>, b: Book)
    requires UniqueIds(books) && !HasId(books, b.id)
    ensures UniqueIds(books + [b])
  {
    var r := books + [b];
    forall i, j | 0 <= i < j < |r| ensures r[i].id != r[j].id {
      assert r[i] == books[i];
      if j < |books| {
        assert r[j] == books[j];
      } else {
        assert books[i] in books;
      }
    }
  }

  /** Replacing a row by one with the same id keeps ids unique. */
  lemma ReplaceKeepsUniqueIds(books: seq<Book>, k: nat, b: Book)
    requires UniqueIds(books) && k < |books| && books[k].id == b.id
    ensures UniqueIds(books[k := b])
  {
  }

  /** A book row with a non-empty image path. */
  predicate HasImage(b: Book) { b.imagePath != "" }

  /** `get_book_stats`: the number of books and of books with a non-empty image path. */
  function GetBookStats(books: seq<Book>): (r: BookStats)
    ensures r.total == |books| && r.withImages <= r.total
    ensures r.withImages == 0 <==> forall b :: b in books ==> b.imagePath == ""
    ensures r.withImages == r.total <==> forall b :: b in books ==> b.imagePath != ""
  {
    CountZero(books, HasImage);
    CountFull(books, HasImage);
    BookStats(|books|, Count(books, HasImage))
  }

  /** One more book raises the total by one, and the image count by one exactly when it has an image path. */
  lemma BookStatsAppend(books: seq<Book>, b: Book)
    ensures GetBookStats(books + [b]) == BookStats(GetBookStats(books).total + 1,
      GetBookStats(books).withImages + (if b.imagePath != "" then 1 else 0))
  {
    CountAppend(books, b, HasImage);
  }

  // ==================== cart ====================

  /** `is_in_cart`: the cart holds the row of the lower-cased email and the book. */
  function IsInCart(cart: seq<CartItem>, email: string, bookId: int): (b: bool)
    ensures b <==> exists i :: 0 <= i < |cart| && cart[i].userEmail == Lower(email) && cart[i].bookId == bookId
    ensures b ==> GetCartCount(cart, email) > 0
  {
    CartItem(Lower(email), bookId) in cart
  }

  /** The mask `df['user_email'] == email.lower()`. */
  function OwnedBy(email: string): CartItem -> bool
  {
    (c: CartItem) => c.userEmail == Lower(email)
  }

  /** The cart rows of one user. */
  function UserRows(cart: seq<CartItem>, email: string): seq<CartItem>
  {
    Filter(cart, OwnedBy(email))
  }

  /** `get_cart_count`: how many cart rows the user has, whether or not their books still exist. */
  function GetCartCount(cart: seq<CartItem>, email: string): (n: nat)
    ensures n <= |cart|
    ensures n == 0 <==> forall c :: c in cart ==> c.userEmail != Lower(email)
  {
    var rows := UserRows(cart, email);
    assert rows != [] ==> rows[0] in rows;
    |rows|
  }

  /** One more cart row raises the count of its own user by one and no other user's. */
  lemma GetCartCountAppend(cart: seq<CartItem>, c: CartItem, email: string)
    ensures GetCartCount(cart + [c], email) == GetCartCount(cart, email) + (if c.userEmail == Lower(email) then 1 else 0)
  {
    CountAppend(cart, c, OwnedBy(email));
  }

  /** `get_user_cart`: the books, in catalogue order, whose id the user's cart rows name. */
  function GetUserCart(cart: seq<CartItem>, books: seq<Book>, email: string): (r: seq<Book>)
    ensures IsSubsequence(r, books)
    ensures forall b :: b in r ==> b in books && IsInCart(cart, email, b.id)
    ensures forall b :: b in books && IsInCart(cart, email, b.id) ==> b in r
  {
    FilterIsSubsequence(books, (b: Book) => IsInCart(cart, email, b.id));
    Filter(books, (b: Book) => IsInCart(cart, email, b.id))
  }

  /** The cart after `remove_from_cart`: every row of that user and book removed. */
  function WithoutPair(cart: seq<CartItem>, email: string, bookId: int): seq<CartItem>
  {
    Filter(cart, (c: CartItem) => c != CartItem(Lower(email), bookId))
  }

  /** The cart after `clear_cart`: every row of that user removed. */
  function WithoutUser(cart: seq<CartItem>, email: string): seq<CartItem>
  {
    Filter(cart, (c: CartItem) => c.userEmail != Lower(email))
  }

  /** Removing a pair leaves it absent, keeps every other row, and a second removal changes nothing. */
  lemma RemoveSpec(cart: seq<CartItem>, email: string, bookId: int)
    ensures !IsInCart(WithoutPair(cart, email, bookId), email, bookId)
    ensures forall c :: c in cart && c != CartItem(Lower(email), bookId) ==> c in WithoutPair(cart, email, bookId)
    ensures IsSubsequence(WithoutPair(cart, email, bookId), cart)
    ensures WithoutPair(WithoutPair(cart, email, bookId), email, bookId) == WithoutPair(cart, email, bookId)
    ensures !IsInCart(cart, email, bookId) ==> WithoutPair(cart, email, bookId) == cart
  {
    FilterIsSubsequence(cart, (c: CartItem) => c != CartItem(Lower(email), bookId));
    FilterIdempotent(cart, (c: CartItem) => c != CartItem(Lower(email), bookId));
    if !IsInCart(cart, email, bookId) {
      FilterAll(cart, (c: CartItem) => c != CartItem(Lower(email), bookId));
    }
  }

  /** Clearing one user's cart empties it and leaves every other user's rows exactly as they were. */
  lemma ClearSpec(cart: seq<CartItem>, email: string, other: string)
    ensures UserRows(WithoutUser(cart, email), email) == []
    ensures Lower(other) != Lower(email) ==> UserRows(WithoutUser(cart, email), other) == UserRows(cart, other)
  {
    FilterNone(WithoutUser(cart, email), OwnedBy(email));
    if Lower(other) != Lower(email) {
      FilterFilter(cart, (c: CartItem) => c.userEmail != Lower(email), OwnedBy(other));
    }
  }

  /** A book deleted from the catalogue disappears from every cart view, while the cart rows stay stored. */
  lemma DeletedBookLeavesCartView(cart: seq<CartItem>, books: seq<Book>, email: string, id: int)
    ensures forall b :: b in GetUserCart(cart, WithoutId(books, id), email) ==> b.id != id
  {
  }

  function IdSet(books: seq<Book>): set<int>
  {
    set b | b in books :: b.id
  }

  function RowIdSet(rows: seq<CartItem>): set<int>
  {
    set c | c in rows :: c.bookId
  }

  lemma {:induction false} IdSetSize(books: seq<Book>)
    requires UniqueIds(books)
    ensures |IdSet(books)| == |books|
  {
    if books != [] {
      assert UniqueIds(books[1..]);
      IdSetSize(books[1..]);
      assert IdSet(books) == {books[0].id} + IdSet(books[1..]);
      assert books[0].id !in IdSet(books[1..]);
    }
  }

  lemma {:induction false} RowIdSetSize(rows: seq<CartItem>)
    ensures |RowIdSet(rows)| <= |rows|
  {
    if rows != [] {
      RowIdSetSize(rows[1..]);
      assert RowIdSet(rows) == {rows[0].bookId} + RowIdSet(rows[1..]);
    }
  }

  lemma SubsetSize(a: set<int>, b: set<int>)
    requires a <= b
    ensures |a| <= |b|
  {
    assert b == a + (b - a);
  }

  /** The books a cart view shows are among the ids named by the user's cart rows. */
  lemma CartViewIds(cart: seq<CartItem>, books: seq<Book>, email: string)
    ensures IdSet(GetUserCart(cart, books, email)) <= RowIdSet(UserRows(cart, email))
  {
    forall id | id in IdSet(GetUserCart(cart, books, email)) ensures id in RowIdSet(UserRows(cart, email)) {
      var b :| b in GetUserCart(cart, books, email) && b.id == id;
      assert CartItem(Lower(email), id) in UserRows(cart, email);
    }
  }

  /**
   * With unique book ids, a cart view never lists more books than the user's cart count;
   * once a book in the cart is deleted from the catalogue, the view lists strictly fewer.
   */
  lemma CartViewAtMostCount(cart: seq<CartItem>, books: seq<Book>, email: string, id: int)
    requires UniqueIds(books)
    ensures |GetUserCart(cart, books, email)| <= GetCartCount(cart, email)
    ensures IsInCart(cart, email, id) ==> |GetUserCart(cart, WithoutId(books, id), email)| < GetCartCount(cart, email)
  {
    var view := GetUserCart(cart, books, email);
    FilterKeepsUniqueIds(books, (b: Book) => IsInCart(cart, email, b.id));
    IdSetSize(view);
    CartViewIds(cart, books, email);
    RowIdSetSize(UserRows(cart, email));
    SubsetSize(IdSet(view), RowIdSet(UserRows(cart, email)));
    if IsInCart(cart, email, id) {
      FilterKeepsUniqueIds(books, (b: Book) => b.id != id);
      var rest := WithoutId(books, id);
      var view2 := GetUserCart(cart, rest, email);
      FilterKeepsUniqueIds(rest, (b: Book) => IsInCart(cart, email, b.id));
      IdSetSize(view2);
      CartViewIds(cart, rest, email);
      assert CartItem(Lower(email), id) in UserRows(cart, email);
      assert id in RowIdSet(UserRows(cart, email));
      assert id !in IdSet(view2);
      SubsetSize(IdSet(view2), RowIdSet(UserRows(cart, email)) - {id});
    }
  }

  /** With unique ids in the catalogue, each book appears at most once in a cart view. */
  lemma UserCartUnique(cart: seq<CartItem>, books: seq<Book>, email: string)
    requires UniqueIds(books)
    ensures UniqueIds(GetUserCart(cart, books, email))
  {
    FilterKeepsUniqueIds(books, (b: Book) => IsInCart(cart, email, b.id));
  }

  // ==================== the store ====================

  /** The three tables, as `DatabaseManager` reads and rewrites them. */
  class Database {
    var users: seq<User>
    var books: seq<Book>
    var cart: seq<CartItem>

    /** What the store's own operations maintain: unique book ids and no repeated cart row. */
    ghost predicate Valid()
      reads this
    {
      UniqueIds(books) && Distinct(cart)
    }

    /** The store over tables as they were found on disk. */
    constructor (users0: seq<User>, books0: seq<Book>, cart0: seq<CartItem>)
      ensures users == users0 && books == books0 && cart == cart0
    {
      users, books, cart := users0, books0, cart0;
    }

    /** `create_user`: appends the row with the email lower-cased; it checks nothing and always succeeds. */
    method CreateUser(email: string, firstName: string, lastName: string, password: string, role: Role) returns (ok: bool)
      modifies this
      ensures ok
      ensures users == old(users) + [NewUserRow(email, firstName, lastName, password, role)]
      ensures books == old(books) && cart == old(cart)
      ensures old(Valid()) ==> Valid()
    {
      users := users + [NewUserRow(email, firstName, lastName, password, role)];
      ok := true;
    }

    /** `create_book`: appends a row under the next free id and returns that id. */
    method CreateBook(name: string, author: string, imagePath: Option<string>) returns (id: int)
      modifies this
      ensures id == NextId(old(books)) && !HasId(old(books), id)
      ensures books == old(books) + [Book(id, name, author, StoredPath(imagePath))]
      ensures users == old(users) && cart == old(cart)
      ensures old(Valid()) ==> Valid()
    {
      id := NextId(books);
      if Valid() {
        AppendKeepsUniqueIds(books, Book(id, name, author, StoredPath(imagePath)));
      }
      books := books + [Book(id, name, author, StoredPath(imagePath))];
    }

    /** `create_book_with_id`: refuses an id already present, otherwise appends the row and returns the id. */
    method CreateBookWithId(id: int, name: string, author: string, imagePath: Option<string>) returns (r: Result<int, BookError>)
      modifies this
      ensures HasId(old(books), id) ==> r == Err(DuplicateId(id)) && books == old(books)
      ensures !HasId(old(books), id) ==> r == Ok(id) && books == old(books) + [Book(id, name, author, StoredPath(imagePath))]
      ensures users == old(users) && cart == old(cart)
      ensures old(Valid()) ==> Valid()
    {
      if HasId(books, id) {
        return Err(DuplicateId(id));
      }
      if Valid() {
        AppendKeepsUniqueIds(books, Book(id, name, author, StoredPath(imagePath)));
      }
      books := books + [Book(id, name, author, StoredPath(imagePath))];
      r := Ok(id);
    }

    /** `update_book`: false and no change for an absent id; otherwise patches the first row with that id. */
    method UpdateBook(id: int, name: Option<string>, author: Option<string>, imagePath: Option<string>) returns (found: bool)
      modifies this
      ensures found <==> HasId(old(books), id)
      ensures !found ==> books == old(books)
      ensures found ==> var k := FirstIndexOfId(old(books), id);
                        k < |old(books)| && books == old(books)[k := PatchBook(old(books)[k], name, author, imagePath)]
      ensures users == old(users) && cart == old(cart)
      ensures old(Valid()) ==> Valid()
    {
      var k := FirstIndexOfId(books, id);
      if k == |books| {
        assert !HasId(books, id);
        return false;
      }
      var patched := PatchBook(books[k], name, author, imagePath);
      if Valid() {
        ReplaceKeepsUniqueIds(books, k, patched);
      }
      books := books[k := patched];
      found := true;
    }

    /** `delete_book`: removes every row with the id and returns the stored image path, if any. */
    method DeleteBook(id: int) returns (image: Option<string>)
      modifies this
      ensures image == StoredImage(old(books), id)
      ensures books == WithoutId(old(books), id)
      ensures users == old(users) && cart == old(cart)
      ensures old(Valid()) ==> Valid()
    {
      image := StoredImage(books, id);
      if Valid() {
        FilterKeepsUniqueIds(books, (b: Book) => b.id != id);
      }
      books := WithoutId(books, id);
    }

    /** `add_to_cart`: false and no change when the pair is already there, else appends it. */
    method AddToCart(email: string, bookId: int) returns (added: bool)
      modifies this
      ensures added <==> !IsInCart(old(cart), email, bookId)
      ensures cart == if added then old(cart) + [CartItem(Lower(email), bookId)] else old(cart)
      ensures IsInCart(cart, email, bookId)
      ensures GetCartCount(cart, email) == old(GetCartCount(cart, email)) + (if added then 1 else 0)
      ensures users == old(users) && books == old(books)
      ensures old(Valid()) ==> Valid()
    {
      if IsInCart(cart, email, bookId) {
        return false;
      }
      GetCartCountAppend(cart, CartItem(Lower(email), bookId), email);
      if Valid() {
        AppendKeepsDistinct(cart, CartItem(Lower(email), bookId));
      }
      cart := cart + [CartItem(Lower(email), bookId)];
      added := true;
    }

    /** `remove_from_cart`: removes every row of the pair and reports success even when there was none. */
    method RemoveFromCart(email: string, bookId: int) returns (ok: bool)
      modifies this
      ensures ok
      ensures cart == WithoutPair(old(cart), email, bookId)
      ensures users == old(users) && books == old(books)
      ensures old(Valid()) ==> Valid()
    {
      if Valid() {
        FilterKeepsDistinct(cart, (c: CartItem) => c != CartItem(Lower(email), bookId));
      }
      cart := WithoutPair(cart, email, bookId);
      ok := true;
    }

    /** `clear_cart`: removes every row of that user. */
    method ClearCart(email: string) returns (ok: bool)
      modifies this
      ensures ok
      ensures cart == WithoutUser(old(cart), email)
      ensures users == old(users) && books == old(books)
      ensures old(Valid()) ==> Valid()
    {
      if Valid() {
        FilterKeepsDistinct(cart, (c: CartItem) => c.userEmail != Lower(email));
      }
      cart := WithoutUser(cart, email);
      ok := true;
    }
  }
}
