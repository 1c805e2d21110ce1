/**
 * The administrator's book management page: the add, edit and delete dialogs and the
 * cover file name each saved image gets. The copy and move of image files happen
 * outside the model; whether they succeed is a parameter.
 *
 * The add and edit handlers both hand a stock count to the store, which takes none. As
 * written each of them raises once its checks pass; the `...AsWritten` members model
 * that, and the handlers proper model what the dialogs evidently intend.
 */
module ManageBook {
  import opened Wrappers
  import opened Seqs
  import opened Text
  import opened Store

  /** The folder cover images are copied into. */
  const ImagesDir: string := "admin/book_images"

  /** The dialogs' error messages: a blank entry, a bad number, an id already in use. */
  datatype BookFormError = EmptyField | NotANumber | IdTaken(id: int)

  /** How a dialog's button press ends: the change is saved, an error is shown, or the handler raises. */
  datatype Outcome = Saved | Rejected(error: BookFormError) | Crashed

  // ==================== cover file names ====================

  /** The position of the last `c` in `s`, or -1 when there is none. */
  function LastIndexOf(s: string, c: char): (k: int)
    ensures -1 <= k < |s|
    ensures k >= 0 ==> s[k] == c
    ensures forall j :: k < j < |s| ==> s[j] != c
  {
    if s == [] then -1
    else if s[|s| - 1] == c then |s| - 1
    else LastIndexOf(s[..|s| - 1], c)
  }

  /**
   * `os.path.splitext(p)[1]` with '/' as the separator: from the last dot of the last path
   * component to the end, or "" when that component has no dot after its leading dots.
   */
  function Extension(p: string): (e: string)
    ensures e == "" || (e[0] == '.' && |e| <= |p| && e == p[|p| - |e|..])
    ensures forall k :: 0 <= k < |e| ==> e[k] != '/'
    ensures forall k :: 1 <= k < |e| ==> e[k] != '.'
    ensures e != "" <==> LastIndexOf(p, '.') > LastIndexOf(p, '/')
                         && exists k :: LastIndexOf(p, '/') < k < LastIndexOf(p, '.') && p[k] != '.'
    ensures e != "" ==> e == p[LastIndexOf(p, '.')..]
  {
    var sep := LastIndexOf(p, '/');
    var dot := LastIndexOf(p, '.');
    if dot > sep && exists k :: sep < k < dot && p[k] != '.' then p[dot..] else ""
  }

  /** Where a cover is stored: `book_<id>` with the source file's extension, in the images folder. */
  function CoverPath(id: int, source: string): string
  {
    ImagesDir + "/book_" + IntToString(id) + Extension(source)
  }

  lemma IntToStringHasNoDot(i: int)
    ensures forall k :: 0 <= k < |IntToString(i)| ==> IntToString(i)[k] != '.'
  {
    if i < 0 {
      assert forall k :: 1 <= k < |IntToString(i)| ==> IntToString(i)[k] == NatToString(-i)[k - 1];
    }
  }

  /** The position of the first '.' in `s`, or its length when there is none. */
  function FirstDot(s: string): (k: nat)
    ensures k <= |s|
    ensures k < |s| ==> s[k] == '.'
    ensures forall j :: 0 <= j < k ==> s[j] != '.'
  {
    if s == [] || s[0] == '.' then 0 else 1 + FirstDot(s[1..])
  }

  /** Before an extension, a text without dots ends exactly where the first dot is. */
  lemma {:induction false} DotAfterPrefix(a: string, e: string)
    requires forall k :: 0 <= k < |a| ==> a[k] != '.'
    requires e == "" || e[0] == '.'
    ensures FirstDot(a + e) == |a|
  {
    assert e != "" ==> (a + e)[|a|] == e[0];
  }

  /** Two books with different ids never get the same cover file, whatever their source images. */
  lemma CoverPathsDistinct(i: int, j: int, s: string, t: string)
    requires CoverPath(i, s) == CoverPath(j, t)
    ensures i == j
  {
    var prefix := ImagesDir + "/book_";
    var a, b := IntToString(i), IntToString(j);
    var e, f := Extension(s), Extension(t);
    assert prefix + a + e == prefix + (a + e);
    assert prefix + b + f == prefix + (b + f);
    assert a + e == b + f by {
      assert (prefix + (a + e))[|prefix|..] == a + e;
      assert (prefix + (b + f))[|prefix|..] == b + f;
    }
    IntToStringHasNoDot(i);
    IntToStringHasNoDot(j);
    DotAfterPrefix(a, e);
    DotAfterPrefix(b, f);
    assert a == (a + e)[..|a|];
    assert b == (b + f)[..|b|];
    IntToStringInjective(i, j);
  }

  // ==================== add_book ====================

  /** The add dialog's entries and the image chosen in it ("" when none was chosen). */
  datatype AddForm = AddForm(name: string, author: string, idText: string, countText: string, image: string)

  /**
   * `add_book`'s checks, in order: no blank entry, both numbers readable and the count not
   * negative, and no book with that id yet. The id itself may be zero or negative.
   */
  function CheckAdd(f: AddForm, books: seq<Book>): (r: Result<int, BookFormError>)
    ensures r == Err(EmptyField) <==>
      Strip(f.name) == "" || Strip(f.author) == "" || Strip(f.idText) == "" || Strip(f.countText) == ""
    ensures r.Ok? ==> ParseInt(Strip(f.idText)) == Some(r.value) && !HasId(books, r.value)
    ensures r.Ok? ==> ParseInt(Strip(f.countText)).Some? && ParseInt(Strip(f.countText)).value >= 0
    ensures r.Ok? <==>
      Strip(f.name) != "" && Strip(f.author) != "" && Strip(f.idText) != "" && Strip(f.countText) != ""
      && ParseInt(Strip(f.idText)).Some? && ParseInt(Strip(f.countText)).Some?
      && ParseInt(Strip(f.countText)).value >= 0 && !HasId(books, ParseInt(Strip(f.idText)).value)
    ensures r == Err(NotANumber) <==>
      Strip(f.name) != "" && Strip(f.author) != "" && Strip(f.idText) != "" && Strip(f.countText) != ""
      && (ParseInt(Strip(f.idText)).None? || ParseInt(Strip(f.countText)).None? || ParseInt(Strip(f.countText)).value < 0)
    ensures r.Err? && r.error.IdTaken? ==>
      ParseInt(Strip(f.idText)) == Some(r.error.id) && HasId(books, r.error.id)
      && ParseInt(Strip(f.countText)).Some? && ParseInt(Strip(f.countText)).value >= 0
  {
    var name, author, idText, countText := Strip(f.name), Strip(f.author), Strip(f.idText), Strip(f.countText);
    if name == "" || author == "" || idText == "" || countText == "" then Err(EmptyField)
    else match (ParseInt(idText), ParseInt(countText))
      case (Some(id), Some(count)) =>
        if count < 0 then Err(NotANumber)
        else if FindBook(books, id).Some? then Err(IdTaken(id))
        else Ok(id)
      case _ => Err(NotANumber)
  }

  /** The image path stored for an added book: the cover file when an image was chosen, else none. */
  function AddedCover(id: int, image: string): string
  {
    if image != "" then CoverPath(id, image) else ""
  }

  /** The row an accepted add dialog stores. */
  function AddedBook(f: AddForm, id: int): Book
  {
    Book(id, Strip(f.name), Strip(f.author), AddedCover(id, f.image))
  }

  /** The catalogue after the add dialog as intended: the new row appended when the checks pass. */
  function BooksAfterAdd(books: seq<Book>, f: AddForm): seq<Book>
  {
    match CheckAdd(f, books)
    case Ok(id) => books + [AddedBook(f, id)]
    case Err(_) => books
  }

  /** As written: every form that passes the checks makes `create_book_with_id` raise, so nothing is ever added. */
  function AddOutcomeAsWritten(books: seq<Book>, f: AddForm): (o: Outcome)
    ensures o != Saved
    ensures o == Crashed <==> CheckAdd(f, books).Ok?
  {
    match CheckAdd(f, books)
    case Ok(_) => Crashed
    case Err(e) => Rejected(e)
  }

  /** The intended add stores exactly the new row under its id and keeps the ids unique. */
  lemma AddStoresBook(books: seq<Book>, f: AddForm)
    requires CheckAdd(f, books).Ok?
    ensures var id := CheckAdd(f, books).value;
      FindBook(BooksAfterAdd(books, f), id) == Some(AddedBook(f, id))
      && BooksAfterAdd(books, f)[..|books|] == books
    ensures UniqueIds(books) ==> UniqueIds(BooksAfterAdd(books, f))
  {
    var id := CheckAdd(f, books).value;
    FindUnchangedPrefix(books, AddedBook(f, id));
    if UniqueIds(books) {
      AppendKeepsUniqueIds(books, AddedBook(f, id));
    }
  }

  lemma {:induction false} FindUnchangedPrefix(books: seq<Book>, b: Book)
    requires !HasId(books, b.id)
    ensures FindBook(books + [b], b.id) == Some(b)
  {
    if books != [] {
      assert (books + [b])[1..] == books[1..] + [b];
      assert !HasId(books[1..], b.id) by {
        forall x | x in books[1..] ensures x.id != b.id {
          assert x in books;
        }
      }
      FindUnchangedPrefix(books[1..], b);
    }
  }

  /** Any dialog the checks accept: as written the catalogue stays without the book, as intended it holds it. */
  lemma AddAsWrittenDropsBook(books: seq<Book>, f: AddForm)
    requires CheckAdd(f, books).Ok?
    ensures AddOutcomeAsWritten(books, f) == Crashed
    ensures !HasId(books, CheckAdd(f, books).value)
    ensures HasId(BooksAfterAdd(books, f), CheckAdd(f, books).value)
  {
    var id := CheckAdd(f, books).value;
    assert AddedBook(f, id) in BooksAfterAdd(books, f);
  }

  /** A text without white space at either end is its own strip. */
  lemma StripOfClean(s: string)
    requires s != [] && !IsSpace(s[0]) && !IsSpace(s[|s| - 1])
    ensures Strip(s) == s
  {
    StripLeftOfClean(s);
  }

  /** The add dialog's button as intended: the checked row is stored and the dialog closes. */
  method AddBook(db: Database, f: AddForm) returns (o: Outcome)
    modifies db
    ensures o == (if CheckAdd(f, old(db.books)).Ok? then Saved else Rejected(CheckAdd(f, old(db.books)).error))
    ensures db.books == BooksAfterAdd(old(db.books), f)
    ensures db.users == old(db.users) && db.cart == old(db.cart)
    ensures old(db.Valid()) ==> db.Valid()
  {
    var check := CheckAdd(f, db.books);
    match check
    case Err(e) =>
      o := Rejected(e);
    case Ok(id) =>
      var r := db.CreateBookWithId(id, Strip(f.name), Strip(f.author), Some(AddedCover(id, f.image)));
      o := Saved;
  }

  // ==================== update_book ====================

  /** The edit dialog's entries and the image path in it (the book's own path until another is chosen). */
  datatype EditForm = EditForm(name: string, author: string, countText: string, idText: string, image: string)

  /** What an accepted edit does: recreate the book under a new id, or change it in place. */
  datatype EditPlan = Recreate(oldId: int, newId: int) | InPlace(id: int)

  /**
   * `update_book`'s checks, in order: no blank entry; both numbers readable (`count` and
   * `newId` are the values `int(float(...))` gives, none when it raises), the count not
   * negative and the new id positive; a changed id not already in use.
   */
  function CheckEdit(f: EditForm, count: Option<int>, newId: Option<int>, shown: Book, books: seq<Book>)
    : (r: Result<EditPlan, BookFormError>)
    ensures r == Err(EmptyField) <==>
      Strip(f.name) == "" || Strip(f.author) == "" || Strip(f.countText) == "" || Strip(f.idText) == ""
    ensures r.Ok? ==> count.Some? && count.value >= 0 && newId.Some? && newId.value > 0
    ensures r.Ok? && r.value.Recreate? ==>
      r.value == Recreate(shown.id, newId.value) && newId.value != shown.id && !HasId(books, newId.value)
    ensures r.Ok? && r.value.InPlace? ==> r.value == InPlace(shown.id) && newId.value == shown.id
    ensures r.Ok? <==>
      Strip(f.name) != "" && Strip(f.author) != "" && Strip(f.countText) != "" && Strip(f.idText) != ""
      && count.Some? && count.value >= 0 && newId.Some? && newId.value > 0
      && (newId.value == shown.id || !HasId(books, newId.value))
    ensures r == Err(NotANumber) <==>
      Strip(f.name) != "" && Strip(f.author) != "" && Strip(f.countText) != "" && Strip(f.idText) != ""
      && (count.None? || newId.None? || count.value < 0 || newId.value <= 0)
    ensures r.Err? && r.error.IdTaken? ==>
      newId == Some(r.error.id) && r.error.id != shown.id && HasId(books, r.error.id)
      && count.Some? && count.value >= 0 && r.error.id > 0
  {
    if Strip(f.name) == "" || Strip(f.author) == "" || Strip(f.countText) == "" || Strip(f.idText) == "" then
      Err(EmptyField)
    else if count.None? || newId.None? || count.value < 0 || newId.value <= 0 then Err(NotANumber)
    else if newId.value != shown.id then
      if FindBook(books, newId.value).Some? then Err(IdTaken(newId.value)) else Ok(Recreate(shown.id, newId.value))
    else Ok(InPlace(shown.id))
  }

  /**
   * The image path a recreated book gets: a newly chosen image is copied to the new id's
   * cover file, an existing cover is moved there; a failed copy or move keeps the old path.
   */
  function RecreatedCover(current: string, image: string, newId: int, fileOk: bool): string
  {
    if image != "" && image != current then (if fileOk then CoverPath(newId, image) else current)
    else if current != "" then (if fileOk then CoverPath(newId, current) else current)
    else ""
  }

  /** The image path a book edited in place keeps: a newly chosen image replaces it only when the copy succeeds. */
  function KeptCover(current: string, image: string, id: int, fileOk: bool): string
  {
    if image != "" && image != current && fileOk then CoverPath(id, image) else current
  }

  /** The catalogue after an accepted edit as intended. */
  function BooksAfterEdit(books: seq<Book>, f: EditForm, plan: EditPlan, shown: Book, fileOk: bool): seq<Book>
  {
    match plan
    case Recreate(oldId, newId) =>
      WithoutId(books, oldId) + [Book(newId, Strip(f.name), Strip(f.author), RecreatedCover(shown.imagePath, f.image, newId, fileOk))]
    case InPlace(id) =>
      if HasId(books, id) then
        var k := FirstIndexOfId(books, id);
        books[k := PatchBook(books[k], Some(Strip(f.name)), Some(Strip(f.author)),
                             Some(KeptCover(shown.imagePath, f.image, id, fileOk)))]
      else books
  }

  /**
   * The catalogue after an accepted edit as written: with a changed id the old row is
   * deleted and then `create_book_with_id` raises; with the same id `update_book` raises
   * before changing anything.
   */
  function BooksAfterEditAsWritten(books: seq<Book>, plan: EditPlan): seq<Book>
  {
    match plan
    case Recreate(oldId, _) => WithoutId(books, oldId)
    case InPlace(_) => books
  }

  /** As written, an accepted edit always ends with the handler raising. */
  function EditOutcomeAsWritten(f: EditForm, count: Option<int>, newId: Option<int>, shown: Book, books: seq<Book>)
    : (o: Outcome)
    ensures o != Saved
    ensures o == Crashed <==> CheckEdit(f, count, newId, shown, books).Ok?
  {
    match CheckEdit(f, count, newId, shown, books)
    case Ok(_) => Crashed
    case Err(e) => Rejected(e)
  }

  /** As written, changing a book's id loses the book: neither the old nor the new id remains. */
  lemma RecreateAsWrittenLosesBook(books: seq<Book>, f: EditForm, count: Option<int>, newId: Option<int>, shown: Book)
    requires CheckEdit(f, count, newId, shown, books).Ok? && CheckEdit(f, count, newId, shown, books).value.Recreate?
    ensures var plan := CheckEdit(f, count, newId, shown, books).value;
      !HasId(BooksAfterEditAsWritten(books, plan), plan.oldId) && !HasId(BooksAfterEditAsWritten(books, plan), plan.newId)
    ensures HasId(books, shown.id) ==>
      |BooksAfterEditAsWritten(books, CheckEdit(f, count, newId, shown, books).value)| < |books|
  {
    var plan := CheckEdit(f, count, newId, shown, books).value;
    DeleteSpec(books, plan.oldId);
    if HasId(books, shown.id) {
      var b :| b in books && b.id == shown.id;
      FilterDropsRejected(books, (x: Book) => x.id != shown.id, b);
    }
  }

  /** As intended, changing a book's id moves it: the new id holds the edited row, the old id is gone, nothing else changes. */
  lemma RecreateMovesBook(books: seq<Book>, f: EditForm, count: Option<int>, newId: Option<int>, shown: Book, fileOk: bool)
    requires CheckEdit(f, count, newId, shown, books).Ok? && CheckEdit(f, count, newId, shown, books).value.Recreate?
    ensures var plan := CheckEdit(f, count, newId, shown, books).value;
      var after := BooksAfterEdit(books, f, plan, shown, fileOk);
      FindBook(after, plan.newId)
        == Some(Book(plan.newId, Strip(f.name), Strip(f.author), RecreatedCover(shown.imagePath, f.image, plan.newId, fileOk)))
      && !HasId(after, plan.oldId)
      && (forall b :: b in books && b.id != plan.oldId ==> b in after)
    ensures UniqueIds(books) ==>
      UniqueIds(BooksAfterEdit(books, f, CheckEdit(f, count, newId, shown, books).value, shown, fileOk))
  {
    var plan := CheckEdit(f, count, newId, shown, books).value;
    var rest := WithoutId(books, plan.oldId);
    var b := Book(plan.newId, Strip(f.name), Strip(f.author), RecreatedCover(shown.imagePath, f.image, plan.newId, fileOk));
    DeleteSpec(books, plan.oldId);
    FindUnchangedPrefix(rest, b);
    if UniqueIds(books) {
      FilterKeepsUniqueIds(books, (x: Book) => x.id != plan.oldId);
      AppendKeepsUniqueIds(rest, b);
    }
  }

  /** As intended, an edit that keeps the id finds the edited row under that id afterwards. */
  lemma InPlaceUpdatesRow(books: seq<Book>, f: EditForm, count: Option<int>, newId: Option<int>, shown: Book, fileOk: bool)
    requires CheckEdit(f, count, newId, shown, books) == Ok(InPlace(shown.id)) && HasId(books, shown.id)
    ensures FindBook(BooksAfterEdit(books, f, InPlace(shown.id), shown, fileOk), shown.id)
      == Some(Book(shown.id, Strip(f.name), Strip(f.author), KeptCover(shown.imagePath, f.image, shown.id, fileOk)))
    ensures UniqueIds(books) ==> UniqueIds(BooksAfterEdit(books, f, InPlace(shown.id), shown, fileOk))
  {
    var k := FirstIndexOfId(books, shown.id);
    FindBookAtFirstIndex(books, shown.id);
    var patched := PatchBook(books[k], Some(Strip(f.name)), Some(Strip(f.author)),
                             Some(KeptCover(shown.imagePath, f.image, shown.id, fileOk)));
    FindAfterReplace(books, shown.id, patched);
    if UniqueIds(books) {
      ReplaceKeepsUniqueIds(books, k, patched);
    }
  }

  /** As written, an edit that keeps the id leaves the old row in place, so a changed name is lost. */
  lemma InPlaceAsWrittenKeepsOldRow(books: seq<Book>, f: EditForm, count: Option<int>, newId: Option<int>,
                                    shown: Book, fileOk: bool)
    requires CheckEdit(f, count, newId, shown, books) == Ok(InPlace(shown.id)) && HasId(books, shown.id)
    requires FindBook(books, shown.id).value.name != Strip(f.name)
    ensures FindBook(BooksAfterEditAsWritten(books, InPlace(shown.id)), shown.id) == FindBook(books, shown.id)
    ensures FindBook(BooksAfterEditAsWritten(books, InPlace(shown.id)), shown.id)
            != FindBook(BooksAfterEdit(books, f, InPlace(shown.id), shown, fileOk), shown.id)
  {
    InPlaceUpdatesRow(books, f, count, newId, shown, fileOk);
  }

  /** The edit dialog's button as intended: the checked plan is carried out on the store. */
  method EditBook(db: Database, f: EditForm, count: Option<int>, newId: Option<int>, shown: Book, fileOk: bool)
    returns (o: Outcome)
    modifies db
    ensures var check := CheckEdit(f, count, newId, shown, old(db.books));
      match check
      case Err(e) => o == Rejected(e) && db.books == old(db.books)
      case Ok(plan) => o == Saved && db.books == BooksAfterEdit(old(db.books), f, plan, shown, fileOk)
    ensures db.users == old(db.users) && db.cart == old(db.cart)
    ensures old(db.Valid()) ==> db.Valid()
  {
    var check := CheckEdit(f, count, newId, shown, db.books);
    match check
    case Err(e) =>
      o := Rejected(e);
    case Ok(plan) =>
      ApplyEdit(db, Strip(f.name), Strip(f.author), plan, shown.imagePath, f.image, fileOk);
      o := Saved;
  }

  /** The store calls of an accepted edit: delete and recreate under the new id, or update in place. */
  method ApplyEdit(db: Database, name: string, author: string, plan: EditPlan, current: string, image: string, fileOk: bool)
    requires plan.Recreate? ==> !HasId(db.books, plan.newId)
    modifies db
    ensures plan.Recreate? ==>
      db.books == WithoutId(old(db.books), plan.oldId) + [Book(plan.newId, name, author, RecreatedCover(current, image, plan.newId, fileOk))]
    ensures plan.InPlace? ==>
      if HasId(old(db.books), plan.id) then
        var k := FirstIndexOfId(old(db.books), plan.id);
        db.books == old(db.books)[k := PatchBook(old(db.books)[k], Some(name), Some(author), Some(KeptCover(current, image, plan.id, fileOk)))]
      else db.books == old(db.books)
    ensures db.users == old(db.users) && db.cart == old(db.cart)
    ensures old(db.Valid()) ==> db.Valid()
  {
    match plan
    case Recreate(oldId, id) =>
      var _ := db.DeleteBook(oldId);
      var _ := db.CreateBookWithId(id, name, author, Some(RecreatedCover(current, image, id, fileOk)));
    case InPlace(id) =>
      var _ := db.UpdateBook(id, Some(name), Some(author), Some(KeptCover(current, image, id, fileOk)));
  }

  // ==================== delete_book ====================

  /**
   * The delete button: after the confirmation the store deletes the book and the cover
   * file it names is removed; without it nothing happens.
   */
  method DeleteBookHandler(db: Database, shown: Book, confirmed: bool) returns (removed: Option<string>)
    modifies db
    ensures !confirmed ==> removed.None? && db.books == old(db.books)
    ensures confirmed ==> removed == StoredImage(old(db.books), shown.id) && db.books == WithoutId(old(db.books), shown.id)
    ensures db.users == old(db.users) && db.cart == old(db.cart)
    ensures old(db.Valid()) ==> db.Valid()
  {
    removed := None;
    if confirmed {
      removed := db.DeleteBook(shown.id);
    }
  }
}
