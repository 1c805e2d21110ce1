/**
 * The book grid both the member's book page and the administrator's book management page
 * draw: which books a search box shows, where each card goes in the four-column grid,
 * and the shortened title and author printed on a card.
 */
module BookGrid {
  import opened Seqs
  import opened Text
  import opened Store

  /** The grid has four columns. */
  const Columns: nat := 4

  /** The grey hint shown in the member's search box, which counts as an empty query. */
  const MemberPlaceholder: string := "Search by name or author..."

  /** The grey hint shown in the administrator's search box, which counts as an empty query. */
  const AdminPlaceholder: string := "Search by name, author or ID..."

  /**
   * `filter_books` followed by `display_books`: the placeholder hint and an empty box list
   * the whole catalogue in table order, any other text is passed to `search_books`.
   */
  function BooksShown(books: seq<Book>, text: string, placeholder: string): (r: seq<Book>)
    ensures IsSubsequence(r, books)
    ensures text == placeholder || text == "" ==> r == books
    ensures forall b :: b in r <==> b in books && (text == placeholder || text == "" || MatchesQuery(b, text))
  {
    var query := if text == placeholder then "" else text;
    if query == "" then SubsequenceOfSelf(books); books else SearchBooks(books, query)
  }

  /** A grid cell. */
  datatype Cell = Cell(row: nat, column: nat)

  /** A card placed in the grid. */
  datatype Placed = Placed(book: Book, cell: Cell)

  /** Two list positions never share a cell when cards are laid out row by row, `Columns` per row. */
  lemma CellsDistinct(i: nat, j: nat)
    requires i != j
    ensures Cell(i / Columns, i % Columns) != Cell(j / Columns, j % Columns)
  {
    assert i == Columns * (i / Columns) + i % Columns;
    assert j == Columns * (j / Columns) + j % Columns;
  }

  /** A later list position never lands on an earlier row. */
  lemma RowsInOrder(i: nat, j: nat)
    requires i <= j
    ensures i / Columns <= j / Columns
  {
  }

  /** The loop of `display_books`: the card at list position `idx` goes to row `idx // 4`, column `idx % 4`. */
  method PlaceInGrid(books: seq<Book>) returns (placed: seq<Placed>)
    ensures |placed| == |books|
    ensures forall i :: 0 <= i < |placed| ==> placed[i].book == books[i]
    ensures forall i :: 0 <= i < |placed| ==> placed[i].cell.column < Columns
    ensures forall i :: 0 <= i < |placed| ==> placed[i].cell.row * Columns + placed[i].cell.column == i
    ensures forall i, j :: 0 <= i < j < |placed| ==> placed[i].cell != placed[j].cell
    ensures forall i, j :: 0 <= i < j < |placed| ==> placed[i].cell.row <= placed[j].cell.row
  {
    placed := [];
    for idx := 0 to |books|
      invariant |placed| == idx
      invariant forall i :: 0 <= i < idx ==> placed[i] == Placed(books[i], Cell(i / Columns, i % Columns))
    {
      placed := placed + [Placed(books[idx], Cell(idx / Columns, idx % Columns))];
    }
    forall i, j | 0 <= i < j < |placed| ensures placed[i].cell != placed[j].cell && placed[i].cell.row <= placed[j].cell.row {
      CellsDistinct(i, j);
      RowsInOrder(i, j);
    }
  }

  /** The title line of a card: the name cut to 20 characters plus "..." when longer. */
  function CardTitle(name: string): (t: string)
    ensures |t| <= 23 && (|name| <= 20 ==> t == name)
    ensures |name| > 20 ==> t == name[..20] + "..."
  {
    Truncate(name, 20)
  }

  /** The author line of a card: "by " and the author cut to 18 characters plus "..." when longer. */
  function CardAuthor(author: string): (t: string)
    ensures 3 <= |t| <= 24 && t[..3] == "by "
    ensures |author| <= 18 ==> t[3..] == author
    ensures |author| > 18 ==> |t| == 24 && t[3..21] == author[..18] && t[21..] == "..."
  {
    TruncateShape(author, 18);
    "by " + Truncate(author, 18)
  }
}
