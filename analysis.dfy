/**
 * The administrator's analysis page: the member total on the stats cards, the bar chart
 * of the ten most borrowed books, and the pie chart of borrowing stages with its empty
 * slices removed. Chart drawing and the bar colour gradient are not modelled.
 */
module Analysis {
  import opened Seqs
  import opened Text
  import opened Store
  import opened Loans

  /** The "Total Members" card: users whose role is the member role. */
  /** It agrees with the store's own member count, so it is zero exactly when nobody has the member role. */
  function TotalMembers(users: seq<User>): (n: nat)
    ensures n <= |users|
    ensures n == GetUserStats(users).members
    ensures n == 0 <==> forall u :: u in users ==> u.role != Member
  {
    CountZero(users, HasRole(Member));
    Count(users, HasRole(Member))
  }

  /** How often a book id occurs among all borrow records, whatever their status (0 if never). */
  function BorrowCount(records: seq<BorrowRecord>, id: int): nat
  {
    Count(records, (r: BorrowRecord) => r.bookId == id)
  }

  /** A catalogue row with its borrow count attached. */
  datatype Ranked = Ranked(book: Book, count: nat)

  /** The sort key of the ranking. */
  function RankKey(x: Ranked): int { x.count }

  /** Every book of the catalogue, in table order, with its borrow count. */
  function Counted(books: seq<Book>, records: seq<BorrowRecord>): (r: seq<Ranked>)
    ensures |r| == |books|
    ensures forall i :: 0 <= i < |r| ==> r[i] == Ranked(books[i], BorrowCount(records, books[i].id))
  {
    seq(|books|, (i: int) requires 0 <= i < |books| => Ranked(books[i], BorrowCount(records, books[i].id)))
  }

  /** The most-borrowed chart, or the message shown instead of it. */
  datatype BarChart = NoBorrowData | Bars(ranking: seq<Ranked>, labels: seq<string>)

  /** The bar label: the first 15 characters of the name, with "..." when it was longer. */
  function BarLabel(name: string): (l: string)
    ensures |name| <= 15 ==> l == name
    ensures |name| > 15 ==> |l| == 18 && l[..15] == name[..15] && l[15..] == "..."
  {
    TruncateShape(name, 15);
    Truncate(name, 15)
  }

  /** `sort_values` then `head(10)`: the ten most borrowed catalogue rows, most borrowed first. */
  function Ranking(books: seq<Book>, records: seq<BorrowRecord>): (top: seq<Ranked>)
    ensures |top| == if |books| < 10 then |books| else 10
    ensures SortedDesc(top, RankKey)
    ensures forall x :: x in top ==> x.book in books && x.count == BorrowCount(records, x.book.id)
    ensures multiset(top) <= multiset(Counted(books, records))
  {
    var all := Counted(books, records);
    var sorted := SortDesc(all, RankKey);
    var top := Take(sorted, 10);
    TakeIsPart(sorted, 10);
    forall x | x in top ensures x.book in books && x.count == BorrowCount(records, x.book.id) {
      assert x in multiset(sorted);
      assert x in all;
    }
    top
  }

  /** One label per ranked book. */
  function BarLabels(top: seq<Ranked>): (labels: seq<string>)
    ensures |labels| == |top|
    ensures forall i :: 0 <= i < |top| ==> labels[i] == BarLabel(top[i].book.name)
  {
    seq(|top|, (i: int) requires 0 <= i < |top| => BarLabel(top[i].book.name))
  }

  /** `create_borrowing_chart`: no chart without records or without books, else the top ten. */
  function BorrowingChart(books: seq<Book>, records: seq<BorrowRecord>): (c: BarChart)
    ensures c == NoBorrowData <==> records == [] || books == []
    ensures c.Bars? ==> c.ranking == Ranking(books, records) && c.labels == BarLabels(c.ranking)
    ensures c.Bars? ==> 1 <= |c.ranking| <= 10
  {
    if records == [] || books == [] then NoBorrowData
    else Bars(Ranking(books, records), BarLabels(Ranking(books, records)))
  }

  /** No book left out of the chart was borrowed more often than any book in it. */
  lemma {:induction false} RankingIsTop(books: seq<Book>, records: seq<BorrowRecord>, x: Ranked, y: Ranked)
    requires BorrowingChart(books, records).Bars?
    requires x in BorrowingChart(books, records).ranking
    requires multiset(BorrowingChart(books, records).ranking)[y] < multiset(Counted(books, records))[y]
    ensures y.count <= x.count
  {
    var sorted := SortDesc(Counted(books, records), RankKey);
    assert BorrowingChart(books, records).ranking == Take(sorted, 10);
    TakeOfSortedIsTop(sorted, 10, RankKey, x, y);
  }

  /** With ten books or fewer every one is charted, books never borrowed included. */
  lemma {:induction false} SmallCatalogueFullyCharted(books: seq<Book>, records: seq<BorrowRecord>)
    requires records != [] && books != [] && |books| <= 10
    ensures BorrowingChart(books, records).Bars?
    ensures multiset(BorrowingChart(books, records).ranking) == multiset(Counted(books, records))
  {
    assert Take(SortDesc(Counted(books, records), RankKey), 10) == SortDesc(Counted(books, records), RankKey);
  }

  /** The three stages of the pie, in drawing order. */
  const PieLabels: seq<string> := ["Pending Collection", "Collected", "Returned"]

  /** The slice colours, aligned with `PieLabels`. */
  const PieColours: seq<string> := ["#ffcc00", "#ff00ff", "#00ff00"]

  /** The status pie, or the message shown instead of it. */
  datatype PieChart = NoActivity | NoData | Pie(labels: seq<string>, sizes: seq<nat>, colours: seq<string>)

  /** `sizes > 0`: which slices have anything in them. */
  function NonzeroMask(sizes: seq<nat>): (mask: seq<bool>)
    ensures |mask| == |sizes| && forall k :: 0 <= k < |sizes| ==> (mask[k] <==> sizes[k] > 0)
  {
    seq(|sizes|, (k: int) requires 0 <= k < |sizes| => sizes[k] > 0)
  }

  /** Masking labels, sizes and colours with the same mask keeps them aligned: each remaining
   * slice has the label, size and colour of one and the same stage. */
  lemma MaskedSlicesAligned(labels: seq<string>, sizes: seq<nat>, colours: seq<string>)
    requires |labels| == |sizes| == |colours|
    ensures |MaskFilter(labels, NonzeroMask(sizes))| == |MaskFilter(sizes, NonzeroMask(sizes))|
    ensures |MaskFilter(colours, NonzeroMask(sizes))| == |MaskFilter(sizes, NonzeroMask(sizes))|
    ensures forall i :: 0 <= i < |MaskFilter(sizes, NonzeroMask(sizes))| ==>
              (exists k :: 0 <= k < |sizes| && MaskFilter(labels, NonzeroMask(sizes))[i] == labels[k]
                 && MaskFilter(sizes, NonzeroMask(sizes))[i] == sizes[k]
                 && MaskFilter(colours, NonzeroMask(sizes))[i] == colours[k])
  {
    var mask := NonzeroMask(sizes);
    var l, z, c := MaskFilter(labels, mask), MaskFilter(sizes, mask), MaskFilter(colours, mask);
    var ix := MaskIndices(mask);
    MaskFilterAt(labels, mask);
    MaskFilterAt(sizes, mask);
    MaskFilterAt(colours, mask);
    forall i | 0 <= i < |z|
      ensures exists k :: 0 <= k < |sizes| && l[i] == labels[k] && z[i] == sizes[k] && c[i] == colours[k]
    {
      var k := ix[i];
      assert l[i] == labels[k] && z[i] == sizes[k] && c[i] == colours[k];
    }
  }

  /** Masking with the nonzero sizes keeps exactly the positive sizes: every remaining size is
   * positive, every positive size's label remains, and nothing remains iff every size is zero. */
  lemma MaskedSlicesKept(labels: seq<string>, sizes: seq<nat>)
    requires |labels| == |sizes|
    ensures forall i :: 0 <= i < |MaskFilter(sizes, NonzeroMask(sizes))| ==> MaskFilter(sizes, NonzeroMask(sizes))[i] > 0
    ensures forall k :: 0 <= k < |sizes| && sizes[k] > 0 ==> labels[k] in MaskFilter(labels, NonzeroMask(sizes))
    ensures MaskFilter(sizes, NonzeroMask(sizes)) == [] <==> forall k :: 0 <= k < |sizes| ==> sizes[k] == 0
  {
    var mask := NonzeroMask(sizes);
    var ix := MaskIndices(mask);
    MaskFilterAt(sizes, mask);
    MaskFilterEmpty(sizes, mask);
    forall k | 0 <= k < |sizes| && sizes[k] > 0 ensures labels[k] in MaskFilter(labels, mask) {
      MaskFilterKeeps(labels, mask, k);
    }
  }

  /**
   * `create_user_activity_chart` on the borrowing engine's totals: nothing without any
   * borrowing, otherwise the stages with a nonzero size, labels and colours masked alike.
   */
  function ActivityChart(totalBorrowed: nat, pending: nat, collected: nat, returned: nat): (p: PieChart)
    ensures p == NoActivity <==> totalBorrowed == 0
    ensures p == NoData <==> totalBorrowed != 0 && pending == 0 && collected == 0 && returned == 0
    ensures p.Pie? ==> var mask := NonzeroMask([pending, collected, returned]);
      p == Pie(MaskFilter(PieLabels, mask), MaskFilter([pending, collected, returned], mask), MaskFilter(PieColours, mask))
  {
    var sizes := [pending, collected, returned];
    var mask := NonzeroMask(sizes);
    if totalBorrowed == 0 then NoActivity
    else if MaskFilter(sizes, mask) == [] then
      MaskedSlicesKept(PieLabels, sizes);
      assert sizes[0] == pending && sizes[1] == collected && sizes[2] == returned;
      NoData
    else
      MaskFilterEmpty(sizes, mask);
      Pie(MaskFilter(PieLabels, mask), MaskFilter(sizes, mask), MaskFilter(PieColours, mask))
  }

  /** Each stage with a nonzero size gets its slice, and the slices, labels and colours stay aligned. */
  lemma PieAligned(totalBorrowed: nat, pending: nat, collected: nat, returned: nat)
    requires totalBorrowed != 0
    ensures var p := ActivityChart(totalBorrowed, pending, collected, returned);
      var all := [pending, collected, returned];
      && (p.Pie? ==> |p.labels| == |p.sizes| == |p.colours| <= 3)
      && (p.Pie? ==> forall i :: 0 <= i < |p.sizes| ==> p.sizes[i] > 0)
      && (p.Pie? ==> forall i :: 0 <= i < |p.sizes| ==>
            (exists k :: 0 <= k < 3 && p.labels[i] == PieLabels[k] && p.sizes[i] == all[k] && p.colours[i] == PieColours[k]))
      && (forall k :: 0 <= k < 3 && all[k] > 0 ==> p.Pie? && PieLabels[k] in p.labels)
  {
    MaskedSlicesAligned(PieLabels, [pending, collected, returned], PieColours);
    MaskedSlicesKept(PieLabels, [pending, collected, returned]);
  }
}
