/**
 * The dashboard statistics of the home page: five labelled figures computed
 * from the books and users queries, shown as placeholders while either
 * query is still loading or has returned no data.
 */
module HomeStats {
  import opened Wrappers
  import Seqs
  import JsText
  import Catalog

  type Book = Catalog.Book

  /** The data of the books query; `getBooks` may be `null`. */
  datatype BooksResponse = BooksResponse(getBooks: Option<seq<Book>>)

  /** The data of the users query; only the number of users is used. */
  datatype UsersResponse<U> = UsersResponse(getUsers: Option<seq<U>>)

  /** One figure of the dashboard: its `label` (here `name`, as `label` is a Dafny keyword) and its value. */
  datatype Stat = Stat(name: string, value: string)

  /** The labels, in the order the dashboard shows them. */
  const Labels: seq<string> := ["Total Books", "Authors", "Categories", "Recent Additions", "Active Users"]

  /** The distinct author strings that are non-blank (kept as written, untrimmed). */
  function UniqueAuthors(books: seq<Book>): (r: set<string>)
    ensures forall a :: a in r <==> !JsText.IsBlank(a) && exists i :: 0 <= i < |books| && books[i].author == a
  {
    forall i | 0 <= i < |books| ensures JsText.Trim(books[i].author) != "" <==> !JsText.IsBlank(books[i].author) {
      JsText.TrimEmptyIffBlank(books[i].author);
    }
    set i | 0 <= i < |books| && books[i].author != "" && JsText.Trim(books[i].author) != "" :: books[i].author
  }

  /** The distinct genre strings that are non-blank (kept as written, untrimmed). */
  function UniqueGenres(books: seq<Book>): (r: set<string>)
    ensures forall g :: g in r <==> !JsText.IsBlank(g) && exists i :: 0 <= i < |books| && books[i].genre == g
  {
    forall i | 0 <= i < |books| ensures JsText.Trim(books[i].genre) != "" <==> !JsText.IsBlank(books[i].genre) {
      JsText.TrimEmptyIffBlank(books[i].genre);
    }
    set i | 0 <= i < |books| && books[i].genre != "" && JsText.Trim(books[i].genre) != "" :: books[i].genre
  }

  /**
   * Whether a book counts as recently added: a parsed entry time on or after
   * `thirtyDaysAgo`; an invalid date compares false; with no entry time, a
   * year equal to the current year.
   */
  predicate IsRecent(b: Book, thirtyDaysAgo: int, currentYear: int)
  {
    match b.enterTime
    case EnteredAt(ms) => ms >= thirtyDaysAgo
    case Unparseable => false
    case NoEnterTime => b.year == currentYear
  }

  /** The callback of the recent-additions filter. */
  function RecentAt(thirtyDaysAgo: int, currentYear: int): Book -> bool
  {
    (b: Book) => IsRecent(b, thirtyDaysAgo, currentYear)
  }

  /** `books.filter(book => IsRecent(book))`. */
  function RecentBooks(books: seq<Book>, thirtyDaysAgo: int, currentYear: int): (r: seq<Book>)
    ensures |r| <= |books|
    ensures forall b :: b in r <==> b in books && IsRecent(b, thirtyDaysAgo, currentYear)
    ensures Seqs.IsSubsequence(r, books)
  {
    Seqs.Filter(books, RecentAt(thirtyDaysAgo, currentYear))
  }

  /** Whether the dashboard can compute its figures: neither query loading, and both returned data. */
  predicate Ready<U>(booksLoading: bool, usersLoading: bool, booksData: Option<BooksResponse>, usersData: Option<UsersResponse<U>>)
  {
    !booksLoading && !usersLoading && booksData.Some? && usersData.Some?
  }

  /** The books the figures are computed from: `booksData.getBooks || []`. */
  function BooksOf(data: BooksResponse): seq<Book>
  {
    if data.getBooks.Some? then data.getBooks.value else []
  }

  /** The users the figures are computed from: `usersData.getUsers || []`. */
  function UsersOf<U>(data: UsersResponse<U>): seq<U>
  {
    if data.getUsers.Some? then data.getUsers.value else []
  }

  /**
   * The count behind figure `i`: the books, the distinct non-blank authors
   * and genres, the recent additions and the users.
   */
  function Count<U>(i: nat, booksData: BooksResponse, usersData: UsersResponse<U>, thirtyDaysAgo: int, currentYear: int): nat
    requires i < 5
  {
    var books := BooksOf(booksData);
    if i == 0 then |books|
    else if i == 1 then |UniqueAuthors(books)|
    else if i == 2 then |UniqueGenres(books)|
    else if i == 3 then |RecentBooks(books, thirtyDaysAgo, currentYear)|
    else |UsersOf(usersData)|
  }

  /** `calculateStats`. */
  function CalculateStats<U>(booksLoading: bool, usersLoading: bool,
                             booksData: Option<BooksResponse>, usersData: Option<UsersResponse<U>>,
                             thirtyDaysAgo: int, currentYear: int): (r: seq<Stat>)
    ensures |r| == 5
    ensures forall i :: 0 <= i < 5 ==> r[i].name == Labels[i]
    ensures !Ready(booksLoading, usersLoading, booksData, usersData) ==> forall i :: 0 <= i < 5 ==> r[i].value == "..."
    ensures Ready(booksLoading, usersLoading, booksData, usersData) ==>
      var books := BooksOf(booksData.value);
      && r[0].value == JsText.NatToString(|books|)
      && r[1].value == JsText.NatToString(|UniqueAuthors(books)|)
      && r[2].value == JsText.NatToString(|UniqueGenres(books)|)
      && r[3].value == JsText.NatToString(|RecentBooks(books, thirtyDaysAgo, currentYear)|)
      && r[4].value == JsText.NatToString(|UsersOf(usersData.value)|)
    ensures Ready(booksLoading, usersLoading, booksData, usersData) ==>
      forall i :: 0 <= i < 5 ==> r[i].value == JsText.NatToString(Count(i, booksData.value, usersData.value, thirtyDaysAgo, currentYear))
  {
    if !Ready(booksLoading, usersLoading, booksData, usersData) then
      [Stat(Labels[0], "..."), Stat(Labels[1], "..."), Stat(Labels[2], "..."),
       Stat(Labels[3], "..."), Stat(Labels[4], "...")]
    else
      seq(5, i requires 0 <= i < 5 =>
        Stat(Labels[i], JsText.NatToString(Count(i, booksData.value, usersData.value, thirtyDaysAgo, currentYear))))
  }

  /** A set of distinct values of a list has at most as many members as the list. */
  lemma {:induction false} ImageCard(books: seq<Book>, s: set<string>, field: Book -> string)
    requires forall x :: x in s ==> exists i :: 0 <= i < |books| && field(books[i]) == x
    ensures |s| <= |books|
    decreases |books|
  {
    if books == [] {
      assert s == {};
    } else {
      var last := field(books[|books| - 1]);
      var init := books[..|books| - 1];
      var rest := s - {last};
      forall x | x in rest ensures exists i :: 0 <= i < |init| && field(init[i]) == x {
        var i :| 0 <= i < |books| && field(books[i]) == x;
        assert i < |init| && init[i] == books[i];
      }
      ImageCard(init, rest, field);
    }
  }

  /** There are never more distinct authors, or distinct genres, than books. */
  lemma DistinctAtMostBooks(books: seq<Book>)
    ensures |UniqueAuthors(books)| <= |books|
    ensures |UniqueGenres(books)| <= |books|
  {
    ImageCard(books, UniqueAuthors(books), (b: Book) => b.author);
    ImageCard(books, UniqueGenres(books), (b: Book) => b.genre);
  }

  /** With data present, each figure reads back with `parseInt` as the count it shows. */
  lemma FigureReadsBack<U>(booksData: BooksResponse, usersData: UsersResponse<U>, thirtyDaysAgo: int, currentYear: int, i: nat)
    requires i < 5
    ensures var r := CalculateStats(false, false, Some(booksData), Some(usersData), thirtyDaysAgo, currentYear);
      JsText.ParseInt(r[i].value) == Some(Count(i, booksData, usersData, thirtyDaysAgo, currentYear))
  {
    JsText.ParseIntNatToString(Count(i, booksData, usersData, thirtyDaysAgo, currentYear));
  }

  /** With data present, the authors, the categories and the recent additions never exceed the total books. */
  lemma FiguresBounded<U>(booksData: BooksResponse, usersData: UsersResponse<U>, thirtyDaysAgo: int, currentYear: int)
    ensures var books := BooksOf(booksData);
      && |UniqueAuthors(books)| <= |books|
      && |UniqueGenres(books)| <= |books|
      && |RecentBooks(books, thirtyDaysAgo, currentYear)| <= |books|
  {
    DistinctAtMostBooks(BooksOf(booksData));
  }

  /**
   * With data present, a `null` book list reads as no books and a `null`
   * user list as no users: those figures show "0".
   */
  lemma NullListsShowZero<U>(booksData: BooksResponse, usersData: UsersResponse<U>, thirtyDaysAgo: int, currentYear: int)
    ensures var r := CalculateStats(false, false, Some(booksData), Some(usersData), thirtyDaysAgo, currentYear);
      && (booksData.getBooks.None? ==> forall i :: 0 <= i < 4 ==> r[i].value == "0")
      && (usersData.getUsers.None? ==> r[4].value == "0")
  {
    var books := BooksOf(booksData);
    if booksData.getBooks.None? {
      assert UniqueAuthors(books) == {} && UniqueGenres(books) == {};
    }
  }

  /**
   * A book recent for a cutoff stays recent for any earlier one; an invalid
   * entry time is never recent, whatever the cutoff.
   */
  lemma RecentForEarlierCutoff(b: Book, earlier: int, later: int, currentYear: int)
    requires earlier <= later
    ensures IsRecent(b, later, currentYear) ==> IsRecent(b, earlier, currentYear)
    ensures b.enterTime == Catalog.Unparseable ==> !IsRecent(b, earlier, currentYear)
  {
  }

  /** Moving the cutoff earlier never lowers the recent-additions figure. */
  lemma {:induction false} RecentCountGrowsWithEarlierCutoff(books: seq<Book>, earlier: int, later: int, currentYear: int)
    requires earlier <= later
    ensures |RecentBooks(books, later, currentYear)| <= |RecentBooks(books, earlier, currentYear)|
  {
    if books != [] {
      RecentCountGrowsWithEarlierCutoff(books[1..], earlier, later, currentYear);
      assert books == [books[0]] + books[1..];
      Seqs.FilterAppend([books[0]], books[1..], RecentAt(later, currentYear));
      Seqs.FilterAppend([books[0]], books[1..], RecentAt(earlier, currentYear));
      RecentForEarlierCutoff(books[0], earlier, later, currentYear);
    }
  }

  /** A book with no entry time counts as recent exactly when its year is the current year. */
  lemma NoEnterTimeRecentIffCurrentYear(books: seq<Book>, b: Book, thirtyDaysAgo: int, currentYear: int)
    requires b in books && b.enterTime == Catalog.NoEnterTime
    ensures b in RecentBooks(books, thirtyDaysAgo, currentYear) <==> b.year == currentYear
  {
  }
}
