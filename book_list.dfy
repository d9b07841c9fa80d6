/**
 * The state of the book-list page: the loaded books, the search term and the
 * list it selects, the table's page and page size, the row menu with the
 * book it was opened on, and the delete confirmation dialog.
 */
module BookList {
  import opened Wrappers
  import Seqs
  import Catalog

  type Book = Catalog.Book

  function Min(a: int, b: int): int { if a <= b then a else b }

  // ---------------------------------------------------------------------------
  // Derived values

  /**
   * `filteredBooks.slice(page * rowsPerPage, page * rowsPerPage + rowsPerPage)`:
   * both ends are clamped to the length of the list, as `slice` does.
   */
  function Paginate(s: seq<Book>, page: nat, rows: nat): (r: seq<Book>)
    ensures |r| <= rows
    ensures forall i :: 0 <= i < |r| ==> page * rows + i < |s| && r[i] == s[page * rows + i]
    ensures page * rows + rows <= |s| ==> |r| == rows
    ensures page * rows < |s| ==> |r| > 0 || rows == 0
    ensures page * rows >= |s| ==> r == []
  {
    Slice(s, page * rows, rows)
  }

  /** `s.slice(start, start + count)` for non-negative `start` and `count`. */
  function Slice(s: seq<Book>, start: nat, count: nat): (r: seq<Book>)
    ensures |r| <= count
    ensures forall i :: 0 <= i < |r| ==> start + i < |s| && r[i] == s[start + i]
    ensures start + count <= |s| ==> |r| == count
    ensures start < |s| ==> |r| > 0 || count == 0
    ensures start >= |s| ==> r == []
  {
    s[Min(start, |s|)..Min(start + count, |s|)]
  }

  /** With a positive page size, the book at index `i` is shown on page `i / rows`, in row `i % rows`. */
  lemma PageOfIndex(s: seq<Book>, rows: nat, i: nat)
    requires rows > 0 && i < |s|
    ensures var r := Paginate(s, i / rows, rows); i % rows < |r| && r[i % rows] == s[i]
  {
    var page := i / rows;
    assert page * rows + i % rows == i;
    assert page * rows <= i;
  }

  /** The callback of the delete filter: `book => book.id !== id`. */
  function OtherId(id: string): Book -> bool
  {
    (b: Book) => b.id != id
  }

  /** `books.filter(book => book.id !== id)`. */
  function WithoutId(books: seq<Book>, id: string): (r: seq<Book>)
    ensures |r| <= |books|
    ensures forall b :: b in r <==> b in books && b.id != id
    ensures Seqs.IsSubsequence(r, books)
  {
    Seqs.Filter(books, OtherId(id))
  }

  /** Removing an identifier no book carries leaves the list as it was. */
  lemma WithoutAbsentId(books: seq<Book>, id: string)
    requires forall i :: 0 <= i < |books| ==> books[i].id != id
    ensures WithoutId(books, id) == books
  {
    Seqs.FilterAll(books, OtherId(id));
  }

  /** Removing the same identifier twice is removing it once. */
  lemma WithoutIdIdempotent(books: seq<Book>, id: string)
    ensures WithoutId(WithoutId(books, id), id) == WithoutId(books, id)
  {
    Seqs.FilterIdempotent(books, OtherId(id));
  }

  /** The distinct authors of a list: `new Set(books.map(book => book.author))`. */
  function Authors(books: seq<Book>): (r: set<string>)
    ensures forall a :: a in r <==> exists i :: 0 <= i < |books| && books[i].author == a
  {
    set i | 0 <= i < |books| :: books[i].author
  }

  /** The distinct genres of a list: `new Set(books.map(book => book.genre))`. */
  function Genres(books: seq<Book>): (r: set<string>)
    ensures forall g :: g in r <==> exists i :: 0 <= i < |books| && books[i].genre == g
  {
    set i | 0 <= i < |books| :: books[i].genre
  }

  /** A set contained in another is no larger. */
  lemma {:induction false} SubsetCard(a: set<string>, b: set<string>)
    requires a <= b
    ensures |a| <= |b|
    decreases |b|
  {
    if a != {} {
      var x :| x in a;
      SubsetCard(a - {x}, b - {x});
    }
  }

  /** The search narrows the visible list only: the author and genre counts of the result never exceed those of all books. */
  lemma FilteredCountsAtMost(books: seq<Book>, searchTerm: string)
    ensures |Authors(Catalog.FilterBooks(books, searchTerm))| <= |Authors(books)|
    ensures |Genres(Catalog.FilterBooks(books, searchTerm))| <= |Genres(books)|
  {
    var r := Catalog.FilterBooks(books, searchTerm);
    forall a | a in Authors(r) ensures a in Authors(books) {
      var i :| 0 <= i < |r| && r[i].author == a;
      assert r[i] in books;
      var j :| 0 <= j < |books| && books[j] == r[i];
    }
    forall g | g in Genres(r) ensures g in Genres(books) {
      var i :| 0 <= i < |r| && r[i].genre == g;
      assert r[i] in books;
      var j :| 0 <= j < |books| && books[j] == r[i];
    }
    SubsetCard(Authors(r), Authors(books));
    SubsetCard(Genres(r), Genres(books));
  }

  // ---------------------------------------------------------------------------
  // The page

  /** How a confirmed delete ends: it completes, or reading `selectedBook.id` on `null` throws. */
  datatype Outcome = Completed | NullSelectionError

  class ListPage {
    var books: seq<Book>
    var filteredBooks: seq<Book>
    var searchTerm: string
    var page: nat
    var rowsPerPage: nat
    /** Whether the row menu is open (`anchorEl` is not `null`). */
    var menuOpen: bool
    var selectedBook: Option<Book>
    var deleteDialogOpen: bool
    var loading: bool

    /** Once the search effect has run, the filtered list is the search of the books for the term. */
    ghost predicate Valid()
      reads this
    {
      filteredBooks == Catalog.FilterBooks(books, searchTerm)
    }

    /** The rows the table shows: at most a page of them, each one of the listed, and so of the loaded, books. */
    function PaginatedBooks(): (r: seq<Book>)
      requires Valid()
      reads this
      ensures |r| <= rowsPerPage
      ensures forall b :: b in r ==> b in filteredBooks && b in books
    {
      var r := Paginate(filteredBooks, page, rowsPerPage);
      forall b | b in r ensures b in filteredBooks {
        var i :| 0 <= i < |r| && r[i] == b;
        assert filteredBooks[page * rowsPerPage + i] == b;
      }
      r
    }

    /**
     * The three chip counts: the listed books, and the distinct authors and
     * genres of all books. The search never makes the first exceed the
     * loaded books, and the authors and genres visible in the listed books
     * never outnumber the last two.
     */
    function Chips(): (r: (nat, nat, nat))
      requires Valid()
      reads this
      ensures r.0 == |filteredBooks| && r.0 <= |books|
      ensures searchTerm == "" ==> r.0 == |books|
      ensures r.1 == |Authors(books)| && |Authors(filteredBooks)| <= r.1
      ensures r.2 == |Genres(books)| && |Genres(filteredBooks)| <= r.2
    {
      FilteredCountsAtMost(books, searchTerm);
      (|filteredBooks|, |Authors(books)|, |Genres(books)|)
    }

    constructor ()
      ensures Valid()
      ensures books == [] && filteredBooks == [] && searchTerm == ""
      ensures page == 0 && rowsPerPage == 10
      ensures !menuOpen && selectedBook == None && !deleteDialogOpen && loading
    {
      books, filteredBooks, searchTerm := [], [], "";
      page, rowsPerPage := 0, 10;
      menuOpen, selectedBook, deleteDialogOpen, loading := false, None, false, true;
    }

    /** The effect on `[searchTerm, books]`: recompute the filtered list and go back to the first page. */
    method SearchEffect()
      modifies this
      ensures Valid()
      ensures filteredBooks == Catalog.FilterBooks(books, searchTerm) && page == 0
      ensures books == old(books) && searchTerm == old(searchTerm) && rowsPerPage == old(rowsPerPage)
      ensures menuOpen == old(menuOpen) && selectedBook == old(selectedBook)
      ensures deleteDialogOpen == old(deleteDialogOpen) && loading == old(loading)
    {
      filteredBooks := Catalog.FilterBooks(books, searchTerm);
      page := 0;
    }

    /** The first load: the fetched books become the list, loading ends, and the search effect runs on the new books. */
    method Load(fetched: seq<Book>)
      modifies this
      ensures Valid()
      ensures books == fetched && filteredBooks == Catalog.FilterBooks(fetched, searchTerm) && page == 0
      ensures !loading
      ensures searchTerm == old(searchTerm) && rowsPerPage == old(rowsPerPage)
      ensures menuOpen == old(menuOpen) && selectedBook == old(selectedBook)
      ensures deleteDialogOpen == old(deleteDialogOpen)
    {
      books := fetched;
      filteredBooks := fetched;
      loading := false;
      SearchEffect();
    }

    /**
     * Typing in the search box. The effect runs only when the term actually
     * changes; typing the same term keeps the current page.
     */
    method SetSearchTerm(term: string)
      requires Valid()
      modifies this
      ensures Valid()
      ensures searchTerm == term && books == old(books)
      ensures filteredBooks == Catalog.FilterBooks(books, term)
      ensures page == if term != old(searchTerm) then 0 else old(page)
      ensures rowsPerPage == old(rowsPerPage) && menuOpen == old(menuOpen)
      ensures selectedBook == old(selectedBook) && deleteDialogOpen == old(deleteDialogOpen)
      ensures loading == old(loading)
    {
      if term != searchTerm {
        searchTerm := term;
        SearchEffect();
      }
    }

    /** `handleMenuOpen`: opens the row menu on a book and selects it. */
    method HandleMenuOpen(book: Book)
      requires Valid()
      modifies this
      ensures Valid()
      ensures menuOpen && selectedBook == Some(book)
      ensures books == old(books) && filteredBooks == old(filteredBooks) && searchTerm == old(searchTerm)
      ensures page == old(page) && rowsPerPage == old(rowsPerPage)
      ensures deleteDialogOpen == old(deleteDialogOpen) && loading == old(loading)
    {
      menuOpen := true;
      selectedBook := Some(book);
    }

    /** `handleMenuClose`: closes the row menu and drops the selection. */
    method HandleMenuClose()
      requires Valid()
      modifies this
      ensures Valid()
      ensures !menuOpen && selectedBook == None
      ensures books == old(books) && filteredBooks == old(filteredBooks) && searchTerm == old(searchTerm)
      ensures page == old(page) && rowsPerPage == old(rowsPerPage)
      ensures deleteDialogOpen == old(deleteDialogOpen) && loading == old(loading)
    {
      menuOpen := false;
      selectedBook := None;
    }

    /** `handleDeleteClick` as written: opens the dialog, then `handleMenuClose` drops the selection. */
    method HandleDeleteClick()
      requires Valid()
      modifies this
      ensures Valid()
      ensures deleteDialogOpen && !menuOpen && selectedBook == None
      ensures books == old(books) && filteredBooks == old(filteredBooks) && searchTerm == old(searchTerm)
      ensures page == old(page) && rowsPerPage == old(rowsPerPage) && loading == old(loading)
    {
      deleteDialogOpen := true;
      HandleMenuClose();
    }

    /** `handleDeleteClick` as evidently intended: opens the dialog and closes the menu, keeping the book it was opened on. */
    method HandleDeleteClickIntended()
      requires Valid()
      modifies this
      ensures Valid()
      ensures deleteDialogOpen && !menuOpen && selectedBook == old(selectedBook)
      ensures books == old(books) && filteredBooks == old(filteredBooks) && searchTerm == old(searchTerm)
      ensures page == old(page) && rowsPerPage == old(rowsPerPage) && loading == old(loading)
    {
      deleteDialogOpen := true;
      menuOpen := false;
    }

    /**
     * `handleDeleteConfirm`: every book with the selected identifier is
     * removed, the dialog closes, the selection is dropped, and the search
     * effect runs on the new list. With no selection, the filter's callback
     * reads `id` of `null` and throws before anything changes; on an empty
     * list the callback never runs, so the handler completes even then.
     */
    method HandleDeleteConfirm() returns (r: Outcome)
      requires Valid()
      modifies this
      ensures Valid()
      ensures old(selectedBook).None? && old(books) != [] ==>
        && r == NullSelectionError
        && books == old(books) && filteredBooks == old(filteredBooks) && page == old(page)
        && deleteDialogOpen == old(deleteDialogOpen) && selectedBook == None
      ensures old(selectedBook).None? && old(books) == [] ==>
        && r == Completed
        && books == [] && filteredBooks == Catalog.FilterBooks([], searchTerm) && page == 0
        && !deleteDialogOpen && selectedBook == None
      ensures old(selectedBook).Some? ==>
        && r == Completed
        && books == WithoutId(old(books), old(selectedBook).value.id)
        && filteredBooks == Catalog.FilterBooks(books, searchTerm) && page == 0
        && !deleteDialogOpen && selectedBook == None
      ensures searchTerm == old(searchTerm) && rowsPerPage == old(rowsPerPage)
      ensures menuOpen == old(menuOpen) && loading == old(loading)
    {
      if selectedBook.None? && books != [] {
        return NullSelectionError;
      }
      if selectedBook.Some? {
        books := WithoutId(books, selectedBook.value.id);
      }
      deleteDialogOpen := false;
      selectedBook := None;
      SearchEffect();
      r := Completed;
    }

    /** `handleDeleteCancel`: closes the dialog and drops the selection; the books stay. */
    method HandleDeleteCancel()
      requires Valid()
      modifies this
      ensures Valid()
      ensures !deleteDialogOpen && selectedBook == None
      ensures books == old(books) && filteredBooks == old(filteredBooks) && searchTerm == old(searchTerm)
      ensures page == old(page) && rowsPerPage == old(rowsPerPage)
      ensures menuOpen == old(menuOpen) && loading == old(loading)
    {
      deleteDialogOpen := false;
      selectedBook := None;
    }

    /** `handleChangePage`: shows another page. */
    method HandleChangePage(newPage: nat)
      requires Valid()
      modifies this
      ensures Valid()
      ensures page == newPage
      ensures books == old(books) && filteredBooks == old(filteredBooks) && searchTerm == old(searchTerm)
      ensures rowsPerPage == old(rowsPerPage) && menuOpen == old(menuOpen)
      ensures selectedBook == old(selectedBook) && deleteDialogOpen == old(deleteDialogOpen)
      ensures loading == old(loading)
    {
      page := newPage;
    }

    /** `handleChangeRowsPerPage`: takes the new page size and goes back to the first page. */
    method HandleChangeRowsPerPage(rows: nat)
      requires Valid()
      modifies this
      ensures Valid()
      ensures rowsPerPage == rows && page == 0
      ensures books == old(books) && filteredBooks == old(filteredBooks) && searchTerm == old(searchTerm)
      ensures menuOpen == old(menuOpen) && selectedBook == old(selectedBook)
      ensures deleteDialogOpen == old(deleteDialogOpen) && loading == old(loading)
    {
      rowsPerPage := rows;
      page := 0;
    }
  }

  /**
   * Opening the menu on a shown row, choosing delete and confirming, as
   * written: the confirm throws and no book is removed.
   */
  method DeleteFlowAsWritten(p: ListPage, book: Book) returns (r: Outcome)
    requires p.Valid()
    requires book in p.PaginatedBooks()
    modifies p
    ensures p.Valid()
    ensures r == NullSelectionError
    ensures p.books == old(p.books) && p.deleteDialogOpen
  {
    p.HandleMenuOpen(book);
    p.HandleDeleteClick();
    r := p.HandleDeleteConfirm();
  }

  /** The same flow with the intended `handleDeleteClick`: the chosen book and every other with its identifier are removed, and the dialog closes. */
  method DeleteFlowIntended(p: ListPage, book: Book) returns (r: Outcome)
    requires p.Valid()
    modifies p
    ensures p.Valid()
    ensures r == Completed
    ensures p.books == WithoutId(old(p.books), book.id)
    ensures book !in p.books && !p.deleteDialogOpen && p.selectedBook == None && p.page == 0
  {
    p.HandleMenuOpen(book);
    p.HandleDeleteClickIntended();
    r := p.HandleDeleteConfirm();
  }
}
