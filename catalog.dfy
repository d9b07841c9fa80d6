/**
 * The client's book records and the list utilities of the catalog:
 * the case-insensitive search `filterBooks` and the keyed sort `sortBooks`,
 * with the genre and language options the forms offer.
 */
module Catalog {
  import JsText
  import Seqs

  /** When a book was entered, as the client finds it in a fetched record. */
  datatype EnterTime =
    | NoEnterTime          // the field is absent or empty
    | EnteredAt(ms: int)   // a date the client parses, as milliseconds since the epoch
    | Unparseable          // a value `new Date` turns into an invalid date

  /** A book as the client holds it: the fields of the catalog's book model, plus `enterTime`. */
  datatype Book = Book(
    id: string,
    title: string,
    author: string,
    year: int,
    genre: string,
    image: string,
    description: string,
    language: string,
    enterTime: EnterTime)

  /** The genre options of the add and edit forms. */
  const BookGenres: seq<string> := [
    "Fiction", "Non-Fiction", "Mystery", "Romance", "Science Fiction", "Fantasy",
    "Biography", "History", "Self-Help", "Business", "Technology", "Health",
    "Travel", "Children", "Young Adult", "Poetry", "Drama", "Comedy", "Horror",
    "Thriller", "Dystopian"]

  /** The language options of the add and edit forms. */
  const BookLanguages: seq<string> := [
    "English", "Spanish", "French", "German", "Italian", "Portuguese",
    "Japanese", "Chinese", "Korean", "Russian", "Arabic"]

  // ---------------------------------------------------------------------------
  // filterBooks

  /**
   * The lower-cased search term occurs in the lower-cased title, author or
   * genre: a field itself, in any case, is found, and a term longer than all
   * three fields is not.
   */
  function Matches(b: Book, term: string): (r: bool)
    ensures JsText.ToLowerCase(term) == JsText.ToLowerCase(b.title) ==> r
    ensures JsText.ToLowerCase(term) == JsText.ToLowerCase(b.author) ==> r
    ensures JsText.ToLowerCase(term) == JsText.ToLowerCase(b.genre) ==> r
    ensures |term| > |b.title| && |term| > |b.author| && |term| > |b.genre| ==> !r
  {
    var t := JsText.ToLowerCase(term);
    assert JsText.OccursAt(t, t, 0);
    JsText.Includes(JsText.ToLowerCase(b.title), t)
    || JsText.Includes(JsText.ToLowerCase(b.author), t)
    || JsText.Includes(JsText.ToLowerCase(b.genre), t)
  }

  /** The callback `filterBooks` hands to `filter`. */
  function MatchesTerm(term: string): Book -> bool
  {
    (b: Book) => Matches(b, term)
  }

  /** `filterBooks(books, searchTerm)`: an empty term returns the list itself. */
  function FilterBooks(books: seq<Book>, searchTerm: string): (r: seq<Book>)
    ensures searchTerm == "" ==> r == books
    ensures forall b :: b in r <==> b in books && (searchTerm == "" || Matches(b, searchTerm))
    ensures Seqs.IsSubsequence(r, books) && |r| <= |books|
  {
    if searchTerm == "" then
      Seqs.SubsequenceRefl(books);
      books
    else
      Seqs.Filter(books, MatchesTerm(searchTerm))
  }

  /** Searching a concatenation searches each part: the search keeps the relative order. */
  lemma FilterBooksAppend(a: seq<Book>, b: seq<Book>, searchTerm: string)
    ensures FilterBooks(a + b, searchTerm) == FilterBooks(a, searchTerm) + FilterBooks(b, searchTerm)
  {
    if searchTerm != "" {
      Seqs.FilterAppend(a, b, MatchesTerm(searchTerm));
    }
  }

  /** Searching the result of a search again for the same term changes nothing. */
  lemma FilterBooksIdempotent(books: seq<Book>, searchTerm: string)
    ensures FilterBooks(FilterBooks(books, searchTerm), searchTerm) == FilterBooks(books, searchTerm)
  {
    if searchTerm != "" {
      Seqs.FilterIdempotent(books, MatchesTerm(searchTerm));
    }
  }

  /** Two non-empty terms with the same lower-case form find the same books. */
  lemma FilterBooksSameLowerCase(books: seq<Book>, t1: string, t2: string)
    requires t1 != "" && t2 != ""
    requires JsText.ToLowerCase(t1) == JsText.ToLowerCase(t2)
    ensures FilterBooks(books, t1) == FilterBooks(books, t2)
  {
    Seqs.FilterAgree(books, MatchesTerm(t1), MatchesTerm(t2));
  }

  /** The search ignores case: a term and its lower-case form give the same list. */
  lemma FilterBooksCaseInsensitive(books: seq<Book>, searchTerm: string)
    ensures FilterBooks(books, searchTerm) == FilterBooks(books, JsText.ToLowerCase(searchTerm))
  {
    if searchTerm != "" {
      JsText.ToLowerCaseIdempotent(searchTerm);
      FilterBooksSameLowerCase(books, searchTerm, JsText.ToLowerCase(searchTerm));
    }
  }

  // ---------------------------------------------------------------------------
  // sortBooks

  /** The field a `sortBy` value names; any other value leaves the comparator at 0. */
  datatype SortKey = ByTitle | ByAuthor | ByYear | ByGenre | Unsorted

  function SortKeyOf(sortBy: string): (k: SortKey)
    ensures k == Unsorted <==> sortBy !in {"title", "author", "year", "genre"}
  {
    if sortBy == "title" then ByTitle
    else if sortBy == "author" then ByAuthor
    else if sortBy == "year" then ByYear
    else if sortBy == "genre" then ByGenre
    else Unsorted
  }

  /** The locale comparison orders strings totally: `<= 0` is total and transitive. */
  ghost predicate IsLocaleOrder(localeCompare: (string, string) -> int)
  {
    && (forall x, y :: localeCompare(x, y) <= 0 || localeCompare(y, x) <= 0)
    && (forall x, y, z :: localeCompare(x, y) <= 0 && localeCompare(y, z) <= 0 ==> localeCompare(x, z) <= 0)
  }

  /**
   * The comparator `sortBooks` passes to the sort for a key: the locale order
   * of the named field, newer years first, or 0 for any other key.
   */
  function Compare(key: SortKey, localeCompare: (string, string) -> int, a: Book, b: Book): (r: int)
    ensures key == Unsorted ==> r == 0
    ensures key == ByYear ==> (r < 0 <==> a.year > b.year) && (r == 0 <==> a.year == b.year)
  {
    match key
    case ByTitle => localeCompare(a.title, b.title)
    case ByAuthor => localeCompare(a.author, b.author)
    case ByYear => b.year - a.year
    case ByGenre => localeCompare(a.genre, b.genre)
    case Unsorted => 0
  }

  /** `a` may stand before `b`: the comparator does not ask to swap them. */
  predicate InOrder(key: SortKey, localeCompare: (string, string) -> int, a: Book, b: Book)
  {
    Compare(key, localeCompare, a, b) <= 0
  }

  /** The comparator of a key is a total preorder whenever the locale order is one. */
  ghost predicate IsKeyOrder(key: SortKey, localeCompare: (string, string) -> int)
  {
    && (forall a, b :: InOrder(key, localeCompare, a, b) || InOrder(key, localeCompare, b, a))
    && (forall a, b, c :: InOrder(key, localeCompare, a, b) && InOrder(key, localeCompare, b, c) ==> InOrder(key, localeCompare, a, c))
  }

  lemma KeyOrderFromLocale(key: SortKey, localeCompare: (string, string) -> int)
    requires key in {ByTitle, ByAuthor, ByGenre} ==> IsLocaleOrder(localeCompare)
    ensures IsKeyOrder(key, localeCompare)
  {
  }

  ghost predicate Sorted(key: SortKey, localeCompare: (string, string) -> int, s: seq<Book>)
  {
    forall i, j :: 0 <= i < j < |s| ==> InOrder(key, localeCompare, s[i], s[j])
  }

  /** Inserts `x` before the first element it may stand before, so equal elements keep their order. */
  function Insert(key: SortKey, localeCompare: (string, string) -> int, x: Book, s: seq<Book>): (r: seq<Book>)
    ensures multiset(r) == multiset(s) + multiset{x}
  {
    if s == [] then [x]
    else if InOrder(key, localeCompare, x, s[0]) then [x] + s
    else
      var rest := Insert(key, localeCompare, x, s[1..]);
      assert s == [s[0]] + s[1..];
      [s[0]] + rest
  }

  /**
   * `sortBooks(books, sortBy)`: a stable sort of a copy of the list by the
   * comparator of `sortBy`. The list it is given is a value and is not changed.
   */
  function SortBooks(books: seq<Book>, sortBy: string, localeCompare: (string, string) -> int): (r: seq<Book>)
    ensures multiset(r) == multiset(books)
    ensures |r| == |books|
  {
    if books == [] then []
    else
      assert books == [books[0]] + books[1..];
      Insert(SortKeyOf(sortBy), localeCompare, books[0], SortBooks(books[1..], sortBy, localeCompare))
  }

  /** An element that may stand before the head of a sorted list may stand before all of it. */
  lemma ConsSorted(key: SortKey, localeCompare: (string, string) -> int, x: Book, s: seq<Book>)
    requires IsKeyOrder(key, localeCompare)
    requires Sorted(key, localeCompare, s)
    requires forall j :: 0 <= j < |s| ==> InOrder(key, localeCompare, x, s[j])
    ensures Sorted(key, localeCompare, [x] + s)
  {
    var r := [x] + s;
    forall i, j | 0 <= i < j < |r| ensures InOrder(key, localeCompare, r[i], r[j]) {
      if i > 0 {
        assert r[i] == s[i - 1] && r[j] == s[j - 1];
      }
    }
  }

  lemma {:induction false} InsertSorted(key: SortKey, localeCompare: (string, string) -> int, x: Book, s: seq<Book>)
    requires IsKeyOrder(key, localeCompare)
    requires Sorted(key, localeCompare, s)
    ensures Sorted(key, localeCompare, Insert(key, localeCompare, x, s))
  {
    if s == [] {
    } else if InOrder(key, localeCompare, x, s[0]) {
      forall j | 0 <= j < |s| ensures InOrder(key, localeCompare, x, s[j]) {
        if j > 0 {
          assert InOrder(key, localeCompare, s[0], s[j]);
        }
      }
      ConsSorted(key, localeCompare, x, s);
    } else {
      assert InOrder(key, localeCompare, s[0], x);
      var rest := Insert(key, localeCompare, x, s[1..]);
      InsertSorted(key, localeCompare, x, s[1..]);
      forall j | 0 <= j < |rest| ensures InOrder(key, localeCompare, s[0], rest[j]) {
        assert rest[j] in multiset(rest);
        assert rest[j] == x || rest[j] in s[1..];
      }
      ConsSorted(key, localeCompare, s[0], rest);
    }
  }

  /**
   * With a consistent comparator the sorted list is in order: titles, authors
   * and genres ascend under the locale order and years descend.
   */
  lemma {:induction false} SortBooksSorted(books: seq<Book>, sortBy: string, localeCompare: (string, string) -> int)
    requires SortKeyOf(sortBy) in {ByTitle, ByAuthor, ByGenre} ==> IsLocaleOrder(localeCompare)
    ensures Sorted(SortKeyOf(sortBy), localeCompare, SortBooks(books, sortBy, localeCompare))
  {
    KeyOrderFromLocale(SortKeyOf(sortBy), localeCompare);
    if books != [] {
      SortBooksSorted(books[1..], sortBy, localeCompare);
      InsertSorted(SortKeyOf(sortBy), localeCompare, books[0], SortBooks(books[1..], sortBy, localeCompare));
    }
  }

  /** Sorting by "year" puts later years first, whatever the locale comparison. */
  lemma SortByYearDescending(books: seq<Book>, localeCompare: (string, string) -> int)
    ensures var r := SortBooks(books, "year", localeCompare);
      forall i, j :: 0 <= i < j < |r| ==> r[i].year >= r[j].year
  {
    SortBooksSorted(books, "year", localeCompare);
  }

  /** An unrecognised `sortBy` makes the comparator 0, and the stable sort keeps the order. */
  lemma {:induction false} SortUnrecognisedKeepsOrder(books: seq<Book>, sortBy: string, localeCompare: (string, string) -> int)
    requires sortBy !in {"title", "author", "year", "genre"}
    ensures SortBooks(books, sortBy, localeCompare) == books
  {
    if books != [] {
      SortUnrecognisedKeepsOrder(books[1..], sortBy, localeCompare);
      assert books == [books[0]] + books[1..];
    }
  }
}
