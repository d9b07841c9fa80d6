# Book catalog: a verified model

This project models the sequential logic of a small book-catalog application.
The application has a GraphQL server over MongoDB and a React client. The model covers:

- the server's resolvers, as a keyed store of users and books (`BookStore`);
- the client's list utilities `filterBooks` and `sortBooks`, and the genre and language options (`Catalog`);
- the validation and state of the add-book and edit-book forms (`BookForm`);
- the state of the book-list page: search, paging, row menu and delete dialog (`BookList`);
- the dashboard statistics of the home page (`HomeStats`);
- the client's authentication context (`Auth`) and the route guard (`ProtectedRoute`);
- the bearer header the client attaches (`ApolloLink`) and the server's request context (`ServerContext`).

Where the source relies on JavaScript built-ins, they are modelled in `JsText`:
`toLowerCase` (ASCII letters), `trim`, `includes`, `replace` with a string
pattern, `parseInt` without a radix, and the decimal `toString` of a
non-negative integer. The order-preserving `filter` that the pages apply to
their lists is in `Seqs`. Shared `Option` and `Result` types are in `Wrappers`.

Several things are parameters of the model rather than built in:

- the current year, and the instant thirty days before now;
- `localeCompare`, as a function `(string, string) -> int`; the sort lemmas assume only that `<= 0` is a total preorder;
- `jwt.verify` with the server's secret, as a function `string -> Option<P>`, where `None` is a token it rejects;
- the contents of local storage, as an `Option<string>` for the `token` key.

Every piece of state the source updates in place is a class with `modifies`
clauses: the store, a form page, the list page and the auth provider.
State-changing methods are tied to pure functions of the old state, and the
properties are proved about those functions.

## Model

| member | source | states |
|---|---|---|
| `BookStore.Store.constructor` | Server/graphql/resolvers.js:4-77 | The store starts with no users and no books. |
| `BookStore.Store.GetUsers` | Server/graphql/resolvers.js:6-9 | Returns every stored user. |
| `BookStore.Store.GetBooks` | Server/graphql/resolvers.js:10-13 | Returns every stored book. |
| `BookStore.Store.GetUserById` | Server/graphql/resolvers.js:14-20 | A present id gives its user; a missing id fails with "User not found". |
| `BookStore.Store.GetBookById` | Server/graphql/resolvers.js:21-27 | A present id gives its book; a missing id fails with "Book not found". |
| `BookStore.Store.CreateUser` | Server/graphql/resolvers.js:31-44 | A mismatch fails with "Passwords do not match" and stores nothing. Otherwise it stores the input unchanged, password included, under a fresh id; other users are kept. |
| `BookStore.Store.CreateBook` | Server/graphql/resolvers.js:45-59 | Stores exactly the seven input fields under a fresh id; users and other books are unchanged. |
| `BookStore.Store.UpdateBook` | Server/graphql/resolvers.js:60-68 | A missing id fails with "Book not found" and changes nothing. A present id gets only the supplied fields overwritten, returns the post-update record, and leaves the other books alone. |
| `BookStore.Store.DeleteBook` | Server/graphql/resolvers.js:69-75 | A present id is removed and its book returned; a missing id fails with "Book not found". |
| `BookStore.Pick` | Server/graphql/resolvers.js:61-63 | A supplied field wins; an unsupplied one keeps the stored value. |
| `BookStore.ApplyPatch` | Server/graphql/resolvers.js:61-64 | Each field the update supplies overwrites the stored one; every other field keeps its stored value. |
| `BookStore.ApplyNoFields` | Server/graphql/resolvers.js:61-63 | An update that supplies no field leaves the book as it was. |
| `BookStore.ApplyPatchIdempotent` | Server/graphql/resolvers.js:61-63 | Applying the same update twice equals applying it once. |
| `BookStore.ApplyFullPatch` | Server/graphql/resolvers.js:61-63 | An update that supplies every field replaces the book by the update. |
| `BookStore.ApplyPatchSequence` | Server/graphql/resolvers.js:61-63 | Two updates in a row equal one merged update in which the later value wins. |
| `BookStore.CreateThenGet` | Server/graphql/resolvers.js:21-27 | Looking up a just-created book returns exactly the fields it was given. |
| `BookStore.UpdateThenGet` | Server/graphql/resolvers.js:60-68 | After an update, a lookup shows the merged record, or "Book not found" for a missing id. |
| `BookStore.DeleteThenGet` | Server/graphql/resolvers.js:69-75 | After a delete, looking the id up fails with "Book not found". |
| `BookStore.MismatchStoresNothing` | Server/graphql/resolvers.js:33-35 | A refused sign-up changes the answer of no user lookup. |
| `Seqs.Filter` | Client/src/data/booksData.js:142-146 | `filter` keeps an element iff the callback accepts it. The result is an order-preserving subsequence, never longer than the input. |
| `Seqs.FilterAppend` | Client/src/data/booksData.js:142 | Filtering a concatenation is the concatenation of the filtered parts. |
| `Seqs.FilterAll` | Client/src/pages/BookList.jsx:92 | A list whose every element passes is kept whole. |
| `Seqs.FilterIdempotent` | Client/src/pages/BookList.jsx:92 | Filtering twice with one callback equals filtering once. |
| `Seqs.FilterAgree` | Client/src/data/booksData.js:142-146 | Two callbacks that agree on every element keep the same list. |
| `Catalog.Matches` | Client/src/data/booksData.js:142-146 | A title, author or genre used as the term, in any letter case, matches its book. A term longer than all three fields matches nothing. |
| `Catalog.FilterBooks` | Client/src/data/booksData.js:139-147 | An empty term returns the list itself. Otherwise a book is kept iff the lower-cased term occurs in its lower-cased title, author or genre. The result is an order-preserving subsequence, no longer than the input. |
| `Catalog.FilterBooksAppend` | Client/src/data/booksData.js:139-147 | Searching a concatenation is the concatenation of the searched parts. |
| `Catalog.FilterBooksIdempotent` | Client/src/data/booksData.js:142-146 | Searching a search result again for the same term changes nothing. |
| `Catalog.FilterBooksCaseInsensitive` | Client/src/data/booksData.js:143-145 | A term and its lower-case form select the same books. |
| `Catalog.FilterBooksSameLowerCase` | Client/src/data/booksData.js:143-145 | Two non-empty terms with equal lower-case forms find the same books. |
| `Catalog.SortKeyOf` | Client/src/data/booksData.js:151-161 | "title", "author", "year" and "genre" select a key; any other value selects no ordering. |
| `Catalog.Compare` | Client/src/data/booksData.js:150-162 | An unrecognised key compares every pair as 0. The year key puts the newer year first: negative iff the first book is newer, 0 iff the years are equal. |
| `Catalog.KeyOrderFromLocale` | Client/src/data/booksData.js:152-159 | Each comparator is a total preorder, given that `localeCompare` is one. |
| `Catalog.Insert` | Client/src/data/booksData.js:150 | Inserting one book adds exactly that book to the multiset. |
| `Catalog.SortBooks` | Client/src/data/booksData.js:149-164 | Sorting returns a new list that is a permutation of the input. |
| `Catalog.InsertSorted` | Client/src/data/booksData.js:150-162 | Inserting into a sorted list keeps it sorted under the comparator. |
| `Catalog.SortBooksSorted` | Client/src/data/booksData.js:149-164 | The result is ordered: every earlier book compares `<= 0` with every later one. |
| `Catalog.SortByYearDescending` | Client/src/data/booksData.js:157-158 | Sorting by "year" gives non-increasing years. |
| `Catalog.SortUnrecognisedKeepsOrder` | Client/src/data/booksData.js:160-161 | An unrecognised `sortBy` returns the books in their original order. |
| `BookForm.InitialForm` | Client/src/pages/AddBook.jsx:35-43 | A fresh form has every field empty except the language, which is "English". |
| `BookForm.YearError` | Client/src/pages/AddBook.jsx:75-82 | An empty year gives "Year is required". A parsed year below 1000 or above the current year gives "Please enter a valid year". A year `parseInt` reads as `NaN` gives no message. |
| `BookForm.Inspect` | Client/src/pages/AddBook.jsx:63-86 | Records each field test: title and author blank once trimmed, genre and language empty, and the year's message. |
| `BookForm.ErrorsOf` | Client/src/pages/AddBook.jsx:61-86 | Each key is present iff its test failed, with that test's message; no other key appears. |
| `BookForm.Validate` | Client/src/pages/EditBook.jsx:98-128 | The error map only ever names title, author, the page's genre key, year and language. |
| `BookForm.ValidateMessages` | Client/src/pages/EditBook.jsx:101-124 | Each required field fails exactly when its test does, with that field's message. |
| `BookForm.UnparseableYearPasses` | Client/src/pages/AddBook.jsx:78-79 | A non-empty year that does not start with a digit, a sign or white space records no year error. |
| `BookForm.YearTrailingTextIgnored` | Client/src/pages/AddBook.jsx:78-79 | A year such as `1999abc` gets the same year check as its leading digits `1999`. |
| `BookForm.DescriptionAndImageUnchecked` | Client/src/pages/AddBook.jsx:60-90 | Changing the description or the image changes no error. |
| `BookForm.InitialFormErrors` | Client/src/pages/AddBook.jsx:35-90 | A fresh form fails on title, author, genre and year, and not on language. |
| `BookForm.AddPageIgnoresGenreSpelledGenre` | Client/src/pages/AddBook.jsx:71-73 | The add page records its genre error under `gener`, never under `genre`. |
| `BookForm.SelectOptionsPass` | Client/src/data/booksData.js:87-124 | Any option of the genre select and of the language select passes its check; the initial "English" is one of the language options. |
| `BookForm.NoKeysIsEmpty` | Client/src/pages/AddBook.jsx:89 | `Object.keys(m).length === 0` holds exactly for the empty map. |
| `BookForm.Page.constructor` | Client/src/pages/EditBook.jsx:36-47 | A page starts with the initial form, no errors and `loading` false. |
| `BookForm.Page.HandleInputChange` | Client/src/pages/AddBook.jsx:45-58 | Only the named field changes. Only that field's error is cleared to "", and only if it was set. `loading` is unchanged. |
| `BookForm.BuildErrors` | Client/src/pages/EditBook.jsx:99-124 | The map the checks build one after the other, title, author, genre, year and language, is exactly `Validate` of the form. |
| `BookForm.Page.ValidateForm` | Client/src/pages/EditBook.jsx:98-128 | Replaces `errors` wholesale with `Validate` of the form, and returns true iff the map is empty; the form and `loading` are unchanged. |
| `BookForm.Page.HandleSubmit` | Client/src/pages/AddBook.jsx:92-97 | An invalid form returns with `loading` unchanged; a valid one sets `loading`. |
| `BookForm.Page.FinishSubmit` | Client/src/pages/EditBook.jsx:137-150 | A failed request leaves only the page's failure message under `submit`; `loading` ends either way. |
| `BookList.Paginate` | Client/src/pages/BookList.jsx:111-114 | The page holds at most `rowsPerPage` books, contiguous and in order from index `page * rowsPerPage`. It is full when enough books remain and empty past the end. |
| `BookList.PageOfIndex` | Client/src/pages/BookList.jsx:111-114 | With a positive page size, book `i` is on page `i / rows`, in row `i % rows`. |
| `BookList.WithoutId` | Client/src/pages/BookList.jsx:92 | Keeps exactly the books whose id differs, as an order-preserving subsequence. |
| `BookList.WithoutAbsentId` | Client/src/pages/BookList.jsx:92 | Removing an id that no book carries changes nothing. |
| `BookList.WithoutIdIdempotent` | Client/src/pages/BookList.jsx:92 | Removing the same id twice equals removing it once. |
| `BookList.Authors` | Client/src/pages/BookList.jsx:176 | The set of distinct author strings of the list. |
| `BookList.Genres` | Client/src/pages/BookList.jsx:181 | The set of distinct genre strings of the list. |
| `BookList.FilteredCountsAtMost` | Client/src/pages/BookList.jsx:171-181 | The filtered list never has more distinct authors or genres than all books. |
| `BookList.ListPage.PaginatedBooks` | Client/src/pages/BookList.jsx:111-114 | The table shows at most `rowsPerPage` rows, each one of the listed books and so one of the loaded books. |
| `BookList.ListPage.Chips` | Client/src/pages/BookList.jsx:169-183 | The book chip counts the listed books, never more than are loaded, and all of them when the term is empty. The author and genre chips count distinct values over all books, at least as many as the listed books show. |
| `BookList.ListPage.constructor` | Client/src/pages/BookList.jsx:45-53 | No books, empty term, page 0, ten rows, no selection, dialog closed, loading. |
| `BookList.ListPage.SearchEffect` | Client/src/pages/BookList.jsx:64-68 | The filtered list becomes `filterBooks(books, searchTerm)` and the page resets to 0. |
| `BookList.ListPage.Load` | Client/src/pages/BookList.jsx:55-62 | The fetched books become the list, loading ends, and the search effect runs. |
| `BookList.ListPage.SetSearchTerm` | Client/src/pages/BookList.jsx:149 | A new term refilters and resets the page; the same term keeps the page. |
| `BookList.ListPage.HandleMenuOpen` | Client/src/pages/BookList.jsx:70-73 | Opens the menu and selects the book. |
| `BookList.ListPage.HandleMenuClose` | Client/src/pages/BookList.jsx:75-78 | Closes the menu and clears the selection. |
| `BookList.ListPage.HandleDeleteClick` | Client/src/pages/BookList.jsx:85-88 | Opens the dialog, and through `handleMenuClose` clears the selection. |
| `BookList.ListPage.HandleDeleteClickIntended` | Client/src/pages/BookList.jsx:85-88 | Opens the dialog and closes the menu, keeping the selected book. |
| `BookList.ListPage.HandleDeleteConfirm` | Client/src/pages/BookList.jsx:90-95 | With no selection and a non-empty list the filter callback throws and nothing changes. With no selection and an empty list the callback never runs: the dialog closes and the search effect reruns. With a selection it removes every book with the selected id, keeps the rest in order, closes the dialog, clears the selection and reruns the search effect. |
| `BookList.ListPage.HandleDeleteCancel` | Client/src/pages/BookList.jsx:97-100 | Closes the dialog, clears the selection and keeps the books. |
| `BookList.ListPage.HandleChangePage` | Client/src/pages/BookList.jsx:102-104 | Sets the page; nothing else changes. |
| `BookList.ListPage.HandleChangeRowsPerPage` | Client/src/pages/BookList.jsx:106-109 | Sets the page size and resets the page to 0. |
| `BookList.DeleteFlowAsWritten` | Client/src/pages/BookList.jsx:70-95 | Menu on a shown row, then delete, then confirm throws, and no book is removed. |
| `BookList.DeleteFlowIntended` | Client/src/pages/BookList.jsx:70-95 | With the intended click handler the same flow removes the chosen book and closes the dialog. |
| `HomeStats.UniqueAuthors` | Client/src/pages/Home.jsx:76-78 | The distinct author strings that are non-blank after trimming, kept untrimmed. |
| `HomeStats.UniqueGenres` | Client/src/pages/Home.jsx:81-83 | The distinct genre strings that are non-blank after trimming, kept untrimmed. |
| `HomeStats.RecentBooks` | Client/src/pages/Home.jsx:89-109 | Keeps exactly the recent books, as a subsequence no longer than the list. |
| `HomeStats.CalculateStats` | Client/src/pages/Home.jsx:55-140 | Always five stats in a fixed label order. While loading, or with data missing, every value is "...". Otherwise the values are, in order, the decimal counts of the books, the distinct non-blank authors, the distinct non-blank genres, the recent books and the users. |
| `HomeStats.FigureReadsBack` | Client/src/pages/Home.jsx:113-139 | Each shown figure reads back with `parseInt` as its count. |
| `HomeStats.DistinctAtMostBooks` | Client/src/pages/Home.jsx:76-83 | There are never more distinct authors or genres than books. |
| `HomeStats.FiguresBounded` | Client/src/pages/Home.jsx:76-131 | Authors, categories and recent additions never exceed the total books. |
| `HomeStats.NullListsShowZero` | Client/src/pages/Home.jsx:66-73 | With data present, a `null` book list, which `getBooks or []` reads as no books, makes the four book figures "0", and a `null` user list makes the user figure "0". |
| `HomeStats.RecentForEarlierCutoff` | Client/src/pages/Home.jsx:89-109 | A book recent for a cutoff stays recent for any earlier cutoff; an invalid entry time is never recent. |
| `HomeStats.RecentCountGrowsWithEarlierCutoff` | Client/src/pages/Home.jsx:86-109 | An earlier cutoff never lowers the recent-additions count. |
| `HomeStats.NoEnterTimeRecentIffCurrentYear` | Client/src/pages/Home.jsx:103-108 | A book without `enterTime` is recent iff its year is the current year. |
| `Auth.Initial` | Client/src/utils/AuthContext.jsx:16-18 | No user. The state token is the stored token. Authenticated iff that token is non-empty. |
| `Auth.LoginStep` | Client/src/utils/AuthContext.jsx:34-39 | The token is stored and held, the user is set, and the state is authenticated. |
| `Auth.LogoutStep` | Client/src/utils/AuthContext.jsx:41-46 | Storage and state lose the token, the user is null, and the state is not authenticated. |
| `Auth.MeStep` | Client/src/utils/AuthContext.jsx:25-32 | A `me` user is taken and authenticates; otherwise an error logs out; otherwise nothing changes. |
| `Auth.LogoutIdempotent` | Client/src/utils/AuthContext.jsx:41-46 | Logging out twice equals logging out once. |
| `Auth.LoginThenLogout` | Client/src/utils/AuthContext.jsx:34-46 | Login then logout reaches the anonymous state from any state. |
| `Auth.TransitionsKeepAgreement` | Client/src/utils/AuthContext.jsx:35-36 | Every transition keeps the stored and the state token equal. |
| `Auth.SkipsMeAfterTransitions` | Client/src/utils/AuthContext.jsx:20-23 | `skip: !token`: the `me` query is skipped after logout, runs after a login with a non-empty token, and on mount runs iff the provider starts authenticated. A skipped query changes no state. |
| `Auth.SessionTokenKept` | Client/src/utils/AuthContext.jsx:18-46 | An authenticated state always has a token for the `me` query: the initial state, logout, a login with a non-empty token and the `me` effect on what the query reports all keep this. |
| `Auth.UseAuth` | Client/src/utils/AuthContext.jsx:7-13 | Outside a provider this is the error "useAuth must be used within an AuthProvider"; inside one, the provider's value. `ProtectedRoute.Route` is its consumer. |
| `Auth.AuthProvider.constructor` | Client/src/utils/AuthContext.jsx:15-18 | The provider starts in the initial state for the stored token. |
| `Auth.AuthProvider.Login` | Client/src/utils/AuthContext.jsx:34-39 | The new state is the login step of the old one. |
| `Auth.AuthProvider.Logout` | Client/src/utils/AuthContext.jsx:41-46 | The new state is the logout step of the old one. |
| `Auth.AuthProvider.MeEffect` | Client/src/utils/AuthContext.jsx:25-32 | The new state is the `me` step of the old one. |
| `ProtectedRoute.Gate` | Client/src/Components/ProtectedRoute.jsx:9-21 | Exactly one outcome. Not authenticated redirects (replace) to "/login". Authenticated without a user shows loading. Children render iff authenticated with a user. |
| `ProtectedRoute.Route` | Client/src/Components/ProtectedRoute.jsx:6-22 | Outside a provider the guard throws the `useAuth` error; inside one it renders the gate's decision on the provider's state. |
| `ProtectedRoute.RouteUnderProvider` | Client/src/Components/ProtectedRoute.jsx:6-22 | Under a provider the guard never throws and shows one of redirect, loading or the children. |
| `ProtectedRoute.GateAfterTransitions` | Client/src/Components/ProtectedRoute.jsx:9-21 | Right after login the children render; right after logout the guard redirects. |
| `ProtectedRoute.GateInitially` | Client/src/Components/ProtectedRoute.jsx:9-19 | A provider started from a non-empty stored token shows loading; otherwise it redirects. |
| `ApolloLink.AuthHeaders` | Client/src/apollo.js:5-13 | Other headers are preserved. `authorization` is "Bearer " + T for a non-empty stored token T, and "" for a null or empty one. |
| `ApolloLink.IncomingAuthorizationOverwritten` | Client/src/apollo.js:9-10 | An incoming `authorization` header is replaced. |
| `ServerContext.GetUser` | Server/server.js:10-19 | An empty token gives null; otherwise the result is that of verification, with a failure giving null. |
| `ServerContext.HeaderToken` | Server/server.js:25 | A missing header becomes the empty string. |
| `ServerContext.ExtractToken` | Server/server.js:26 | A header without "Bearer " is handed on whole; one containing it loses its first occurrence of "Bearer " and nothing else, so it is the prefix's length shorter. |
| `ServerContext.Context` | Server/server.js:24-28 | The context's only key is `user`, which is `getUser` of the header with its first "Bearer " removed. |
| `ServerContext.MissingHeaderNoUser` | Server/server.js:25-26 | A request without `authorization` has no user. |
| `ServerContext.BearerHeaderToken` | Server/server.js:26 | A header "Bearer " + T hands T to verification. |
| `ServerContext.NoBearerUnchanged` | Server/server.js:26 | A header without "Bearer " passes through unchanged. |
| `ServerContext.OnlyFirstBearerRemoved` | Server/server.js:26 | A header that starts with "Bearer " twice keeps the second in the token handed on. |
| `ServerContext.ClientTokenRoundTrip` | Client/src/apollo.js:10 | A non-empty client token T reaches verification as exactly T, and its payload becomes the user. |
| `ServerContext.ClientWithoutTokenNoUser` | Client/src/apollo.js:10 | A client without a token is a request without a user. |
| `JsText.ToLowerCase` | Client/src/data/booksData.js:143-145 | Same length; each character lower-cased (ASCII). |
| `JsText.ToLowerCaseIdempotent` | Client/src/data/booksData.js:143-145 | Lower-casing twice equals lower-casing once. |
| `JsText.TrimStart` | Client/src/pages/AddBook.jsx:63 | A suffix that starts with no white space, everything dropped before it being white space; empty iff the string is blank. |
| `JsText.TrimEnd` | Client/src/pages/AddBook.jsx:63 | A prefix that ends with no white space, everything dropped after it being white space. |
| `JsText.Trim` | Client/src/pages/AddBook.jsx:63 | A contiguous piece of the string with only white space dropped before and after it; it neither starts nor ends with white space. |
| `JsText.TrimEmptyIffBlank` | Client/src/pages/AddBook.jsx:63-69 | `trim()` is empty iff every character is white space. |
| `JsText.IndexOf` | Server/server.js:26 | The first occurrence of the pattern, or none at all. |
| `JsText.Includes` | Client/src/data/booksData.js:143-145 | True iff the pattern occurs somewhere. |
| `JsText.Replace` | Server/server.js:26 | No occurrence leaves the string as it is. Otherwise the first occurrence is replaced. |
| `JsText.ReplaceLeadingPattern` | Server/server.js:26 | Removing a pattern that starts the string leaves exactly the rest. |
| `JsText.ParseDigits` | Client/src/pages/AddBook.jsx:78 | `NaN` iff no digit starts the body. |
| `JsText.ParseInt` | Client/src/pages/AddBook.jsx:78 | A blank string reads as `NaN`. |
| `JsText.ParseIntNaN` | Client/src/pages/AddBook.jsx:78-79 | After leading white space, a character that is not a digit or a sign gives `NaN`. |
| `JsText.ParseIntDecimal` | Client/src/pages/AddBook.jsx:78 | A string of decimal digits parses to its value. |
| `JsText.ParseIntIgnoresTrailing` | Client/src/pages/AddBook.jsx:78 | Decimal digits followed by text that does not start with a digit (and is not the `x` of a hex prefix) parse to the digits' value; the rest is ignored. |
| `JsText.NatToString` | Client/src/pages/Home.jsx:116 | Non-empty decimal digits with no leading zero. |
| `JsText.NatToStringValue` | Client/src/pages/Home.jsx:116 | The digits denote the number. |
| `JsText.ParseIntNatToString` | Client/src/pages/Home.jsx:116 | `parseInt(n.toString())` is `n`. |

## Left out

- Rendering, styling, icons and navigation (`navigate`, `handleEdit`, `handleCancel`) are not modelled, since they compute nothing. Neither are the pages and components that only render or forward: the navigation bar, footer, book card, grid view, single-book view, login page and routing table.
- Network and process plumbing is not modelled: the Apollo client and HTTP link, the server's `listen`, `dotenv`, and the database connection in Server/config/db.js.
- MongoDB is a map with fresh numeric ids. A malformed ObjectId, which makes Mongoose throw a cast error rather than return `null`, is not modelled.
- `BookStore.Store.UpdateBook`: a field given explicitly as `null` counts as not supplied, whereas Mongoose would store the `null`.
- The GraphQL schema's own mismatches are not modelled: it spells the input field `gener` where the resolver reads `genre`, and it declares no `updateBook` or `deleteBook` mutation. Server/graphql/typeDefs.js is not part of this model. Server/Model/book.js and Server/Model/user.js are not part of this model.
- Timing and scheduling are not modelled: `setTimeout` delays, promise timing, React effect scheduling and state batching, and Apollo's `errorPolicy`. Each handler's `set…` calls are applied at once, followed by the effects whose dependencies changed.
- `ServerContext.Context`: `getUser` is async and not awaited, so the real `context.user` is a promise. The model uses the value the promise resolves to.
- The mock book fetch of the edit page and the `console.log` debug output are not modelled. The mock books carry `_id` rather than `id`, so on that data every book has the same (undefined) `id`. The model's books carry an identifier; with equal ids, `BookList.WithoutId` removes them all, as the source's filter would.
- `JsText.ToLowerCase`: only the ASCII letters A-Z are mapped, not the full Unicode case mapping.
- `JsText.TrimStart`, `JsText.TrimEnd`, `JsText.Trim`: `IsSpace` covers the ASCII white space, no-break space, the line and paragraph separators and the byte-order mark. The other Unicode space separators are left out.
- `JsText.ParseInt` yields unbounded integers, not doubles: a year too long to be an exact double is not rounded. Only the `parseInt(s)` form with no radix argument is modelled.
- `BookList.ListPage.HandleChangeRowsPerPage` takes the page size as a number. The `parseInt(value, 10)` of the option string is not modelled, because the select offers only 5, 10, 25 and 50.
- `BookList.ListPage.HandleChangePage` takes the new page as a number from the table's pagination control.
- `date` parsing of `enterTime` is abstract: a timestamp, an invalid date (every comparison with it is false, so the book is not recent), or absent.
- `HomeStats.CalculateStats` leaves out the icons attached to each figure.
- `BookForm.Page.HandleSubmit` stops at the request. The simulated API call is the parameter of `BookForm.Page.FinishSubmit`: did it fail or not.

## Findings

| source | as written | input that shows it | evidently intended | confidence | as-written member | corrected member |
|---|---|---|---|---|---|---|
| Client/src/pages/BookList.jsx:85-95 | `handleDeleteClick` calls `handleMenuClose`, which sets `selectedBook` to `null` before the dialog's confirm reads `selectedBook.id` | open the row menu on any book, choose delete, then confirm: the confirm reads `id` of `null` and throws, so no book is removed and the dialog stays open | close only the menu (`setAnchorEl(null)`) and keep the selection until confirm or cancel | high as a reading of the handlers; not executed. Reaching the flow needs the page to render: App.jsx:40 routes "/books" to `BookGrid`, not `BookList`, and BookList.jsx:41 imports `getStatusColor`, which booksData.js does not export, then calls it for every row (line 244) | `BookList.DeleteFlowAsWritten` | `BookList.DeleteFlowIntended` |
