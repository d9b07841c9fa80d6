/**
 * The GraphQL resolvers of the server: a keyed store of users and books with
 * list, lookup, create, update and delete operations. The two document
 * collections are maps from identifier to document; a counter hands out the
 * fresh identifiers the database would generate.
 */
module BookStore {
  import opened Wrappers

  type Id = nat

  /** A user as `createUser` receives it and stores it: the password is kept as given. */
  datatype User = User(name: string, email: string, password: string, confirmPassword: string)

  /**
   * The fields of a book. A stored book carries the values it was created
   * or updated with (`None` for a field never given); a `createBook` input
   * and an `updateBook` input have the same shape, `None` marking a field
   * the caller did not supply.
   */
  datatype BookFields = BookFields(
    title: Option<string>,
    author: Option<string>,
    year: Option<int>,
    genre: Option<string>,
    image: Option<string>,
    description: Option<string>,
    language: Option<string>)

  /** A document together with the identifier the store gave it. */
  datatype Saved<T> = Saved(id: Id, doc: T)

  /** The errors the resolvers throw. */
  datatype StoreError = UserNotFound | BookNotFound | PasswordsDoNotMatch

  /** The message each error is thrown with. */
  function Message(e: StoreError): string
  {
    match e
    case UserNotFound => "User not found"
    case BookNotFound => "Book not found"
    case PasswordsDoNotMatch => "Passwords do not match"
  }

  /** The value of one field after an update: the supplied value, or the current one. */
  function Pick<T>(supplied: Option<T>, current: Option<T>): (r: Option<T>)
    ensures supplied.Some? ==> r == supplied
    ensures supplied.None? ==> r == current
  {
    if supplied.Some? then supplied else current
  }

  /** The document `findByIdAndUpdate` leaves: the supplied fields overwritten, the others kept. */
  function ApplyPatch(doc: BookFields, patch: BookFields): (r: BookFields)
    ensures r.title == (if patch.title.Some? then patch.title else doc.title)
    ensures r.author == (if patch.author.Some? then patch.author else doc.author)
    ensures r.year == (if patch.year.Some? then patch.year else doc.year)
    ensures r.genre == (if patch.genre.Some? then patch.genre else doc.genre)
    ensures r.image == (if patch.image.Some? then patch.image else doc.image)
    ensures r.description == (if patch.description.Some? then patch.description else doc.description)
    ensures r.language == (if patch.language.Some? then patch.language else doc.language)
  {
    BookFields(
      Pick(patch.title, doc.title),
      Pick(patch.author, doc.author),
      Pick(patch.year, doc.year),
      Pick(patch.genre, doc.genre),
      Pick(patch.image, doc.image),
      Pick(patch.description, doc.description),
      Pick(patch.language, doc.language))
  }

  /** An update that supplies no field. */
  const NoFields := BookFields(None, None, None, None, None, None, None)

  /** An update supplying no field leaves the document as it was. */
  lemma ApplyNoFields(doc: BookFields)
    ensures ApplyPatch(doc, NoFields) == doc
  {
  }

  /** Applying the same update twice is applying it once. */
  lemma ApplyPatchIdempotent(doc: BookFields, patch: BookFields)
    ensures ApplyPatch(ApplyPatch(doc, patch), patch) == ApplyPatch(doc, patch)
  {
  }

  /** An update that supplies every field replaces the document by the update. */
  lemma ApplyFullPatch(doc: BookFields, patch: BookFields)
    requires patch.title.Some? && patch.author.Some? && patch.year.Some? && patch.genre.Some?
    requires patch.image.Some? && patch.description.Some? && patch.language.Some?
    ensures ApplyPatch(doc, patch) == patch
  {
  }

  /** Two updates in a row are one update in which the later one wins on each field. */
  lemma ApplyPatchSequence(doc: BookFields, p: BookFields, q: BookFields)
    ensures ApplyPatch(ApplyPatch(doc, p), q) == ApplyPatch(doc, ApplyPatch(p, q))
  {
  }

  class Store {
    var users: map<Id, User>
    var books: map<Id, BookFields>
    /** The next identifier to give out; every stored identifier is smaller. */
    var nextId: Id

    ghost predicate Valid()
      reads this
    {
      && (forall id :: id in users ==> id < nextId)
      && (forall id :: id in books ==> id < nextId)
    }

    constructor ()
      ensures Valid()
      ensures users == map[] && books == map[]
    {
      users, books, nextId := map[], map[], 0;
    }

    /** `getUsers`: every stored user. */
    method GetUsers() returns (r: map<Id, User>)
      ensures r == users
    {
      r := users;
    }

    /** `getBooks`: every stored book. */
    method GetBooks() returns (r: map<Id, BookFields>)
      ensures r == books
    {
      r := books;
    }

    /** `getUserById`: the stored user, or "User not found". */
    method GetUserById(id: Id) returns (r: Result<User, StoreError>)
      ensures id in users ==> r == Ok(users[id])
      ensures id !in users ==> r == Err(UserNotFound)
    {
      if id in users {
        r := Ok(users[id]);
      } else {
        r := Err(UserNotFound);
      }
    }

    /** `getBookById`: the stored book, or "Book not found". */
    method GetBookById(id: Id) returns (r: Result<BookFields, StoreError>)
      ensures id in books ==> r == Ok(books[id])
      ensures id !in books ==> r == Err(BookNotFound)
    {
      if id in books {
        r := Ok(books[id]);
      } else {
        r := Err(BookNotFound);
      }
    }

    /**
     * `createUser`: refuses a password that differs from its confirmation;
     * otherwise stores the user as given under a fresh identifier.
     */
    method CreateUser(input: User) returns (r: Result<Saved<User>, StoreError>)
      requires Valid()
      modifies this
      ensures Valid()
      ensures books == old(books)
      ensures input.password != input.confirmPassword ==>
        r == Err(PasswordsDoNotMatch) && users == old(users) && nextId == old(nextId)
      ensures input.password == input.confirmPassword ==>
        && r.Ok? && r.value.doc == input
        && r.value.id !in old(users) && r.value.id !in old(books)
        && users == old(users)[r.value.id := input]
    {
      if input.password != input.confirmPassword {
        r := Err(PasswordsDoNotMatch);
        return;
      }
      var user := User(input.name, input.email, input.password, input.confirmPassword);
      var id := nextId;
      users := users[id := user];
      nextId := nextId + 1;
      r := Ok(Saved(id, user));
    }

    /** `createBook`: stores the seven fields of the input under a fresh identifier. */
    method CreateBook(input: BookFields) returns (r: Saved<BookFields>)
      requires Valid()
      modifies this
      ensures Valid()
      ensures users == old(users)
      ensures r.doc == input
      ensures r.id !in old(books) && r.id !in old(users)
      ensures books == old(books)[r.id := input]
    {
      var book := BookFields(input.title, input.author, input.year, input.genre,
                             input.image, input.description, input.language);
      var id := nextId;
      books := books[id := book];
      nextId := nextId + 1;
      r := Saved(id, book);
    }

    /**
     * `updateBook`: overwrites the supplied fields of a stored book and
     * returns the updated document; a missing book is "Book not found".
     */
    method UpdateBook(id: Id, patch: BookFields) returns (r: Result<BookFields, StoreError>)
      requires Valid()
      modifies this
      ensures Valid()
      ensures users == old(users) && nextId == old(nextId)
      ensures id !in old(books) ==> r == Err(BookNotFound) && books == old(books)
      ensures id in old(books) ==>
        && r == Ok(ApplyPatch(old(books)[id], patch))
        && books == old(books)[id := r.value]
    {
      if id !in books {
        r := Err(BookNotFound);
        return;
      }
      var updated := ApplyPatch(books[id], patch);
      books := books[id := updated];
      r := Ok(updated);
    }

    /** `deleteBook`: removes a stored book and returns it; a missing book is "Book not found". */
    method DeleteBook(id: Id) returns (r: Result<BookFields, StoreError>)
      requires Valid()
      modifies this
      ensures Valid()
      ensures users == old(users) && nextId == old(nextId)
      ensures id !in old(books) ==> r == Err(BookNotFound) && books == old(books)
      ensures id in old(books) ==> r == Ok(old(books)[id]) && books == old(books) - {id}
    {
      if id !in books {
        r := Err(BookNotFound);
        return;
      }
      r := Ok(books[id]);
      books := books - {id};
    }
  }

  /** A book that was just created is found under its identifier with the fields it was given. */
  method CreateThenGet(store: Store, input: BookFields) returns (created: Saved<BookFields>, found: Result<BookFields, StoreError>)
    requires store.Valid()
    modifies store
    ensures store.Valid()
    ensures found == Ok(input)
  {
    created := store.CreateBook(input);
    found := store.GetBookById(created.id);
  }

  /** After an update the stored book shows the supplied fields and keeps the others. */
  method UpdateThenGet(store: Store, id: Id, patch: BookFields) returns (found: Result<BookFields, StoreError>)
    requires store.Valid()
    modifies store
    ensures store.Valid()
    ensures id in old(store.books) ==> found == Ok(ApplyPatch(old(store.books)[id], patch))
    ensures id !in old(store.books) ==> found == Err(BookNotFound)
  {
    var updated := store.UpdateBook(id, patch);
    found := store.GetBookById(id);
  }

  /** After a delete, looking the book up fails with "Book not found". */
  method DeleteThenGet(store: Store, id: Id) returns (found: Result<BookFields, StoreError>)
    requires store.Valid()
    modifies store
    ensures store.Valid()
    ensures found == Err(BookNotFound)
  {
    var deleted := store.DeleteBook(id);
    found := store.GetBookById(id);
  }

  /** A refused sign-up stores nothing: the same lookups succeed and fail as before. */
  method MismatchStoresNothing(store: Store, input: User, id: Id) returns (before: Result<User, StoreError>, after: Result<User, StoreError>)
    requires store.Valid()
    requires input.password != input.confirmPassword
    modifies store
    ensures store.Valid()
    ensures before == after
  {
    before := store.GetUserById(id);
    var created := store.CreateUser(input);
    after := store.GetUserById(id);
  }
}
