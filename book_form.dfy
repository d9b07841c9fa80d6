/**
 * The add-book and edit-book forms. Both pages keep the same state (the form
 * fields, the error messages and a `loading` flag) and validate it the same
 * way, except that the add page spells the genre field `gener` and the edit
 * page spells it `genre`.
 */
module BookForm {
  import opened Wrappers
  import JsText
  import Catalog

  /** Which of the two pages a form belongs to. */
  datatype Variant = AddPage | EditPage

  /**
   * The names of the form's fields (the `name` of each input) and of its
   * error entries. `Gener` is the add page's spelling of the genre field,
   * `Genre` the edit page's; `Submit` only ever names an error.
   */
  datatype Key = Title | Author | Year | Gener | Genre | Image | Description | Language | Submit

  /** The key under which a page keeps, and checks, the genre. */
  function GenreKey(v: Variant): (k: Key)
    ensures k in {Gener, Genre}
  {
    match v
    case AddPage => Gener
    case EditPage => Genre
  }

  type FormData = map<Key, string>
  type Errors = map<Key, string>

  /** A form field as JavaScript reads it: a key never set reads as `undefined`, which is falsy like "". */
  function Field(form: FormData, key: Key): (s: string)
    ensures key !in form ==> s == ""
  {
    if key in form then form[key] else ""
  }

  /** The fields a page starts with. */
  function InitialForm(v: Variant): (form: FormData)
    ensures form.Keys == {Title, Author, Year, GenreKey(v), Image, Description, Language}
    ensures forall k :: k in form && k != Language ==> form[k] == ""
    ensures form[Language] == "English"
  {
    map[Title := "", Author := "", Year := "", GenreKey(v) := "",
        Image := "", Description := "", Language := "English"]
  }

  /** The message under `year`: required, or outside 1000 to the current year once parsed. */
  function YearError(yearText: string, currentYear: int): (r: Option<string>)
    ensures yearText == "" ==> r == Some("Year is required")
    ensures yearText != "" && JsText.ParseInt(yearText).None? ==> r == None
    ensures yearText != "" && JsText.ParseInt(yearText).Some? ==>
      var y := JsText.ParseInt(yearText).value;
      r == (if y < 1000 || y > currentYear then Some("Please enter a valid year") else None)
  {
    if yearText == "" then Some("Year is required")
    else
      match JsText.ParseInt(yearText)
      // `NaN < 1000` and `NaN > currentYear` are both false
      case None => None
      case Some(y) => if y < 1000 || y > currentYear then Some("Please enter a valid year") else None
  }

  /**
   * The outcome of each test `validateForm` makes: title and author blank
   * once trimmed, genre and language empty, and the year's message if any.
   */
  datatype Checks = Checks(titleBlank: bool, authorBlank: bool, genreEmpty: bool,
                           yearError: Option<string>, languageEmpty: bool)

  /** The tests `validateForm` makes on the fields of a page. */
  function Inspect(v: Variant, form: FormData, currentYear: int): (c: Checks)
    ensures c.titleBlank <==> JsText.IsBlank(Field(form, Title))
    ensures c.authorBlank <==> JsText.IsBlank(Field(form, Author))
    ensures c.genreEmpty <==> Field(form, GenreKey(v)) == ""
    ensures c.yearError == YearError(Field(form, Year), currentYear)
    ensures c.languageEmpty <==> Field(form, Language) == ""
  {
    Checks(JsText.IsBlank(Field(form, Title)), JsText.IsBlank(Field(form, Author)),
           Field(form, GenreKey(v)) == "", YearError(Field(form, Year), currentYear),
           Field(form, Language) == "")
  }

  /** The error map built from the outcomes, one test after the other. */
  function ErrorsOf(v: Variant, c: Checks): (errs: Errors)
    ensures errs.Keys <= {Title, Author, GenreKey(v), Year, Language}
    ensures Title in errs <==> c.titleBlank
    ensures Author in errs <==> c.authorBlank
    ensures GenreKey(v) in errs <==> c.genreEmpty
    ensures Year in errs <==> c.yearError.Some?
    ensures Language in errs <==> c.languageEmpty
    ensures Title in errs ==> errs[Title] == "Title is required"
    ensures Author in errs ==> errs[Author] == "Author is required"
    ensures GenreKey(v) in errs ==> errs[GenreKey(v)] == "Genre is required"
    ensures Year in errs ==> errs[Year] == c.yearError.value
    ensures Language in errs ==> errs[Language] == "Language is required"
  {
    var e0: Errors := map[];
    var e1 := if c.titleBlank then e0[Title := "Title is required"] else e0;
    var e2 := if c.authorBlank then e1[Author := "Author is required"] else e1;
    var e3 := if c.genreEmpty then e2[GenreKey(v) := "Genre is required"] else e2;
    var e4 := if c.yearError.Some? then e3[Year := c.yearError.value] else e3;
    if c.languageEmpty then e4[Language := "Language is required"] else e4
  }

  /** The error map `validateForm` builds for the fields of a page. */
  function Validate(v: Variant, form: FormData, currentYear: int): (errs: Errors)
    requires Title in form && Author in form
    ensures errs.Keys <= {Title, Author, GenreKey(v), Year, Language}
  {
    ErrorsOf(v, Inspect(v, form, currentYear))
  }

  /** Each required field fails exactly when the test on it does, with that field's message. */
  lemma ValidateMessages(v: Variant, form: FormData, currentYear: int)
    requires Title in form && Author in form
    ensures var errs := Validate(v, form, currentYear);
      && (Title in errs <==> JsText.IsBlank(form[Title]))
      && (Author in errs <==> JsText.IsBlank(form[Author]))
      && (GenreKey(v) in errs <==> Field(form, GenreKey(v)) == "")
      && (Year in errs <==> YearError(Field(form, Year), currentYear).Some?)
      && (Language in errs <==> Field(form, Language) == "")
      && (Title in errs ==> errs[Title] == "Title is required")
      && (Author in errs ==> errs[Author] == "Author is required")
      && (GenreKey(v) in errs ==> errs[GenreKey(v)] == "Genre is required")
      && (Year in errs ==> errs[Year] == YearError(Field(form, Year), currentYear).value)
      && (Language in errs ==> errs[Language] == "Language is required")
  {
    var c := Inspect(v, form, currentYear);
    assert Validate(v, form, currentYear) == ErrorsOf(v, c);
  }

  /** A non-empty year that `parseInt` reads as `NaN` passes the year check. */
  lemma UnparseableYearPasses(v: Variant, form: FormData, currentYear: int)
    requires Title in form && Author in form
    requires Year in form && |form[Year]| > 0
    requires !JsText.IsSpace(form[Year][0]) && !('0' <= form[Year][0] <= '9')
    requires form[Year][0] != '-' && form[Year][0] != '+'
    ensures Year !in Validate(v, form, currentYear)
  {
    JsText.ParseIntNaN(form[Year], 0);
    assert Inspect(v, form, currentYear).yearError == None;
  }

  /** Text after the digits of a year is ignored: `"1999abc"` is checked as `"1999"`. */
  lemma YearTrailingTextIgnored(digits: string, rest: string, currentYear: int)
    requires |digits| > 0
    requires forall i :: 0 <= i < |digits| ==> JsText.IsDigitIn(digits[i], 10)
    requires rest != [] ==> !JsText.IsDigitIn(rest[0], 10)
    requires digits == "0" && rest != [] ==> rest[0] != 'x' && rest[0] != 'X'
    ensures YearError(digits + rest, currentYear) == YearError(digits, currentYear)
  {
    JsText.ParseIntIgnoresTrailing(digits, rest);
    JsText.ParseIntDecimal(digits);
  }

  /** The description and the image are never checked: changing them changes no error. */
  lemma DescriptionAndImageUnchecked(v: Variant, form: FormData, currentYear: int, key: Key, value: string)
    requires Title in form && Author in form
    requires key == Description || key == Image
    ensures Validate(v, form[key := value], currentYear) == Validate(v, form, currentYear)
  {
    var form' := form[key := value];
    assert Field(form', Title) == Field(form, Title);
    assert Field(form', Author) == Field(form, Author);
    assert Field(form', GenreKey(v)) == Field(form, GenreKey(v));
    assert Field(form', Year) == Field(form, Year);
    assert Field(form', Language) == Field(form, Language);
    assert Inspect(v, form', currentYear) == Inspect(v, form, currentYear);
  }

  /** A fresh page fails on every required field except the language, which starts as "English". */
  lemma InitialFormErrors(v: Variant, currentYear: int)
    ensures Validate(v, InitialForm(v), currentYear).Keys == {Title, Author, GenreKey(v), Year}
  {
    var form := InitialForm(v);
    var c := Inspect(v, form, currentYear);
    assert JsText.IsBlank(form[Title]) && JsText.IsBlank(form[Author]);
    assert c == Checks(true, true, true, Some("Year is required"), false);
    assert ErrorsOf(v, c) == map[Title := "Title is required", Author := "Author is required",
                                 GenreKey(v) := "Genre is required", Year := "Year is required"];
  }

  /** The add page checks `gener`: a value under `genre` does not satisfy it. */
  lemma AddPageIgnoresGenreSpelledGenre(form: FormData, currentYear: int)
    requires Title in form && Author in form
    requires Field(form, Gener) == ""
    ensures Gener in Validate(AddPage, form, currentYear)
    ensures Genre !in Validate(AddPage, form, currentYear)
  {
    assert Inspect(AddPage, form, currentYear).genreEmpty;
  }

  /** `Object.keys(m).length === 0` holds exactly for the empty map. */
  lemma NoKeysIsEmpty(m: Errors)
    ensures |m| == 0 <==> m == map[]
  {
    if m != map[] {
      var k :| k in m;
      assert k in m.Keys;
    }
  }

  /** A form validates exactly when its error map is empty. */
  predicate IsValidForm(v: Variant, form: FormData, currentYear: int)
    requires Title in form && Author in form
  {
    Validate(v, form, currentYear) == map[]
  }

  /** The message a failed submission shows. */
  function SubmitFailure(v: Variant): string
  {
    match v
    case AddPage => "Failed to add book. Please try again."
    case EditPage => "Failed to update book. Please try again."
  }

  /**
   * Choosing any option of the genre and language selects passes those two
   * checks: no option is empty. The initial language is one of the options.
   */
  lemma SelectOptionsPass(v: Variant, form: FormData, currentYear: int, genre: string, language: string)
    requires Title in form && Author in form
    requires genre in Catalog.BookGenres && language in Catalog.BookLanguages
    ensures var f := form[GenreKey(v) := genre][Language := language];
      GenreKey(v) !in Validate(v, f, currentYear) && Language !in Validate(v, f, currentYear)
    ensures InitialForm(v)[Language] in Catalog.BookLanguages
  {
    var f := form[GenreKey(v) := genre][Language := language];
    assert genre != "" && language != "";
    assert Field(f, GenreKey(v)) == genre && Field(f, Language) == language;
    var c := Inspect(v, f, currentYear);
    assert !c.genreEmpty && !c.languageEmpty;
  }

  /** `!value.trim()`: the field is empty once trimmed, that is, blank. */
  function TrimsToEmpty(s: string): (b: bool)
    ensures b <==> JsText.IsBlank(s)
  {
    JsText.TrimEmptyIffBlank(s);
    JsText.Trim(s) == ""
  }

  /** The body of `validateForm`: the error map built check by check, the same map `Validate` describes. */
  method BuildErrors(v: Variant, form: FormData, currentYear: int) returns (newErrors: Errors)
    requires Title in form && Author in form
    ensures newErrors == Validate(v, form, currentYear)
  {
    ghost var c := Inspect(v, form, currentYear);
    newErrors := map[];
    if TrimsToEmpty(form[Title]) {
      newErrors := newErrors[Title := "Title is required"];
    }
    ghost var e1 := newErrors;
    assert e1 == if c.titleBlank then map[Title := "Title is required"] else map[];
    if TrimsToEmpty(form[Author]) {
      newErrors := newErrors[Author := "Author is required"];
    }
    ghost var e2 := newErrors;
    assert e2 == if c.authorBlank then e1[Author := "Author is required"] else e1;
    var genreKey := GenreKey(v);
    if Field(form, genreKey) == "" {
      newErrors := newErrors[genreKey := "Genre is required"];
    }
    ghost var e3 := newErrors;
    assert e3 == if c.genreEmpty then e2[genreKey := "Genre is required"] else e2;
    var yearText := Field(form, Year);
    assert c.yearError == YearError(yearText, currentYear);
    if yearText == "" {
      newErrors := newErrors[Year := "Year is required"];
    } else {
      var year := JsText.ParseInt(yearText);
      assert c.yearError == if year.Some? && (year.value < 1000 || year.value > currentYear)
        then Some("Please enter a valid year") else None;
      if year.Some? && (year.value < 1000 || year.value > currentYear) {
        newErrors := newErrors[Year := "Please enter a valid year"];
      }
    }
    ghost var e4 := newErrors;
    assert e4 == if c.yearError.Some? then e3[Year := c.yearError.value] else e3;
    if Field(form, Language) == "" {
      newErrors := newErrors[Language := "Language is required"];
    }
    assert newErrors == if c.languageEmpty then e4[Language := "Language is required"] else e4;
    assert newErrors == ErrorsOf(v, c);
  }

  /** The state of one form page. */
  class Page {
    const variant: Variant
    var formData: FormData
    var errors: Errors
    var loading: bool

    /** The text fields `validateForm` trims are always present. */
    ghost predicate Valid()
      reads this
    {
      Title in formData && Author in formData
    }

    constructor (v: Variant)
      ensures Valid()
      ensures variant == v && formData == InitialForm(v) && errors == map[] && !loading
    {
      variant := v;
      formData := InitialForm(v);
      errors := map[];
      loading := false;
    }

    /**
     * `handleInputChange`: sets the named field; clears that field's error
     * to "" when one is showing, and leaves every other error alone.
     */
    method HandleInputChange(name: Key, value: string)
      requires Valid()
      modifies this
      ensures Valid()
      ensures formData == old(formData)[name := value]
      ensures errors == if name in old(errors) && old(errors)[name] != "" then old(errors)[name := ""] else old(errors)
      ensures loading == old(loading)
    {
      formData := formData[name := value];
      if name in errors && errors[name] != "" {
        errors := errors[name := ""];
      }
    }

    /** `validateForm`: builds the error map, replaces `errors` by it, and reports whether it is empty. */
    method ValidateForm(currentYear: int) returns (ok: bool)
      requires Valid()
      modifies this
      ensures Valid()
      ensures formData == old(formData) && loading == old(loading)
      ensures errors == Validate(variant, formData, currentYear)
      ensures ok <==> errors == map[]
    {
      var newErrors := BuildErrors(variant, formData, currentYear);
      errors := newErrors;
      ok := |newErrors| == 0;
      NoKeysIsEmpty(newErrors);
    }

    /**
     * `handleSubmit` up to its first `await`: an invalid form returns before
     * `loading` is touched; a valid one sets `loading`.
     */
    method HandleSubmit(currentYear: int) returns (submitted: bool)
      requires Valid()
      modifies this
      ensures Valid()
      ensures formData == old(formData)
      ensures errors == Validate(variant, formData, currentYear)
      ensures submitted <==> IsValidForm(variant, formData, currentYear)
      ensures submitted ==> loading
      ensures !submitted ==> loading == old(loading)
    {
      submitted := ValidateForm(currentYear);
      if !submitted {
        return;
      }
      loading := true;
    }

    /**
     * The rest of `handleSubmit` once the request settles: a failure shows
     * the page's failure message as the only error; either way `loading` ends.
     */
    method FinishSubmit(failed: bool)
      requires Valid()
      modifies this
      ensures Valid()
      ensures formData == old(formData)
      ensures errors == if failed then map[Submit := SubmitFailure(variant)] else old(errors)
      ensures !loading
    {
      if failed {
        errors := map[Submit := SubmitFailure(variant)];
      }
      loading := false;
    }
  }
}
