/**
 * The book form of the dashboard (components/BookModal.js): its state, the
 * prefill from a book being edited, the change handler and the validator
 * that decides whether `onSave` is called.
 */
module BookForm {
  import opened Wrappers
  import opened Text
  import BookCatalogue

  /** The keys of the form's state and of its error object. */
  datatype FieldName = Title | Author | Isbn | Category | Available

  /** The form state. `available` is `None` when a book's flag was `null`. */
  datatype FormData = FormData(title: string, author: string, isbn: string, category: string, available: Option<bool>)

  /** A property read from a JavaScript object: absent, `null`, or a value. */
  datatype Field<T> = Missing | NullValue | Given(value: T)

  /** The `book` prop when editing. */
  datatype BookInput = BookInput(title: Field<string>, author: Field<string>, isbn: Field<string>,
                                 category: Field<string>, available: Field<bool>)

  /** The error object: field name to message. */
  type Errors = map<FieldName, string>

  const DefaultCategory := "Programming"

  const InitialForm := FormData("", "", "", DefaultCategory, Some(true))

  const TitleRequired := "T\U{ED}tulo \U{E9} obrigat\U{F3}rio"
  const AuthorRequired := "Autor \U{E9} obrigat\U{F3}rio"
  const IsbnRequired := "ISBN \U{E9} obrigat\U{F3}rio"
  const IsbnFormat := "ISBN deve estar no formato 978-0000000000 ou 13 d\U{ED}gitos"
  const CategoryRequired := "Categoria \U{E9} obrigat\U{F3}ria"

  /** `value || ''`: absent, null and empty all become the empty string. */
  function OrEmpty(f: Field<string>): (r: string)
    ensures f.Given? ==> r == f.value
    ensures !f.Given? ==> r == ""
  {
    if f.Given? then f.value else ""
  }

  /** The prefill effect: with no book the form keeps its state; otherwise
      missing text becomes '', a missing or empty category becomes
      'Programming', and `available` defaults to true only when absent. */
  function Prefill(form: FormData, book: Option<BookInput>): (r: FormData)
    ensures book.None? ==> r == form
    ensures book.Some? ==>
      && r.title == OrEmpty(book.value.title)
      && r.author == OrEmpty(book.value.author)
      && r.isbn == OrEmpty(book.value.isbn)
    ensures book.Some? ==> r.category == if book.value.category.Given? && book.value.category.value != "" then book.value.category.value else DefaultCategory
    ensures book.Some? ==> r.available == match book.value.available
      case Missing => Some(true)
      case NullValue => None
      case Given(b) => Some(b)
  {
    match book
    case None => form
    case Some(b) =>
      FormData(
        OrEmpty(b.title),
        OrEmpty(b.author),
        OrEmpty(b.isbn),
        if b.category.Given? && b.category.value != "" then b.category.value else DefaultCategory,
        match b.available
        case Missing => Some(true)
        case NullValue => None
        case Given(v) => Some(v))
  }

  predicate AllDigits(s: string) {
    forall i | 0 <= i < |s| :: IsDigit(s[i])
  }

  /** `/^\d{3}-\d{10}$/` or `/^\d{13}$/`. */
  predicate IsbnPattern(s: string) {
    || (|s| == 14 && AllDigits(s[..3]) && s[3] == '-' && AllDigits(s[4..]))
    || (|s| == 13 && AllDigits(s))
  }

  /** What `validateForm` accepts. */
  predicate FormValid(form: FormData) {
    !JsBlank(form.title) && !JsBlank(form.author) && !JsBlank(form.isbn) && IsbnPattern(form.isbn) && form.category != ""
  }

  /** `validateForm`: builds the error object field by field; the form is valid
      when no key was set. */
  method ValidateForm(form: FormData) returns (errors: Errors, valid: bool)
    ensures Title in errors <==> JsBlank(form.title)
    ensures Author in errors <==> JsBlank(form.author)
    ensures Isbn in errors <==> JsBlank(form.isbn) || !IsbnPattern(form.isbn)
    ensures Category in errors <==> form.category == ""
    ensures Available !in errors
    ensures Title in errors ==> errors[Title] == TitleRequired
    ensures Author in errors ==> errors[Author] == AuthorRequired
    ensures Isbn in errors ==> errors[Isbn] == if JsBlank(form.isbn) then IsbnRequired else IsbnFormat
    ensures Category in errors ==> errors[Category] == CategoryRequired
    ensures valid <==> errors == map[]
    ensures valid <==> FormValid(form)
  {
    errors := map[];
    if JsBlank(form.title) {
      errors := errors[Title := TitleRequired];
    }
    if JsBlank(form.author) {
      errors := errors[Author := AuthorRequired];
    }
    if JsBlank(form.isbn) {
      errors := errors[Isbn := IsbnRequired];
    } else if !IsbnPattern(form.isbn) {
      errors := errors[Isbn := IsbnFormat];
    }
    if form.category == "" {
      errors := errors[Category := CategoryRequired];
    }
    valid := |errors.Keys| == 0;
    if !valid {
      assert errors != map[] by {
        var k :| k in errors.Keys;
      }
    }
  }

  /** `handleSubmit`: `onSave` receives the form exactly when it validates. */
  method HandleSubmit(form: FormData) returns (errors: Errors, saved: Option<FormData>)
    ensures saved.Some? <==> FormValid(form)
    ensures saved.Some? ==> saved.value == form && errors == map[]
    ensures saved.None? ==> errors != map[]
  {
    var valid;
    errors, valid := ValidateForm(form);
    saved := if valid then Some(form) else None;
  }

  /** The inputs of the form: text inputs and the category select report
      `value`, the availability checkbox reports `checked`. */
  datatype ChangeEvent = TextInput(field: FieldName, value: string) | CheckboxInput(checked: bool)

  function EventField(e: ChangeEvent): FieldName {
    if e.TextInput? then e.field else Available
  }

  /** `handleChange`: stores the new value under the input's name and blanks
      that field's error if it had a non-empty one. A text event naming
      `available` stores nothing: no text input has that name. */
  function HandleChange(form: FormData, errors: Errors, e: ChangeEvent): (r: (FormData, Errors))
    ensures e.CheckboxInput? ==> r.0 == form.(available := Some(e.checked))
    ensures e.TextInput? && e.field == Title ==> r.0 == form.(title := e.value)
    ensures e.TextInput? && e.field == Author ==> r.0 == form.(author := e.value)
    ensures e.TextInput? && e.field == Isbn ==> r.0 == form.(isbn := e.value)
    ensures e.TextInput? && e.field == Category ==> r.0 == form.(category := e.value)
    ensures r.1.Keys == errors.Keys
    ensures EventField(e) in r.1 ==> r.1[EventField(e)] == ""
    ensures forall f | f in errors && f != EventField(e) :: r.1[f] == errors[f]
  {
    var form' := match e
      case CheckboxInput(checked) => form.(available := Some(checked))
      case TextInput(field, value) =>
        match field
        case Title => form.(title := value)
        case Author => form.(author := value)
        case Isbn => form.(isbn := value)
        case Category => form.(category := value)
        case Available => form;
    var name := EventField(e);
    var errors' := if name in errors && errors[name] != "" then errors[name := ""] else errors;
    (form', errors')
  }

  /** Every ISBN the form accepts keeps exactly 13 digits once non-digits are
      deleted, so it also passes the server's ISBN checks in `validateBook`. */
  lemma {:induction false} FormIsbnPassesServer(isbn: string)
    requires IsbnPattern(isbn)
    ensures BookCatalogue.IsbnDigitCount(isbn) == 13
    ensures !BookCatalogue.Blank(Some(isbn))
  {
    assert IsDigit(isbn[0]);
    if |isbn| == 14 {
      assert isbn == isbn[..3] + [isbn[3]] + isbn[4..];
      DigitsOnlyAppend(isbn[..3] + [isbn[3]], isbn[4..]);
      DigitsOnlyAppend(isbn[..3], [isbn[3]]);
      assert DigitsOnly([isbn[3]]) == [];
    }
  }

  /** A form the dashboard accepts, with a title and author that Java's
      `trim()` does not empty, passes `validateBook` on the server. */
  lemma FormBookPassesServer(form: FormData, available: bool)
    requires FormValid(form)
    requires !BookCatalogue.Blank(Some(form.title)) && !BookCatalogue.Blank(Some(form.author))
    ensures BookCatalogue.ValidateBook(BookCatalogue.Book(None, Some(form.title), Some(form.author), Some(form.isbn), Some(form.category), available)).Pass?
  {
    FormIsbnPassesServer(form.isbn);
  }

  /** The two sides disagree on blankness: a title made of a control
      character passes the form but `validateBook` rejects it. */
  lemma ControlCharacterTitle(form: FormData, available: bool)
    requires FormValid(form) && form.title == "\U{1}"
    ensures BookCatalogue.ValidateBook(BookCatalogue.Book(None, Some(form.title), Some(form.author), Some(form.isbn), Some(form.category), available))
      == Fail(BookCatalogue.TitleRequired)
  {
  }
}
