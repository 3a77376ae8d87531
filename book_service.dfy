/**
 * BookService (service/BookService.java) over the book table. The Book entity
 * is a plain JPA record (id, title, author, isbn, category, available); the
 * service fetches a row, changes it with setters and saves it back, which the
 * model states as replacing the row's value in the table.
 */
module BookCatalogue {
  import opened Wrappers
  import opened Text
  import opened Seqs

  /** A book row; text columns may be absent (Java `null`) in request bodies. */
  datatype Book = Book(
    id: Option<int>,
    title: Option<string>,
    author: Option<string>,
    isbn: Option<string>,
    category: Option<string>,
    available: bool)

  /** Every exception BookService throws; all are IllegalArgumentException
      except `AlreadyLoaned`, which is IllegalStateException. */
  datatype BookError =
    | BookNotFound
    | IsbnTaken(isbn: string)
    | TitleRequired
    | AuthorRequired
    | IsbnRequired
    | IsbnLength
    | AlreadyLoaned

  /** `getBookStatistics`: `loanedBooks` is computed as total minus available. */
  datatype BookStats = BookStats(totalBooks: nat, availableBooks: nat, loanedBooks: int, booksByCategory: map<Option<string>, nat>)

  /** A null or whitespace-only text field: every character is one that
      Java's `trim()` strips. */
  predicate Blank(s: Option<string>) {
    s.None? || forall i | 0 <= i < |s.value| :: JavaTrimmable(s.value[i])
  }

  /** `Blank` is the source's `s == null || s.trim().isEmpty()`. */
  lemma BlankIsTrimEmpty(s: Option<string>)
    ensures Blank(s) <==> s.None? || JavaTrim(s.value) == []
  {
    if s.Some? {
      TrimEmptyIff(s.value, JavaTrimmable);
    }
  }

  /** Number of digits an ISBN keeps once every non-digit is deleted. */
  function IsbnDigitCount(isbn: string): nat {
    |DigitsOnly(isbn)|
  }

  /** `validateBook`: title, author and ISBN must be present and not blank, in
      that order, and the ISBN must keep 10 or 13 digits once every non-digit is
      deleted (a length check only; check digits are not verified). */
  function ValidateBook(b: Book): (r: Outcome<BookError>)
    ensures r.Pass? <==>
      && !Blank(b.title) && !Blank(b.author) && !Blank(b.isbn)
      && (IsbnDigitCount(b.isbn.value) == 10 || IsbnDigitCount(b.isbn.value) == 13)
    ensures r == Fail(TitleRequired) <==> Blank(b.title)
    ensures r == Fail(AuthorRequired) <==> !Blank(b.title) && Blank(b.author)
    ensures r == Fail(IsbnRequired) <==> !Blank(b.title) && !Blank(b.author) && Blank(b.isbn)
    ensures r.Fail? ==> r.error in {TitleRequired, AuthorRequired, IsbnRequired, IsbnLength}
  {
    if Blank(b.title) then Fail(TitleRequired)
    else if Blank(b.author) then Fail(AuthorRequired)
    else if Blank(b.isbn) then Fail(IsbnRequired)
    else if IsbnDigitCount(b.isbn.value) != 10 && IsbnDigitCount(b.isbn.value) != 13 then Fail(IsbnLength)
    else Pass
  }

  /** Only the digits of an ISBN matter to validation: separators are free. */
  lemma IsbnSeparatorsIgnored(b: Book, left: string, right: string, sep: string)
    requires ValidateBook(b).Pass? && b.isbn.value == left + right
    requires forall i | 0 <= i < |sep| :: !IsDigit(sep[i])
    ensures ValidateBook(b.(isbn := Some(left + sep + right))).Pass?
  {
    DigitsOnlyAppend(left + sep, right);
    DigitsOnlyAppend(left, sep);
    DigitsOnlyAppend(left, right);
    assert DigitsOnly(sep) == [] by { NoDigits(sep); }
    var w := left + right;
    var s := left + sep + right;
    var i :| 0 <= i < |w| && !JavaTrimmable(w[i]);
    if i < |left| {
      assert s[i] == w[i];
    } else {
      assert s[i + |sep|] == w[i];
    }
  }

  lemma {:induction false} NoDigits(s: string)
    requires forall i | 0 <= i < |s| :: !IsDigit(s[i])
    ensures DigitsOnly(s) == []
  {
    if s != [] {
      NoDigits(s[1..]);
    }
  }

  /** The `searchBooks` query without LIKE wildcards: title or author contains
      the term ignoring case, or the ISBN contains it as written. */
  predicate MatchesSearch(b: Book, term: string) {
    || (b.title.Some? && Includes(ToLower(b.title.value), ToLower(term)))
    || (b.author.Some? && Includes(ToLower(b.author.value), ToLower(term)))
    || (b.isbn.Some? && Includes(b.isbn.value, term))
  }

  class BookService {
    var books: map<int, Book>
    var nextId: int

    /** Rows carry their key as id, ids come from a counter, every row passed
        `validateBook`, and no two rows share an ISBN string. */
    ghost predicate Valid()
      reads this
    {
      && (forall k | k in books :: books[k].id == Some(k) && k < nextId && ValidateBook(books[k]).Pass?)
      && (forall k, j | k in books && j in books && books[k].isbn == books[j].isbn :: k == j)
    }

    constructor ()
      ensures Valid() && books == map[]
    {
      books := map[];
      nextId := 1;
    }

    /** `existsByIsbn`: exact string match; a null ISBN matches no row. */
    predicate ExistsByIsbn(isbn: Option<string>)
      reads this
    {
      isbn.Some? && exists k | k in books :: books[k].isbn == isbn
    }

    /** `createBook`: validation first, then the duplicate check; the stored row
        gets the next id. */
    method CreateBook(book: Book) returns (r: Result<Book, BookError>)
      requires Valid()
      modifies this
      ensures Valid()
      ensures r.Err? <==> ValidateBook(book).Fail? || old(ExistsByIsbn(book.isbn))
      ensures ValidateBook(book).Fail? ==> r == Err(ValidateBook(book).error)
      ensures ValidateBook(book).Pass? && old(ExistsByIsbn(book.isbn)) ==> r == Err(IsbnTaken(book.isbn.value))
      ensures r.Err? ==> unchanged(this)
      ensures r.Ok? ==> r.value == book.(id := Some(old(nextId))) && books == old(books)[old(nextId) := r.value]
      ensures r.Ok? ==> old(nextId) !in old(books) && |books| == |old(books)| + 1
    {
      var valid := ValidateBook(book);
      if valid.Fail? {
        return Err(valid.error);
      }
      if ExistsByIsbn(book.isbn) {
        return Err(IsbnTaken(book.isbn.value));
      }
      var stored := book.(id := Some(nextId));
      books := books[nextId := stored];
      nextId := nextId + 1;
      r := Ok(stored);
    }

    /** `updateBook`: an unknown id throws; a changed ISBN held by another row
        throws before validation runs; an unchanged ISBN skips that check. */
    method UpdateBook(id: int, data: Book) returns (r: Result<Book, BookError>)
      requires Valid()
      modifies this
      ensures Valid()
      ensures id !in old(books) ==> r == Err(BookNotFound)
      ensures id in old(books) && old(books)[id].isbn != data.isbn && old(ExistsByIsbn(data.isbn)) ==>
        r == Err(IsbnTaken(data.isbn.value))
      ensures id in old(books) && (old(books)[id].isbn == data.isbn || !old(ExistsByIsbn(data.isbn))) ==>
        r == if ValidateBook(data).Fail? then Err(ValidateBook(data).error) else Ok(data.(id := Some(id)))
      ensures r.Err? ==> unchanged(this)
      ensures r.Ok? ==> books == old(books)[id := r.value] && nextId == old(nextId)
    {
      if id !in books {
        return Err(BookNotFound);
      }
      var existing := books[id];
      if existing.isbn != data.isbn && ExistsByIsbn(data.isbn) {
        return Err(IsbnTaken(data.isbn.value));
      }
      var valid := ValidateBook(data);
      if valid.Fail? {
        return Err(valid.error);
      }
      var updated := existing.(title := data.title, author := data.author, isbn := data.isbn,
                               category := data.category, available := data.available);
      books := books[id := updated];
      r := Ok(updated);
    }

    /** `deleteBook`: removes exactly the named row. */
    method DeleteBook(id: int) returns (r: Outcome<BookError>)
      requires Valid()
      modifies this
      ensures Valid()
      ensures r.Fail? <==> id !in old(books)
      ensures r.Fail? ==> r.error == BookNotFound && unchanged(this)
      ensures r.Pass? ==> books == old(books) - {id} && |books| == |old(books)| - 1
    {
      if id !in books {
        return Fail(BookNotFound);
      }
      books := books - {id};
      r := Pass;
    }

    /** `markAsLoaned`: an unknown id is IllegalArgumentException, a book already
        out is IllegalStateException; otherwise only `available` changes. */
    method MarkAsLoaned(id: int) returns (r: Outcome<BookError>)
      requires Valid()
      modifies this
      ensures Valid()
      ensures id !in old(books) ==> r == Fail(BookNotFound)
      ensures id in old(books) && !old(books)[id].available ==> r == Fail(AlreadyLoaned)
      ensures r.Fail? ==> unchanged(this)
      ensures r.Pass? <==> id in old(books) && old(books)[id].available
      ensures r.Pass? ==> books == old(books)[id := old(books)[id].(available := false)]
    {
      if id !in books {
        return Fail(BookNotFound);
      }
      if !books[id].available {
        return Fail(AlreadyLoaned);
      }
      books := books[id := books[id].(available := false)];
      r := Pass;
    }

    /** `markAsAvailable`: unconditional, so calling it twice equals calling it once. */
    method MarkAsAvailable(id: int) returns (r: Outcome<BookError>)
      requires Valid()
      modifies this
      ensures Valid()
      ensures r.Fail? <==> id !in old(books)
      ensures r.Fail? ==> r.error == BookNotFound && unchanged(this)
      ensures r.Pass? ==> books == old(books)[id := old(books)[id].(available := true)]
      ensures r.Pass? && old(books)[id].available ==> books == old(books)
    {
      if id !in books {
        return Fail(BookNotFound);
      }
      books := books[id := books[id].(available := true)];
      r := Pass;
    }

    /** `searchBooks`: a null or blank term lists every row; otherwise the query
        runs on the trimmed term. */
    function SearchBooks(search: Option<string>): (r: set<int>)
      reads this
      ensures r <= books.Keys
      ensures Blank(search) ==> r == books.Keys
      ensures !Blank(search) ==> forall k | k in books :: k in r <==> MatchesSearch(books[k], JavaTrim(search.value))
    {
      if Blank(search) then books.Keys
      else set k | k in books && MatchesSearch(books[k], JavaTrim(search.value))
    }

    /** Surrounding whitespace in the search box does not change the result. */
    lemma SearchIgnoresSurroundingSpace(search: string)
      ensures SearchBooks(Some(search)) == SearchBooks(Some(JavaTrim(search)))
    {
      TrimIdempotent(search, JavaTrimmable);
      BlankIsTrimEmpty(Some(search));
      BlankIsTrimEmpty(Some(JavaTrim(search)));
    }

    function AvailableIds(): set<int>
      reads this
    {
      set k | k in books && books[k].available
    }

    /** Rows grouped by category, as `getBookCountByCategory` returns them. */
    function CategoryIds(c: Option<string>): set<int>
      reads this
    {
      set k | k in books && books[k].category == c
    }

    /** `getBookStatistics`. */
    function GetBookStatistics(): (s: BookStats)
      reads this
      ensures s.totalBooks == |books| && s.availableBooks <= s.totalBooks && s.loanedBooks >= 0
      ensures s.booksByCategory.Keys == set k | k in books :: books[k].category
      ensures forall c | c in s.booksByCategory :: 1 <= s.booksByCategory[c] <= s.totalBooks
      ensures s.availableBooks == |AvailableIds()| && s.loanedBooks == s.totalBooks - s.availableBooks
      ensures forall c | c in s.booksByCategory :: s.booksByCategory[c] == |CategoryIds(c)|
    {
      assert books.Keys == AvailableIds() + (books.Keys - AvailableIds());
      var categories := set k | k in books :: books[k].category;
      var byCategory := map c | c in categories :: |CategoryIds(c)|;
      assert forall c | c in categories :: 1 <= |CategoryIds(c)| <= |books| by {
        forall c | c in categories
          ensures 1 <= |CategoryIds(c)| <= |books|
        {
          var k :| k in books && books[k].category == c;
          assert k in CategoryIds(c);
          assert books.Keys == CategoryIds(c) + (books.Keys - CategoryIds(c));
        }
      }
      BookStats(|books|, |AvailableIds()|, |books| - |AvailableIds()|, byCategory)
    }

    /** The subtraction in `getBookStatistics` is the number of books out on loan. */
    lemma LoanedIsCounted()
      ensures GetBookStatistics().loanedBooks == |set k | k in books && !books[k].available|
    {
      var loaned := set k | k in books && !books[k].available;
      assert books.Keys == AvailableIds() + loaned;
      assert AvailableIds() * loaned == {};
    }

    /** `getRecentBooks`: the first `limit` rows of the table as the database
        lists it newest first (`listing`); a negative limit throws. */
    function GetRecentBooks(listing: seq<Book>, limit: int): (r: Option<seq<Book>>)
      reads this
      requires forall i | 0 <= i < |listing| :: listing[i] in books.Values
      ensures r.None? <==> limit < 0
      ensures r.Some? ==> |r.value| <= limit && |r.value| <= |listing| && r.value == listing[..|r.value|]
      ensures r.Some? ==> |r.value| == if limit <= |listing| then limit else |listing|
      ensures r.Some? ==> forall i | 0 <= i < |r.value| :: r.value[i] in books.Values
    {
      Limit(listing, limit)
    }
  }
}
