/**
 * The books page of the dashboard (pages/Books.js): the search and status
 * filter over the fetched list, the local list updates after a delete, an
 * edit or a create, and the four stat cards.
 */
module BooksPage {
  import opened Wrappers
  import opened Text
  import opened Seqs

  /** A book as the API returns it to the page. */
  datatype BookView = BookView(id: int, title: string, author: string, isbn: string, category: Option<string>, available: bool)

  /** The text filter: title or author contains the term ignoring case, or the
      ISBN contains it as typed. */
  predicate MatchesTerm(b: BookView, term: string) {
    || Includes(ToLower(b.title), ToLower(term))
    || Includes(ToLower(b.author), ToLower(term))
    || Includes(b.isbn, term)
  }

  /** The status filter: 'all' keeps everything, 'available' the available
      books, and any other value the unavailable ones. */
  predicate MatchesStatus(b: BookView, status: string) {
    status == "all" || (if status == "available" then b.available else !b.available)
  }

  /** The filter effect: the text filter runs only for a non-blank term, then
      the status filter unless it is 'all'. */
  function FilterBooks(books: seq<BookView>, searchTerm: string, filterStatus: string): (r: seq<BookView>)
    ensures forall i | 0 <= i < |r| ::
      && r[i] in books
      && (JsBlank(searchTerm) || MatchesTerm(r[i], searchTerm))
      && MatchesStatus(r[i], filterStatus)
    ensures forall i | 0 <= i < |books| ::
      (JsBlank(searchTerm) || MatchesTerm(books[i], searchTerm)) && MatchesStatus(books[i], filterStatus) ==> books[i] in r
    ensures JsBlank(searchTerm) && filterStatus == "all" ==> r == books
    ensures forall b | b in books ::
      multiset(r)[b] == if (JsBlank(searchTerm) || MatchesTerm(b, searchTerm)) && MatchesStatus(b, filterStatus) then multiset(books)[b] else 0
  {
    var afterSearch := if !JsBlank(searchTerm) then Filter(books, (b: BookView) => MatchesTerm(b, searchTerm)) else books;
    FilterMultiplicity(books, (b: BookView) => MatchesTerm(b, searchTerm));
    FilterMultiplicity(afterSearch, (b: BookView) => MatchesStatus(b, filterStatus));
    if filterStatus != "all" then Filter(afterSearch, (b: BookView) => MatchesStatus(b, filterStatus)) else afterSearch
  }

  /** The filtered list keeps the page's order. */
  lemma FilterBooksKeepsOrder(books: seq<BookView>, searchTerm: string, filterStatus: string)
    ensures IsSubsequence(FilterBooks(books, searchTerm, filterStatus), books)
  {
    var afterSearch := if !JsBlank(searchTerm) then Filter(books, (b: BookView) => MatchesTerm(b, searchTerm)) else books;
    if !JsBlank(searchTerm) {
      FilterIsSubsequence(books, (b: BookView) => MatchesTerm(b, searchTerm));
    } else {
      SubsequenceReflexive(books);
    }
    if filterStatus != "all" {
      FilterIsSubsequence(afterSearch, (b: BookView) => MatchesStatus(b, filterStatus));
      SubsequenceTransitive(FilterBooks(books, searchTerm, filterStatus), afterSearch, books);
    }
  }

  /** After a delete: every entry with that id goes, the rest stay in order. */
  function RemoveBook(books: seq<BookView>, id: int): (r: seq<BookView>)
    ensures forall i | 0 <= i < |r| :: r[i].id != id && r[i] in books
    ensures forall i | 0 <= i < |books| && books[i].id != id :: books[i] in r
  {
    Filter(books, (b: BookView) => b.id != id)
  }

  /** A delete shortens the list by the number of entries with that id. */
  lemma RemoveBookCount(books: seq<BookView>, id: int)
    ensures |RemoveBook(books, id)| == |books| - Count(books, (b: BookView) => b.id == id)
    ensures IsSubsequence(RemoveBook(books, id), books)
  {
    CountSplit(books, (b: BookView) => b.id == id, (b: BookView) => b.id != id);
    FilterIsSubsequence(books, (b: BookView) => b.id != id);
  }

  /** After an edit: the entry with the edited id becomes the server's copy;
      every other entry and the order are unchanged. */
  function ReplaceBook(books: seq<BookView>, id: int, updated: BookView): (r: seq<BookView>)
    ensures |r| == |books|
    ensures forall i | 0 <= i < |books| :: r[i] == if books[i].id == id then updated else books[i]
  {
    Map(books, (b: BookView) => if b.id == id then updated else b)
  }

  /** After a create: the new book goes first. */
  function PrependBook(books: seq<BookView>, created: BookView): (r: seq<BookView>)
    ensures |r| == |books| + 1 && r[0] == created && r[1..] == books
  {
    [created] + books
  }

  /** Deleting a book just created restores the list, when its id was new. */
  lemma {:induction false} DeleteUndoesCreate(books: seq<BookView>, created: BookView)
    requires forall i | 0 <= i < |books| :: books[i].id != created.id
    ensures RemoveBook(PrependBook(books, created), created.id) == books
  {
    assert PrependBook(books, created)[1..] == books;
    KeepAll(books, created.id);
  }

  lemma {:induction false} KeepAll(books: seq<BookView>, id: int)
    requires forall i | 0 <= i < |books| :: books[i].id != id
    ensures Filter(books, (b: BookView) => b.id != id) == books
  {
    if books != [] {
      KeepAll(books[1..], id);
      assert books == [books[0]] + books[1..];
    }
  }

  /** The available and loaned stat cards. */
  function AvailableCount(books: seq<BookView>): nat {
    Count(books, (b: BookView) => b.available)
  }

  function LoanedCount(books: seq<BookView>): nat {
    Count(books, (b: BookView) => !b.available)
  }

  /** `new Set(books.map(book => book.category)).size`. */
  function CategoryCount(books: seq<BookView>): nat {
    |Elements(Map(books, (b: BookView) => b.category))|
  }

  /** The stat cards: available plus loaned is the total, and the number of
      categories is at most the total and at least one for a non-empty list. */
  lemma StatCards(books: seq<BookView>)
    ensures AvailableCount(books) + LoanedCount(books) == |books|
    ensures CategoryCount(books) <= |books|
    ensures books != [] ==> CategoryCount(books) >= 1
  {
    CountSplit(books, (b: BookView) => b.available, (b: BookView) => !b.available);
    ElementsBound(Map(books, (b: BookView) => b.category));
  }
}
