/** public/js/books.js: the books page loads every book once, turns each
    record into a `Book` with display defaults, draws one card per book, and
    filters the loaded list as the search box changes or from a `search`
    URL parameter. The page's `allBooks` variable, the search box and the
    grid container are the fields of `BooksPage`. */
module BooksClient {
  import opened Wrappers
  import opened Store
  import opened Html
  import opened Text

  /** A stored book; the schema requires no field, so each may be absent. */
  datatype BookFields = BookFields(
    title: Option<string>, description: Option<string>, coverUrl: Option<string>,
    author: Option<string>, subject: Option<string>, downloadUrl: Option<string>)

  /** The page's `Book` object. */
  datatype Book = Book(
    id: nat, title: Option<string>, description: string, coverUrl: string,
    author: string, subject: string, downloadUrl: Option<string>)

  const NoDescription: string := "No description available."
  const NoCover: string := "https://via.placeholder.com/150x220?text=No+Cover"
  const UnknownAuthor: string := "Unknown Author"
  const GeneralSubject: string := "General"

  /** JavaScript truthiness of a string field: present and not empty. */
  predicate Truthy(v: Option<string>)
  {
    v.Some? && v.value != ""
  }

  /** `v || fallback` for a string field. */
  function OrDefault(v: Option<string>, fallback: string): (r: string)
    ensures Truthy(v) ==> r == v.value
    ensures !Truthy(v) ==> r == fallback
    ensures fallback != "" ==> r != ""
  {
    if Truthy(v) then v.value else fallback
  }

  /** `new Book(record)`: a missing or empty description, cover, author or
      subject is replaced by its default; identifier, title and download link
      are taken as they are. */
  function NewBook(record: Doc<BookFields>): (b: Book)
    ensures b.id == record.id
    ensures b.title == record.fields.title && b.downloadUrl == record.fields.downloadUrl
    ensures b.description == if Truthy(record.fields.description) then record.fields.description.value else NoDescription
    ensures b.coverUrl == if Truthy(record.fields.coverUrl) then record.fields.coverUrl.value else NoCover
    ensures b.author == if Truthy(record.fields.author) then record.fields.author.value else UnknownAuthor
    ensures b.subject == if Truthy(record.fields.subject) then record.fields.subject.value else GeneralSubject
    ensures b.description != "" && b.coverUrl != "" && b.author != "" && b.subject != ""
  {
    var f := record.fields;
    Book(record.id, f.title, OrDefault(f.description, NoDescription), OrDefault(f.coverUrl, NoCover),
         OrDefault(f.author, UnknownAuthor), OrDefault(f.subject, GeneralSubject), f.downloadUrl)
  }

  /** `bookData.map(item => new Book(item))`. */
  function NewBooks(records: seq<Doc<BookFields>>): seq<Book>
  {
    seq(|records|, i requires 0 <= i < |records| => NewBook(records[i]))
  }

  // ---------------------------------------------------------------------------
  // Cards

  /** A rendered card: the escaped texts, the escaped download link when there
      is one, and the identifier its delete form posts to. */
  datatype BookCard = BookCard(
    coverUrl: string, title: string, description: string, author: string, subject: string,
    download: Option<string>, deleteId: nat)

  /** `String(title)`: an absent title shows as "undefined". */
  function TitleText(title: Option<string>): string
  {
    if title.Some? then title.value else "undefined"
  }

  predicate CardSafe(c: BookCard)
  {
    && HtmlSafe(c.coverUrl) && HtmlSafe(c.title) && HtmlSafe(c.description)
    && HtmlSafe(c.author) && HtmlSafe(c.subject)
    && (c.download.Some? ==> HtmlSafe(c.download.value))
  }

  /** `getCardHTML()`: the Download link is there exactly when `downloadUrl`
      is a non-empty string; every text is escaped and reads back as the
      book's own value. */
  function Card(b: Book): (c: BookCard)
    ensures c.download.Some? <==> Truthy(b.downloadUrl)
    ensures c.download.Some? ==> Unescape(c.download.value) == b.downloadUrl.value
    ensures CardSafe(c)
    ensures c.deleteId == b.id
    ensures Unescape(c.title) == TitleText(b.title) && Unescape(c.description) == b.description
    ensures Unescape(c.coverUrl) == b.coverUrl
    ensures Unescape(c.author) == b.author && Unescape(c.subject) == b.subject
  {
    EscapeHtmlSafe(b.coverUrl);
    EscapeHtmlSafe(TitleText(b.title));
    EscapeHtmlSafe(b.description);
    EscapeHtmlSafe(b.author);
    EscapeHtmlSafe(b.subject);
    EscapeHtmlRoundTrip(b.coverUrl);
    EscapeHtmlRoundTrip(TitleText(b.title));
    EscapeHtmlRoundTrip(b.description);
    EscapeHtmlRoundTrip(b.author);
    EscapeHtmlRoundTrip(b.subject);
    var download :=
      if Truthy(b.downloadUrl) then
        EscapeHtmlSafe(b.downloadUrl.value);
        EscapeHtmlRoundTrip(b.downloadUrl.value);
        Some(EscapeHtml(b.downloadUrl.value))
      else None;
    BookCard(EscapeHtml(b.coverUrl), EscapeHtml(TitleText(b.title)), EscapeHtml(b.description),
             EscapeHtml(b.author), EscapeHtml(b.subject), download, b.id)
  }

  /** A record with only a title is shown with the four defaults and without
      a Download link. */
  lemma OnlyTitleCard(id: nat, title: string)
    ensures var c := Card(NewBook(Doc(id, BookFields(Some(title), None, None, None, None, None))));
      && Unescape(c.description) == NoDescription && Unescape(c.coverUrl) == NoCover
      && Unescape(c.author) == UnknownAuthor && Unescape(c.subject) == GeneralSubject
      && c.download == None
  {
  }

  // ---------------------------------------------------------------------------
  // Search

  /** The filter predicate, `term` already lowercased: the term occurs in the
      lowercased title, author or subject. */
  predicate Matches(b: Book, term: string)
    requires b.title.Some?
  {
    || Includes(Lower(b.title.value), term)
    || Includes(Lower(b.author), term)
    || Includes(Lower(b.subject), term)
  }

  predicate AllTitled(books: seq<Book>)
  {
    forall b :: b in books ==> b.title.Some?
  }

  /** `books.filter(...)`: the matching books, each as often as it occurs. */
  function Filter(books: seq<Book>, term: string): (r: seq<Book>)
    requires AllTitled(books)
    ensures forall b :: b in r <==> b in books && Matches(b, term)
    ensures forall b :: multiset(r)[b] == if b in books && Matches(b, term) then multiset(books)[b] else 0
  {
    if books == [] then []
    else
      assert books == [books[0]] + books[1..];
      assert forall b :: b in books[1..] ==> b in books;
      if Matches(books[0], term) then [books[0]] + Filter(books[1..], term)
      else Filter(books[1..], term)
  }

  /** `xs` sits in `ys` at the strictly increasing positions `idx`. */
  ghost predicate Embeds<T>(idx: seq<int>, xs: seq<T>, ys: seq<T>)
  {
    && |idx| == |xs|
    && (forall i :: 0 <= i < |idx| ==> 0 <= idx[i] < |ys| && xs[i] == ys[idx[i]])
    && (forall i, j :: 0 <= i < j < |idx| ==> idx[i] < idx[j])
  }

  /** `xs` is `ys` with some elements left out, the rest in their order. */
  ghost predicate SubsequenceOf<T>(xs: seq<T>, ys: seq<T>)
  {
    exists idx :: Embeds(idx, xs, ys)
  }

  function Shift(idx: seq<int>): (r: seq<int>)
    ensures |r| == |idx| && forall i :: 0 <= i < |idx| ==> r[i] == idx[i] + 1
  {
    seq(|idx|, i requires 0 <= i < |idx| => idx[i] + 1)
  }

  /** Skipping the head of `ys` keeps an embedding, one position later. */
  lemma EmbedsSkip<T>(idx: seq<int>, xs: seq<T>, y: T, ys: seq<T>)
    requires Embeds(idx, xs, ys)
    ensures Embeds(Shift(idx), xs, [y] + ys)
  {
    var zs := [y] + ys;
    forall i | 0 <= i < |idx| ensures 0 <= Shift(idx)[i] < |zs| && xs[i] == zs[Shift(idx)[i]] {
      assert zs[idx[i] + 1] == ys[idx[i]];
    }
  }

  /** Keeping the head of `ys` extends an embedding at position 0. */
  lemma EmbedsKeep<T>(idx: seq<int>, xs: seq<T>, y: T, ys: seq<T>)
    requires Embeds(idx, xs, ys)
    ensures Embeds([0] + Shift(idx), [y] + xs, [y] + ys)
  {
    EmbedsSkip(idx, xs, y, ys);
    var idx2, xs2, zs := [0] + Shift(idx), [y] + xs, [y] + ys;
    forall i | 1 <= i < |idx2| ensures idx2[i] == Shift(idx)[i - 1] && xs2[i] == xs[i - 1] {}
    forall i, j | 0 <= i < j < |idx2| ensures idx2[i] < idx2[j] {
      if i > 0 {
        assert idx2[i] == Shift(idx)[i - 1] && idx2[j] == Shift(idx)[j - 1];
      }
    }
  }

  lemma {:induction false} FilterSubsequence(books: seq<Book>, term: string)
    requires AllTitled(books)
    ensures SubsequenceOf(Filter(books, term), books)
  {
    if books == [] {
      assert Embeds([], Filter(books, term), books);
    } else {
      var rest := books[1..];
      assert books == [books[0]] + rest;
      assert forall b :: b in rest ==> b in books;
      FilterSubsequence(rest, term);
      var r' := Filter(rest, term);
      var idx :| Embeds(idx, r', rest);
      if Matches(books[0], term) {
        EmbedsKeep(idx, r', books[0], rest);
      } else {
        EmbedsSkip(idx, r', books[0], rest);
      }
    }
  }

  /** Why a search could not run. */
  datatype SearchError =
    | TitleUndefined  // `book.title.toLowerCase()` on a book without a title throws a TypeError

  /** The search the page runs for the text `value` of the search box. The
      predicate reads every book's title first, so a single book without a
      title makes the whole filter throw. */
  function Search(books: seq<Book>, value: string): (r: Result<seq<Book>, SearchError>)
    ensures r.Failure? <==> exists b :: b in books && b.title.None?
  {
    if exists b :: b in books && b.title.None? then Failure(TitleUndefined)
    else Success(Filter(books, Lower(value)))
  }

  /** A book is in the result exactly when the lowercased search text occurs
      in its lowercased title, author or subject; the result is the loaded
      list with the other books left out, in the same order, none added or
      repeated. */
  lemma SearchResult(books: seq<Book>, value: string)
    requires AllTitled(books)
    ensures Search(books, value).Success?
    ensures var r := Search(books, value).value;
      && (forall b :: b in r <==> b in books && Matches(b, Lower(value)))
      && SubsequenceOf(r, books)
      && multiset(r) <= multiset(books)
  {
    var r := Filter(books, Lower(value));
    FilterSubsequence(books, Lower(value));
    assert forall b :: multiset(r)[b] <= multiset(books)[b];
  }

  lemma {:induction false} FilterAllMatch(books: seq<Book>, term: string)
    requires AllTitled(books)
    requires forall b :: b in books ==> Matches(b, term)
    ensures Filter(books, term) == books
  {
    if books != [] {
      assert books[0] in books;
      assert forall b :: b in books[1..] ==> b in books;
      FilterAllMatch(books[1..], term);
    }
  }

  /** An empty search box shows every loaded book. */
  lemma EmptySearchKeepsAll(books: seq<Book>)
    requires AllTitled(books)
    ensures Search(books, "") == Success(books)
  {
    forall b | b in books ensures Matches(b, Lower("")) {
      IncludesEmpty(Lower(b.title.value));
    }
    FilterAllMatch(books, Lower(""));
  }

  lemma LowerIdempotent(s: string)
    ensures Lower(Lower(s)) == Lower(s)
  {
    var l := Lower(s);
    assert forall i :: 0 <= i < |l| ==> Lower(l)[i] == l[i];
  }

  /** Letter case in the search box does not matter: the text and its
      lowercase form select the same books. */
  lemma SearchIgnoresCase(books: seq<Book>, value: string)
    ensures Search(books, value) == Search(books, Lower(value))
  {
    LowerIdempotent(value);
  }

  // ---------------------------------------------------------------------------
  // The grid

  /** What the grid container can hold. */
  datatype GridItem = CardItem(card: BookCard) | NoBooksFound(shownTerm: string) | LoadFailed

  /** The "No books found" panel as books.js:74 builds it: the search box's
      text goes into the markup as it is. */
  function NoBooksFoundAsWritten(inputValue: string): GridItem
  {
    NoBooksFound(inputValue)
  }

  /** Markup typed into the search box, or passed as `?search=`, reaches the
      page unescaped through that panel. */
  lemma NoBooksFoundAsWrittenInjects()
    ensures !HtmlSafe(NoBooksFoundAsWritten("<img src=x onerror=alert(1)>").shownTerm)
  {
    assert NoBooksFoundAsWritten("<img src=x onerror=alert(1)>").shownTerm[0] == '<';
  }

  /** The panel with the search text escaped like every other text on the
      page: safe, and it still shows exactly what was typed. */
  function NoBooksFoundPanel(inputValue: string): (g: GridItem)
    ensures g.NoBooksFound? && HtmlSafe(g.shownTerm) && Unescape(g.shownTerm) == inputValue
  {
    EscapeHtmlSafe(inputValue);
    EscapeHtmlRoundTrip(inputValue);
    NoBooksFound(EscapeHtml(inputValue))
  }

  function CardItems(books: seq<Book>): seq<GridItem>
  {
    seq(|books|, i requires 0 <= i < |books| => CardItem(Card(books[i])))
  }
  lemma CardItemsSnoc(books: seq<Book>, i: nat)
    requires i < |books|
    ensures CardItems(books[..i + 1]) == CardItems(books[..i]) + [CardItem(Card(books[i]))]
  {
    assert books[..i + 1][i] == books[i];
  }


  /** What `renderBooks(books)` leaves in the grid, given the search box's
      text: the panel for an empty list, otherwise one card per book. */
  function Grid(books: seq<Book>, inputValue: string): seq<GridItem>
  {
    if |books| == 0 then [NoBooksFoundPanel(inputValue)] else CardItems(books)
  }

  predicate ItemSafe(g: GridItem)
  {
    match g
    case CardItem(c) => CardSafe(c)
    case NoBooksFound(t) => HtmlSafe(t)
    case LoadFailed => true
  }

  /** Nothing the grid shows carries raw markup from the data or the search box. */
  lemma GridSafe(books: seq<Book>, inputValue: string)
    ensures forall g :: g in Grid(books, inputValue) ==> ItemSafe(g)
  {
  }

  /** The books page. */
  class BooksPage {
    var allBooks: seq<Book>
    var inputValue: string
    var grid: seq<GridItem>

    constructor ()
      ensures allBooks == [] && inputValue == "" && grid == []
    {
      allBooks := [];
      inputValue := "";
      grid := [];
    }

    /** `renderBooks`: clears the grid, then the panel or one card per book. */
    method RenderBooks(books: seq<Book>)
      modifies this`grid
      ensures grid == Grid(books, inputValue)
    {
      grid := [];
      if |books| == 0 {
        grid := [NoBooksFoundPanel(inputValue)];
        return;
      }
      for i := 0 to |books|
        invariant grid == CardItems(books[..i])
      {
        CardItemsSnoc(books, i);
        grid := grid + [CardItem(Card(books[i]))];
      }
      assert books[..|books|] == books;
    }

    /** The initial load, once the request has settled: `response` is the
        array of records, or `None` for a failed request, an error status or
        a body that is not JSON (the grid then shows the failure message and
        the loaded list stays as it was). */
    method Load(response: Option<seq<Doc<BookFields>>>)
      modifies this`allBooks, this`grid
      ensures response.Some? ==> allBooks == NewBooks(response.value) && grid == Grid(allBooks, inputValue)
      ensures response.None? ==> allBooks == old(allBooks) && grid == [LoadFailed]
    {
      if response.None? {
        grid := [LoadFailed];
        return;
      }
      allBooks := NewBooks(response.value);
      RenderBooks(allBooks);
    }

    /** Filter the loaded list and draw the result; when the filter throws
        the grid is left as it was. */
    method ApplySearch(value: string)
      modifies this`grid
      ensures Search(allBooks, value).Success? ==> grid == Grid(Search(allBooks, value).value, inputValue)
      ensures Search(allBooks, value).Failure? ==> grid == old(grid)
    {
      var r := Search(allBooks, value);
      if r.Success? {
        RenderBooks(r.value);
      }
    }

    /** The `input` listener: the box already holds the typed text. */
    method OnInput(value: string)
      modifies this`inputValue, this`grid
      ensures inputValue == value
      ensures Search(allBooks, value).Success? ==> grid == Grid(Search(allBooks, value).value, value)
      ensures Search(allBooks, value).Failure? ==> grid == old(grid)
    {
      inputValue := value;
      ApplySearch(value);
    }

    /** The `search` URL parameter (`None` when absent): a non-empty value is
        put in the box and filtered with the same predicate as typing it. */
    method AutoSearch(searchParam: Option<string>)
      modifies this`inputValue, this`grid
      ensures !Truthy(searchParam) ==> inputValue == old(inputValue) && grid == old(grid)
      ensures Truthy(searchParam) ==> inputValue == searchParam.value
      ensures Truthy(searchParam) && Search(allBooks, searchParam.value).Success? ==>
        grid == Grid(Search(allBooks, searchParam.value).value, searchParam.value)
      ensures Truthy(searchParam) && Search(allBooks, searchParam.value).Failure? ==> grid == old(grid)
    {
      if Truthy(searchParam) {
        inputValue := searchParam.value;
        ApplySearch(searchParam.value);
      }
    }
  }
}
