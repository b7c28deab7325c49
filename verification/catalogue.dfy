/** The public catalogue page (`static/js/books.js`): the filter and sort pipeline
    over the fetched book list, the category drop-down, the borrow button's label,
    and the local update after a successful borrow. */
module Catalogue {
  import opened Wrappers
  import opened Text
  import opened Models
  import Seqs
  import Views

  /** One entry of the `books` array the books API returns. `publicationDate` is the
      date as an abstract day number; `availableCopies` is `None` when it is not a number. */
  datatype BookItem = BookItem(
    bookId: string,
    pk: int,
    bookName: string,
    author: string,
    categories: seq<string>,
    availability: bool,
    availableCopies: Option<int>,
    totalCopies: int,
    publicationDate: Option<int>)

  /** The item the books API sends for a stored book agrees with it on these fields. */
  predicate Mirrors(item: BookItem, b: Book) {
    && item.pk == b.pk
    && item.bookId == b.details.bookIdJson
    && item.bookName == b.details.bookName
    && item.availability == IsAvailable(b)
    && item.availableCopies == Some(b.availableCopies)
    && item.totalCopies == b.totalCopies
  }

  /** The raw values of the filter controls; `None` when the control is missing. */
  datatype Controls = Controls(
    category: Option<string>,
    availability: Option<string>,
    sort: Option<string>,
    search: Option<string>,
    searchType: Option<string>)

  /** The filters in effect: every value is the control's, or a default when the
      control is missing or empty; the query is lower-cased. */
  datatype FilterSpec = FilterSpec(
    category: string,
    availability: string,
    sort: string,
    search: string,
    searchType: string)

  /** `value || fallback`. */
  function ValueOr(v: Option<string>, fallback: string): (r: string)
    ensures v.Some? && v.value != "" ==> r == v.value
    ensures v.None? || v.value == "" ==> r == fallback
  {
    if v.Some? && v.value != "" then v.value else fallback
  }

  function ReadFilters(c: Controls): (f: FilterSpec)
    ensures f.category != "" && f.availability != "" && f.sort != "" && f.searchType != ""
    ensures c.category.None? || c.category.value == "" ==> f.category == "all"
    ensures c.availability.None? || c.availability.value == "" ==> f.availability == "all"
    ensures c.sort.None? || c.sort.value == "" ==> f.sort == "title-asc"
    ensures c.searchType.None? || c.searchType.value == "" ==> f.searchType == "all"
    ensures c.search.Some? ==> f.search == Lower(c.search.value)
    ensures c.search.None? ==> f.search == ""
    ensures forall i :: 0 <= i < |f.search| ==> !('A' <= f.search[i] <= 'Z')
  {
    FilterSpec(
      ValueOr(c.category, "all"),
      ValueOr(c.availability, "all"),
      ValueOr(c.sort, "title-asc"),
      ValueOr(if c.search.Some? then Some(Lower(c.search.value)) else None, ""),
      ValueOr(c.searchType, "all"))
  }

  predicate HasCategory(b: BookItem, category: string) {
    exists i :: 0 <= i < |b.categories| && Lower(b.categories[i]) == category
  }

  predicate KeepCategory(f: FilterSpec, b: BookItem) {
    f.category == "all" || HasCategory(b, f.category)
  }

  predicate KeepAvailability(f: FilterSpec, b: BookItem) {
    if f.availability == "available" then b.availability
    else if f.availability == "borrowed" then !b.availability
    else true
  }

  predicate TitleMatch(b: BookItem, q: string) {
    Includes(Lower(b.bookName), q)
  }

  predicate AuthorMatch(b: BookItem, q: string) {
    Includes(Lower(b.author), q)
  }

  predicate CategoryMatch(b: BookItem, q: string) {
    exists i :: 0 <= i < |b.categories| && Includes(Lower(b.categories[i]), q)
  }

  /** The search filter: an empty query keeps everything; otherwise the scope picks
      which matches count, and an unknown scope keeps nothing. */
  predicate KeepSearch(f: FilterSpec, b: BookItem) {
    if f.search == "" then true
    else if f.searchType == "all" then TitleMatch(b, f.search) || AuthorMatch(b, f.search) || CategoryMatch(b, f.search)
    else if f.searchType == "title" then TitleMatch(b, f.search)
    else if f.searchType == "author" then AuthorMatch(b, f.search)
    else if f.searchType == "category" then CategoryMatch(b, f.search)
    else false
  }

  /** A book survives the three filters. */
  predicate Kept(f: FilterSpec, b: BookItem) {
    KeepCategory(f, b) && KeepAvailability(f, b) && KeepSearch(f, b)
  }

  /** The category filter: `all` keeps every book. */
  function ByCategory(books: seq<BookItem>, f: FilterSpec): (r: seq<BookItem>)
    ensures forall b :: multiset(r)[b] == if KeepCategory(f, b) then multiset(books)[b] else 0
  {
    if f.category != "all" then Seqs.Filter(books, (b: BookItem) => HasCategory(b, f.category)) else books
  }

  /** The availability filter: a value other than `available` and `borrowed` keeps every book. */
  function ByAvailability(books: seq<BookItem>, f: FilterSpec): (r: seq<BookItem>)
    ensures forall b :: multiset(r)[b] == if KeepAvailability(f, b) then multiset(books)[b] else 0
  {
    if f.availability == "available" then Seqs.Filter(books, (b: BookItem) => b.availability)
    else if f.availability == "borrowed" then Seqs.Filter(books, (b: BookItem) => !b.availability)
    else books
  }

  function BySearch(books: seq<BookItem>, f: FilterSpec): (r: seq<BookItem>)
    ensures forall b :: multiset(r)[b] == if KeepSearch(f, b) then multiset(books)[b] else 0
  {
    if f.search != "" then Seqs.Filter(books, (b: BookItem) => KeepSearch(f, b)) else books
  }

  /** The three filters, applied in the page's order. */
  function Filtered(books: seq<BookItem>, f: FilterSpec): (r: seq<BookItem>)
    ensures forall b :: multiset(r)[b] == if Kept(f, b) then multiset(books)[b] else 0
    ensures forall i :: 0 <= i < |r| ==> Kept(f, r[i])
  {
    var r := BySearch(ByAvailability(ByCategory(books, f), f), f);
    assert forall i :: 0 <= i < |r| ==> multiset(r)[r[i]] > 0;
    r
  }

  /** The sort key of a date: the day, or `missing` for a book without one. */
  function DateKey(b: BookItem, missing: int): int {
    b.publicationDate.GetOr(missing)
  }

  /** The comparator of the sort, as "may come first": `collate` is the browser's
      `localeCompare` order and `missing` the day a missing date is read as. An
      unknown sort key compares everything as equal. */
  function SortOrder(key: string, collate: (string, string) -> bool, missing: int): (BookItem, BookItem) -> bool {
    if key == "title-asc" then (a: BookItem, b: BookItem) => collate(a.bookName, b.bookName)
    else if key == "title-desc" then (a: BookItem, b: BookItem) => collate(b.bookName, a.bookName)
    else if key == "author-asc" then (a: BookItem, b: BookItem) => collate(a.author, b.author)
    else if key == "author-desc" then (a: BookItem, b: BookItem) => collate(b.author, a.author)
    else if key == "newest" then (a: BookItem, b: BookItem) => DateKey(a, missing) >= DateKey(b, missing)
    else if key == "oldest" then (a: BookItem, b: BookItem) => DateKey(a, missing) <= DateKey(b, missing)
    else (a: BookItem, b: BookItem) => true
  }

  predicate KnownSortKey(key: string) {
    key in {"title-asc", "title-desc", "author-asc", "author-desc", "newest", "oldest"}
  }

  /** `applyBookListFilters`: the kept books, in the order the sort puts them. */
  function ApplyFilters(books: seq<BookItem>, f: FilterSpec, collate: (string, string) -> bool, missing: int): (r: seq<BookItem>)
    ensures forall b :: multiset(r)[b] == if Kept(f, b) then multiset(books)[b] else 0
  {
    Seqs.Sort(Filtered(books, f), SortOrder(f.sort, collate, missing))
  }

  lemma SortOrderTotal(key: string, collate: (string, string) -> bool, missing: int)
    requires Seqs.TotalPreorder(collate)
    ensures Seqs.TotalPreorder(SortOrder(key, collate, missing))
  {
    var le := SortOrder(key, collate, missing);
    forall a, b ensures le(a, b) || le(b, a) {
      assert collate(a.bookName, b.bookName) || collate(b.bookName, a.bookName);
      assert collate(a.author, b.author) || collate(b.author, a.author);
    }
    forall a, b, c | le(a, b) && le(b, c) ensures le(a, c) {
      if key == "title-asc" {
        assert collate(a.bookName, b.bookName) && collate(b.bookName, c.bookName);
      } else if key == "title-desc" {
        assert collate(c.bookName, b.bookName) && collate(b.bookName, a.bookName);
      } else if key == "author-asc" {
        assert collate(a.author, b.author) && collate(b.author, c.author);
      } else if key == "author-desc" {
        assert collate(c.author, b.author) && collate(b.author, a.author);
      }
    }
  }

  /** The titles (authors) come out non-decreasing under `-asc` and non-increasing
      under `-desc`; dates newest first or oldest first. */
  lemma ApplyFiltersOrdered(books: seq<BookItem>, f: FilterSpec, collate: (string, string) -> bool, missing: int)
    requires Seqs.TotalPreorder(collate)
    ensures var r := ApplyFilters(books, f, collate, missing);
      forall i, j :: 0 <= i < j < |r| ==>
        && (f.sort == "title-asc" ==> collate(r[i].bookName, r[j].bookName))
        && (f.sort == "title-desc" ==> collate(r[j].bookName, r[i].bookName))
        && (f.sort == "author-asc" ==> collate(r[i].author, r[j].author))
        && (f.sort == "author-desc" ==> collate(r[j].author, r[i].author))
        && (f.sort == "newest" ==> DateKey(r[i], missing) >= DateKey(r[j], missing))
        && (f.sort == "oldest" ==> DateKey(r[i], missing) <= DateKey(r[j], missing))
  {
    SortOrderTotal(f.sort, collate, missing);
    Seqs.SortSorted(Filtered(books, f), SortOrder(f.sort, collate, missing));
  }

  /** The sort is stable: books the order cannot tell apart keep their list order;
      under an unknown sort key the filtered list comes out unchanged. */
  lemma ApplyFiltersStable(books: seq<BookItem>, f: FilterSpec, collate: (string, string) -> bool, missing: int, x: BookItem)
    requires Seqs.TotalPreorder(collate)
    ensures Seqs.ClassOf(ApplyFilters(books, f, collate, missing), SortOrder(f.sort, collate, missing), x)
         == Seqs.ClassOf(Filtered(books, f), SortOrder(f.sort, collate, missing), x)
    ensures !KnownSortKey(f.sort) ==> ApplyFilters(books, f, collate, missing) == Filtered(books, f)
  {
    SortOrderTotal(f.sort, collate, missing);
    Seqs.SortStable(Filtered(books, f), SortOrder(f.sort, collate, missing), x);
    if !KnownSortKey(f.sort) {
      Seqs.SortUnderTrivialOrder(Filtered(books, f), SortOrder(f.sort, collate, missing));
    }
  }

  /** With every control at its default, nothing is filtered out. */
  lemma DefaultsKeepEverything(books: seq<BookItem>, collate: (string, string) -> bool, missing: int)
    ensures var f := ReadFilters(Controls(None, None, None, None, None));
      multiset(ApplyFilters(books, f, collate, missing)) == multiset(books)
  {
    var f := ReadFilters(Controls(None, None, None, None, None));
    assert forall b :: Kept(f, b);
  }

  /** The categories of all books, in order of appearance, with repetitions. */
  function AllCategories(books: seq<BookItem>): (r: seq<string>)
    ensures forall c :: c in r <==> exists i :: 0 <= i < |books| && c in books[i].categories
    decreases |books|
  {
    if books == [] then []
    else
      var rest := AllCategories(books[1..]);
      forall c, i | 1 <= i < |books| && c in books[i].categories ensures c in rest {
        assert books[1..][i - 1] == books[i];
      }
      books[0].categories + rest
  }

  /** A `Set`: every value once. */
  function Dedup(s: seq<string>): (r: seq<string>)
    ensures forall x :: multiset(r)[x] == if x in s then 1 else 0
    decreases |s|
  {
    if s == [] then []
    else
      var init := s[..|s| - 1];
      var last := s[|s| - 1];
      var rest := Dedup(init);
      assert s == init + [last];
      assert forall x :: x in s <==> x in init || x == last;
      if last in init then rest
      else rest + [last]
  }

  /** The labels of the category options: the distinct categories of all books in
      UTF-16 code-unit order (`LexLe`, the order of a comparator-less `sort`), each once. */
  function CategoryLabels(books: seq<BookItem>): (r: seq<string>)
    ensures forall c :: multiset(r)[c] == if exists i :: 0 <= i < |books| && c in books[i].categories then 1 else 0
  {
    Seqs.Sort(Dedup(AllCategories(books)), LexLe)
  }

  datatype CategoryOption = CategoryOption(value: string, text: string)

  /** `populateCategoryFilterOptions`: the first existing option (or "All Categories")
      followed by one option per category, whose value is the lower-cased name. */
  function CategoryOptions(books: seq<BookItem>, first: Option<CategoryOption>): (r: seq<CategoryOption>)
    ensures |r| == |CategoryLabels(books)| + 1
    ensures r[0] == first.GetOr(CategoryOption("all", "All Categories"))
    ensures forall k :: 1 <= k < |r| ==> r[k].text == CategoryLabels(books)[k - 1] && r[k].value == Lower(r[k].text)
  {
    OptionsOf(CategoryLabels(books), first)
  }

  /** The option list for the labels `labels`. */
  function OptionsOf(labels: seq<string>, first: Option<CategoryOption>): (r: seq<CategoryOption>)
    ensures |r| == |labels| + 1
    ensures r[0] == first.GetOr(CategoryOption("all", "All Categories"))
    ensures forall k :: 1 <= k < |r| ==> r[k].text == labels[k - 1] && r[k].value == Lower(r[k].text)
  {
    [first.GetOr(CategoryOption("all", "All Categories"))]
      + seq(|labels|, k requires 0 <= k < |labels| => CategoryOption(Lower(labels[k]), labels[k]))
  }

  lemma LexLeTotalPreorder()
    ensures Seqs.TotalPreorder(LexLe)
  {
    forall a, b ensures LexLe(a, b) || LexLe(b, a) {
      LexLeTotal(a, b);
    }
    forall a, b, c | LexLe(a, b) && LexLe(b, c) ensures LexLe(a, c) {
      LexLeTransitive(a, b, c);
    }
  }

  /** The category options after the first are in strictly increasing UTF-16 code-unit order
      of their labels, and every category of every book has exactly one option. */
  lemma CategoryOptionsSorted(books: seq<BookItem>, first: Option<CategoryOption>)
    ensures var r := CategoryOptions(books, first);
      forall i, j :: 1 <= i < j < |r| ==> LexLe(r[i].text, r[j].text) && r[i].text != r[j].text
    ensures var r := CategoryOptions(books, first);
      forall i, c :: 0 <= i < |books| && c in books[i].categories ==>
        exists k :: 1 <= k < |r| && r[k].text == c
  {
    var labels := CategoryLabels(books);
    var r := CategoryOptions(books, first);
    LabelsSorted(books);
    forall i, j | 1 <= i < j < |r| ensures LexLe(r[i].text, r[j].text) && r[i].text != r[j].text {
      assert r[i].text == labels[i - 1] && r[j].text == labels[j - 1];
    }
    forall i, c | 0 <= i < |books| && c in books[i].categories
      ensures exists k :: 1 <= k < |r| && r[k].text == c
    {
      var k := LabelOf(books, i, c);
      assert r[k + 1].text == c;
    }
  }

  /** The labels are in strictly increasing UTF-16 code-unit order. */
  lemma LabelsSorted(books: seq<BookItem>)
    ensures var labels := CategoryLabels(books);
      forall i, j :: 0 <= i < j < |labels| ==> LexLe(labels[i], labels[j]) && labels[i] != labels[j]
  {
    LexLeTotalPreorder();
    Seqs.SortSorted(Dedup(AllCategories(books)), LexLe);
    Seqs.CountOneDistinct(CategoryLabels(books));
  }

  /** Every category of every book is one of the labels. */
  lemma LabelOf(books: seq<BookItem>, i: int, c: string) returns (k: nat)
    requires 0 <= i < |books| && c in books[i].categories
    ensures k < |CategoryLabels(books)| && CategoryLabels(books)[k] == c
  {
    var labels := CategoryLabels(books);
    assert c in multiset(labels);
    k :| 0 <= k < |labels| && labels[k] == c;
  }

  datatype Button = Button(caption: string, enabled: bool)

  /** The borrow button of a book card (`displayBooks`). */
  function BorrowButton(b: BookItem): (r: Button)
    ensures r.enabled <==> b.availability
    ensures r.caption == "Borrow" <==> b.availability
    ensures r.caption == "Out of Stock" <==> !b.availability && b.totalCopies <= 0
  {
    if b.availability then Button("Borrow", true)
    else if b.totalCopies > 0 then Button("Unavailable", false)
    else Button("Out of Stock", false)
  }

  /** For a book as the server stores it, the card offers borrowing exactly when a copy
      is on the shelf, says "Unavailable" when all copies are out, and "Out of Stock"
      when the library owns none. */
  lemma ButtonOfStoredBook(item: BookItem, b: Book)
    requires Mirrors(item, b) && CopiesOk(b)
    ensures BorrowButton(item).enabled <==> b.availableCopies > 0
    ensures BorrowButton(item).caption == "Unavailable" <==> b.availableCopies == 0 && b.totalCopies > 0
    ensures BorrowButton(item).caption == "Out of Stock" <==> b.totalCopies == 0
  {
  }

  /** The local record update after a successful borrow: the first book with the
      key is marked unavailable and, when its copy count is a number, loses a copy
      (never below zero); every other book is unchanged. */
  function MarkBorrowed(books: seq<BookItem>, pk: int): (r: seq<BookItem>)
    ensures |r| == |books|
    ensures forall i :: 0 <= i < |books| && books[i].pk != pk ==> r[i] == books[i]
    ensures forall i :: 0 <= i < |books| && books[i].pk == pk ==>
      (exists j :: 0 <= j < i && books[j].pk == pk) ==> r[i] == books[i]
    ensures forall i :: 0 <= i < |books| && books[i].pk == pk && (forall j :: 0 <= j < i ==> books[j].pk != pk) ==>
      && !r[i].availability
      && r[i].availableCopies == (match books[i].availableCopies { case Some(n) => Some(if n - 1 > 0 then n - 1 else 0) case None => None })
      && r[i] == books[i].(availability := r[i].availability, availableCopies := r[i].availableCopies)
  {
    match Seqs.FirstIndex(books, (b: BookItem) => b.pk == pk)
    case None => books
    case Some(i) =>
      var b := books[i];
      var copies := match b.availableCopies { case Some(n) => Some(if n - 1 > 0 then n - 1 else 0) case None => None };
      books[i := b.(availability := false, availableCopies := copies)]
  }

  /** After the server's borrow succeeded, the page's copy count for the book agrees
      with the server's new count; its availability agrees exactly when the borrowed
      copy was the last one on the shelf. */
  lemma MarkBorrowedAgreesWithServer(lib: Library, req: Views.Request, pk: nat, now: int, items: seq<BookItem>, k: int)
    requires Valid(lib)
    requires 0 <= k < |items| && FindBook(lib.books, pk).Some?
    requires Mirrors(items[k], lib.books[FindBook(lib.books, pk).value])
    requires forall j :: 0 <= j < k ==> items[j].pk != pk
    requires Views.BorrowBook(lib, req, pk, now).reply.BookBorrowed?
    ensures var b' := Views.BorrowBook(lib, req, pk, now).lib.books[FindBook(lib.books, pk).value];
      && MarkBorrowed(items, pk)[k].availableCopies == Some(b'.availableCopies)
      && (MarkBorrowed(items, pk)[k].availability == IsAvailable(b') <==> b'.availableCopies == 0)
  {
    var i := FindBook(lib.books, pk).value;
    assert CopiesOk(lib.books[i]);
  }

  /** What the server answered the borrow request: a network failure, or a status
      with a JSON body (`None` when the body is not JSON). */
  datatype BorrowResponse = NetworkFailure | Answer(status: int, body: Option<BorrowBody>)

  datatype BorrowBody = BorrowBody(success: bool, message: Option<string>)

  /** What the page tells the reader. */
  datatype Notice =
    | LogInFirst
    | SessionExpired
    | ConfigurationError
    | Said(message: string)
    | StatusFailure(status: int)
    | RequestFailed

  datatype BorrowOutcome = BorrowOutcome(sent: bool, notice: Notice, toLogin: bool, books: seq<BookItem>)

  /** A JSON `message`, or `fallback` when it is missing or empty. */
  function MessageOr(m: Option<string>, fallback: string): string {
    if m.Some? && m.value != "" then m.value else fallback
  }

  /** `handleBorrowBook`, with the client's authentication guess, whether the borrow
      URL is configured, and the server's answer as inputs. */
  function HandleBorrow(authenticated: bool, configured: bool, response: BorrowResponse, books: seq<BookItem>, pk: int): (o: BorrowOutcome)
    ensures !authenticated ==> o == BorrowOutcome(false, LogInFirst, true, books)
    ensures authenticated && !configured ==> o == BorrowOutcome(false, ConfigurationError, false, books)
    ensures o.toLogin <==> !authenticated || (configured && response.Answer? && response.status in {401, 403})
    ensures o.books != books ==> o.books == MarkBorrowed(books, pk)
    ensures o.books != books ==>
      authenticated && configured && response.Answer? && 200 <= response.status < 300
      && response.body.Some? && response.body.value.success
  {
    if !authenticated then BorrowOutcome(false, LogInFirst, true, books)
    else if !configured then BorrowOutcome(false, ConfigurationError, false, books)
    else
      match response
      case NetworkFailure => BorrowOutcome(true, RequestFailed, false, books)
      case Answer(status, body) =>
        if status == 401 || status == 403 then BorrowOutcome(true, SessionExpired, true, books)
        else if !(200 <= status < 300) then
          var notice := if body.Some? then Said(MessageOr(body.value.message, "")) else StatusFailure(status);
          var notice' := if notice.Said? && notice.message == "" then StatusFailure(status) else notice;
          BorrowOutcome(true, notice', false, books)
        else
          match body
          case None => BorrowOutcome(true, RequestFailed, false, books)
          case Some(d) =>
            if d.success then BorrowOutcome(true, Said(MessageOr(d.message, "Book borrowed successfully!")), false, MarkBorrowed(books, pk))
            else BorrowOutcome(true, Said(MessageOr(d.message, "Failed to borrow book. Please try again.")), false, books)
  }

  /** The answer a view's reply becomes as the page's `fetch` receives it. `fetch`
      follows the log-in redirect, so the page gets the log-in page itself: HTML, with
      that page's status `loginStatus`. Django's 404 page is HTML too. Every other
      reply is a JSON body with the `success` flag and the message. */
  function ResponseOf(r: Views.Reply, loginStatus: int): (a: BorrowResponse)
    ensures a.Answer?
    ensures a.status == (if r.LoginRedirect? then loginStatus else Views.StatusCode(r))
    ensures a.body.None? <==> r.NotFound? || r.LoginRedirect?
    ensures a.body.Some? ==> a.body.value.success == Views.Succeeded(r) && a.body.value.message == Some(Views.Message(r))
    ensures Views.Flagged(r) ==> (200 <= a.status < 300 <==> a.body.value.success)
  {
    if r.LoginRedirect? then Answer(loginStatus, None)
    else if r.NotFound? then Answer(404, None)
    else Answer(Views.StatusCode(r), Some(BorrowBody(Views.Succeeded(r), Some(Views.Message(r)))))
  }

  /** A signed-in reader's borrow: the page updates its list exactly when the server
      lent the book, and otherwise shows the server's own message (or the status,
      for a missing book). The view never answers 401 or 403, so the page never
      sends the reader to log in. */
  lemma HandleBorrowFollowsServer(lib: Library, user: string, isAdmin: bool, pk: nat, now: int, books: seq<BookItem>, loginStatus: int)
    ensures var reply := Views.BorrowBook(lib, Views.Request(Views.SignedIn(user, isAdmin), true), pk, now).reply;
      var o := HandleBorrow(true, true, ResponseOf(reply, loginStatus), books, pk);
      && (reply.BookBorrowed? ==> o.books == MarkBorrowed(books, pk))
      && (!reply.BookBorrowed? ==> o.books == books)
      && (!reply.BookBorrowed? && !reply.NotFound? ==> o.notice == Said(Views.Message(reply)))
      && (reply.NotFound? ==> o.notice == StatusFailure(404))
      && !o.toLogin && o.notice != SessionExpired
  {
  }

  /** A reader the page takes for signed in, whose server session has ended: the
      view redirects, `fetch` follows to the log-in page, and the page reads that
      page as a failed request. The list never changes, and the page shows the
      expired-session notice only when the log-in page itself is a 401 or 403, so
      `login_required` alone never leads there. */
  lemma ExpiredSessionBorrow(lib: Library, isPost: bool, pk: nat, now: int, books: seq<BookItem>, loginStatus: int)
    ensures Views.BorrowBook(lib, Views.Request(Views.Anonymous, isPost), pk, now).reply == Views.LoginRedirect
    ensures var o := HandleBorrow(true, true, ResponseOf(Views.LoginRedirect, loginStatus), books, pk);
      && o.sent && o.books == books
      && (o.notice == SessionExpired <==> loginStatus == 401 || loginStatus == 403)
      && (200 <= loginStatus < 300 ==> o.notice == RequestFailed)
      && (!(200 <= loginStatus < 300) && loginStatus != 401 && loginStatus != 403 ==>
            o.notice == StatusFailure(loginStatus))
  {
  }
}
