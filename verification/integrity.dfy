/** What the views promise together: every view keeps the database's integrity
    (`Models.Valid`), so any sequence of requests does; loans cannot be doubled,
    a return closes the loan, and the admin's loan list is ordered by due date. */
module Integrity {
  import opened Wrappers
  import opened Text
  import opened Models
  import opened Forms
  import opened Views
  import Seqs

  /** A book stored in the table is found by its key. */
  lemma Found(books: seq<Book>, i: int)
    requires 0 <= i < |books|
    ensures FindBook(books, books[i].pk).Some?
  {
  }

  /** The record side of integrity only looks at the books' keys. */
  lemma RecordsOkSameKeys(lib: Library, lib': Library)
    requires RecordsOk(lib)
    requires lib'.records == lib.records && lib'.nextRecordPk == lib.nextRecordPk
    requires forall i :: 0 <= i < |lib.books| ==> FindBook(lib'.books, lib.books[i].pk).Some?
    ensures RecordsOk(lib')
  {
    forall r | 0 <= r < |lib.records| ensures FindBook(lib'.books, lib.records[r].bookPk).Some? {
      var k := FindBook(lib.books, lib.records[r].bookPk).value;
      assert lib.books[k].pk == lib.records[r].bookPk;
    }
  }

  /** Appending a book with a fresh key and a fresh id keeps integrity. */
  lemma AppendBookOk(lib: Library, b: Book, lib': Library)
    requires Valid(lib)
    requires CopiesOk(b) && b.pk == lib.nextBookPk
    requires forall i :: 0 <= i < |lib.books| ==> lib.books[i].details.bookIdJson != b.details.bookIdJson
    requires lib'.books == lib.books + [b] && lib'.records == lib.records && lib'.users == lib.users
    requires lib'.nextBookPk == lib.nextBookPk + 1 && lib'.nextRecordPk == lib.nextRecordPk
    ensures Valid(lib')
  {
    forall i | 0 <= i < |lib.books| ensures FindBook(lib'.books, lib.books[i].pk).Some? {
      Found(lib'.books, i);
    }
    RecordsOkSameKeys(lib, lib');
  }

  /** Replacing a book by one with the same key, a bounded copy count and an id no
      other book has keeps integrity. */
  lemma ReplaceBookOk(lib: Library, i: nat, b: Book, lib': Library)
    requires Valid(lib) && i < |lib.books|
    requires CopiesOk(b) && b.pk == lib.books[i].pk
    requires forall j :: 0 <= j < |lib.books| && j != i ==> lib.books[j].details.bookIdJson != b.details.bookIdJson
    requires lib'.books == lib.books[i := b] && lib'.records == lib.records && lib'.users == lib.users
    requires lib'.nextBookPk == lib.nextBookPk && lib'.nextRecordPk == lib.nextRecordPk
    ensures Valid(lib')
  {
    forall j | 0 <= j < |lib.books| ensures FindBook(lib'.books, lib.books[j].pk).Some? {
      Found(lib'.books, j);
    }
    RecordsOkSameKeys(lib, lib');
  }

  lemma AddBookKeepsValid(lib: Library, req: Request, input: BookFormInput, names: seq<string>)
    requires Valid(lib)
    ensures Valid(AddBook(lib, req, input, names).lib)
  {
    var s := AddBook(lib, req, input, names);
    if s.reply.BookAdded? {
      assert s.lib.books == lib.books + [s.lib.books[|lib.books|]];
      AppendBookOk(lib, s.lib.books[|lib.books|], s.lib);
    }
  }

  /** With unique keys, the books other than the one at `i` have another key. */
  lemma OthersHaveOtherKeys(lib: Library, i: nat)
    requires BooksOk(lib) && i < |lib.books|
    ensures forall j :: 0 <= j < |lib.books| && j != i ==> IsOther(lib.books[j], Some(lib.books[i].pk))
  {
    forall j | 0 <= j < |lib.books| && j != i ensures lib.books[j].pk != lib.books[i].pk {
      if j < i {
        assert lib.books[j].pk != lib.books[i].pk;
      } else {
        assert lib.books[i].pk != lib.books[j].pk;
      }
    }
  }

  lemma UpdateBookKeepsValid(lib: Library, req: Request, pk: nat, input: BookFormInput, names: seq<string>)
    requires Valid(lib)
    ensures Valid(UpdateBook(lib, req, pk, input, names).lib)
  {
    var s := UpdateBook(lib, req, pk, input, names);
    if s.reply.BookUpdated? {
      var i := FindBook(lib.books, pk).value;
      var b := s.lib.books[i];
      OthersHaveOtherKeys(lib, i);
      assert s.lib.books == lib.books[i := b];
      ReplaceBookOk(lib, i, b, s.lib);
    }
  }

  /** The add view as written keeps the database consistent as well: the ISBN it
      stores plays no part in consistency. */
  lemma AddBookAsWrittenKeepsValid(lib: Library, req: Request, input: BookFormInput, names: seq<string>)
    requires Valid(lib)
    ensures Valid(AddBookAsWritten(lib, req, input, names).lib)
  {
    var s := AddBookAsWritten(lib, req, input, names);
    if s.reply.BookAdded? {
      assert s.lib.books == lib.books + [s.lib.books[|lib.books|]];
      AppendBookOk(lib, s.lib.books[|lib.books|], s.lib);
    } else {
      AddBookKeepsValid(lib, req, input, names);
    }
  }

  /** The edit view as written keeps the database consistent as well. */
  lemma UpdateBookAsWrittenKeepsValid(lib: Library, req: Request, pk: nat, input: BookFormInput, names: seq<string>)
    requires Valid(lib)
    ensures Valid(UpdateBookAsWritten(lib, req, pk, input, names).lib)
  {
    if UpdateBookAsWritten(lib, req, pk, input, names).reply.BookUpdated? {
      UpdatedAsWrittenKeepsValid(lib, req, pk, input, names);
    } else {
      UpdateBookKeepsValid(lib, req, pk, input, names);
    }
  }

  /** A saved edit as written replaces one book by a consistent one. */
  lemma UpdatedAsWrittenKeepsValid(lib: Library, req: Request, pk: nat, input: BookFormInput, names: seq<string>)
    requires Valid(lib) && UpdateBookAsWritten(lib, req, pk, input, names).reply.BookUpdated?
    ensures Valid(UpdateBookAsWritten(lib, req, pk, input, names).lib)
  {
    var i := FindBook(lib.books, pk).value;
    var c := ValidateAsWritten(lib.books, Some(pk), input).value;
    ReviseKeepsValid(lib, i, c, names);
  }

  /** An edit keeps the database consistent when the new id is no other book's and
      the new total is not negative. */
  lemma ReviseKeepsValid(lib: Library, i: nat, c: CleanedBook, names: seq<string>)
    requires Valid(lib) && i < |lib.books| && c.totalCopies >= 0
    requires forall j :: 0 <= j < |lib.books| && lib.books[j].pk != lib.books[i].pk ==>
      lib.books[j].details.bookIdJson != c.details.bookIdJson
    ensures Valid(Revise(lib, i, c, names))
  {
    var lib' := Revise(lib, i, c, names);
    var b := lib'.books[i];
    OthersHaveOtherKeys(lib, i);
    assert lib'.books == lib.books[i := b];
    ReplaceBookOk(lib, i, b, lib');
  }

  /** Keys and loan uniqueness of a book table, as one pairwise relation. */
  predicate DistinctBooks(a: Book, b: Book) {
    a.pk != b.pk && a.details.bookIdJson != b.details.bookIdJson
  }

  predicate DistinctRecords(a: BorrowRecord, b: BorrowRecord) {
    && a.pk != b.pk
    && (!IsReturned(a) && !IsReturned(b) ==> !(a.user == b.user && a.bookPk == b.bookPk))
  }

  lemma KeptBooksOk(lib: Library, lib': Library)
    requires BooksOk(lib)
    requires forall b :: b in lib'.books ==> b in lib.books
    requires Seqs.Subsequence(lib'.books, lib.books)
    requires lib'.nextBookPk == lib.nextBookPk
    ensures BooksOk(lib')
  {
    Seqs.SubsequencePairs(lib'.books, lib.books, DistinctBooks);
    forall i | 0 <= i < |lib'.books| ensures CopiesOk(lib'.books[i]) && lib'.books[i].pk < lib.nextBookPk {
      assert lib'.books[i] in lib.books;
    }
  }

  lemma KeptRecordsOk(lib: Library, pk: nat, lib': Library)
    requires RecordsOk(lib)
    requires forall b :: b in lib'.books <==> b in lib.books && b.pk != pk
    requires forall r :: r in lib'.records ==> r in lib.records && r.bookPk != pk
    requires Seqs.Subsequence(lib'.records, lib.records)
    requires lib'.nextRecordPk == lib.nextRecordPk
    ensures RecordsOk(lib')
  {
    var books := lib'.books;
    var records := lib'.records;
    Seqs.SubsequencePairs(records, lib.records, DistinctRecords);
    forall i | 0 <= i < |records|
      ensures records[i].pk < lib.nextRecordPk && FindBook(books, records[i].bookPk).Some?
    {
      assert records[i] in lib.records;
      var j :| 0 <= j < |lib.records| && lib.records[j] == records[i];
      var k := FindBook(lib.books, records[i].bookPk).value;
      assert lib.books[k] in books;
      var m :| 0 <= m < |books| && books[m] == lib.books[k];
      Found(books, m);
    }
  }

  lemma DeleteBookKeepsValid(lib: Library, req: Request, pk: nat)
    requires Valid(lib)
    ensures Valid(DeleteBook(lib, req, pk).lib)
  {
    var s := DeleteBook(lib, req, pk);
    if s.reply.BookDeleted? {
      KeptBooksOk(lib, s.lib);
      KeptRecordsOk(lib, pk, s.lib);
    }
  }

  /** Changing the copy counts of one book, within bounds, keeps the book side of integrity. */
  lemma RestockOk(lib: Library, i: nat, b: Book, lib': Library)
    requires BooksOk(lib) && i < |lib.books|
    requires CopiesOk(b) && b.pk == lib.books[i].pk && b.details == lib.books[i].details
    requires lib'.books == lib.books[i := b] && lib'.nextBookPk == lib.nextBookPk
    ensures BooksOk(lib')
  {
  }

  /** Changing a book but not its key keeps every key findable. */
  lemma RestockKeepsKeys(books: seq<Book>, i: nat, b: Book)
    requires i < |books| && b.pk == books[i].pk
    ensures forall pk :: FindBook(books, pk).Some? ==> FindBook(books[i := b], pk).Some?
  {
    forall pk | FindBook(books, pk).Some? ensures FindBook(books[i := b], pk).Some? {
      Found(books[i := b], FindBook(books, pk).value);
    }
  }

  /** Appending a fresh open loan of an existing book, for a user without one, keeps
      the record side of integrity. */
  lemma AppendRecordOk(lib: Library, rec: BorrowRecord, lib': Library)
    requires RecordsOk(lib)
    requires rec.pk == lib.nextRecordPk && !HasOpenLoan(lib.records, rec.user, rec.bookPk)
    requires lib'.records == lib.records + [rec] && lib'.nextRecordPk == lib.nextRecordPk + 1
    requires FindBook(lib'.books, rec.bookPk).Some?
    requires forall r :: 0 <= r < |lib.records| ==> FindBook(lib'.books, lib.records[r].bookPk).Some?
    ensures RecordsOk(lib')
  {
    var n := |lib.records|;
    var records := lib'.records;
    assert forall r :: 0 <= r < n ==> records[r] == lib.records[r];
    forall r | 0 <= r < n && !IsReturned(records[r])
      ensures !(records[r].user == rec.user && records[r].bookPk == rec.bookPk)
    {
      assert !OpenLoan(lib.records[r], rec.user, rec.bookPk);
    }
  }

  /** Stamping a return date on one record keeps the record side of integrity. */
  lemma CloseRecordOk(lib: Library, ri: nat, now: int, lib': Library)
    requires RecordsOk(lib) && ri < |lib.records|
    requires lib'.records == lib.records[ri := lib.records[ri].(returnDate := Some(now))]
    requires lib'.nextRecordPk == lib.nextRecordPk
    requires forall r :: 0 <= r < |lib.records| ==> FindBook(lib'.books, lib.records[r].bookPk).Some?
    ensures RecordsOk(lib')
  {
  }

  /** Taking a copy of the book at `i` and opening a fresh loan of it for a user
      without one keeps integrity. */
  lemma OpenLoanOk(lib: Library, i: nat, rec: BorrowRecord, lib': Library)
    requires Valid(lib) && i < |lib.books| && IsAvailable(lib.books[i])
    requires rec.pk == lib.nextRecordPk && rec.bookPk == lib.books[i].pk && !IsReturned(rec)
    requires !HasOpenLoan(lib.records, rec.user, rec.bookPk)
    requires lib'.books == lib.books[i := lib.books[i].(availableCopies := lib.books[i].availableCopies - 1)]
    requires lib'.records == lib.records + [rec] && lib'.users == lib.users
    requires lib'.nextBookPk == lib.nextBookPk && lib'.nextRecordPk == lib.nextRecordPk + 1
    ensures Valid(lib')
  {
    var b := lib.books[i].(availableCopies := lib.books[i].availableCopies - 1);
    RestockOk(lib, i, b, lib');
    RestockKeepsKeys(lib.books, i, b);
    Found(lib'.books, i);
    AppendRecordOk(lib, rec, lib');
  }

  lemma BorrowBookKeepsValid(lib: Library, req: Request, pk: nat, now: int)
    requires Valid(lib)
    ensures Valid(BorrowBook(lib, req, pk, now).lib)
  {
    var s := BorrowBook(lib, req, pk, now);
    if s.reply.BookBorrowed? {
      var i := FindBook(lib.books, pk).value;
      var rec := BorrowRecord(lib.nextRecordPk, req.session.username, pk, now, now + LoanPeriod, None);
      OpenLoanOk(lib, i, rec, s.lib);
    }
  }

  /** Closing the loan at `ri` and putting a copy of the book at `bi` back keeps integrity. */
  lemma CloseLoanOk(lib: Library, ri: nat, bi: nat, now: int, lib': Library)
    requires Valid(lib) && ri < |lib.records| && bi < |lib.books|
    requires var b := lib.books[bi];
      lib'.books == lib.books[bi := b.(availableCopies := ReturnedAvailable(b.availableCopies, b.totalCopies))]
    requires lib'.records == lib.records[ri := lib.records[ri].(returnDate := Some(now))]
    requires lib'.users == lib.users
    requires lib'.nextBookPk == lib.nextBookPk && lib'.nextRecordPk == lib.nextRecordPk
    ensures Valid(lib')
  {
    var b := lib.books[bi];
    var b' := b.(availableCopies := ReturnedAvailable(b.availableCopies, b.totalCopies));
    assert CopiesOk(b);
    RestockOk(lib, bi, b', lib');
    RestockKeepsKeys(lib.books, bi, b');
    CloseRecordOk(lib, ri, now, lib');
  }

  lemma ReturnBookKeepsValid(lib: Library, req: Request, recordPk: nat, now: int)
    requires Valid(lib)
    ensures Valid(ReturnBook(lib, req, recordPk, now).lib)
  {
    var s := ReturnBook(lib, req, recordPk, now);
    if s.reply.BookReturned? {
      var ri := FindRecord(lib.records, recordPk).value;
      var bi := FindBook(lib.books, lib.records[ri].bookPk).value;
      CloseLoanOk(lib, ri, bi, now, s.lib);
    }
  }

  lemma SignupKeepsValid(lib: Library, isPost: bool, body: Option<SignupBody>, nfkc: string -> string)
    requires Valid(lib)
    ensures Valid(Signup(lib, isPost, body, nfkc).lib)
  {
    var s := Signup(lib, isPost, body, nfkc);
    if s.reply.SignedUp? {
      var n := |lib.users|;
      forall i | 0 <= i < n ensures s.lib.users[i].username != s.lib.users[n].username {
        assert s.lib.users[i] == lib.users[i];
      }
    }
  }

  /** With a consistent database, the return view never reaches its server-error
      reply: a loan's book always exists. */
  lemma ReturnNeverFailsOnValid(lib: Library, req: Request, recordPk: nat, now: int)
    requires Valid(lib)
    ensures !ReturnBook(lib, req, recordPk, now).reply.ReturnError?
  {
    match FindRecord(lib.records, recordPk)
    case None =>
    case Some(ri) =>
      assert FindBook(lib.books, lib.records[ri].bookPk).Some?;
  }

  /** Borrowing the same book a second time is refused. */
  lemma BorrowTwiceRefused(lib: Library, req: Request, pk: nat, now: int, later: int)
    requires BorrowBook(lib, req, pk, now).reply.BookBorrowed?
    ensures BorrowBook(BorrowBook(lib, req, pk, now).lib, req, pk, later).reply in {AlreadyBorrowed, NotAvailable}
  {
    var lib' := BorrowBook(lib, req, pk, now).lib;
    var n := |lib.records|;
    assert OpenLoan(lib'.records[n], req.session.username, pk);
    Found(lib'.books, FindBook(lib.books, pk).value);
  }

  /** A successful return leaves the borrower without an open loan of that book. */
  lemma ReturnClosesLoan(lib: Library, req: Request, recordPk: nat, now: int)
    requires Valid(lib)
    requires ReturnBook(lib, req, recordPk, now).reply.BookReturned?
    ensures FindRecord(lib.records, recordPk).Some?
    ensures !HasOpenLoan(ReturnBook(lib, req, recordPk, now).lib.records,
                         lib.records[FindRecord(lib.records, recordPk).value].user,
                         lib.records[FindRecord(lib.records, recordPk).value].bookPk)
  {
    var ri := FindRecord(lib.records, recordPk).value;
    var rec := lib.records[ri];
    var records := ReturnBook(lib, req, recordPk, now).lib.records;
    forall r | 0 <= r < |records| ensures !OpenLoan(records[r], rec.user, rec.bookPk) {
      if r < ri {
        assert !OpenLoan(lib.records[r], rec.user, rec.bookPk);
      } else if r > ri {
        assert !OpenLoan(lib.records[r], rec.user, rec.bookPk);
      }
    }
  }

  /** Borrowing takes exactly one copy off the shelf of the borrowed book. */
  lemma BorrowTakesOneCopy(lib: Library, req: Request, pk: nat, now: int)
    requires Valid(lib)
    requires BorrowBook(lib, req, pk, now).reply.BookBorrowed?
    ensures FindBook(lib.books, pk).Some?
    ensures var i := FindBook(lib.books, pk).value;
      && var b' := BorrowBook(lib, req, pk, now).lib.books[i];
      && b'.availableCopies == lib.books[i].availableCopies - 1
      && b'.availableCopies >= 0
      && HasOpenLoan(BorrowBook(lib, req, pk, now).lib.records, req.session.username, pk)
  {
    var lib' := BorrowBook(lib, req, pk, now).lib;
    assert OpenLoan(lib'.records[|lib.records|], req.session.username, pk);
  }

  /** The admin list's order is a total preorder whenever the username collation is one. */
  lemma DueOrderTotal(usernameLe: (string, string) -> bool)
    requires Seqs.TotalPreorder(usernameLe)
    ensures Seqs.TotalPreorder(DueOrder(usernameLe))
  {
    var le := DueOrder(usernameLe);
    forall a, b ensures le(a, b) || le(b, a) {
      assert usernameLe(a.username, b.username) || usernameLe(b.username, a.username);
    }
    forall a, b, c | le(a, b) && le(b, c) ensures le(a, c) {
      if a.dueDate == b.dueDate && b.dueDate == c.dueDate {
        assert usernameLe(a.username, b.username) && usernameLe(b.username, c.username);
      }
    }
  }

  /** `all_borrowed_books_api_view` lists the open loans by due date, then by
      username. Loans with equal due date and username are left in their stored
      order: the query names no further key, so that order is this model's choice
      (a stable sort) rather than a promise of the database. */
  lemma AllBorrowedOrdered(lib: Library, req: Request, usernameLe: (string, string) -> bool, x: BorrowedRow)
    requires Seqs.TotalPreorder(usernameLe)
    requires IsAdminSession(req.session)
    ensures Seqs.Sorted(AllBorrowed(lib, req, usernameLe).reply.rows, DueOrder(usernameLe))
    ensures Seqs.ClassOf(AllBorrowed(lib, req, usernameLe).reply.rows, DueOrder(usernameLe), x)
         == Seqs.ClassOf(OpenRows(lib), DueOrder(usernameLe), x)
  {
    DueOrderTotal(usernameLe);
    Seqs.SortSorted(OpenRows(lib), DueOrder(usernameLe));
    Seqs.SortStable(OpenRows(lib), DueOrder(usernameLe), x);
  }

  /** Every request the JSON API accepts. */
  datatype Action =
    | AddA(req: Request, input: BookFormInput, names: seq<string>)
    | UpdateA(req: Request, pk: nat, input: BookFormInput, names: seq<string>)
    | DeleteA(req: Request, pk: nat)
    | BorrowA(req: Request, pk: nat, now: int)
    | ReturnA(req: Request, recordPk: nat, now: int)
    | SignupA(isPost: bool, signup: Option<SignupBody>)
    | LoginA(isPost: bool, login: Option<LoginBody>)
    | ListA(req: Request)

  /** The library after serving `a`; `nfkc` is the platform's Unicode normalization. */
  function Apply(lib: Library, a: Action, nfkc: string -> string): Library {
    match a
    case AddA(req, input, names) => AddBook(lib, req, input, names).lib
    case UpdateA(req, pk, input, names) => UpdateBook(lib, req, pk, input, names).lib
    case DeleteA(req, pk) => DeleteBook(lib, req, pk).lib
    case BorrowA(req, pk, now) => BorrowBook(lib, req, pk, now).lib
    case ReturnA(req, pk, now) => ReturnBook(lib, req, pk, now).lib
    case SignupA(isPost, body) => Signup(lib, isPost, body, nfkc).lib
    case LoginA(isPost, body) => Login(lib, isPost, body).lib
    case ListA(req) => AllBorrowed(lib, req, LexLe).lib
  }

  /** The database after serving `trace` in order. */
  function Run(lib: Library, trace: seq<Action>, nfkc: string -> string): Library
    decreases |trace|
  {
    if trace == [] then lib else Run(Apply(lib, trace[0], nfkc), trace[1..], nfkc)
  }

  lemma ApplyKeepsValid(lib: Library, a: Action, nfkc: string -> string)
    requires Valid(lib)
    ensures Valid(Apply(lib, a, nfkc))
  {
    match a
    case AddA(req, input, names) => AddBookKeepsValid(lib, req, input, names);
    case UpdateA(req, pk, input, names) => UpdateBookKeepsValid(lib, req, pk, input, names);
    case DeleteA(req, pk) => DeleteBookKeepsValid(lib, req, pk);
    case BorrowA(req, pk, now) => BorrowBookKeepsValid(lib, req, pk, now);
    case ReturnA(req, pk, now) => ReturnBookKeepsValid(lib, req, pk, now);
    case SignupA(isPost, body) => SignupKeepsValid(lib, isPost, body, nfkc);
    case LoginA(_, _) =>
    case ListA(_) =>
  }

  /** An empty database is consistent, and serving any requests keeps it so:
      copies stay within bounds and no reader holds a book twice. */
  lemma {:induction false} RunKeepsValid(lib: Library, trace: seq<Action>, nfkc: string -> string)
    requires Valid(lib)
    ensures Valid(Run(lib, trace, nfkc))
    ensures forall i :: 0 <= i < |Run(lib, trace, nfkc).books| ==>
      0 <= Run(lib, trace, nfkc).books[i].availableCopies <= Run(lib, trace, nfkc).books[i].totalCopies
    decreases |trace|
  {
    if trace != [] {
      ApplyKeepsValid(lib, trace[0], nfkc);
      RunKeepsValid(Apply(lib, trace[0], nfkc), trace[1..], nfkc);
    }
  }

  lemma EmptyLibraryValid(nextBookPk: nat, nextRecordPk: nat)
    ensures Valid(Library([], [], [], {}, nextBookPk, nextRecordPk))
  {
  }

  /** The return view as written answers a missing loan with a server error (500)
      where a 404 was meant. */
  lemma MissingRecordAsWritten()
    ensures StatusCode(ReturnBookAsWritten(Library([], [], [], {}, 1, 1), Request(SignedIn("reader", false), true), 7, 0).reply) == 500
    ensures Message(ReturnBookAsWritten(Library([], [], [], {}, 1, 1), Request(SignedIn("reader", false), true), 7, 0).reply)
      == "Error returning book: " + NoRecordMatches
  {
  }

  /** The corrected return view answers every request for a missing loan with 404. */
  lemma MissingRecordIsNotFound(lib: Library, req: Request, recordPk: nat, now: int)
    requires req.session.SignedIn? && req.isPost
    requires forall i :: 0 <= i < |lib.records| ==> lib.records[i].pk != recordPk
    ensures StatusCode(ReturnBook(lib, req, recordPk, now).reply) == 404
    ensures Message(ReturnBook(lib, req, recordPk, now).reply) == "Borrowed record not found."
    ensures ReturnBook(lib, req, recordPk, now).lib == lib
    ensures StatusCode(ReturnBookAsWritten(lib, req, recordPk, now).reply) == 500
  {
  }

  /** The return view as written changes the database exactly as the corrected one
      does; only the reply to a missing loan differs. So it keeps the database
      consistent too. */
  lemma ReturnAsWrittenSameDatabase(lib: Library, req: Request, recordPk: nat, now: int)
    ensures ReturnBookAsWritten(lib, req, recordPk, now).lib == ReturnBook(lib, req, recordPk, now).lib
    ensures ReturnBookAsWritten(lib, req, recordPk, now).reply != ReturnBook(lib, req, recordPk, now).reply <==>
      req.session.SignedIn? && req.isPost && FindRecord(lib.records, recordPk).None?
    ensures Valid(lib) ==> Valid(ReturnBookAsWritten(lib, req, recordPk, now).lib)
  {
    if Valid(lib) {
      ReturnBookKeepsValid(lib, req, recordPk, now);
    }
  }
}
