/** The JSON API of `library/views.py` as state transitions over the database:
    each view takes the library and a request and yields a reply and the new library.
    Authentication is the request's session; `@login_required` turns an anonymous
    session into a redirect to the login page. */
module Views {
  import opened Wrappers
  import opened Text
  import opened Models
  import opened Forms
  import Seqs

  /** A loan lasts 14 days; timestamps are in seconds. */
  const LoanPeriod: int := 14 * 24 * 60 * 60
  const MinPasswordLength: nat := 8

  /** The detail of the `Http404` that `get_object_or_404` raises for a missing loan record. */
  const NoRecordMatches := "No BorrowedBook matches the given query."
  /** The detail of the `DoesNotExist` that following a loan to a missing book raises. */
  const NoBookMatches := "Book matching query does not exist."

  datatype Session = Anonymous | SignedIn(username: string, isAdmin: bool)

  datatype Request = Request(session: Session, isPost: bool)

  /** One entry of the admin's list of current loans. */
  datatype BorrowedRow = BorrowedRow(
    borrowedPk: nat,
    username: string,
    bookTitle: string,
    bookPk: nat,
    borrowDate: int,
    dueDate: int)

  /** The JSON bodies the views answer with, and two answers that are not JSON: the
      log-in redirect, and Django's HTML page for the `Http404` of `get_object_or_404`
      (`NotFound`). `RecordNotFound` is the return view's own JSON 404. */
  datatype Reply =
    | LoginRedirect
    | PermissionDenied
    | NotFound
    | RecordNotFound
    | PostRequired
    | InvalidData(errors: seq<FieldError>)
    | BookAdded(pk: nat, bookIdJson: string, bookName: string)
    | BookUpdated(pk: nat, bookIdJson: string, bookName: string)
    | StillBorrowed(bookName: string)
    | BookDeleted(bookName: string)
    | NotAvailable
    | AlreadyBorrowed
    | BookBorrowed(bookName: string, dueDate: int)
    | ReturnDenied
    | AlreadyReturned
    | ReturnError(detail: string)
    | BookReturned(bookName: string)
    | BorrowedList(rows: seq<BorrowedRow>)
    | InvalidJson
    | AllFieldsRequired
    | PasswordTooShort
    | UsernameTaken
    | EmailTaken
    | SignedUp
    | SignupFailed
    | CredentialsRequired
    | BadCredentials
    | LoggedIn(isAdmin: bool, username: string)

  /** The `success` flag of a reply's JSON body is true. */
  predicate Succeeded(r: Reply) {
    || r.BookAdded? || r.BookUpdated? || r.BookDeleted? || r.BookBorrowed?
    || r.BookReturned? || r.SignedUp? || r.LoggedIn?
  }

  /** The reply is a JSON body with a `success` flag: all but the redirect, the HTML
      404 page and the admin's loan list. */
  predicate Flagged(r: Reply) {
    !(r.LoginRedirect? || r.NotFound? || r.BorrowedList?)
  }

  /** The HTTP status of a reply. Every flagged reply is answered 200 exactly when it
      reports success, and every refusal with a 4xx or 5xx status. */
  function StatusCode(r: Reply): (code: nat)
    ensures Flagged(r) ==> (code == 200 <==> Succeeded(r))
    ensures Flagged(r) && !Succeeded(r) ==> 400 <= code < 600
    ensures code == 404 <==> r.NotFound? || r.RecordNotFound?
    ensures code == 500 <==> r.ReturnError? || r.SignupFailed?
  {
    match r
    case LoginRedirect => 302
    case PermissionDenied => 403
    case ReturnDenied => 403
    case NotFound => 404
    case RecordNotFound => 404
    case PostRequired => 405
    case ReturnError(_) => 500
    case SignupFailed => 500
    case BadCredentials => 401
    case InvalidData(_) => 400
    case StillBorrowed(_) => 400
    case NotAvailable => 400
    case AlreadyBorrowed => 400
    case AlreadyReturned => 400
    case InvalidJson => 400
    case AllFieldsRequired => 400
    case PasswordTooShort => 400
    case UsernameTaken => 400
    case EmailTaken => 400
    case CredentialsRequired => 400
    case _ => 200
  }

  /** The `message` field of a reply's JSON body. Every flagged reply carries a
      message except a successful log-in, whose body has none. */
  function Message(r: Reply): (m: string)
    ensures |m| == 0 <==> !Flagged(r) || r.LoggedIn?
  {
    match r
    case RecordNotFound => "Borrowed record not found."
    case PermissionDenied => "Permission denied."
    case ReturnDenied => "Permission denied to return this book."
    case PostRequired => "POST request required."
    case InvalidData(_) => "Invalid data."
    case BookAdded(_, _, _) => "Book added successfully!"
    case BookUpdated(_, _, _) => "Book updated successfully!"
    case StillBorrowed(name) => "Cannot delete \"" + name + "\"; it is currently borrowed."
    case BookDeleted(name) => "Book \"" + name + "\" deleted successfully."
    case NotAvailable => "Book is not available."
    case AlreadyBorrowed => "You have already borrowed this book."
    case BookBorrowed(name, _) => "\"" + name + "\" borrowed! Due: "
    case AlreadyReturned => "Book already returned."
    case ReturnError(detail) => "Error returning book: " + detail
    case BookReturned(name) => "\"" + name + "\" returned successfully."
    case InvalidJson => "Invalid JSON data."
    case AllFieldsRequired => "All fields are required."
    case PasswordTooShort => "Password must be at least 8 characters long."
    case UsernameTaken => "Username already exists."
    case EmailTaken => "Email already exists."
    case SignedUp => "Account created successfully! Please log in."
    case SignupFailed => "An unexpected error occurred during signup."
    case CredentialsRequired => "Username and password are required."
    case BadCredentials => "Invalid username or password."
    case _ => ""
  }

  datatype Step = Step(reply: Reply, lib: Library)

  predicate IsAdminSession(s: Session) {
    s.SignedIn? && s.isAdmin
  }

  /** The category names a book is linked to: the checkbox values, stripped, as a set. */
  function CategoryNames(names: seq<string>): (r: set<string>)
    ensures forall n :: n in names ==> Strip(n, PyWhitespace) in r
    ensures forall c :: c in r ==> exists n :: n in names && Strip(n, PyWhitespace) == c
  {
    set n | n in names :: Strip(n, PyWhitespace)
  }

  /** `add_book_api_view`. */
  function AddBook(lib: Library, req: Request, input: BookFormInput, categoryNames: seq<string>): (s: Step)
    ensures !s.reply.BookAdded? ==> s.lib == lib
    ensures req.session.Anonymous? <==> s.reply == LoginRedirect
    ensures (req.session.SignedIn? && !req.session.isAdmin) <==> s.reply == PermissionDenied
    ensures s.reply == PostRequired <==> IsAdminSession(req.session) && !req.isPost
    ensures s.reply.InvalidData? <==> IsAdminSession(req.session) && req.isPost && Validate(lib.books, None, input).Err?
    ensures s.reply.InvalidData? ==> s.reply.errors == FormErrors(lib.books, None, input) && s.reply.errors != []
    ensures s.reply.BookAdded? <==> IsAdminSession(req.session) && req.isPost && Validate(lib.books, None, input).Ok?
    ensures s.reply.BookAdded? ==>
      && |s.lib.books| == |lib.books| + 1
      && s.lib.books[..|lib.books|] == lib.books
      && s.lib.books[|lib.books|].pk == lib.nextBookPk == s.reply.pk
      && s.lib.books[|lib.books|].availableCopies == s.lib.books[|lib.books|].totalCopies
      && s.lib.books[|lib.books|].details == Validate(lib.books, None, input).value.details
      && s.lib.books[|lib.books|].totalCopies == Validate(lib.books, None, input).value.totalCopies
      && s.lib.books[|lib.books|].cover == Validate(lib.books, None, input).value.cover
      && s.lib.books[|lib.books|].categories == CategoryNames(categoryNames) <= s.lib.categories
      && CopiesOk(s.lib.books[|lib.books|])
      && (forall i :: 0 <= i < |lib.books| ==>
            lib.books[i].details.bookIdJson != s.lib.books[|lib.books|].details.bookIdJson)
      && s.lib.records == lib.records && s.lib.users == lib.users
      && s.lib.nextBookPk == lib.nextBookPk + 1 && s.lib.nextRecordPk == lib.nextRecordPk
  {
    if req.session.Anonymous? then Step(LoginRedirect, lib)
    else if !req.session.isAdmin then Step(PermissionDenied, lib)
    else if !req.isPost then Step(PostRequired, lib)
    else
      match Validate(lib.books, None, input)
      case Err(errors) => Step(InvalidData(errors), lib)
      case Ok(c) => Added(lib, c, categoryNames)
  }

  /** The save of an accepted add: the book takes the next key, the cleaned columns,
      the categories, and as many copies on the shelf as in total. */
  function Added(lib: Library, c: CleanedBook, categoryNames: seq<string>): (s: Step)
    requires c.totalCopies >= 0
    ensures s.reply == BookAdded(lib.nextBookPk, c.details.bookIdJson, c.details.bookName)
    ensures |s.lib.books| == |lib.books| + 1 && s.lib.books[..|lib.books|] == lib.books
    ensures var b := s.lib.books[|lib.books|];
      && b.pk == lib.nextBookPk && b.details == c.details && b.cover == c.cover
      && b.totalCopies == b.availableCopies == c.totalCopies && CopiesOk(b)
      && b.categories == CategoryNames(categoryNames) <= s.lib.categories
    ensures s.lib.records == lib.records && s.lib.users == lib.users
    ensures s.lib.nextBookPk == lib.nextBookPk + 1 && s.lib.nextRecordPk == lib.nextRecordPk
  {
    var names := CategoryNames(categoryNames);
    var b := Book(lib.nextBookPk, c.details, c.cover, names, c.totalCopies, c.totalCopies);
    var lib' := lib.(books := lib.books + [b], categories := lib.categories + names,
                     nextBookPk := lib.nextBookPk + 1);
    Step(BookAdded(b.pk, c.details.bookIdJson, c.details.bookName), lib')
  }

  /** `add_book_api_view` as written: the form keeps a blank ISBN as the empty string
      and checks it against the unique `isbn` column (`Forms.ValidateAsWritten`). */
  function AddBookAsWritten(lib: Library, req: Request, input: BookFormInput, categoryNames: seq<string>): (s: Step)
    ensures !(IsAdminSession(req.session) && req.isPost) ==> s == AddBook(lib, req, input, categoryNames)
    ensures !s.reply.BookAdded? ==> s.lib == lib
    ensures IsAdminSession(req.session) && req.isPost ==>
      && (s.reply.InvalidData? <==> ValidateAsWritten(lib.books, None, input).Err?)
      && (s.reply.InvalidData? ==> s.reply.errors == FormErrorsAsWritten(lib.books, None, input))
      && (s.reply.BookAdded? <==> ValidateAsWritten(lib.books, None, input).Ok?)
    ensures s.reply.BookAdded? ==>
      && |s.lib.books| == |lib.books| + 1 && s.lib.books[..|lib.books|] == lib.books
      && s.lib.books[|lib.books|].pk == lib.nextBookPk
      && s.lib.books[|lib.books|].details.isbn == Some(Strip(input.isbn, PyWhitespace))
      && CopiesOk(s.lib.books[|lib.books|])
      && (forall i :: 0 <= i < |lib.books| ==>
            lib.books[i].details.bookIdJson != s.lib.books[|lib.books|].details.bookIdJson)
      && s.lib.records == lib.records && s.lib.users == lib.users
      && s.lib.nextBookPk == lib.nextBookPk + 1 && s.lib.nextRecordPk == lib.nextRecordPk
  {
    if !(IsAdminSession(req.session) && req.isPost) then AddBook(lib, req, input, categoryNames)
    else
      match ValidateAsWritten(lib.books, None, input)
      case Err(errors) => Step(InvalidData(errors), lib)
      case Ok(c) => Added(lib, c, categoryNames)
  }

  /** As written, a form whose fields all clean and whose ISBN is blank is refused
      with the column's uniqueness error alone once a stored book holds a blank ISBN;
      the corrected view adds the book. */
  lemma BlankIsbnAddRefusedAsWritten(lib: Library, req: Request, input: BookFormInput, categoryNames: seq<string>, j: int)
    requires IsAdminSession(req.session) && req.isPost
    requires FieldsClean(lib.books, None, input) && Strip(input.isbn, PyWhitespace) == ""
    requires 0 <= j < |lib.books| && lib.books[j].details.isbn == Some("")
    ensures AddBookAsWritten(lib, req, input, categoryNames) == Step(InvalidData([FieldError("isbn", [IsbnTaken])]), lib)
    ensures AddBook(lib, req, input, categoryNames).reply.BookAdded?
  {
    BlankIsbnRefusedAsWritten(lib.books, None, input, j);
    BlankIsbnAccepted(lib.books, None, input);
  }

  /** Where no stored book holds a blank ISBN, the add view as written answers every
      request as the corrected one does. */
  lemma AddBookAgreesWithoutBlankIsbn(lib: Library, req: Request, input: BookFormInput, categoryNames: seq<string>)
    requires !IsbnStored(lib.books, None, "")
    ensures AddBookAsWritten(lib, req, input, categoryNames).reply == AddBook(lib, req, input, categoryNames).reply
  {
    AsWrittenAgreesWithoutBlankIsbn(lib.books, None, input);
  }

  /** The update view's copy rule: the shelf count is cut down to the new total. */
  function ClampedAvailable(available: int, total: int): (r: int)
    ensures r <= total && r <= available
    ensures r == available || r == total
  {
    if available > total then total else available
  }

  /** The stored book after an accepted edit: the form's columns and categories
      replace the old ones, the old cover stays unless a new one was uploaded, and
      the shelf count is cut down to the new total. */
  function Revise(lib: Library, i: nat, c: CleanedBook, categoryNames: seq<string>): (lib': Library)
    requires i < |lib.books|
    ensures |lib'.books| == |lib.books|
    ensures forall j :: 0 <= j < |lib.books| && j != i ==> lib'.books[j] == lib.books[j]
    ensures lib'.books[i].pk == lib.books[i].pk
    ensures lib'.books[i].details == c.details && lib'.books[i].totalCopies == c.totalCopies
    ensures lib'.books[i].availableCopies == ClampedAvailable(lib.books[i].availableCopies, c.totalCopies)
    ensures c.cover.None? ==> lib'.books[i].cover == lib.books[i].cover
    ensures c.cover.Some? ==> lib'.books[i].cover == c.cover
    ensures lib'.books[i].categories == CategoryNames(categoryNames) <= lib'.categories
    ensures lib'.records == lib.records && lib'.users == lib.users
    ensures lib'.nextBookPk == lib.nextBookPk && lib'.nextRecordPk == lib.nextRecordPk
  {
    var prev := lib.books[i];
    var names := CategoryNames(categoryNames);
    var b := prev.(details := c.details,
                   cover := if c.cover.Some? then c.cover else prev.cover,
                   categories := names,
                   totalCopies := c.totalCopies,
                   availableCopies := ClampedAvailable(prev.availableCopies, c.totalCopies));
    lib.(books := lib.books[i := b], categories := lib.categories + names)
  }

  /** `update_book_api_view`. */
  function UpdateBook(lib: Library, req: Request, pk: nat, input: BookFormInput, categoryNames: seq<string>): (s: Step)
    ensures !s.reply.BookUpdated? ==> s.lib == lib
    ensures req.session.Anonymous? <==> s.reply == LoginRedirect
    ensures (req.session.SignedIn? && !req.session.isAdmin) <==> s.reply == PermissionDenied
    ensures s.reply == NotFound <==> IsAdminSession(req.session) && FindBook(lib.books, pk).None?
    ensures s.reply == PostRequired <==> IsAdminSession(req.session) && FindBook(lib.books, pk).Some? && !req.isPost
    ensures s.reply.InvalidData? <==>
      IsAdminSession(req.session) && FindBook(lib.books, pk).Some? && req.isPost && Validate(lib.books, Some(pk), input).Err?
    ensures s.reply.InvalidData? ==> s.reply.errors == FormErrors(lib.books, Some(pk), input) && s.reply.errors != []
    ensures s.reply.BookUpdated? <==>
      && IsAdminSession(req.session) && FindBook(lib.books, pk).Some? && req.isPost
      && Validate(lib.books, Some(pk), input).Ok?
    ensures s.reply.BookUpdated? ==>
      && FindBook(lib.books, pk).Some? && Validate(lib.books, Some(pk), input).Ok?
      && s.lib == Revise(lib, FindBook(lib.books, pk).value, Validate(lib.books, Some(pk), input).value, categoryNames)
      && (forall j :: 0 <= j < |lib.books| && lib.books[j].pk != pk ==>
            lib.books[j].details.bookIdJson != s.lib.books[FindBook(lib.books, pk).value].details.bookIdJson)
  {
    if req.session.Anonymous? then Step(LoginRedirect, lib)
    else if !req.session.isAdmin then Step(PermissionDenied, lib)
    else
      match FindBook(lib.books, pk)
      case None => Step(NotFound, lib)
      case Some(i) =>
        if !req.isPost then Step(PostRequired, lib)
        else
          match Validate(lib.books, Some(pk), input)
          case Err(errors) => Step(InvalidData(errors), lib)
          case Ok(c) => Step(BookUpdated(pk, c.details.bookIdJson, c.details.bookName), Revise(lib, i, c, categoryNames))
  }

  /** `update_book_api_view` as written, over `Forms.ValidateAsWritten`. */
  function UpdateBookAsWritten(lib: Library, req: Request, pk: nat, input: BookFormInput, categoryNames: seq<string>): (s: Step)
    ensures !(IsAdminSession(req.session) && FindBook(lib.books, pk).Some? && req.isPost) ==>
      s == UpdateBook(lib, req, pk, input, categoryNames)
    ensures !s.reply.BookUpdated? ==> s.lib == lib
    ensures IsAdminSession(req.session) && FindBook(lib.books, pk).Some? && req.isPost ==>
      && (s.reply.InvalidData? <==> ValidateAsWritten(lib.books, Some(pk), input).Err?)
      && (s.reply.InvalidData? ==> s.reply.errors == FormErrorsAsWritten(lib.books, Some(pk), input))
      && (s.reply.BookUpdated? <==> ValidateAsWritten(lib.books, Some(pk), input).Ok?)
    ensures s.reply.BookUpdated? ==>
      && FindBook(lib.books, pk).Some? && ValidateAsWritten(lib.books, Some(pk), input).Ok?
      && var i := FindBook(lib.books, pk).value;
      && s.lib == Revise(lib, i, ValidateAsWritten(lib.books, Some(pk), input).value, categoryNames)
      && s.lib.books[i].details.isbn == Some(Strip(input.isbn, PyWhitespace))
      && (forall j :: 0 <= j < |lib.books| && lib.books[j].pk != pk ==>
            lib.books[j].details.bookIdJson != s.lib.books[i].details.bookIdJson)
  {
    if !(IsAdminSession(req.session) && FindBook(lib.books, pk).Some? && req.isPost) then
      UpdateBook(lib, req, pk, input, categoryNames)
    else
      var i := FindBook(lib.books, pk).value;
      match ValidateAsWritten(lib.books, Some(pk), input)
      case Err(errors) => Step(InvalidData(errors), lib)
      case Ok(c) => Step(BookUpdated(pk, c.details.bookIdJson, c.details.bookName), Revise(lib, i, c, categoryNames))
  }

  /** As written, an edit with a blank ISBN is refused with the uniqueness error alone
      when another book holds a blank ISBN; the corrected view saves it. */
  lemma BlankIsbnUpdateRefusedAsWritten(lib: Library, req: Request, pk: nat, input: BookFormInput, categoryNames: seq<string>, j: int)
    requires IsAdminSession(req.session) && req.isPost && FindBook(lib.books, pk).Some?
    requires FieldsClean(lib.books, Some(pk), input) && Strip(input.isbn, PyWhitespace) == ""
    requires 0 <= j < |lib.books| && lib.books[j].details.isbn == Some("") && lib.books[j].pk != pk
    ensures UpdateBookAsWritten(lib, req, pk, input, categoryNames) == Step(InvalidData([FieldError("isbn", [IsbnTaken])]), lib)
    ensures UpdateBook(lib, req, pk, input, categoryNames).reply.BookUpdated?
  {
    BlankIsbnRefusedAsWritten(lib.books, Some(pk), input, j);
    BlankIsbnAccepted(lib.books, Some(pk), input);
  }

  /** Where no other book holds a blank ISBN, the edit view as written answers every
      request as the corrected one does. */
  lemma UpdateBookAgreesWithoutBlankIsbn(lib: Library, req: Request, pk: nat, input: BookFormInput, categoryNames: seq<string>)
    requires !IsbnStored(lib.books, Some(pk), "")
    ensures UpdateBookAsWritten(lib, req, pk, input, categoryNames).reply == UpdateBook(lib, req, pk, input, categoryNames).reply
  {
    AsWrittenAgreesWithoutBlankIsbn(lib.books, Some(pk), input);
  }

  /** `delete_book_api_view`. Deleting a book cascades to its (returned) loan records. */
  function DeleteBook(lib: Library, req: Request, pk: nat): (s: Step)
    ensures !s.reply.BookDeleted? ==> s.lib == lib
    ensures s.reply == NotFound <==> IsAdminSession(req.session) && FindBook(lib.books, pk).None?
    ensures s.reply.StillBorrowed? <==>
      IsAdminSession(req.session) && FindBook(lib.books, pk).Some? && req.isPost && BookOnLoan(lib.records, pk)
    ensures s.reply.BookDeleted? <==>
      IsAdminSession(req.session) && FindBook(lib.books, pk).Some? && req.isPost && !BookOnLoan(lib.records, pk)
    ensures s.reply.BookDeleted? ==>
      && (forall b :: b in s.lib.books <==> b in lib.books && b.pk != pk)
      && (forall r :: r in s.lib.records <==> r in lib.records && r.bookPk != pk)
      && Seqs.Subsequence(s.lib.books, lib.books) && Seqs.Subsequence(s.lib.records, lib.records)
      && s.lib.users == lib.users
      && s.lib.nextBookPk == lib.nextBookPk && s.lib.nextRecordPk == lib.nextRecordPk
  {
    if req.session.Anonymous? then Step(LoginRedirect, lib)
    else if !req.session.isAdmin then Step(PermissionDenied, lib)
    else
      match FindBook(lib.books, pk)
      case None => Step(NotFound, lib)
      case Some(i) =>
        if !req.isPost then Step(PostRequired, lib)
        else if BookOnLoan(lib.records, pk) then Step(StillBorrowed(lib.books[i].details.bookName), lib)
        else
          var books := Seqs.Filter(lib.books, (b: Book) => b.pk != pk);
          var records := Seqs.Filter(lib.records, (r: BorrowRecord) => r.bookPk != pk);
          assert forall b :: b in books <==> multiset(books)[b] > 0;
          assert forall r :: r in records <==> multiset(records)[r] > 0;
          Step(BookDeleted(lib.books[i].details.bookName), lib.(books := books, records := records))
  }

  /** `borrow_book_api_view`. */
  function BorrowBook(lib: Library, req: Request, pk: nat, now: int): (s: Step)
    ensures !s.reply.BookBorrowed? ==> s.lib == lib
    ensures req.session.Anonymous? <==> s.reply == LoginRedirect
    ensures s.reply == NotAvailable <==>
      && req.session.SignedIn? && req.isPost && FindBook(lib.books, pk).Some?
      && !IsAvailable(lib.books[FindBook(lib.books, pk).value])
    ensures s.reply == AlreadyBorrowed <==>
      && req.session.SignedIn? && req.isPost && FindBook(lib.books, pk).Some?
      && IsAvailable(lib.books[FindBook(lib.books, pk).value])
      && HasOpenLoan(lib.records, req.session.username, pk)
    ensures s.reply.BookBorrowed? <==>
      && req.session.SignedIn? && req.isPost && FindBook(lib.books, pk).Some?
      && IsAvailable(lib.books[FindBook(lib.books, pk).value])
      && !HasOpenLoan(lib.records, req.session.username, pk)
    ensures s.reply.BookBorrowed? ==>
      && var i := FindBook(lib.books, pk).value;
      && s.lib.books == lib.books[i := lib.books[i].(availableCopies := lib.books[i].availableCopies - 1)]
      && s.lib.records == lib.records + [BorrowRecord(lib.nextRecordPk, req.session.username, pk, now, now + LoanPeriod, None)]
      && s.reply.dueDate == now + LoanPeriod
      && s.lib.users == lib.users && s.lib.categories == lib.categories
      && s.lib.nextBookPk == lib.nextBookPk && s.lib.nextRecordPk == lib.nextRecordPk + 1
  {
    if req.session.Anonymous? then Step(LoginRedirect, lib)
    else if !req.isPost then Step(PostRequired, lib)
    else
      match FindBook(lib.books, pk)
      case None => Step(NotFound, lib)
      case Some(i) =>
        var b := lib.books[i];
        if !IsAvailable(b) then Step(NotAvailable, lib)
        else if HasOpenLoan(lib.records, req.session.username, pk) then Step(AlreadyBorrowed, lib)
        else
          var due := now + LoanPeriod;
          var rec := BorrowRecord(lib.nextRecordPk, req.session.username, pk, now, due, None);
          var lib' := lib.(books := lib.books[i := b.(availableCopies := b.availableCopies - 1)],
                           records := lib.records + [rec],
                           nextRecordPk := lib.nextRecordPk + 1);
          Step(BookBorrowed(b.details.bookName, due), lib')
  }

  /** The caller may return the record: it is theirs, or they are an admin. */
  predicate MayReturn(s: Session, r: BorrowRecord) {
    s.SignedIn? && (r.user == s.username || s.isAdmin)
  }

  /** The return view's copy rule: one more copy on the shelf, never more than exist. */
  function ReturnedAvailable(available: int, total: int): (r: int)
    ensures r <= total
    ensures available < total ==> r == available + 1
    ensures available >= total ==> r == total
  {
    var n := available + 1;
    if n > total then total else n
  }

  /** `return_book_api_view`, with a missing record answered by 404 "Borrowed record not found." */
  function ReturnBook(lib: Library, req: Request, recordPk: nat, now: int): (s: Step)
    ensures !s.reply.BookReturned? ==> s.lib == lib
    ensures s.reply == RecordNotFound <==> req.session.SignedIn? && req.isPost && FindRecord(lib.records, recordPk).None?
    ensures s.reply == ReturnDenied <==>
      && req.session.SignedIn? && req.isPost && FindRecord(lib.records, recordPk).Some?
      && !MayReturn(req.session, lib.records[FindRecord(lib.records, recordPk).value])
    ensures s.reply == AlreadyReturned <==>
      && req.session.SignedIn? && req.isPost && FindRecord(lib.records, recordPk).Some?
      && MayReturn(req.session, lib.records[FindRecord(lib.records, recordPk).value])
      && IsReturned(lib.records[FindRecord(lib.records, recordPk).value])
    ensures s.reply.BookReturned? ==>
      && FindRecord(lib.records, recordPk).Some?
      && var ri := FindRecord(lib.records, recordPk).value;
      && var rec := lib.records[ri];
      && MayReturn(req.session, rec) && !IsReturned(rec)
      && FindBook(lib.books, rec.bookPk).Some?
      && var bi := FindBook(lib.books, rec.bookPk).value;
      && var b := lib.books[bi];
      && s.lib.records == lib.records[ri := rec.(returnDate := Some(now))]
      && s.lib.books == lib.books[bi := b.(availableCopies := ReturnedAvailable(b.availableCopies, b.totalCopies))]
      && s.lib.users == lib.users && s.lib.categories == lib.categories
      && s.lib.nextBookPk == lib.nextBookPk && s.lib.nextRecordPk == lib.nextRecordPk
  {
    if req.session.Anonymous? then Step(LoginRedirect, lib)
    else if !req.isPost then Step(PostRequired, lib)
    else
      match FindRecord(lib.records, recordPk)
      case None => Step(RecordNotFound, lib)
      case Some(ri) =>
        var rec := lib.records[ri];
        if !MayReturn(req.session, rec) then Step(ReturnDenied, lib)
        else if IsReturned(rec) then Step(AlreadyReturned, lib)
        else
          match FindBook(lib.books, rec.bookPk)
          case None => Step(ReturnError(NoBookMatches), lib)
          case Some(bi) =>
            var b := lib.books[bi];
            var lib' := lib.(records := lib.records[ri := rec.(returnDate := Some(now))],
                             books := lib.books[bi := b.(availableCopies := ReturnedAvailable(b.availableCopies, b.totalCopies))]);
            Step(BookReturned(b.details.bookName), lib')
  }

  /** `return_book_api_view` as written: `get_object_or_404` raises `Http404` inside the
      `try`, where `except Exception` turns it into a 500 reply carrying the exception's
      text; the `except BorrowedBook.DoesNotExist` branch can never run. */
  function ReturnBookAsWritten(lib: Library, req: Request, recordPk: nat, now: int): (s: Step)
    ensures req.session.SignedIn? && req.isPost && FindRecord(lib.records, recordPk).None? ==>
      s == Step(ReturnError(NoRecordMatches), lib)
    ensures !(req.session.SignedIn? && req.isPost && FindRecord(lib.records, recordPk).None?) ==>
      s == ReturnBook(lib, req, recordPk, now)
  {
    if req.session.SignedIn? && req.isPost && FindRecord(lib.records, recordPk).None? then Step(ReturnError(NoRecordMatches), lib)
    else ReturnBook(lib, req, recordPk, now)
  }

  function OpenRecords(records: seq<BorrowRecord>): (r: seq<BorrowRecord>)
    ensures forall x :: multiset(r)[x] == if !IsReturned(x) then multiset(records)[x] else 0
  {
    Seqs.Filter(records, (x: BorrowRecord) => !IsReturned(x))
  }

  /** The row the admin table shows for a loan. */
  function RowOf(lib: Library, rec: BorrowRecord): BorrowedRow {
    var title := match FindBook(lib.books, rec.bookPk) { case Some(i) => lib.books[i].details.bookName case None => "" };
    BorrowedRow(rec.pk, rec.user, title, rec.bookPk, rec.borrowDate, rec.dueDate)
  }

  /** `order_by('due_date', 'user__username')`, usernames compared by the database's collation. */
  function DueOrder(usernameLe: (string, string) -> bool): (BorrowedRow, BorrowedRow) -> bool {
    (a: BorrowedRow, b: BorrowedRow) =>
      a.dueDate < b.dueDate || (a.dueDate == b.dueDate && usernameLe(a.username, b.username))
  }

  /** One row per unreturned loan, in the order the records are stored; the title is
      that of the loan's book. */
  function OpenRows(lib: Library): (rows: seq<BorrowedRow>)
    ensures var open := OpenRecords(lib.records);
      && |rows| == |open|
      && forall i :: 0 <= i < |rows| ==>
           && rows[i].borrowedPk == open[i].pk && rows[i].username == open[i].user
           && rows[i].bookPk == open[i].bookPk
           && rows[i].borrowDate == open[i].borrowDate && rows[i].dueDate == open[i].dueDate
           && (FindBook(lib.books, open[i].bookPk).Some? ==>
                 rows[i].bookTitle == lib.books[FindBook(lib.books, open[i].bookPk).value].details.bookName)
  {
    var open := OpenRecords(lib.records);
    seq(|open|, i requires 0 <= i < |open| => RowOf(lib, open[i]))
  }

  /** `all_borrowed_books_api_view`. */
  function AllBorrowed(lib: Library, req: Request, usernameLe: (string, string) -> bool): (s: Step)
    ensures s.lib == lib
    ensures req.session.Anonymous? <==> s.reply == LoginRedirect
    ensures (req.session.SignedIn? && !req.session.isAdmin) <==> s.reply == PermissionDenied
    ensures IsAdminSession(req.session) <==> s.reply.BorrowedList?
    ensures s.reply.BorrowedList? ==> multiset(s.reply.rows) == multiset(OpenRows(lib))
  {
    if req.session.Anonymous? then Step(LoginRedirect, lib)
    else if !req.session.isAdmin then Step(PermissionDenied, lib)
    else Step(BorrowedList(Seqs.Sort(OpenRows(lib), DueOrder(usernameLe))), lib)
  }

  /** The fields of a JSON body; an absent key is `None`. */
  datatype SignupBody = SignupBody(username: Option<string>, email: Option<string>,
                                   password: Option<string>, isAdmin: Option<string>)

  datatype LoginBody = LoginBody(username: Option<string>, password: Option<string>)

  /** A JSON value Python treats as true: present and non-empty. */
  predicate Given(v: Option<string>) {
    v.Some? && v.value != ""
  }

  predicate UsernameInUse(users: seq<User>, name: string) {
    exists i :: 0 <= i < |users| && users[i].username == name
  }

  predicate EmailInUse(users: seq<User>, email: string) {
    exists i :: 0 <= i < |users| && users[i].email == email
  }

  /** The position of the last `c` in `s`. */
  function LastIndexOf(s: string, c: char): (r: Option<nat>)
    ensures r.Some? ==> r.value < |s| && s[r.value] == c && c !in s[r.value + 1..]
    ensures r.None? <==> c !in s
  {
    if s == [] then None
    else if s[|s| - 1] == c then Some(|s| - 1)
    else
      var r := LastIndexOf(s[..|s| - 1], c);
      assert r.Some? ==> s[r.value + 1..] == s[..|s| - 1][r.value + 1..] + [s[|s| - 1]];
      r
  }

  /** `UserManager.normalize_email`: an address with an `@` is stripped and the part
      after its last `@` (the domain) lower-cased; an address without one is kept as it came. */
  function NormalizeEmail(email: string): (r: string)
    ensures '@' !in Strip(email, PyWhitespace) ==> r == email
    ensures var s := Strip(email, PyWhitespace);
      forall k :: 0 <= k < |s| && s[k] == '@' && '@' !in s[k + 1..] ==> r == s[..k + 1] + Lower(s[k + 1..])
  {
    var s := Strip(email, PyWhitespace);
    if '@' in s then LowerDomain(s) else email
  }

  /** An address with its part after the last `@` lower-cased. */
  function LowerDomain(s: string): (r: string)
    requires '@' in s
    ensures forall k :: 0 <= k < |s| && s[k] == '@' && '@' !in s[k + 1..] ==> r == s[..k + 1] + Lower(s[k + 1..])
  {
    var k := LastIndexOf(s, '@').value;
    LastIsUnique(s, '@', k);
    s[..k + 1] + Lower(s[k + 1..])
  }

  /** A string has one last occurrence of a character. */
  lemma LastIsUnique(s: string, c: char, k: nat)
    requires k < |s| && s[k] == c && c !in s[k + 1..]
    ensures forall j :: 0 <= j < |s| && s[j] == c && c !in s[j + 1..] ==> j == k
  {
    forall j | k < j < |s| ensures s[j] != c {
      assert s[j] == s[k + 1..][j - k - 1];
    }
    forall j | 0 <= j < k && s[j] == c ensures c in s[j + 1..] {
      assert s[j + 1..][k - j - 1] == c;
    }
  }

  /** Normalizing a normalized address changes nothing: the address is already
      stripped, its last `@` stays where it was, and its domain is already lower-case. */
  lemma NormalizeEmailIdempotent(email: string)
    ensures NormalizeEmail(NormalizeEmail(email)) == NormalizeEmail(email)
  {
    var s := Strip(email, PyWhitespace);
    if '@' in s {
      assert NormalizeEmail(email) == LowerDomain(s);
      NormalizeLowered(s);
    }
  }

  /** A stripped address whose domain is lower-cased is its own normal form. */
  lemma NormalizeLowered(s: string)
    requires '@' in s && !PyWhitespace(s[0]) && !PyWhitespace(s[|s| - 1])
    ensures NormalizeEmail(LowerDomain(s)) == LowerDomain(s)
  {
    LowerDomainStripped(s);
    LowerDomainIdempotent(s);
  }

  /** A stripped address stays stripped when its domain is lower-cased. */
  lemma LowerDomainStripped(s: string)
    requires '@' in s && !PyWhitespace(s[0]) && !PyWhitespace(s[|s| - 1])
    ensures Strip(LowerDomain(s), PyWhitespace) == LowerDomain(s)
  {
    var k := LastIndexOf(s, '@').value;
    assert LowerDomain(s) == s[..k + 1] + Lower(s[k + 1..]);
    NormalizedEnds(s, k);
    StripNoop(LowerDomain(s), PyWhitespace);
  }

  /** Lower-casing the domain twice is lower-casing it once. */
  lemma LowerDomainIdempotent(s: string)
    requires '@' in s
    ensures '@' in LowerDomain(s) && LowerDomain(LowerDomain(s)) == LowerDomain(s)
  {
    var k := LastIndexOf(s, '@').value;
    var r := LowerDomain(s);
    assert r == s[..k + 1] + Lower(s[k + 1..]);
    LastAtStays(s, k);
    assert r[k] == '@' && '@' !in r[k + 1..];
    assert LowerDomain(r) == r[..k + 1] + Lower(r[k + 1..]);
    assert r[k + 1..] == Lower(s[k + 1..]) && r[..k + 1] == s[..k + 1];
    LowerIdempotent(s[k + 1..]);
  }

  /** Lower-casing the domain neither adds nor moves an `@`, so the last `@` of the
      normalized address is the one normalization found. */
  lemma LastAtStays(s: string, k: nat)
    requires k < |s| && s[k] == '@' && '@' !in s[k + 1..]
    ensures LastIndexOf(s[..k + 1] + Lower(s[k + 1..]), '@') == Some(k)
  {
    var r := s[..k + 1] + Lower(s[k + 1..]);
    assert r[k + 1..] == Lower(s[k + 1..]);
    forall i | k + 1 <= i < |r|
      ensures r[i] != '@'
    {
      assert r[i] == LowerChar(s[i]);
      assert s[i] == s[k + 1..][i - k - 1];
    }
  }

  /** A stripped address whose domain is lower-cased is still stripped. */
  lemma NormalizedEnds(s: string, k: nat)
    requires s != [] && !PyWhitespace(s[0]) && !PyWhitespace(s[|s| - 1])
    requires k < |s| && s[k] == '@'
    ensures var r := s[..k + 1] + Lower(s[k + 1..]);
      !PyWhitespace(r[0]) && !PyWhitespace(r[|r| - 1])
  {
    var r := s[..k + 1] + Lower(s[k + 1..]);
    assert r[0] == s[0];
    if k + 1 < |s| {
      assert r[|r| - 1] == LowerChar(s[|s| - 1]);
    } else {
      assert r[|r| - 1] == s[k];
    }
  }

  /** `signup_api_view`; `body` is `None` when the request body is not JSON. The
      account is made by `create_user`, which stores the username as `nfkc` (Unicode
      normalization form NFKC) maps it and the address as `NormalizeEmail` does; a
      normalized name that is already taken breaks the username's uniqueness, and the
      view answers that with its generic 500 reply. */
  function Signup(lib: Library, isPost: bool, body: Option<SignupBody>, nfkc: string -> string): (s: Step)
    ensures !s.reply.SignedUp? ==> s.lib == lib
    ensures s.reply == AllFieldsRequired <==>
      isPost && body.Some? && !(Given(body.value.username) && Given(body.value.email) && Given(body.value.password))
    ensures s.reply == PasswordTooShort ==>
      body.Some? && Given(body.value.password) && |body.value.password.value| < MinPasswordLength
    ensures s.reply == UsernameTaken ==>
      body.Some? && Given(body.value.username) && UsernameInUse(lib.users, body.value.username.value)
    ensures s.reply == EmailTaken ==>
      body.Some? && Given(body.value.email) && EmailInUse(lib.users, body.value.email.value)
    ensures s.reply == SignupFailed <==>
      && isPost && body.Some?
      && Given(body.value.username) && Given(body.value.email) && Given(body.value.password)
      && |body.value.password.value| >= MinPasswordLength
      && !UsernameInUse(lib.users, body.value.username.value)
      && !EmailInUse(lib.users, body.value.email.value)
      && UsernameInUse(lib.users, nfkc(body.value.username.value))
    ensures s.reply == SignupFailed ==> nfkc(body.value.username.value) != body.value.username.value
    ensures s.reply.SignedUp? <==>
      && isPost && body.Some?
      && Given(body.value.username) && Given(body.value.email) && Given(body.value.password)
      && |body.value.password.value| >= MinPasswordLength
      && !UsernameInUse(lib.users, body.value.username.value)
      && !EmailInUse(lib.users, body.value.email.value)
      && !UsernameInUse(lib.users, nfkc(body.value.username.value))
    ensures s.reply.SignedUp? ==>
      && |s.lib.users| == |lib.users| + 1 && s.lib.users[..|lib.users|] == lib.users
      && s.lib == lib.(users := s.lib.users)
      && s.lib.users[|lib.users|].username == nfkc(body.value.username.value)
      && s.lib.users[|lib.users|].email == NormalizeEmail(body.value.email.value)
      && s.lib.users[|lib.users|].password == body.value.password.value
      && s.lib.users[|lib.users|].isAdmin == (Lower(body.value.isAdmin.GetOr("false")) == "true")
  {
    if !isPost then Step(PostRequired, lib)
    else
      match body
      case None => Step(InvalidJson, lib)
      case Some(d) =>
        if !(Given(d.username) && Given(d.email) && Given(d.password)) then Step(AllFieldsRequired, lib)
        else if |d.password.value| < MinPasswordLength then Step(PasswordTooShort, lib)
        else if UsernameInUse(lib.users, d.username.value) then Step(UsernameTaken, lib)
        else if EmailInUse(lib.users, d.email.value) then Step(EmailTaken, lib)
        else
          var name := nfkc(d.username.value);
          if UsernameInUse(lib.users, name) then Step(SignupFailed, lib)
          else
            var u := User(name, NormalizeEmail(d.email.value), d.password.value,
                          Lower(d.isAdmin.GetOr("false")) == "true");
            Step(SignedUp, lib.(users := lib.users + [u]))
  }

  /** `authenticate`: a user with this name whose password matches. */
  function Authenticate(users: seq<User>, username: string, password: string): (r: Option<User>)
    ensures r.Some? ==> r.value in users && r.value.username == username && r.value.password == password
    ensures r.None? ==> forall i :: 0 <= i < |users| && users[i].username == username ==>
      users[FindUser(users, username).value].password != password
  {
    match FindUser(users, username)
    case None => None
    case Some(i) => if users[i].password == password then Some(users[i]) else None
  }

  /** `login_api_view`. Logging in changes the session, not the database. */
  function Login(lib: Library, isPost: bool, body: Option<LoginBody>): (s: Step)
    ensures s.lib == lib
    ensures s.reply == CredentialsRequired <==>
      isPost && body.Some? && !(Given(body.value.username) && Given(body.value.password))
    ensures s.reply.LoggedIn? ==>
      && isPost && body.Some? && Given(body.value.username) && Given(body.value.password)
      && exists i :: 0 <= i < |lib.users| && lib.users[i].username == body.value.username.value
           && lib.users[i].password == body.value.password.value
           && lib.users[i].isAdmin == s.reply.isAdmin && lib.users[i].username == s.reply.username
  {
    if !isPost then Step(PostRequired, lib)
    else
      match body
      case None => Step(InvalidJson, lib)
      case Some(d) =>
        if !(Given(d.username) && Given(d.password)) then Step(CredentialsRequired, lib)
        else
          match Authenticate(lib.users, d.username.value, d.password.value)
          case None => Step(BadCredentials, lib)
          case Some(u) => Step(LoggedIn(u.isAdmin, u.username), lib)
  }
}
