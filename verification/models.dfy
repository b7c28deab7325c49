/** The library's database tables (`library/models.py`) as immutable records,
    and the integrity conditions the database and the views keep. */
module Models {
  import opened Wrappers
  import Seqs

  /** Default of both `Book.total_copies` and `Book.available_copies`. */
  const DefaultCopies: int := 1

  /** The descriptive columns of a book, the ones the book form edits. */
  datatype BookDetails = BookDetails(
    bookIdJson: string,
    bookName: string,
    author: string,
    description: string,
    publisher: string,
    publicationDate: Option<int>,
    language: string,
    pages: Option<int>,
    isbn: Option<string>)

  /** A row of the book table. `categories` holds the names of the linked categories. */
  datatype Book = Book(
    pk: nat,
    details: BookDetails,
    cover: Option<string>,
    categories: set<string>,
    totalCopies: int,
    availableCopies: int)

  datatype User = User(username: string, email: string, password: string, isAdmin: bool)

  /** A loan. Timestamps are abstract integers (seconds); `returnDate` is `None` while on loan. */
  datatype BorrowRecord = BorrowRecord(
    pk: nat,
    user: string,
    bookPk: nat,
    borrowDate: int,
    dueDate: int,
    returnDate: Option<int>)

  /** `Book.is_available`. */
  predicate IsAvailable(b: Book) {
    b.availableCopies > 0
  }

  /** `BorrowedBook.is_returned`. */
  predicate IsReturned(r: BorrowRecord) {
    r.returnDate.Some?
  }

  /** A book created without explicit copy counts takes the field defaults. */
  function NewBook(pk: nat, details: BookDetails): (b: Book)
    ensures b.pk == pk && b.details == details
    ensures CopiesOk(b) && IsAvailable(b)
  {
    Book(pk, details, None, {}, DefaultCopies, DefaultCopies)
  }

  /** The copy counts are non-negative and no more copies are on the shelf than exist. */
  predicate CopiesOk(b: Book) {
    0 <= b.availableCopies <= b.totalCopies
  }

  /** The whole database, with the next auto-increment keys of the two numbered tables. */
  datatype Library = Library(
    users: seq<User>,
    books: seq<Book>,
    records: seq<BorrowRecord>,
    categories: set<string>,
    nextBookPk: nat,
    nextRecordPk: nat)

  function FindBook(books: seq<Book>, pk: nat): (r: Option<nat>)
    ensures r.Some? ==> r.value < |books| && books[r.value].pk == pk
    ensures r.None? <==> forall i :: 0 <= i < |books| ==> books[i].pk != pk
  {
    Seqs.FirstIndex(books, (b: Book) => b.pk == pk)
  }

  function FindRecord(records: seq<BorrowRecord>, pk: nat): (r: Option<nat>)
    ensures r.Some? ==> r.value < |records| && records[r.value].pk == pk
    ensures r.None? <==> forall i :: 0 <= i < |records| ==> records[i].pk != pk
  {
    Seqs.FirstIndex(records, (rec: BorrowRecord) => rec.pk == pk)
  }

  function FindUser(users: seq<User>, username: string): (r: Option<nat>)
    ensures r.Some? ==> r.value < |users| && users[r.value].username == username
    ensures r.None? <==> forall i :: 0 <= i < |users| ==> users[i].username != username
  {
    Seqs.FirstIndex(users, (u: User) => u.username == username)
  }

  /** `user` holds `book` now: an unreturned record links them. */
  predicate OpenLoan(r: BorrowRecord, user: string, bookPk: nat) {
    r.user == user && r.bookPk == bookPk && !IsReturned(r)
  }

  predicate HasOpenLoan(records: seq<BorrowRecord>, user: string, bookPk: nat) {
    exists i :: 0 <= i < |records| && OpenLoan(records[i], user, bookPk)
  }

  predicate BookOnLoan(records: seq<BorrowRecord>, bookPk: nat) {
    exists i :: 0 <= i < |records| && records[i].bookPk == bookPk && !IsReturned(records[i])
  }

  ghost predicate BooksOk(lib: Library) {
    && (forall i :: 0 <= i < |lib.books| ==> CopiesOk(lib.books[i]) && lib.books[i].pk < lib.nextBookPk)
    && (forall i, j :: 0 <= i < j < |lib.books| ==> lib.books[i].pk != lib.books[j].pk)
    && (forall i, j :: 0 <= i < j < |lib.books| ==>
          lib.books[i].details.bookIdJson != lib.books[j].details.bookIdJson)
  }

  ghost predicate RecordsOk(lib: Library) {
    && (forall i :: 0 <= i < |lib.records| ==> lib.records[i].pk < lib.nextRecordPk)
    && (forall i, j :: 0 <= i < j < |lib.records| ==> lib.records[i].pk != lib.records[j].pk)
    && (forall i :: 0 <= i < |lib.records| ==> FindBook(lib.books, lib.records[i].bookPk).Some?)
    && (forall i, j :: 0 <= i < j < |lib.records| && !IsReturned(lib.records[i]) && !IsReturned(lib.records[j]) ==>
          !(lib.records[i].user == lib.records[j].user && lib.records[i].bookPk == lib.records[j].bookPk))
  }

  ghost predicate UsersOk(lib: Library) {
    forall i, j :: 0 <= i < j < |lib.users| ==> lib.users[i].username != lib.users[j].username
  }

  /** The integrity of the database: copy bounds, unique keys, every loan points at
      an existing book, and no user holds two open loans of one book. */
  ghost predicate Valid(lib: Library) {
    BooksOk(lib) && RecordsOk(lib) && UsersOk(lib)
  }

  /** An available book, within its bounds, has at least one copy in total. */
  lemma AvailableMeansStock(b: Book)
    requires CopiesOk(b)
    ensures IsAvailable(b) ==> b.totalCopies >= 1
    ensures !IsAvailable(b) <==> b.availableCopies == 0
  {
  }
}
