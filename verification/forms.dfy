/** The book form (`library/forms.py`): per-field cleaning as Django's form fields
    perform it, and the two uniqueness checks `clean_book_id_json` and `clean_isbn`. */
module Forms {
  import opened Wrappers
  import opened Text
  import opened Models
  import Seqs

  const BookIdMaxLength: nat := 20
  const NameMaxLength: nat := 255
  const PublisherMaxLength: nat := 255
  const LanguageMaxLength: nat := 50
  const IsbnMaxLength: nat := 20
  const MinTotalCopies: int := 0
  const MinPages: int := 1

  /** What an integer field was sent: nothing, a whole number, or text that is not one. */
  datatype IntInput = Blank | Whole(n: int) | NotWhole

  /** What a date field was sent: nothing, a day (as an abstract integer), or an invalid date. */
  datatype DateInput = NoDate | Day(d: int) | BadDate

  /** The submitted form fields, before cleaning. */
  datatype BookFormInput = BookFormInput(
    bookIdJson: string,
    bookName: string,
    author: string,
    totalCopies: IntInput,
    description: string,
    publisher: string,
    publicationDate: DateInput,
    language: string,
    pages: IntInput,
    isbn: string,
    cover: Option<string>)

  datatype ErrorKind =
    | Required
    | TooLong(maxLength: nat, length: nat)
    | NullCharacter
    | NotAnInteger
    | BelowMinimum(minimum: int)
    | InvalidDate
    | DuplicateBookId
    | DuplicateIsbn
    | IsbnTaken

  /** One key of `form.errors`: a field's name and its errors, in the order they were
      raised. The check list `Checks` also holds the fields that passed, with no errors. */
  datatype FieldError = FieldError(field: string, kinds: seq<ErrorKind>)

  datatype CleanedBook = CleanedBook(details: BookDetails, totalCopies: int, cover: Option<string>)

  /** The message of each error, as Django's fields and validators and the form's own
      clean methods word it. */
  function KindMessage(k: ErrorKind): string {
    match k
    case DuplicateBookId => "Another book with this ID already exists."
    case DuplicateIsbn => "Another book with this ISBN already exists."
    case IsbnTaken => "Book with this Isbn already exists."
    case Required => "This field is required."
    case NullCharacter => "Null characters are not allowed."
    case NotAnInteger => "Enter a whole number."
    case InvalidDate => "Enter a valid date."
    case TooLong(m, n) =>
      "Ensure this value has at most " + NatString(m) + " characters (it has " + NatString(n) + ")."
    case BelowMinimum(m) => "Ensure this value is greater than or equal to " + IntString(m) + "."
  }

  /** The validators a non-empty `CharField` value runs, every one of them: the length
      limit when the field has a `max_length`, then the refusal of NUL characters. */
  function CharValidatorErrors(v: string, maxLength: Option<nat>): seq<ErrorKind> {
    (if maxLength.Some? && |v| > maxLength.value then [TooLong(maxLength.value, |v|)] else [])
    + (if '\0' in v then [NullCharacter] else [])
  }

  /** A `CharField`: strips surrounding whitespace; a blank value is refused when the
      field is required and otherwise accepted as the empty string; any other value is
      refused with every validator error that applies. */
  function CleanChar(raw: string, required: bool, maxLength: Option<nat>): (r: Result<string, seq<ErrorKind>>)
    ensures r.Ok? ==> r.value == Strip(raw, PyWhitespace)
    ensures r.Ok? && maxLength.Some? ==> |r.value| <= maxLength.value
    ensures r.Ok? && required ==> r.value != ""
    ensures r.Ok? ==> '\0' !in r.value
    ensures r.Err? <==>
      || (required && Strip(raw, PyWhitespace) == "")
      || (maxLength.Some? && |Strip(raw, PyWhitespace)| > maxLength.value)
      || '\0' in Strip(raw, PyWhitespace)
    ensures r.Err? ==> r.error != []
  {
    var v := Strip(raw, PyWhitespace);
    if v == "" then (if required then Err([Required]) else Ok(v))
    else
      var es := CharValidatorErrors(v, maxLength);
      if es == [] then Ok(v) else Err(es)
  }

  /** A refused text field reports `Required` alone for a blank value, and otherwise
      every validator that fails: the length limit and the NUL refusal both, when both apply. */
  lemma CleanCharErrors(raw: string, required: bool, maxLength: Option<nat>)
    requires CleanChar(raw, required, maxLength).Err?
    ensures var v := Strip(raw, PyWhitespace);
      var es := CleanChar(raw, required, maxLength).error;
      && (v == "" ==> es == [Required])
      && (v != "" ==>
            && (NullCharacter in es <==> '\0' in v)
            && (TooLong(maxLength.GetOr(0), |v|) in es <==> maxLength.Some? && |v| > maxLength.value)
            && Required !in es)
  {
    var v := Strip(raw, PyWhitespace);
    if v != "" {
      var tooLong: seq<ErrorKind> := if maxLength.Some? && |v| > maxLength.value then [TooLong(maxLength.value, |v|)] else [];
      var nul: seq<ErrorKind> := if '\0' in v then [NullCharacter] else [];
      assert CleanChar(raw, required, maxLength).error == tooLong + nul;
      assert NullCharacter !in tooLong && Required !in tooLong + nul;
    }
  }

  /** An `IntegerField` with a `min_value`. */
  function CleanInt(raw: IntInput, required: bool, minValue: int): (r: Result<Option<int>, ErrorKind>)
    ensures r.Ok? ==> match r.value { case Some(n) => raw == Whole(n) && n >= minValue case None => raw == Blank }
    ensures r.Err? <==> raw == NotWhole || (raw == Blank && required) || (raw.Whole? && raw.n < minValue)
  {
    match raw
    case Blank => if required then Err(Required) else Ok(None)
    case NotWhole => Err(NotAnInteger)
    case Whole(n) => if n < minValue then Err(BelowMinimum(minValue)) else Ok(Some(n))
  }

  /** An optional `DateField`. */
  function CleanDate(raw: DateInput): (r: Result<Option<int>, ErrorKind>)
    ensures r.Err? <==> raw == BadDate
  {
    match raw
    case NoDate => Ok(None)
    case BadDate => Err(InvalidDate)
    case Day(d) => Ok(Some(d))
  }

  /** A book other than the one being edited (`instance`; `None` when adding). */
  predicate IsOther(b: Book, instance: Option<nat>) {
    instance != Some(b.pk)
  }

  /** `clean_book_id_json`: the id is refused exactly when another book has it. */
  function CleanBookIdJson(books: seq<Book>, instance: Option<nat>, id: string): (r: Outcome<ErrorKind>)
    ensures r.Fail? <==> exists i :: 0 <= i < |books| && books[i].details.bookIdJson == id && IsOther(books[i], instance)
    ensures r.Pass? ==> forall i :: 0 <= i < |books| && IsOther(books[i], instance) ==> books[i].details.bookIdJson != id
    ensures r.Fail? ==> r.error == DuplicateBookId
  {
    var hit := Seqs.FirstIndex(books, (b: Book) => b.details.bookIdJson == id && IsOther(b, instance));
    if hit.Some? then Fail(DuplicateBookId) else Pass
  }

  /** `clean_isbn`: an empty ISBN is always accepted; another one is refused exactly
      when another book has it (a NULL column never equals it). */
  function CleanIsbn(books: seq<Book>, instance: Option<nat>, isbn: string): (r: Outcome<ErrorKind>)
    ensures isbn == "" ==> r.Pass?
    ensures isbn != "" ==>
      (r.Fail? <==> exists i :: 0 <= i < |books| && books[i].details.isbn == Some(isbn) && IsOther(books[i], instance))
    ensures r.Fail? ==> r.error == DuplicateIsbn
  {
    if isbn == "" then Pass
    else
      var hit := Seqs.FirstIndex(books, (b: Book) => b.details.isbn == Some(isbn) && IsOther(b, instance));
      if hit.Some? then Fail(DuplicateIsbn) else Pass
  }

  /** When editing a book whose ids are unique, its own unchanged `book_id_json` is accepted. */
  lemma OwnBookIdAccepted(books: seq<Book>, k: int)
    requires 0 <= k < |books|
    requires forall i, j :: 0 <= i < j < |books| ==> books[i].details.bookIdJson != books[j].details.bookIdJson
    ensures CleanBookIdJson(books, Some(books[k].pk), books[k].details.bookIdJson).Pass?
  {
    var id := books[k].details.bookIdJson;
    forall i | 0 <= i < |books| && books[i].details.bookIdJson == id
      ensures i == k
    {
    }
  }

  /** The errors of a field: none when it cleaned. */
  function Kinds<V>(r: Result<V, seq<ErrorKind>>): (ks: seq<ErrorKind>)
    ensures r.Ok? ==> ks == []
    ensures r.Err? ==> ks == r.error
  {
    match r
    case Ok(_) => []
    case Err(es) => es
  }

  /** A field that raises at most one error. */
  function Single<V>(r: Result<V, ErrorKind>): (q: Result<V, seq<ErrorKind>>)
    ensures q.Ok? <==> r.Ok?
    ensures q.Err? ==> q.error == [r.error]
  {
    match r
    case Ok(v) => Ok(v)
    case Err(k) => Err([k])
  }

  /** Runs a field's clean method only after the field itself cleaned successfully;
      the method's error then replaces the value. */
  function ThenCheck(r: Result<string, seq<ErrorKind>>, check: string -> Outcome<ErrorKind>): (q: Result<string, seq<ErrorKind>>)
    ensures q.Ok? <==> r.Ok? && check(r.value).Pass?
    ensures q.Ok? ==> q.value == r.value
    ensures r.Err? ==> q == r
    ensures r.Ok? && check(r.value).Fail? ==> q == Err([check(r.value).error])
  {
    match r
    case Err(ks) => Err(ks)
    case Ok(v) => match check(v) { case Pass => Ok(v) case Fail(k) => Err([k]) }
  }

  /** The form's fields, in declaration order. */
  const FieldOrder: seq<string> := ["book_id_json", "book_name", "author", "total_copies", "description",
    "publisher", "publication_date", "language", "pages", "isbn"]

  lemma FieldOrderDistinct()
    ensures forall i, j :: 0 <= i < j < |FieldOrder| ==> FieldOrder[i] != FieldOrder[j]
  {
  }

  /** The cleaning of `book_id_json` followed by `clean_book_id_json`. */
  function BookIdResult(books: seq<Book>, instance: Option<nat>, raw: string): Result<string, seq<ErrorKind>> {
    ThenCheck(CleanChar(raw, true, Some(BookIdMaxLength)), v => CleanBookIdJson(books, instance, v))
  }

  /** The cleaning of `isbn` followed by `clean_isbn`. */
  function IsbnResult(books: seq<Book>, instance: Option<nat>, raw: string): Result<string, seq<ErrorKind>> {
    ThenCheck(CleanChar(raw, false, Some(IsbnMaxLength)), v => CleanIsbn(books, instance, v))
  }

  function CharKinds(raw: string, required: bool, maxLength: Option<nat>): seq<ErrorKind> {
    Kinds(CleanChar(raw, required, maxLength))
  }

  function IntKinds(raw: IntInput, required: bool, minValue: int): seq<ErrorKind> {
    Kinds(Single(CleanInt(raw, required, minValue)))
  }

  /** The errors of the `i`-th field of `FieldOrder`. */
  function KindsAt(books: seq<Book>, instance: Option<nat>, input: BookFormInput, i: nat): seq<ErrorKind> {
    match i
    case 0 => Kinds(BookIdResult(books, instance, input.bookIdJson))
    case 1 => CharKinds(input.bookName, true, Some(NameMaxLength))
    case 2 => CharKinds(input.author, true, Some(NameMaxLength))
    case 3 => IntKinds(input.totalCopies, true, MinTotalCopies)
    case 4 => CharKinds(input.description, true, None)
    case 5 => CharKinds(input.publisher, false, Some(PublisherMaxLength))
    case 6 => Kinds(Single(CleanDate(input.publicationDate)))
    case 7 => CharKinds(input.language, false, Some(LanguageMaxLength))
    case 8 => IntKinds(input.pages, false, MinPages)
    case _ => Kinds(IsbnResult(books, instance, input.isbn))
  }

  /** Every field cleaned, in declaration order, each with its errors. */
  function Checks(books: seq<Book>, instance: Option<nat>, input: BookFormInput): (cs: seq<FieldError>)
    ensures |cs| == |FieldOrder|
    ensures forall i :: 0 <= i < |cs| ==> cs[i] == FieldError(FieldOrder[i], KindsAt(books, instance, input, i))
  {
    seq(|FieldOrder|, i requires 0 <= i < |FieldOrder| => FieldError(FieldOrder[i], KindsAt(books, instance, input, i)))
  }

  /** Every field of the form cleans, and both uniqueness checks pass. */
  predicate FieldsClean(books: seq<Book>, instance: Option<nat>, input: BookFormInput) {
    && CleanChar(input.bookIdJson, true, Some(BookIdMaxLength)).Ok?
    && CleanBookIdJson(books, instance, Strip(input.bookIdJson, PyWhitespace)).Pass?
    && CleanChar(input.bookName, true, Some(NameMaxLength)).Ok?
    && CleanChar(input.author, true, Some(NameMaxLength)).Ok?
    && CleanInt(input.totalCopies, true, MinTotalCopies).Ok?
    && CleanChar(input.description, true, None).Ok?
    && CleanChar(input.publisher, false, Some(PublisherMaxLength)).Ok?
    && input.publicationDate != BadDate
    && CleanChar(input.language, false, Some(LanguageMaxLength)).Ok?
    && CleanInt(input.pages, false, MinPages).Ok?
    && CleanChar(input.isbn, false, Some(IsbnMaxLength)).Ok?
    && CleanIsbn(books, instance, Strip(input.isbn, PyWhitespace)).Pass?
  }

  /** The `i`-th conjunct of `FieldsClean`, for the `i`-th field of `FieldOrder`. */
  predicate FieldCleanAt(books: seq<Book>, instance: Option<nat>, input: BookFormInput, i: nat) {
    match i
    case 0 => CleanChar(input.bookIdJson, true, Some(BookIdMaxLength)).Ok?
              && CleanBookIdJson(books, instance, Strip(input.bookIdJson, PyWhitespace)).Pass?
    case 1 => CleanChar(input.bookName, true, Some(NameMaxLength)).Ok?
    case 2 => CleanChar(input.author, true, Some(NameMaxLength)).Ok?
    case 3 => CleanInt(input.totalCopies, true, MinTotalCopies).Ok?
    case 4 => CleanChar(input.description, true, None).Ok?
    case 5 => CleanChar(input.publisher, false, Some(PublisherMaxLength)).Ok?
    case 6 => input.publicationDate != BadDate
    case 7 => CleanChar(input.language, false, Some(LanguageMaxLength)).Ok?
    case 8 => CleanInt(input.pages, false, MinPages).Ok?
    case _ => CleanChar(input.isbn, false, Some(IsbnMaxLength)).Ok?
              && CleanIsbn(books, instance, Strip(input.isbn, PyWhitespace)).Pass?
  }

  lemma FieldsCleanAt(books: seq<Book>, instance: Option<nat>, input: BookFormInput)
    ensures FieldsClean(books, instance, input) <==> forall i :: 0 <= i < |FieldOrder| ==> FieldCleanAt(books, instance, input, i)
  {
    if forall i :: 0 <= i < |FieldOrder| ==> FieldCleanAt(books, instance, input, i) {
      assert FieldCleanAt(books, instance, input, 0) && FieldCleanAt(books, instance, input, 1);
      assert FieldCleanAt(books, instance, input, 2) && FieldCleanAt(books, instance, input, 3);
      assert FieldCleanAt(books, instance, input, 4) && FieldCleanAt(books, instance, input, 5);
      assert FieldCleanAt(books, instance, input, 6) && FieldCleanAt(books, instance, input, 7);
      assert FieldCleanAt(books, instance, input, 8) && FieldCleanAt(books, instance, input, 9);
    }
  }

  /** A field has no errors exactly when it cleans. */
  lemma KindsAtClean(books: seq<Book>, instance: Option<nat>, input: BookFormInput, i: nat)
    ensures KindsAt(books, instance, input, i) == [] <==> FieldCleanAt(books, instance, input, i)
  {
    match i
    case 0 => CheckedKindsClean(CleanChar(input.bookIdJson, true, Some(BookIdMaxLength)), v => CleanBookIdJson(books, instance, v));
    case 1 => CharKindsClean(input.bookName, true, Some(NameMaxLength));
    case 2 => CharKindsClean(input.author, true, Some(NameMaxLength));
    case 3 =>
    case 4 => CharKindsClean(input.description, true, None);
    case 5 => CharKindsClean(input.publisher, false, Some(PublisherMaxLength));
    case 6 =>
    case 7 => CharKindsClean(input.language, false, Some(LanguageMaxLength));
    case 8 =>
    case _ => CheckedKindsClean(CleanChar(input.isbn, false, Some(IsbnMaxLength)), v => CleanIsbn(books, instance, v));
  }

  lemma CharKindsClean(raw: string, required: bool, maxLength: Option<nat>)
    ensures CharKinds(raw, required, maxLength) == [] <==> CleanChar(raw, required, maxLength).Ok?
  {
  }

  lemma CheckedKindsClean(r: Result<string, seq<ErrorKind>>, check: string -> Outcome<ErrorKind>)
    requires r.Err? ==> r.error != []
    ensures Kinds(ThenCheck(r, check)) == [] <==> r.Ok? && check(r.value).Pass?
  {
  }

  lemma ChecksClean(books: seq<Book>, instance: Option<nat>, input: BookFormInput)
    ensures FieldsClean(books, instance, input) <==>
      forall i :: 0 <= i < |Checks(books, instance, input)| ==> Checks(books, instance, input)[i].kinds == []
  {
    var cs := Checks(books, instance, input);
    FieldsCleanAt(books, instance, input);
    forall i | 0 <= i < |cs|
      ensures cs[i].kinds == [] <==> FieldCleanAt(books, instance, input, i)
    {
      KindsAtClean(books, instance, input, i);
    }
  }

  function HasErrors(e: FieldError): bool { e.kinds != [] }

  /** A Django form's keys are distinct. */
  predicate DistinctFields(es: seq<FieldError>) {
    forall i, j :: 0 <= i < j < |es| ==> es[i].field != es[j].field
  }

  /** `form.errors`: the fields that failed, in declaration order, each once with
      its errors; there are none exactly when every field cleans. */
  function FormErrors(books: seq<Book>, instance: Option<nat>, input: BookFormInput): (es: seq<FieldError>)
    ensures es == [] <==> FieldsClean(books, instance, input)
    ensures DistinctFields(es)
    ensures forall i :: 0 <= i < |es| ==> es[i].kinds != [] && es[i].field in FieldOrder
    ensures forall i :: 0 <= i < |es| ==> es[i] in Checks(books, instance, input)
  {
    FailedFieldsHold(books, instance, input);
    Seqs.Filter(Checks(books, instance, input), HasErrors)
  }

  lemma FailedFieldsHold(books: seq<Book>, instance: Option<nat>, input: BookFormInput)
    ensures var cs := Checks(books, instance, input);
      var es := Seqs.Filter(cs, HasErrors);
      && (es == [] <==> FieldsClean(books, instance, input))
      && DistinctFields(es)
      && (forall i :: 0 <= i < |es| ==> es[i].kinds != [] && es[i].field in FieldOrder)
      && (forall i :: 0 <= i < |es| ==> es[i] in cs)
  {
    var cs := Checks(books, instance, input);
    ChecksShape(books, instance, input);
    FailedChecks(cs);
    ChecksClean(books, instance, input);
  }

  /** The check list holds each field of `FieldOrder` once. */
  lemma ChecksShape(books: seq<Book>, instance: Option<nat>, input: BookFormInput)
    ensures DistinctFields(Checks(books, instance, input))
    ensures forall e :: e in Checks(books, instance, input) ==> e.field in FieldOrder
  {
    var cs := Checks(books, instance, input);
    FieldOrderDistinct();
    forall e | e in cs ensures e.field in FieldOrder {
      var k :| 0 <= k < |cs| && cs[k] == e;
      assert e.field == FieldOrder[k];
    }
  }

  /** The failed checks: distinct when the checks are, none exactly when every check passed. */
  lemma FailedChecks(cs: seq<FieldError>)
    ensures var es := Seqs.Filter(cs, HasErrors);
      && (es == [] <==> forall i :: 0 <= i < |cs| ==> cs[i].kinds == [])
      && (DistinctFields(cs) ==> DistinctFields(es))
      && (forall i :: 0 <= i < |es| ==> es[i].kinds != [] && es[i] in cs)
  {
    var es := Seqs.Filter(cs, HasErrors);
    Seqs.SubsequenceIn(es, cs);
    if DistinctFields(cs) {
      Seqs.SubsequencePairs(es, cs, (a: FieldError, b: FieldError) => a.field != b.field);
    }
    if es == [] {
      forall i | 0 <= i < |cs| ensures cs[i].kinds == [] {
        assert multiset(es)[cs[i]] == 0;
      }
    } else {
      assert HasErrors(es[0]);
    }
  }

  /** A required identifier or name that strips to nothing is reported as missing,
      and with that error alone. */
  lemma RequiredReported(books: seq<Book>, instance: Option<nat>, input: BookFormInput)
    ensures Strip(input.bookIdJson, PyWhitespace) == "" ==>
      FieldError("book_id_json", [Required]) in FormErrors(books, instance, input)
    ensures Strip(input.bookName, PyWhitespace) == "" ==>
      FieldError("book_name", [Required]) in FormErrors(books, instance, input)
  {
    var cs := Checks(books, instance, input);
    if Strip(input.bookIdJson, PyWhitespace) == "" {
      BlankIdCheck(books, instance, input);
      Seqs.FilterKeeps(cs, HasErrors, 0);
    }
    if Strip(input.bookName, PyWhitespace) == "" {
      BlankNameCheck(books, instance, input);
      Seqs.FilterKeeps(cs, HasErrors, 1);
    }
  }

  lemma BlankIdCheck(books: seq<Book>, instance: Option<nat>, input: BookFormInput)
    requires Strip(input.bookIdJson, PyWhitespace) == ""
    ensures Checks(books, instance, input)[0] == FieldError("book_id_json", [Required])
  {
    assert CleanChar(input.bookIdJson, true, Some(BookIdMaxLength)) == Err([Required]);
  }

  lemma BlankNameCheck(books: seq<Book>, instance: Option<nat>, input: BookFormInput)
    requires Strip(input.bookName, PyWhitespace) == ""
    ensures Checks(books, instance, input)[1] == FieldError("book_name", [Required])
  {
    assert CleanChar(input.bookName, true, Some(NameMaxLength)) == Err([Required]);
  }

  /** `BookForm.is_valid()` for the book table `books` and the edited book `instance`:
      the form is valid exactly when no field failed, and then holds the cleaned values. */
  function Validate(books: seq<Book>, instance: Option<nat>, input: BookFormInput): (r: Result<CleanedBook, seq<FieldError>>)
    ensures r.Err? ==> |r.error| > 0 && r.error == FormErrors(books, instance, input)
    ensures r.Ok? <==> FieldsClean(books, instance, input)
    ensures r.Ok? ==> r.value.totalCopies >= MinTotalCopies
    ensures r.Ok? ==> r.value.details.pages.None? || r.value.details.pages.value >= MinPages
    ensures r.Ok? ==> r.value.details.bookIdJson != "" && |r.value.details.bookIdJson| <= BookIdMaxLength
    ensures r.Ok? ==> r.value.details.bookIdJson == Strip(input.bookIdJson, PyWhitespace)
    ensures r.Ok? ==> r.value.cover == input.cover
    ensures r.Ok? ==> CleanBookIdJson(books, instance, r.value.details.bookIdJson).Pass?
    ensures r.Ok? ==> (r.value.details.isbn.None? <==> Strip(input.isbn, PyWhitespace) == "")
    ensures r.Ok? && r.value.details.isbn.Some? ==> CleanIsbn(books, instance, r.value.details.isbn.value).Pass?
  {
    var errors := FormErrors(books, instance, input);
    if errors != [] then Err(errors) else Ok(Cleaned(books, instance, input))
  }

  /** The `cleaned_data` of a valid form. A blank ISBN is stored as NULL, so that it
      never meets the column's uniqueness (see `ValidateAsWritten`). */
  function Cleaned(books: seq<Book>, instance: Option<nat>, input: BookFormInput): (c: CleanedBook)
    requires FieldsClean(books, instance, input)
    ensures c.totalCopies >= MinTotalCopies
    ensures c.details.pages.None? || c.details.pages.value >= MinPages
    ensures c.details.bookIdJson != "" && |c.details.bookIdJson| <= BookIdMaxLength
    ensures c.details.bookIdJson == Strip(input.bookIdJson, PyWhitespace)
    ensures c.details.isbn == if Strip(input.isbn, PyWhitespace) == "" then None else Some(Strip(input.isbn, PyWhitespace))
    ensures c.cover == input.cover
  {
    var isbn := CleanChar(input.isbn, false, Some(IsbnMaxLength)).value;
    CleanedBook(
      BookDetails(
        CleanChar(input.bookIdJson, true, Some(BookIdMaxLength)).value,
        CleanChar(input.bookName, true, Some(NameMaxLength)).value,
        CleanChar(input.author, true, Some(NameMaxLength)).value,
        CleanChar(input.description, true, None).value,
        CleanChar(input.publisher, false, Some(PublisherMaxLength)).value,
        CleanDate(input.publicationDate).value,
        CleanChar(input.language, false, Some(LanguageMaxLength)).value,
        CleanInt(input.pages, false, MinPages).value,
        if isbn == "" then None else Some(isbn)),
      CleanInt(input.totalCopies, true, MinTotalCopies).value.value,
      input.cover)
  }

  /* ----- the ISBN column's uniqueness, as written ----- */

  /** Another book's `isbn` column holds `isbn`; a NULL column holds nothing. */
  predicate IsbnStored(books: seq<Book>, instance: Option<nat>, isbn: string) {
    exists i :: 0 <= i < |books| && books[i].details.isbn == Some(isbn) && IsOther(books[i], instance)
  }

  /** `form.errors` as written: after the fields, `ModelForm._post_clean` runs
      `validate_unique` on every field that cleaned. For the unique `isbn` column it
      looks up the cleaned value, and a blank ISBN cleans to the empty string, which
      only a NULL would have escaped; a clash adds the model's uniqueness error. */
  function FormErrorsAsWritten(books: seq<Book>, instance: Option<nat>, input: BookFormInput): seq<FieldError> {
    var isbn := IsbnResult(books, instance, input.isbn);
    FormErrors(books, instance, input)
    + (if isbn.Ok? && IsbnStored(books, instance, isbn.value) then [FieldError("isbn", [IsbnTaken])] else [])
  }

  /** `BookForm.is_valid()` as written: a blank ISBN is kept as the empty string. */
  function ValidateAsWritten(books: seq<Book>, instance: Option<nat>, input: BookFormInput): (r: Result<CleanedBook, seq<FieldError>>)
    ensures r.Err? ==> r.error == FormErrorsAsWritten(books, instance, input) && r.error != []
    ensures r.Ok? ==> FieldsClean(books, instance, input)
    ensures r.Ok? ==> r.value.details.isbn == Some(Strip(input.isbn, PyWhitespace))
    ensures r.Ok? ==> r.value.totalCopies >= MinTotalCopies && r.value.cover == input.cover
    ensures r.Ok? ==> r.value.details.bookIdJson == Strip(input.bookIdJson, PyWhitespace)
    ensures r.Ok? ==> CleanBookIdJson(books, instance, r.value.details.bookIdJson).Pass?
  {
    var errors := FormErrorsAsWritten(books, instance, input);
    if errors != [] then Err(errors)
    else
      var c := Cleaned(books, instance, input);
      Ok(c.(details := c.details.(isbn := Some(Strip(input.isbn, PyWhitespace)))))
  }

  /** As written, a form with a blank ISBN is refused when another book was stored
      with a blank ISBN, although every field and `clean_isbn` accept it: the model's
      uniqueness error is its only error. */
  lemma BlankIsbnRefusedAsWritten(books: seq<Book>, instance: Option<nat>, input: BookFormInput, j: int)
    requires FieldsClean(books, instance, input)
    requires Strip(input.isbn, PyWhitespace) == ""
    requires 0 <= j < |books| && books[j].details.isbn == Some("") && IsOther(books[j], instance)
    ensures ValidateAsWritten(books, instance, input) == Err([FieldError("isbn", [IsbnTaken])])
  {
    var taken := [FieldError("isbn", [IsbnTaken])];
    assert FormErrors(books, instance, input) == [];
    BlankIsbnClashes(books, instance, input.isbn, j);
    assert FormErrorsAsWritten(books, instance, input) == [] + taken;
    assert [] + taken == taken;
  }

  /** A blank ISBN cleans to the empty string, which a blank ISBN stored before holds. */
  lemma BlankIsbnClashes(books: seq<Book>, instance: Option<nat>, raw: string, j: int)
    requires Strip(raw, PyWhitespace) == ""
    requires 0 <= j < |books| && books[j].details.isbn == Some("") && IsOther(books[j], instance)
    ensures IsbnResult(books, instance, raw) == Ok("") && IsbnStored(books, instance, "")
  {
    assert CleanChar(raw, false, Some(IsbnMaxLength)) == Ok("");
  }

  /** Corrected, the same form is accepted whatever the other books hold, and its
      blank ISBN is stored as NULL. */
  lemma BlankIsbnAccepted(books: seq<Book>, instance: Option<nat>, input: BookFormInput)
    requires FieldsClean(books, instance, input)
    requires Strip(input.isbn, PyWhitespace) == ""
    ensures Validate(books, instance, input).Ok? && Validate(books, instance, input).value.details.isbn.None?
  {
  }

  /** Where no other book's ISBN column holds the empty string, the form as written
      and the corrected form accept and refuse the same input with the same errors. */
  lemma AsWrittenAgreesWithoutBlankIsbn(books: seq<Book>, instance: Option<nat>, input: BookFormInput)
    requires !IsbnStored(books, instance, "")
    ensures FormErrorsAsWritten(books, instance, input) == FormErrors(books, instance, input)
    ensures ValidateAsWritten(books, instance, input).Ok? <==> Validate(books, instance, input).Ok?
  {
    var isbn := IsbnResult(books, instance, input.isbn);
    if isbn.Ok? && isbn.value != "" {
      assert CleanIsbn(books, instance, isbn.value).Pass?;
    }
  }
}
