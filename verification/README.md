# Online library: lending rules, book form and page logic

This project models the rule-bearing core of a small Django library application and
its browser scripts. Network, DOM, clock and database are abstracted away. Every
operation is a pure function over immutable records.

- **Server** (`library/views.py`, `library/models.py`, `library/forms.py`).
  - The database is a `Models.Library`: books, loan records, users, the category
    names, and the next auto-increment keys.
  - Each JSON view is a function from a database and a request to a `Views.Step`: the
    reply and the new database.
  - `Integrity` proves that every view keeps `Models.Valid`. That predicate says
    `0 <= available_copies <= total_copies`, keys and `book_id_json` are unique, every
    loan points at a stored book, no reader holds the same book twice, and user names
    are unique. It then proves this for any sequence of requests.
  - `Forms` models `BookForm` field by field: Django's `CharField` and
    `IntegerField` cleaning, and the two uniqueness checks that exclude the book being
    edited.
- **Catalogue page** (`static/js/books.js`).
  - `Catalogue` models the filter pipeline (category, availability, scoped search)
    and the stable comparator sort.
  - It also models the category dropdown, the borrow button label, and the local
    update after a successful borrow.
  - It states how the page's view agrees with the borrow view.
- **Admin dashboard** (`static/js/admin-dash.js`).
  - `Pagination` models the two five-row tables: page count, `slice`, prev/next
    guards, link activity, hiding of the controls, and the section toggle.
  - `Consistent` is the invariant every event keeps.
- **Sign-up and log-in** (`static/js/auth.js`).
  - `Auth` models `getCookie`, the two local checks, and the e-mail regular expression
    as a decidable predicate, proved equal to the pattern.
  - It models the client checks of both forms and the keyword routing of the
    server's messages.
  - Lemmas connect the forms with `Views.Signup` and `Views.Login`.
- **Add/edit book page** (`static/js/add-book.js`).
  - `AddBookPage` models the tag list derived from the checkboxes, the remove
    button, the required-field check and endpoint choice, and the distribution of
    the server's form errors over the error slots and alerts.

Shared helpers:

- `Wrappers`: `Option`, `Result` and `Outcome`.
- `Seqs`: filter, subsequence, stable insertion sort and equivalence classes.
- `Text`: ASCII lower-casing, substring search, strip with Python or JavaScript
  whitespace, split and join, UTF-16 length and UTF-16 code-unit order.

Things the code leaves to the environment are parameters:

- the browser's `localeCompare` and the database's username collation, as total
  preorders;
- `decodeURIComponent`, as a function;
- Unicode NFKC normalisation of user names (`normalize_username`), as a function;
- timestamps, as integers.

## Model

| member | source | states |
|---|---|---|
| Models.NewBook | library/models.py:30-31 | A book created without copy counts has one copy, on the shelf: it is within bounds and available. |
| Models.FindBook | library/views.py:267 | The lookup by primary key returns a position holding that key, and fails exactly when no stored book has it. |
| Models.FindRecord | library/views.py:291 | The loan lookup returns a position holding that key, and fails exactly when no record has it. |
| Models.FindUser | library/views.py:346 | The user lookup returns a position holding that name, and fails exactly when no user has it. |
| Models.AvailableMeansStock | library/models.py:39-41 | For a book within bounds, `is_available` fails exactly when no copy is on the shelf; an available book has at least one copy. |
| Forms.CleanChar | library/forms.py:5-15 | A text field is stripped; it is refused exactly when required and blank after stripping, longer than its maximum, or holding a NUL character; an accepted value respects all three. |
| Forms.CleanCharErrors | library/forms.py:5-15 | A blank refused field reports `Required` alone; any other refused field reports the length error exactly when too long and the NUL error exactly when holding a NUL, never `Required`. |
| Forms.CleanInt | library/forms.py:8-14 | An integer field accepts a blank optional value as none and a whole number at or above the minimum; it refuses text, a blank required value, and a number below the minimum. |
| Forms.CleanDate | library/forms.py:12 | The optional date is refused exactly when it is not a date. |
| Forms.CleanBookIdJson | library/forms.py:27-38 | The id is refused, with the duplicate-id error, exactly when another book (not the one being edited) already has it. |
| Forms.CleanIsbn | library/forms.py:40-51 | An empty ISBN always passes; a non-empty one is refused exactly when another book (not the one being edited) has it. |
| Forms.OwnBookIdAccepted | library/forms.py:32-34 | When ids are unique, editing a book without changing its id never conflicts with itself. |
| Forms.FormErrors | library/forms.py:4-51 | The error list is empty exactly when every field cleans and both uniqueness checks pass; it names each failed field once, in declaration order, with at least one error. |
| Forms.RequiredReported | library/forms.py:5-6 | An id or a name that strips to nothing is reported as that field's `Required` error alone. |
| Forms.Validate | library/forms.py:4-51 | Corrected: `is_valid` holds exactly when every field cleans; a refused form reports the non-empty error list; an accepted one has at least zero copies, at least one page when pages are given, a stripped, non-empty id of at most 20 characters, passes both uniqueness checks, and stores a blank ISBN as NULL. |
| Forms.Cleaned | library/forms.py:5-16 | The cleaned data of a valid form keeps the field bounds, the stripped id and ISBN, and the uploaded cover. |
| Forms.ValidateAsWritten | library/models.py:27 | As written, the blank ISBN is kept as the empty string and the unique `isbn` column is checked after the fields: a refused form reports the field errors plus the model's uniqueness error; an accepted one cleans every field, has at least zero copies, the uploaded cover, and the stripped id, which no other book holds. |
| Forms.BlankIsbnRefusedAsWritten | library/models.py:27 | As written, a form whose fields all clean, with a blank ISBN, is refused with "Book with this Isbn already exists." alone once another book holds a blank ISBN. |
| Forms.BlankIsbnAccepted | library/forms.py:40-42 | Corrected, the same form is accepted and its blank ISBN is stored as NULL, as `clean_isbn`'s `if isbn:` intends. |
| Forms.AsWrittenAgreesWithoutBlankIsbn | library/forms.py:40-51 | When no other book holds a blank ISBN, the form as written and the corrected form report the same errors and accept the same inputs. |
| Views.CategoryNames | library/views.py:185-191 | The linked categories are exactly the stripped checkbox values. |
| Views.AddBook | library/views.py:169-203 | Corrected, over `Forms.Validate`: anonymous users are redirected and other non-admins refused; an admin's non-POST gets 405; an admin's POST with an invalid form gets 400 with exactly the form's errors; only a valid one adds a book, which takes the next key, the cleaned fields and categories, and as many copies on the shelf as in total, and no other book shares its id; a refused request changes nothing. |
| Views.Added | library/views.py:180-191 | The saved book is appended with the next key, the cleaned columns and cover, the linked categories, and as many copies on the shelf as in total; loans, users and the loan key are unchanged. |
| Views.AddBookAsWritten | library/views.py:169-203 | As written, over `Forms.ValidateAsWritten`: an admin's POST is refused 400 exactly when the form as written is invalid, with its errors, and adds a book exactly when it is valid, storing the stripped ISBN (blank as the empty string); the new book's id is not shared; every other request is answered as by `AddBook`. |
| Views.BlankIsbnAddRefusedAsWritten | library/models.py:27 | As written, an admin's add whose fields all clean, with a blank ISBN, is refused 400 with "Book with this Isbn already exists." alone once a stored book holds a blank ISBN, and nothing changes; the corrected view adds the book. |
| Views.AddBookAgreesWithoutBlankIsbn | library/views.py:177-202 | When no stored book holds a blank ISBN, the add view as written gives the same reply as the corrected one. |
| Views.ClampedAvailable | library/views.py:218-219 | The shelf count after an edit is the old count, cut down to the new total. |
| Views.Revise | library/views.py:217-228 | An accepted edit replaces the edited book's fields and categories, clamps its shelf count, keeps the cover unless a new one is uploaded, and leaves every other book, record and user unchanged. |
| Views.UpdateBook | library/views.py:205-240 | Corrected, over `Forms.Validate`: an admin gets 404 exactly for a missing book; for a stored book, a non-POST gets 405, an invalid form 400 with exactly the form's errors, and a valid one the edit, after which no other book shares the id; otherwise nothing changes. |
| Views.UpdateBookAsWritten | library/views.py:205-240 | As written, over `Forms.ValidateAsWritten`: an admin's POST on a stored book is refused 400 exactly when the form as written is invalid, with its errors, and saves the edit exactly when it is valid, storing the stripped ISBN; the id is not shared with another book; every other request is answered as by `UpdateBook`. |
| Views.BlankIsbnUpdateRefusedAsWritten | library/models.py:27 | As written, an edit whose fields all clean, with a blank ISBN, is refused with the uniqueness error alone when another book holds a blank ISBN, and nothing changes; the corrected view saves it. |
| Views.UpdateBookAgreesWithoutBlankIsbn | library/views.py:214-239 | When no other book holds a blank ISBN, the edit view as written gives the same reply as the corrected one. |
| Views.DeleteBook | library/views.py:242-261 | An admin's delete is refused exactly while a loan of the book is open; otherwise the book and its loan records go, and everything else stays in order. |
| Views.BorrowBook | library/views.py:263-284 | Borrowing is refused when no copy is on the shelf, and when the reader already holds the book; otherwise exactly one copy is taken and exactly one open loan, due in 14 days, is added. |
| Views.ReturnedAvailable | library/views.py:301-302 | A returned copy goes back on the shelf, never above the total. |
| Views.ReturnBook | library/views.py:286-310 | Corrected: a return is refused to anyone but the borrower or an admin, and for a returned loan; a missing loan gets the JSON 404 "Borrowed record not found.", its own reply, not Django's 404 page; a return stamps the date and puts one copy back, clamped. |
| Views.ReturnBookAsWritten | library/views.py:286-310 | As written, a signed-in POST for a missing loan is answered 500 with the `Http404` text and the database is unchanged; every other request is handled as by `ReturnBook`. |
| Views.StatusCode | library/views.py:173-383 | A reply with a `success` flag has status 200 exactly when it reports success, and a refusal has a 4xx or 5xx status; 404 is exactly Django's not-found page or the return view's missing loan; 500 is exactly the return view's error or the sign-up failure. |
| Views.Message | library/views.py:173-383 | Every reply with a `success` flag carries a non-empty message, except a successful log-in, whose body has none (line 375); the redirect, the HTML 404 page and the loan list have none. |
| Views.OpenRecords | library/views.py:318 | The open loans are the unreturned records, each as often as stored. |
| Views.OpenRows | library/views.py:321-326 | One row per open loan, in the same order, carrying its key, borrower, book key, borrow date and due date, and the title of the book it points at. |
| Views.AllBorrowed | library/views.py:312-327 | Only admins get the list, which holds exactly the open loans' rows; nothing changes. |
| Views.Signup | library/views.py:330-360 | A missing name, address or password is refused; an account is created exactly when all three are given, the password has at least 8 characters, and the name, its NFKC form and the address are free; a name whose NFKC form alone is taken gets the 500 reply; the new user is stored with the NFKC name and the address with its domain lower-cased, as an admin exactly when the flag reads `true` in any case. |
| Views.NormalizeEmail | library/views.py:351 | Without an `@` after stripping the address is kept as given; otherwise it is stripped and the part after the last `@` is lower-cased. |
| Views.NormalizeEmailIdempotent | library/views.py:351 | Normalizing a normalized address changes nothing. |
| Views.Authenticate | library/views.py:372 | A user is returned only when the name and password match a stored user. |
| Views.Login | library/views.py:362-383 | Missing credentials are refused; a log-in succeeds only for a stored user with that password and reports that user's admin flag; the database never changes. |
| Integrity.AddBookKeepsValid | library/views.py:177-191 | Adding a book keeps the database consistent. |
| Integrity.UpdateBookKeepsValid | library/views.py:214-228 | Editing a book keeps the database consistent, because of the clamp. |
| Integrity.DeleteBookKeepsValid | library/views.py:253-257 | Deleting a book keeps the database consistent: no open loan is left pointing at it. |
| Integrity.BorrowBookKeepsValid | library/views.py:269-279 | Borrowing keeps the database consistent: the guard keeps the shelf count non-negative. |
| Integrity.ReturnBookKeepsValid | library/views.py:294-303 | Returning keeps the database consistent: the clamp keeps the shelf count within the total. |
| Integrity.SignupKeepsValid | library/views.py:346-354 | Creating an account keeps user names unique. |
| Integrity.ReturnNeverFailsOnValid | library/views.py:297-309 | On a consistent database the corrected return view never reaches its server-error reply. |
| Integrity.BorrowTwiceRefused | library/views.py:269-272 | A second borrow of a book just borrowed is refused, as already borrowed or not available. |
| Integrity.ReturnClosesLoan | library/views.py:294-299 | After a return the borrower holds no open loan of that book. |
| Integrity.BorrowTakesOneCopy | library/views.py:276-279 | A borrow takes exactly one copy, never going below zero, and opens a loan for the reader. |
| Integrity.AllBorrowedOrdered | library/views.py:318-320 | The admin list is sorted by due date, then user name; rows with the same due date and user name keep their stored order, which is this model's choice. |
| Integrity.AddBookAsWrittenKeepsValid | library/views.py:177-191 | The add view as written keeps the database consistent too. |
| Integrity.UpdateBookAsWrittenKeepsValid | library/views.py:214-228 | The edit view as written keeps the database consistent too. |
| Integrity.ApplyKeepsValid | library/views.py:169-360 | Every request the JSON API accepts keeps the database consistent. |
| Integrity.RunKeepsValid | library/views.py:169-360 | Any sequence of requests keeps the database consistent; in particular `0 <= available_copies <= total_copies` for every book. |
| Integrity.EmptyLibraryValid | library/models.py:16-55 | An empty database is consistent. |
| Integrity.MissingRecordAsWritten | library/views.py:291-309 | As written, returning a missing loan answers 500 with "Error returning book: No BorrowedBook matches the given query.". |
| Integrity.ReturnAsWrittenSameDatabase | library/views.py:286-310 | The return view as written changes the database exactly as the corrected one, answers differently exactly for a signed-in POST of a missing loan, and keeps the database consistent. |
| Integrity.MissingRecordIsNotFound | library/views.py:305-306 | Corrected, every return of a missing loan answers 404 with "Borrowed record not found." and changes nothing. |
| Catalogue.ValueOr | static/js/books.js:126-130 | A control's value is used when present and non-empty, the default otherwise. |
| Catalogue.ReadFilters | static/js/books.js:125-131 | Missing or empty controls fall back to `all`, `all`, `title-asc` and `all`; the query is lower-cased, or empty without a search box. |
| Catalogue.ByCategory | static/js/books.js:136-140 | The category filter keeps exactly the books with a category equal, lower-cased, to the filter value (all books under `all`), each as often as listed. |
| Catalogue.ByAvailability | static/js/books.js:142-143 | `available` keeps exactly the available books, `borrowed` exactly the others, and any other value keeps everything. |
| Catalogue.BySearch | static/js/books.js:146-162 | An empty query keeps everything; otherwise the scope picks title, author, category or any of them, and an unknown scope keeps nothing. |
| Catalogue.Filtered | static/js/books.js:133-162 | The filtered list holds exactly the books passing all three filters, each as often as in the catalogue. |
| Catalogue.ApplyFilters | static/js/books.js:124-181 | The shown list is a permutation of the filtered books. |
| Catalogue.SortOrderTotal | static/js/books.js:165-178 | Every sort key gives a total preorder when the collation is one. |
| Catalogue.ApplyFiltersOrdered | static/js/books.js:165-178 | Titles and authors come out ascending or descending by the collation, and dates newest or oldest first, as the sort key asks. |
| Catalogue.ApplyFiltersStable | static/js/books.js:165-178 | Books the comparator cannot tell apart keep their order; an unknown sort key leaves the filtered order unchanged. |
| Catalogue.DefaultsKeepEverything | static/js/books.js:125-162 | With every control at its default no book is filtered out. |
| Catalogue.AllCategories | static/js/books.js:82-85 | The collected categories are exactly those of some book. |
| Catalogue.Dedup | static/js/books.js:82 | The `Set` holds every collected category exactly once. |
| Catalogue.CategoryLabels | static/js/books.js:82-90 | Each category of some book is a label exactly once, nothing else is, and the labels are strictly ascending by UTF-16 code units. |
| Catalogue.CategoryOptions | static/js/books.js:87-95 | The first option is kept (or is "All Categories"), followed by one option per label whose value is the lower-cased label. |
| Catalogue.CategoryOptionsSorted | static/js/books.js:90-95 | The options after the first are strictly ascending by UTF-16 code units, as a comparator-less `sort` orders them, and every book's categories each have an option. |
| Text.RankFollowsCodeUnits | static/js/books.js:90 | Distinct characters get distinct ranks, and one ranks below another exactly when its UTF-16 code units come first. |
| Text.WideCharSortsFirst | static/js/books.js:90 | A character above U+FFFF, such as U+1F600, sorts before U+FF21, because its first code unit is a surrogate. |
| Catalogue.BorrowButton | static/js/books.js:48-50 | The button is enabled and reads `Borrow` exactly for an available book; a book with no copies reads `Out of Stock`. |
| Catalogue.ButtonOfStoredBook | static/js/books.js:48-50 | For a stored book, borrowing is offered exactly when a copy is on the shelf; `Unavailable` means copies exist but none is on the shelf; `Out of Stock` means no copies. |
| Catalogue.MarkBorrowed | static/js/books.js:267-273 | Only the first book with the borrowed key changes: it becomes unavailable and loses one copy, never going below zero. |
| Catalogue.MarkBorrowedAgreesWithServer | static/js/books.js:267-273 | After a borrow the server accepted, the page's copy count matches the server's, and its availability flag matches exactly when no copy is left. |
| Catalogue.ResponseOf | library/views.py:263-284 | The borrow view's answer as the page's `fetch` receives it: the log-in redirect is followed, so it arrives as the log-in page's status with no JSON body; every other reply keeps its status; a JSON body arrives exactly unless the reply is the redirect or Django's 404 page; the body's `success` is the reply's success and its message the reply's message, and a flagged reply's status is 2xx exactly when `success` is true. |
| Catalogue.HandleBorrow | static/js/books.js:197-282 | Nothing is sent without a session guess or the endpoint; 401 and 403 lead to the log-in page; the list changes only after a successful answer with `success`, and then by the local update. |
| Catalogue.HandleBorrowFollowsServer | static/js/books.js:230-277 | For a signed-in reader, the list is updated exactly when the borrow view lends the book; otherwise the server's message, or the 404 status, is shown; the reader is never sent to log in, since the view never answers 401 or 403. |
| Catalogue.ExpiredSessionBorrow | static/js/books.js:220-281 | When the page takes the reader for signed in but the server session has ended, `login_required` (views.py:263) redirects and `fetch` follows to the log-in page: the list never changes; the expired-session notice appears exactly when that page answers 401 or 403; a 2xx page is a failed request, any other status is shown as a status failure. |
| Pagination.TotalPages | static/js/admin-dash.js:131 | The page count is the ceiling of the row count over five, and zero exactly for no rows. |
| Pagination.SliceIndex | static/js/admin-dash.js:88 | A `slice` bound is clamped to the length; a negative bound counts from the end, and one reaching before the start becomes zero. |
| Pagination.Slice | static/js/admin-dash.js:88 | `slice` returns the rows between the clamped bounds, or nothing when they cross. |
| Pagination.PageRows | static/js/admin-dash.js:87-88 | Page `p` shows at most five rows: those from `(p-1)*5` to `(p-1)*5+5`, clipped to the list. |
| Pagination.PageInRangeIsFilled | static/js/admin-dash.js:87-93 | A page between one and the page count shows between one and five rows. |
| Pagination.PagesPrefix | static/js/admin-dash.js:279-280 | The first `k` pages, read in order, are the list's first `5k` rows. |
| Pagination.AllPagesShowAll | static/js/admin-dash.js:279-280 | All pages, read in order, show the whole list once, in order. |
| Pagination.RenderBody | static/js/admin-dash.js:81-93 | A table shows the page's rows, or a notice exactly when the page is empty, with the table's own text on page one. |
| Pagination.UpdateActiveState | static/js/admin-dash.js:157-175 | Prev is disabled exactly on page one, next exactly on the last page, and exactly the links numbered as the current page are active. |
| Pagination.RenderControls | static/js/admin-dash.js:121-154 | The controls are hidden exactly with at most one page; shown, they hold links one to the page count with only the current one active. |
| Pagination.Load | static/js/admin-dash.js:66-70 | A successful load replaces the rows and goes back to page one; a failed one changes nothing. |
| Pagination.ClickLink | static/js/admin-dash.js:146-150 | Clicking link `i` goes to page `i`. |
| Pagination.PrevBooks | static/js/admin-dash.js:184-189 | The book table's prev moves back one page only from a page after the first. |
| Pagination.NextBooks | static/js/admin-dash.js:192-198 | The book table's next moves on one page only from a page before the last. |
| Pagination.PrevLoans | static/js/admin-dash.js:355-360 | The loan table's prev moves back one page only when enabled and not on the first page. |
| Pagination.NextLoans | static/js/admin-dash.js:363-369 | The loan table's next moves on one page only when enabled and not on the last page. |
| Pagination.LoadConsistent | static/js/admin-dash.js:258-262 | After any successful load the table is consistent. |
| Pagination.StepsKeepConsistent | static/js/admin-dash.js:179-199 | Every load, link click, prev and next keeps either table consistent: the page stays within one and the page count. |
| Pagination.OneActiveLink | static/js/admin-dash.js:170-175 | On a consistent table with shown controls exactly one link is active. |
| Pagination.LoanGuardsAgree | static/js/admin-dash.js:354-369 | On a consistent table the loan table's extra `disabled` checks make no difference. |
| Pagination.Toggle | static/js/admin-dash.js:45-51 | Exactly one of the two sections is shown, the loans exactly for `borrowed`. |
| Pagination.OpenLoansAsWritten | static/js/admin-dash.js:22-27 | As written, each "view borrowed" click reloads the loans and attaches one more pair of listeners. |
| Pagination.OpenLoans | static/js/admin-dash.js:22-27 | Corrected, the click reloads the loans and leaves exactly one pair of listeners. |
| Pagination.OpenedTwiceSkipsAPage | static/js/admin-dash.js:22-27 | As written, after two clicks with twelve loans a single next press goes from page one to page three. |
| Pagination.OpenedPanelStepsOnePage | static/js/admin-dash.js:350-369 | Corrected, a next press after showing the panel moves exactly one page when not on the last, and keeps the table consistent. |
| Auth.GetCookie | static/js/auth.js:1-14 | The result is the decoded value of the first trimmed entry starting with `name=`, and null exactly for an empty cookie string or when no entry starts so. |
| Auth.FirstNamed | static/js/auth.js:5-10 | The loop stops at the first entry belonging to the name, and finds none exactly when no entry belongs to it. |
| Auth.CookieNameExact | static/js/auth.js:7 | An entry `other=value` belongs to `name` only when `other` is `name`. |
| Auth.GetCookieFindsEntry | static/js/auth.js:1-14 | In a cookie string joined from `;`-free parts, the first part that trims to `name=value` yields the decoded value. |
| Auth.LocalIsAuthenticated | static/js/auth.js:20-22 | The check holds exactly when the cookie string contains `sessionid`. |
| Auth.SessionCookieAuthenticates | static/js/auth.js:1-22 | Whenever a session cookie is found, the local check holds. |
| Auth.PrefixedNameIsNoEntry | static/js/auth.js:7 | A cookie string `xname` contains `name` but has no entry for it. |
| Auth.SubstringCheckIsLoose | static/js/auth.js:20-22 | The substring check accepts a cookie string such as `xsessionid` that holds no session cookie. |
| Auth.LocalIsAdmin | static/js/auth.js:25-31 | The admin flag is true exactly when the user context holds the boolean true. |
| Auth.IsEmailSound | static/js/auth.js:132 | An address the client accepts has the shape `a@b.c` with non-empty, whitespace-free and `@`-free parts. |
| Auth.IsEmailComplete | static/js/auth.js:132 | Every address of that shape is accepted. |
| Auth.IsEmailMatchesPattern | static/js/auth.js:132 | The client's e-mail check holds exactly when the address matches `^[^\s@]+@[^\s@]+\.[^\s@]+$`. |
| Auth.SignupRequestOf | static/js/auth.js:114-137 | Corrected: nothing is sent exactly when the trimmed name is empty, the trimmed address fails the pattern, the password has fewer than 8 characters (as the server counts them), or the confirmation differs; the request carries the trimmed fields and the admin choice, `false` by default. |
| Auth.SignupRequestOfAsWritten | static/js/auth.js:133 | As written, the length check counts UTF-16 code units; it sends every form the corrected check sends, and the only others hold a password of fewer than 8 characters but at least 8 code units. |
| Auth.WidePasswordSentAsWritten | static/js/auth.js:133 | A password of four U+1F600 characters, with a valid name and address, is sent as written and kept back by the corrected check. |
| Auth.ShortPasswordSentAsWritten | static/js/auth.js:133 | Every form only the check as written sends is refused by the sign-up view for its short password, changing nothing, and the page shows that refusal in the password slot. |
| Auth.HandleSignup | static/js/auth.js:36-55 | A missing endpoint or a failed request becomes a failure with its fixed message; otherwise the server's answer is passed on. |
| Auth.RouteOf | static/js/auth.js:143-152 | A failure message goes to the username slot when it mentions `username` in any case, else to email, else to password, else to an alert. |
| Auth.UsernameTakenRoute | static/js/auth.js:144-145 | The server's taken-name message is shown in the username slot. |
| Auth.EmailTakenRoute | static/js/auth.js:146-147 | The server's taken-address message is shown in the email slot. |
| Auth.PasswordTooShortRoute | static/js/auth.js:148-149 | The server's short-password message is shown in the password slot. |
| Auth.AllFieldsRequiredRoute | static/js/auth.js:150-151 | The server's presence refusal names no field and is alerted. |
| Auth.SignupFailedRoute | static/js/auth.js:150-151 | The server's generic sign-up failure names no field and is alerted. |
| Auth.RouteIgnoresCase | static/js/auth.js:144-148 | Lower-casing a message does not change its route. |
| Auth.ShowSignupResult | static/js/auth.js:138-156 | A success alerts the message and goes to the log-in page; a failure puts its message in the routed slot or an alert, or alerts the unknown-error text when there is no message. |
| Auth.SubmitSignup | static/js/auth.js:114-157 | The slots are cleared; a request is sent exactly when the corrected client checks pass, and its answer is then shown; otherwise nothing more is shown. |
| Auth.HandleLogin | static/js/auth.js:60-79 | A missing endpoint or a failed request becomes a failure with its fixed message; otherwise the server's answer is passed on. |
| Auth.SubmitLogin | static/js/auth.js:161-182 | Nothing is sent when the trimmed name or the password is empty; a success goes to the admin dashboard exactly for an admin and to the user dashboard otherwise; a failure always shows a message. |
| Auth.SignupAnswerOf | library/views.py:330-360 | The page receives a JSON body whose `success` holds exactly for a created account and whose message is the reply's. |
| Auth.LoginAnswerOf | library/views.py:362-383 | The page receives a JSON body whose `success` holds exactly for a log-in; a log-in carries the admin flag and no message, a refusal carries the reply's message. |
| Auth.SignupBodyOf | library/views.py:336-339 | The server reads back every field the form sends: name, address, password and admin choice. |
| Auth.SentSignupPassesServerChecks | static/js/auth.js:130-137 | A sign-up the corrected form sends never meets the server's presence or length refusal; the account is created exactly when the name, its NFKC form and the address are free, as an admin exactly for a `true` choice. |
| Auth.SentRequestIsComplete | static/js/auth.js:130-135 | Corrected: a sent sign-up has a name, an address and a password of at least 8 characters. |
| Auth.SentRequestIsCompleteAsWritten | static/js/auth.js:130-135 | As written, a sent sign-up has a name, an address and a password of at least 8 UTF-16 code units, so at least 4 characters. |
| Auth.SentLoginFollowsServer | static/js/auth.js:169-180 | A log-in the form sends is never refused for missing credentials; it reaches the admin dashboard exactly when a stored admin has these credentials; bad credentials show the server's message. |
| Auth.LoginReplyShown | static/js/auth.js:171-180 | A sent log-in goes to the admin dashboard exactly for an admin log-in reply, and shows the message of a refusal. |
| Auth.AdminLogin | library/views.py:369-375 | With unique names, the log-in view logs in an admin exactly when a stored admin has these credentials. |
| Auth.SignupAgainstServer | static/js/auth.js:137-155 | Against the sign-up view, a taken name lands in the username slot, a taken address in the email slot, and a created account is alerted before going to the log-in page. |
| Auth.FieldReplyShown | static/js/auth.js:138-149 | The taken-name, taken-address and short-password replies each land in their own slot, with the other slots cleared and no alert. |
| Auth.AlertReplyShown | static/js/auth.js:138-152 | The presence refusal and the generic failure are alerted after `Signup failed: ` with every slot cleared; a created account is alerted and the page goes to the log-in page. |
| AddBookPage.SelectedTags | static/js/add-book.js:17-29 | The tag list is rebuilt from the checkboxes, never longer than their number. |
| AddBookPage.TagsAreCheckedValues | static/js/add-book.js:19-29 | The tags are the values of the checked boxes, one each, in document order. |
| AddBookPage.FirstWithValue | static/js/add-book.js:34 | The selector finds the first box with the value, or none exactly when no box has it. |
| AddBookPage.UncheckValue | static/js/add-book.js:33-35 | Removing a tag unchecks only the first box with that value; every other box is unchanged. |
| AddBookPage.RemoveTagDropsOnlyIt | static/js/add-book.js:31-38 | With one box per category, removing tag `v` drops exactly that tag and keeps the others in order. |
| AddBookPage.UncheckAll | static/js/add-book.js:95 | The reset unchecks every box and keeps the values. |
| AddBookPage.UncheckAllClearsTags | static/js/add-book.js:93-96 | After a successful add the tag list is empty. |
| AddBookPage.EndpointOf | static/js/add-book.js:63-72 | The update endpoint for the book is used exactly in edit mode with a non-zero book key; otherwise the add endpoint. |
| AddBookPage.PrepareSubmit | static/js/add-book.js:55-72 | The submit stops exactly when the id or the name is empty, reporting one message per missing field; otherwise it alerts a missing endpoint URL or posts to the chosen endpoint. |
| AddBookPage.AlertsAreUnslottedKeys | static/js/add-book.js:138-146 | One alert per error key that is `__all__` or has no slot, in key order. |
| AddBookPage.Fill | static/js/add-book.js:138-146 | Writing the errors never adds or removes a slot. |
| AddBookPage.FillKeeps | static/js/add-book.js:138-146 | A slot no key names keeps its text. |
| AddBookPage.FillWrites | static/js/add-book.js:143-144 | A field's slot ends with its messages joined by spaces. |
| AddBookPage.Cleared | static/js/add-book.js:151-153 | Clearing leaves every slot empty. |
| AddBookPage.ShowFormErrors | static/js/add-book.js:136-148 | After clearing, each field key with a slot shows its joined messages, other slots stay empty, and `__all__` or unknown keys become alerts in key order. |
| AddBookPage.AllSlotUntouched | static/js/add-book.js:140-141 | The `__all__` key never writes a slot. |
| AddBookPage.HandleAnswer | static/js/add-book.js:82-124 | A success clears the tags after an add and keeps them after an edit; a failure alerts the message or a fallback, then, when errors come with it, the slots hold exactly what `displayDjangoFormErrors` writes and the alerts are its alerts, and without errors that alert is the only one; a non-JSON or network failure alerts its fixed text. |
| AddBookPage.Messages | library/views.py:202 | A field's messages in `form.errors` are one per error, in the order the errors were raised, each that error's text. |
| AddBookPage.InvalidDataAnswer | library/views.py:202 | A refused form's JSON body reports failure and carries `form.errors` as sent. |
| AddBookPage.ErrorsJson | library/views.py:202 | `form.errors` as sent keeps each failed field in order, once when the fields are distinct. |
| AddBookPage.RefusedAddShown | static/js/add-book.js:115-118 | A form the add view refuses alerts "Error: Invalid data."; each failed field with a slot shows its messages joined by spaces, every other slot is empty, each failed field without a slot is alerted, and with a slot for every field the first alert is the only one. |
| AddBookPage.BlockedFieldsRequiredByServer | static/js/add-book.js:57-61 | Whenever the page stops for a missing id or name, the server's form reports that field as required too. |
| AddBookPage.SpacesIdPostedThenRefused | static/js/add-book.js:59 | An id of spaces alone passes the page's untrimmed check and is posted, and the add view refuses it with the id required. |

## Left out

- Django's ORM, `transaction.atomic`, sessions and `login_required` are replaced by
  in-memory sequences and a `Session` value. An anonymous request to a protected view
  is the log-in redirect.
- The `except Exception` branches that a database error would reach (500 "Database
  error"), except the return view's, are not modelled. The return view's is the
  finding below.
- JSON parsing is an input: `None` body for "Invalid JSON data.". Three bodies that
  make the views raise are not modelled: a JSON value that is not an object, a
  non-string `username`, `email` or `password`, and a non-string `is_admin`. They
  reach the 500 replies "An unexpected error occurred during signup." and "... during
  login." (views.py:358-359, 381-382).
- `Category.objects.get_or_create` is modelled as adding the stripped names to a set.
  The 100-character limit on category names is not modelled.
- Of the model-level checks `ModelForm` runs after the fields, only the uniqueness of
  `isbn` is modelled (`Forms.ValidateAsWritten`). The database's own constraints are
  left out.
- Forms.FormErrors: the integer range the model fields' validators check
  (`IntegerField` and `PositiveIntegerField`, models.py:26,30) is not modelled, so
  a count above the database's integer limit, such as 3000000000, is accepted here.
- Column widths the database alone enforces, such as the 150-character user name
  `create_user` stores, are not modelled.
- Requests are served one at a time. In the borrow view the availability and
  already-borrowed checks (views.py:269-272) run outside `transaction.atomic`
  without a lock, so two concurrent borrows could both pass them; what
  `Integrity.RunKeepsValid` proves holds for requests served in order.
- Forms.FormErrors: the image upload is an optional string, and `cover_image_url` is
  left out. `forms.ImageField` (forms.py:16) refuses an upload that is not an image
  ("Upload a valid image. ..."); the model accepts every upload.
- `books_api_view` and the page-render views are left out. They are serialisation
  and templates. The page sees stored books through the `Catalogue.Mirrors`
  predicate.
- Timestamps are integers and the 14 days are a constant in seconds. `timezone.now()`,
  `strftime`, and the browser's `new Date(...)` parsing for the date sort are left
  out. A book without a date sorts as if published on a given day (`missing`).
- `localeCompare`, the database's username collation, `decodeURIComponent` and
  NFKC normalisation are parameters.
- `Text.Lower` lower-cases ASCII letters only. JavaScript's `toLowerCase` and
  Python's `lower()` fold the whole of Unicode, so `Views.NormalizeEmail` lower-cases
  only the ASCII letters of a domain.
- `fetch`, `alert`, redirects, `setTimeout`, `scrollIntoView`, the success banners
  and every DOM text not named above are left out. Answers are abstract values.
- `cloneNode` listener re-binding, `displayTableMessage` texts on later pages, and
  `handleDeleteBook`/`handleAdminReturnBook` are left out. The last two call the
  server views that are modelled.
- `handleLogout`, `static/js/auth-check.js`, `library/urls.py` and
  `library/admin.py` are not part of this model.
- Views.AddBook and Views.UpdateBook: these are the corrected views, built on the
  corrected `Forms.Validate`. As written, a second blank-ISBN add or edit gets 400
  `{"isbn": ["Book with this Isbn already exists."]}` (views.py:202, 239); that is
  `Views.AddBookAsWritten` and `Views.UpdateBookAsWritten`. `Integrity.ApplyKeepsValid`
  and `Integrity.RunKeepsValid` are stated for the corrected views. The as-written
  views are covered one request at a time by `Integrity.AddBookAsWrittenKeepsValid`
  and `Integrity.UpdateBookAsWrittenKeepsValid`.
- AddBookPage.UncheckValue: the page puts the value into `data-value` and into a
  `[value="..."]` selector without escaping (add-book.js:24-34). For a category
  holding `"` or `\` the selector misses or throws. The model looks the box up by
  equality and always finds it.
- Views.ReturnBook: this is the corrected return view. As written, a missing loan
  gets 500 (views.py:291, 307-309); that is `Views.ReturnBookAsWritten`.
  `Integrity.ApplyKeepsValid` and `Integrity.RunKeepsValid` use the corrected view,
  which changes the database exactly as the view as written does
  (`Integrity.ReturnAsWrittenSameDatabase`).
- Catalogue.ResponseOf: the status of the log-in page that the redirect leads to
  (`settings.LOGIN_URL`) is a parameter, since the settings are not part of this model.
- Views.Signup: the presence refusal is stated in both directions. The password,
  name and address refusals are stated one way (the reply implies its cause).
  Their converse follows from the success clause and the order of the checks.
- Views.Login: a successful log-in is stated one way (it implies a matching user).
  The converse is `Auth.AdminLogin`, which needs unique user names.
- Views.Authenticate: only the outcome is modelled; password hashing is not.
- Integrity.AllBorrowedOrdered: the order of loans with the same due date and user
  name is the model's stable sort. `order_by('due_date', 'user__username')` leaves
  that order to the database.
- Auth.LocalIsAdmin: `window.UserContext` is an unconstrained input set by the page
  template. Nothing relates it to the server's session.
- Auth.SignupAgainstServer, Auth.SentSignupPassesServerChecks, Auth.SentRequestIsComplete
  and Auth.SubmitSignup are stated for the corrected length check
  (`Auth.SignupRequestOf`). For the check as written, the
  extra forms it sends are covered by `Auth.ShortPasswordSentAsWritten`.
- Three behaviours of the scripts are modelled as the code has them:
  - the sign-up handler clears all four error slots before its checks
    (auth.js:124-127);
  - the client-side sign-up checks show no message (auth.js:130-135);
  - each "view borrowed" click wires a new pair of prev/next listeners
    (admin-dash.js:22-27).

## Findings

| source | as written | input that shows it | evidently intended | confidence | as-written member | corrected member |
|---|---|---|---|---|---|---|
| static/js/admin-dash.js:22-27 | every click on "view borrowed books" calls `setupBorrowedAdminPaginationListeners` again, so another pair of prev/next listeners is attached each time | open the loan panel twice with 12 open loans (3 pages), press next once: the page goes from 1 to 3 | listeners attached once, so one press moves one page | high; not executed | Pagination.OpenLoansAsWritten (shown by Pagination.OpenedTwiceSkipsAPage) | Pagination.OpenLoans (proved by Pagination.OpenedPanelStepsOnePage) |
| library/views.py:291-309 | `get_object_or_404` raises `Http404`, not `BorrowedBook.DoesNotExist`, inside the `try`; `except Exception` turns it into a 500 reply | a signed-in POST returning loan key 7 on a database without it: 500 "Error returning book: No BorrowedBook matches the given query." | 404 "Borrowed record not found.", the branch at line 305-306 | high; not executed | Views.ReturnBookAsWritten (shown by Integrity.MissingRecordAsWritten) | Views.ReturnBook (proved by Integrity.MissingRecordIsNotFound) |
| static/js/auth.js:133 | client and server count the password length differently: `password.length` counts UTF-16 code units, while `len(password)` at views.py:344 counts characters | password and confirmation of four U+1F600 characters: the page sends the form (length 8) and the server answers 400 "Password must be at least 8 characters long." | both sides count the same length, so a form the page sends never meets the length refusal | medium; not executed | Auth.SignupRequestOfAsWritten (shown by Auth.WidePasswordSentAsWritten and Auth.ShortPasswordSentAsWritten) | Auth.SignupRequestOf (proved by Auth.SentSignupPassesServerChecks) |
| library/forms.py:15 | `isbn` is a plain `CharField`, so a blank ISBN cleans to `''`; the unique `isbn` column (models.py:27) is then checked for `''`, which only NULL escapes | add a book with a blank ISBN when another stored book has a blank ISBN: the form is refused with "Book with this Isbn already exists." | a blank ISBN passes, as `clean_isbn`'s `if isbn:` (forms.py:42) intends, and is stored as NULL | medium; not executed | Forms.ValidateAsWritten, Views.AddBookAsWritten, Views.UpdateBookAsWritten (shown by Forms.BlankIsbnRefusedAsWritten, Views.BlankIsbnAddRefusedAsWritten, Views.BlankIsbnUpdateRefusedAsWritten) | Forms.Validate, Views.AddBook, Views.UpdateBook (proved by Forms.BlankIsbnAccepted) |
