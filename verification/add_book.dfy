/** The add/edit book page (`static/js/add-book.js`): the category tag list kept in
    step with the checkboxes, the client-side checks and endpoint choice on submit,
    and the display of the form errors the server returns. */
module AddBookPage {
  import opened Wrappers
  import opened Text
  import Seqs
  import Forms
  import Views
  import Models

  /* ----- category tags ----- */

  /** One category checkbox, in document order. */
  datatype Checkbox = Checkbox(value: string, checked: bool)

  function IsChecked(b: Checkbox): bool { b.checked }

  /** `updateSelectedCategoriesDisplay`: the list is rebuilt from scratch, one tag per
      checked box, in document order. */
  function SelectedTags(boxes: seq<Checkbox>): (tags: seq<string>)
    ensures |tags| <= |boxes|
    decreases |boxes|
  {
    if boxes == [] then []
    else
      var rest := SelectedTags(boxes[1..]);
      if boxes[0].checked then [boxes[0].value] + rest else rest
  }

  /** The tags are the values of the checked boxes, one each, in document order. */
  lemma {:induction false} TagsAreCheckedValues(boxes: seq<Checkbox>)
    ensures |SelectedTags(boxes)| == |Seqs.Filter(boxes, IsChecked)|
    ensures forall k :: 0 <= k < |SelectedTags(boxes)| ==>
      SelectedTags(boxes)[k] == Seqs.Filter(boxes, IsChecked)[k].value
    decreases |boxes|
  {
    if boxes != [] {
      var tail := boxes[1..];
      TagsAreCheckedValues(tail);
      var tags, kept := SelectedTags(boxes), Seqs.Filter(boxes, IsChecked);
      assert kept == if boxes[0].checked then [boxes[0]] + Seqs.Filter(tail, IsChecked) else Seqs.Filter(tail, IsChecked);
    }
  }

  /** The first box carrying `v`, as `document.querySelector` finds it. */
  function FirstWithValue(boxes: seq<Checkbox>, v: string): (r: Option<nat>)
    ensures r.Some? ==> r.value < |boxes| && boxes[r.value].value == v
    ensures r.Some? ==> forall j :: 0 <= j < r.value ==> boxes[j].value != v
    ensures r.None? <==> forall j :: 0 <= j < |boxes| ==> boxes[j].value != v
    decreases |boxes|
  {
    if boxes == [] then None
    else if boxes[0].value == v then Some(0)
    else
      match FirstWithValue(boxes[1..], v)
      case None => None
      case Some(i) => Some(i + 1)
  }

  /** The remove button of tag `v`: unchecks the first box with that value, if any. */
  function UncheckValue(boxes: seq<Checkbox>, v: string): (r: seq<Checkbox>)
    ensures |r| == |boxes|
    ensures forall i :: 0 <= i < |r| ==>
      r[i] == if FirstWithValue(boxes, v) == Some(i) then boxes[i].(checked := false) else boxes[i]
    decreases |boxes|
  {
    if boxes == [] then []
    else if boxes[0].value == v then [boxes[0].(checked := false)] + boxes[1..]
    else
      var rest := UncheckValue(boxes[1..], v);
      var r := [boxes[0]] + rest;
      assert forall i :: 1 <= i < |r| ==> r[i] == rest[i - 1];
      r
  }

  /** Each category has one checkbox. */
  predicate DistinctValues(boxes: seq<Checkbox>) {
    forall i, j :: 0 <= i < j < |boxes| ==> boxes[i].value != boxes[j].value
  }

  function IsNot(v: string): string -> bool {
    (t: string) => t != v
  }

  /** With one box per category, removing tag `v` drops exactly that tag and keeps
      the others in their order. */
  lemma {:induction false} RemoveTagDropsOnlyIt(boxes: seq<Checkbox>, v: string)
    requires DistinctValues(boxes)
    ensures SelectedTags(UncheckValue(boxes, v)) == Seqs.Filter(SelectedTags(boxes), IsNot(v))
    decreases |boxes|
  {
    if boxes != [] {
      var tail := boxes[1..];
      assert DistinctValues(tail) by {
        forall i, j | 0 <= i < j < |tail| ensures tail[i].value != tail[j].value {
          assert tail[i] == boxes[i + 1] && tail[j] == boxes[j + 1];
        }
      }
      var r := UncheckValue(boxes, v);
      if boxes[0].value == v {
        assert r[1..] == tail;
        assert forall j :: 0 <= j < |tail| ==> tail[j].value != v by {
          forall j | 0 <= j < |tail| ensures tail[j].value != v { assert tail[j] == boxes[j + 1]; }
        }
        NoTagKept(tail, v);
      } else {
        RemoveTagDropsOnlyIt(tail, v);
        assert r[1..] == UncheckValue(tail, v);
      }
    }
  }

  /** Tags of boxes none of which carries `v` survive removing `v` unchanged. */
  lemma {:induction false} NoTagKept(boxes: seq<Checkbox>, v: string)
    requires forall j :: 0 <= j < |boxes| ==> boxes[j].value != v
    ensures Seqs.Filter(SelectedTags(boxes), IsNot(v)) == SelectedTags(boxes)
    decreases |boxes|
  {
    if boxes != [] {
      var tail := boxes[1..];
      assert forall j :: 0 <= j < |tail| ==> tail[j].value != v by {
        forall j | 0 <= j < |tail| ensures tail[j].value != v { assert tail[j] == boxes[j + 1]; }
      }
      NoTagKept(tail, v);
      var tags := SelectedTags(boxes);
      if boxes[0].checked {
        assert tags[1..] == SelectedTags(tail);
      }
    }
  }

  /** The reset after a successful add: every checkbox unchecked. */
  function UncheckAll(boxes: seq<Checkbox>): (r: seq<Checkbox>)
    ensures |r| == |boxes|
    ensures forall i :: 0 <= i < |r| ==> r[i].value == boxes[i].value && !r[i].checked
  {
    seq(|boxes|, i requires 0 <= i < |boxes| => boxes[i].(checked := false))
  }

  /** After the reset the tag list is empty. */
  lemma {:induction false} UncheckAllClearsTags(boxes: seq<Checkbox>)
    ensures SelectedTags(UncheckAll(boxes)) == []
  {
    var r := UncheckAll(boxes);
    var kept := Seqs.Filter(r, IsChecked);
    TagsAreCheckedValues(r);
    Seqs.SubsequenceIn(kept, r);
    assert kept == [];
  }

  /* ----- submitting ----- */

  /** The endpoint a submit posts to. */
  datatype Endpoint = UpdateBook(pk: int) | AddBook

  /** `BOOK_PK_TO_EDIT` is truthy: present and not `0`. */
  predicate Truthy(pk: Option<int>) {
    pk.Some? && pk.value != 0
  }

  function EndpointOf(isEditing: bool, pk: Option<int>): (e: Endpoint)
    ensures e.UpdateBook? <==> isEditing && Truthy(pk)
    ensures e.UpdateBook? ==> e.pk == pk.value
  {
    if isEditing && Truthy(pk) then UpdateBook(pk.value) else AddBook
  }

  /** The word the page uses for the action. */
  function ActionOf(e: Endpoint): string {
    if e.UpdateBook? then "updated" else "added"
  }

  /** A message shown in a field's error slot. */
  datatype FieldMessage = FieldMessage(field: string, text: string)

  /** What pressing submit does before any answer: stop with the missing-field
      messages, stop with a configuration alert, or post to an endpoint. */
  datatype Submission =
    | Blocked(errors: seq<FieldMessage>)
    | ConfigAlert(text: string)
    | Post(endpoint: Endpoint)

  /** The submit handler up to the request. The two required fields are checked as
      sent (`FormData` does not trim); both messages are shown before stopping. */
  function PrepareSubmit(bookIdJson: string, bookName: string, isEditing: bool, pk: Option<int>,
                         updateUrlSet: bool, addUrlSet: bool): (s: Submission)
    ensures s.Blocked? <==> bookIdJson == "" || bookName == ""
    ensures s.Blocked? ==>
      && (FieldMessage("book_id_json", "Book ID is required.") in s.errors <==> bookIdJson == "")
      && (FieldMessage("book_name", "Book Name is required.") in s.errors <==> bookName == "")
      && |s.errors| == (if bookIdJson == "" then 1 else 0) + (if bookName == "" then 1 else 0)
    ensures s.Post? ==> s.endpoint == EndpointOf(isEditing, pk)
    ensures s.ConfigAlert? <==>
      bookIdJson != "" && bookName != "" && (if EndpointOf(isEditing, pk).UpdateBook? then !updateUrlSet else !addUrlSet)
  {
    var idError := if bookIdJson == "" then [FieldMessage("book_id_json", "Book ID is required.")] else [];
    var nameError := if bookName == "" then [FieldMessage("book_name", "Book Name is required.")] else [];
    if idError + nameError != [] then Blocked(idError + nameError)
    else
      match EndpointOf(isEditing, pk)
      case UpdateBook(n) =>
        if !updateUrlSet then ConfigAlert("Config error: Update Book API URL missing.") else Post(UpdateBook(n))
      case AddBook =>
        if !addUrlSet then ConfigAlert("Config error: Add Book API URL missing.") else Post(AddBook)
  }

  /* ----- the server's form errors ----- */

  /** One key of the `errors` object: a field name and its messages. */
  datatype FieldErrors = FieldErrors(field: string, messages: seq<string>)

  /** Keys of a JavaScript object are distinct. */
  predicate DistinctFields(errors: seq<FieldErrors>) {
    forall i, j :: 0 <= i < j < |errors| ==> errors[i].field != errors[j].field
  }

  /** The key goes to an alert: the non-field key, or a field without an error slot. */
  function Alerted(slots: set<string>): FieldErrors -> bool {
    (e: FieldErrors) => e.field == "__all__" || e.field !in slots
  }

  function AlertText(e: FieldErrors): string {
    if e.field == "__all__" then "Form Error: " + Join(e.messages, " ")
    else "Error for " + e.field + ": " + Join(e.messages, " ")
  }

  /** The alerts, in key order. */
  function Alerts(errors: seq<FieldErrors>, slots: set<string>): (r: seq<string>)
    ensures |r| <= |errors|
    decreases |errors|
  {
    if errors == [] then []
    else
      var rest := Alerts(errors[1..], slots);
      if errors[0].field == "__all__" || errors[0].field !in slots then [AlertText(errors[0])] + rest else rest
  }

  /** One alert per key that has no slot or is `__all__`, in key order. */
  lemma {:induction false} AlertsAreUnslottedKeys(errors: seq<FieldErrors>, slots: set<string>)
    ensures |Alerts(errors, slots)| == |Seqs.Filter(errors, Alerted(slots))|
    ensures forall k :: 0 <= k < |Alerts(errors, slots)| ==>
      Alerts(errors, slots)[k] == AlertText(Seqs.Filter(errors, Alerted(slots))[k])
    decreases |errors|
  {
    if errors != [] {
      var tail := errors[1..];
      AlertsAreUnslottedKeys(tail, slots);
      var kept := Seqs.Filter(errors, Alerted(slots));
      assert kept == if Alerted(slots)(errors[0]) then [errors[0]] + Seqs.Filter(tail, Alerted(slots)) else Seqs.Filter(tail, Alerted(slots));
    }
  }

  /** The error slots after writing the keys in order into `texts`. */
  function Fill(errors: seq<FieldErrors>, texts: map<string, string>): (r: map<string, string>)
    ensures r.Keys == texts.Keys
    decreases |errors|
  {
    if errors == [] then texts
    else
      var e := errors[0];
      var next := if e.field != "__all__" && e.field in texts then texts[e.field := Join(e.messages, " ")] else texts;
      Fill(errors[1..], next)
  }

  /** A slot no later key names keeps its text. */
  lemma {:induction false} FillKeeps(errors: seq<FieldErrors>, texts: map<string, string>, f: string)
    requires f in texts
    requires forall i :: 0 <= i < |errors| ==> errors[i].field != f
    ensures Fill(errors, texts)[f] == texts[f]
    decreases |errors|
  {
    if errors != [] {
      var e := errors[0];
      var next := if e.field != "__all__" && e.field in texts then texts[e.field := Join(e.messages, " ")] else texts;
      FillKeeps(errors[1..], next, f);
    }
  }

  /** A slot named by exactly one key ends with that key's joined messages. */
  lemma {:induction false} FillWrites(errors: seq<FieldErrors>, texts: map<string, string>, k: int)
    requires DistinctFields(errors)
    requires 0 <= k < |errors| && errors[k].field != "__all__" && errors[k].field in texts
    ensures Fill(errors, texts)[errors[k].field] == Join(errors[k].messages, " ")
    decreases |errors|
  {
    var e := errors[0];
    var next := if e.field != "__all__" && e.field in texts then texts[e.field := Join(e.messages, " ")] else texts;
    var tail := errors[1..];
    if k == 0 {
      forall i | 0 <= i < |tail| ensures tail[i].field != e.field { assert tail[i] == errors[i + 1]; }
      FillKeeps(tail, next, e.field);
    } else {
      assert tail[k - 1] == errors[k];
      assert DistinctFields(tail) by {
        forall i, j | 0 <= i < j < |tail| ensures tail[i].field != tail[j].field {
          assert tail[i] == errors[i + 1] && tail[j] == errors[j + 1];
        }
      }
      FillWrites(tail, next, k - 1);
    }
  }

  /** The slots, all cleared. */
  function Cleared(slots: set<string>): (m: map<string, string>)
    ensures m.Keys == slots
    ensures forall f :: f in m ==> m[f] == ""
  {
    map f | f in slots :: ""
  }

  /** `displayDjangoFormErrors`: every slot is cleared, then each key of `errors` goes
      to its slot (messages joined by a space) or, for `__all__` and fields without a
      slot, to an alert. */
  function ShowFormErrors(errors: seq<FieldErrors>, slots: set<string>): (r: (map<string, string>, seq<string>))
    requires DistinctFields(errors)
    ensures r.0.Keys == slots
    ensures forall k :: 0 <= k < |errors| && errors[k].field != "__all__" && errors[k].field in slots ==>
      r.0[errors[k].field] == Join(errors[k].messages, " ")
    ensures forall f :: f in slots && (forall i :: 0 <= i < |errors| ==> errors[i].field != f) ==> r.0[f] == ""
    ensures forall f :: f in slots && f == "__all__" ==> r.0[f] == ""
    ensures r.1 == Alerts(errors, slots)
  {
    var texts := Fill(errors, Cleared(slots));
    forall k | 0 <= k < |errors| && errors[k].field != "__all__" && errors[k].field in slots
      ensures texts[errors[k].field] == Join(errors[k].messages, " ")
    {
      FillWrites(errors, Cleared(slots), k);
    }
    forall f | f in slots && (forall i :: 0 <= i < |errors| ==> errors[i].field != f)
      ensures texts[f] == ""
    {
      FillKeeps(errors, Cleared(slots), f);
    }
    forall f | f in slots && f == "__all__" ensures texts[f] == "" {
      AllSlotUntouched(errors, Cleared(slots));
    }
    (texts, Alerts(errors, slots))
  }

  /** A slot called `__all__` is never written. */
  lemma {:induction false} AllSlotUntouched(errors: seq<FieldErrors>, texts: map<string, string>)
    requires "__all__" in texts
    ensures Fill(errors, texts)["__all__"] == texts["__all__"]
    decreases |errors|
  {
    if errors != [] {
      var e := errors[0];
      var next := if e.field != "__all__" && e.field in texts then texts[e.field := Join(e.messages, " ")] else texts;
      AllSlotUntouched(errors[1..], next);
    }
  }

  /* ----- the answer ----- */

  /** What `fetch` and `response.json()` produced. */
  datatype BookAnswer =
    | NotJson
    | NetworkError
    | BookJson(success: bool, message: Option<string>, errors: Option<seq<FieldErrors>>)

  /** What the page shows after the answer: alerts in order, the error slots (when the
      server's errors were displayed), and the checkboxes. */
  datatype AfterAnswer = AfterAnswer(alerts: seq<string>, slotTexts: Option<map<string, string>>, boxes: seq<Checkbox>)

  /** The answer to a posted form. A success resets the categories after an add and
      leaves them after an edit; a failure alerts the message (or a fallback) and then
      shows the server's field errors; a rejected promise is alerted. The success banner
      itself is not modelled. */
  function HandleAnswer(e: Endpoint, isEditing: bool, answer: BookAnswer, boxes: seq<Checkbox>, slots: set<string>): (r: AfterAnswer)
    requires answer.BookJson? && answer.errors.Some? ==> DistinctFields(answer.errors.value)
    ensures answer.BookJson? && answer.success && !isEditing ==> SelectedTags(r.boxes) == []
    ensures !(answer.BookJson? && answer.success && !isEditing) ==> r.boxes == boxes
    ensures answer.NotJson? ==> r.alerts == ["Server error: Unexpected response format."]
    ensures answer.NetworkError? ==> r.alerts == ["Network or script error."]
    ensures answer.BookJson? && !answer.success ==>
      && |r.alerts| >= 1
      && r.alerts[0] == "Error: " + (if answer.message.Some? && answer.message.value != "" then answer.message.value
                                     else "Could not " + ActionOf(e) + " book.")
      && (answer.errors.Some? <==> r.slotTexts.Some?)
      && (answer.errors.Some? ==> r.alerts[1..] == Alerts(answer.errors.value, slots))
      && (answer.errors.Some? ==> r.slotTexts == Some(ShowFormErrors(answer.errors.value, slots).0))
      && (answer.errors.None? ==> |r.alerts| == 1)
  {
    match answer
    case NotJson => AfterAnswer(["Server error: Unexpected response format."], None, boxes)
    case NetworkError => AfterAnswer(["Network or script error."], None, boxes)
    case BookJson(ok, message, errors) =>
      if ok then
        var after := if !isEditing then UncheckAll(boxes) else boxes;
        UncheckAllClearsTags(boxes);
        AfterAnswer([], None, after)
      else
        var first := "Error: " + (if message.Some? && message.value != "" then message.value
                                  else "Could not " + ActionOf(e) + " book.");
        match errors
        case None => AfterAnswer([first], None, boxes)
        case Some(es) =>
          var shown := ShowFormErrors(es, slots);
          AfterAnswer([first] + shown.1, Some(shown.0), boxes)
  }

  /* ----- against the server ----- */

  /** The messages of one field of `form.errors`, in the order they were raised. */
  function Messages(kinds: seq<Forms.ErrorKind>): (ms: seq<string>)
    ensures |ms| == |kinds|
    ensures forall k :: 0 <= k < |ms| ==> ms[k] == Forms.KindMessage(kinds[k])
  {
    seq(|kinds|, k requires 0 <= k < |kinds| => Forms.KindMessage(kinds[k]))
  }

  /** `form.errors` as JSON: each failed field with its messages. */
  function ErrorsJson(es: seq<Forms.FieldError>): (r: seq<FieldErrors>)
    ensures |r| == |es|
    ensures forall i :: 0 <= i < |r| ==> r[i].field == es[i].field
    ensures Forms.DistinctFields(es) ==> DistinctFields(r)
  {
    seq(|es|, i requires 0 <= i < |es| => FieldErrors(es[i].field, Messages(es[i].kinds)))
  }

  /** The JSON body of a refused form: failure, the reply's message, and the errors. */
  function InvalidDataAnswer(reply: Views.Reply): (a: BookAnswer)
    requires reply.InvalidData?
    ensures a.BookJson? && !a.success && a.errors == Some(ErrorsJson(reply.errors))
  {
    BookJson(false, Some(Views.Message(reply)), Some(ErrorsJson(reply.errors)))
  }

  /** A form `add_book_api_view` refuses is shown on the page: "Error: Invalid data."
      is alerted first, each failed field that has a slot shows its messages joined by
      a space, every other slot is cleared, and a failed field without a slot is
      alerted. When every field of the form has a slot, the first alert is the only one. */
  lemma RefusedAddShown(lib: Models.Library, req: Views.Request, input: Forms.BookFormInput,
                        categoryNames: seq<string>, boxes: seq<Checkbox>, slots: set<string>)
    requires Views.AddBook(lib, req, input, categoryNames).reply.InvalidData?
    ensures var es := Forms.FormErrors(lib.books, None, input);
      var r := HandleAnswer(AddBook, false, InvalidDataAnswer(Views.AddBook(lib, req, input, categoryNames).reply), boxes, slots);
      && r.alerts[0] == "Error: " + "Invalid data."
      && r.boxes == boxes
      && r.slotTexts.Some? && r.slotTexts.value.Keys == slots
      && (forall i :: 0 <= i < |es| && es[i].field in slots ==>
            r.slotTexts.value[es[i].field] == Join(Messages(es[i].kinds), " "))
      && (forall f :: f in slots && (forall i :: 0 <= i < |es| ==> es[i].field != f) ==> r.slotTexts.value[f] == "")
      && r.alerts[1..] == Alerts(ErrorsJson(es), slots)
      && ((forall f :: f in Forms.FieldOrder ==> f in slots) ==> r.alerts == ["Error: " + "Invalid data."])
  {
    var es := Forms.FormErrors(lib.books, None, input);
    RefusedAddAnswer(lib, req, input, categoryNames);
    InvalidAnswerShown(es, boxes, slots);
  }

  /** The body `add_book_api_view` sends for a refused form. */
  lemma RefusedAddAnswer(lib: Models.Library, req: Views.Request, input: Forms.BookFormInput, categoryNames: seq<string>)
    requires Views.AddBook(lib, req, input, categoryNames).reply.InvalidData?
    ensures InvalidDataAnswer(Views.AddBook(lib, req, input, categoryNames).reply)
      == BookJson(false, Some("Invalid data."), Some(ErrorsJson(Forms.FormErrors(lib.books, None, input))))
  {
  }

  /** The page's handling of "Invalid data." with the errors `es` of the book form. */
  lemma InvalidAnswerShown(es: seq<Forms.FieldError>, boxes: seq<Checkbox>, slots: set<string>)
    requires Forms.DistinctFields(es)
    requires forall i :: 0 <= i < |es| ==> es[i].field in Forms.FieldOrder
    ensures var r := HandleAnswer(AddBook, false, BookJson(false, Some("Invalid data."), Some(ErrorsJson(es))), boxes, slots);
      && r.alerts[0] == "Error: " + "Invalid data."
      && r.boxes == boxes
      && r.slotTexts.Some? && r.slotTexts.value.Keys == slots
      && (forall i :: 0 <= i < |es| && es[i].field in slots ==>
            r.slotTexts.value[es[i].field] == Join(Messages(es[i].kinds), " "))
      && (forall f :: f in slots && (forall i :: 0 <= i < |es| ==> es[i].field != f) ==> r.slotTexts.value[f] == "")
      && r.alerts[1..] == Alerts(ErrorsJson(es), slots)
      && ((forall f :: f in Forms.FieldOrder ==> f in slots) ==> r.alerts == ["Error: " + "Invalid data."])
  {
    var shown := ShowFormErrors(ErrorsJson(es), slots);
    ErrorsShown(es, slots);
    FailedAnswerShape(AddBook, false, "Invalid data.", ErrorsJson(es), boxes, slots);
  }

  /** A failure with a message and errors: the message is alerted, then the errors shown. */
  lemma FailedAnswerShape(e: Endpoint, isEditing: bool, message: string, es: seq<FieldErrors>,
                          boxes: seq<Checkbox>, slots: set<string>)
    requires message != "" && DistinctFields(es)
    ensures HandleAnswer(e, isEditing, BookJson(false, Some(message), Some(es)), boxes, slots)
      == AfterAnswer(["Error: " + message] + ShowFormErrors(es, slots).1, Some(ShowFormErrors(es, slots).0), boxes)
  {
  }

  /** How the slots and alerts show `form.errors` when every field named is one of the
      form's fields. */
  lemma ErrorsShown(es: seq<Forms.FieldError>, slots: set<string>)
    requires Forms.DistinctFields(es)
    requires forall i :: 0 <= i < |es| ==> es[i].field in Forms.FieldOrder
    ensures var shown := ShowFormErrors(ErrorsJson(es), slots);
      && (forall i :: 0 <= i < |es| && es[i].field in slots ==>
            shown.0[es[i].field] == Join(Messages(es[i].kinds), " "))
      && (forall f :: f in slots && (forall i :: 0 <= i < |es| ==> es[i].field != f) ==> shown.0[f] == "")
      && ((forall f :: f in Forms.FieldOrder ==> f in slots) ==> shown.1 == [])
  {
    var json := ErrorsJson(es);
    var shown := ShowFormErrors(json, slots);
    forall i | 0 <= i < |es| && es[i].field in slots
      ensures shown.0[es[i].field] == Join(Messages(es[i].kinds), " ")
    {
      FieldOrderNotAll(es[i].field);
      assert json[i] == FieldErrors(es[i].field, Messages(es[i].kinds));
    }
    forall f | f in slots && (forall i :: 0 <= i < |es| ==> es[i].field != f)
      ensures shown.0[f] == ""
    {
      assert forall i :: 0 <= i < |json| ==> json[i].field != f;
    }
    if forall f :: f in Forms.FieldOrder ==> f in slots {
      forall i | 0 <= i < |json| ensures json[i].field in slots && json[i].field != "__all__" {
        FieldOrderNotAll(es[i].field);
      }
      NoAlertsWhenSlotted(json, slots);
    }
  }

  /** No field of the book form is called `__all__`. */
  lemma FieldOrderNotAll(f: string)
    requires f in Forms.FieldOrder
    ensures f != "__all__"
  {
  }

  /** Keys that all have a slot, none of them `__all__`, raise no alert. */
  lemma {:induction false} NoAlertsWhenSlotted(errors: seq<FieldErrors>, slots: set<string>)
    requires forall i :: 0 <= i < |errors| ==> errors[i].field in slots && errors[i].field != "__all__"
    ensures Alerts(errors, slots) == []
    decreases |errors|
  {
    if errors != [] {
      assert forall i :: 0 <= i < |errors[1..]| ==> errors[1..][i] == errors[i + 1];
      NoAlertsWhenSlotted(errors[1..], slots);
    }
  }

  /** Whatever the page stops for a missing identifier or name, the server refuses too,
      reporting that field as required. */
  lemma BlockedFieldsRequiredByServer(books: seq<Models.Book>, instance: Option<nat>, input: Forms.BookFormInput,
                                      isEditing: bool, pk: Option<int>, updateUrlSet: bool, addUrlSet: bool)
    ensures var s := PrepareSubmit(input.bookIdJson, input.bookName, isEditing, pk, updateUrlSet, addUrlSet);
      var es := Forms.FormErrors(books, instance, input);
      && (s.Blocked? && FieldMessage("book_id_json", "Book ID is required.") in s.errors ==>
            Forms.FieldError("book_id_json", [Forms.Required]) in es)
      && (s.Blocked? && FieldMessage("book_name", "Book Name is required.") in s.errors ==>
            Forms.FieldError("book_name", [Forms.Required]) in es)
  {
    Forms.RequiredReported(books, instance, input);
  }

  /** The page checks the identifier as typed and the server after stripping it: an
      identifier of spaces alone is posted, and `add_book_api_view` refuses the form
      with that field required. */
  lemma SpacesIdPostedThenRefused(lib: Models.Library, req: Views.Request, input: Forms.BookFormInput,
                                  categoryNames: seq<string>, pk: Option<int>, updateUrlSet: bool)
    requires input.bookIdJson != "" && Strip(input.bookIdJson, PyWhitespace) == "" && input.bookName != ""
    requires Views.IsAdminSession(req.session) && req.isPost
    ensures PrepareSubmit(input.bookIdJson, input.bookName, false, pk, updateUrlSet, true) == Post(AddBook)
    ensures var s := Views.AddBook(lib, req, input, categoryNames);
      s.reply.InvalidData? && Forms.FieldError("book_id_json", [Forms.Required]) in s.reply.errors
  {
    Forms.RequiredReported(lib.books, None, input);
  }
}
