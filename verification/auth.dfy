/** The browser side of signing up and logging in (`static/js/auth.js`): reading a
    cookie, the local session and admin checks, the client-side validation of the
    two forms, and what each form does with the server's answer. */
module Auth {
  import opened Wrappers
  import opened Text
  import Models
  import Views

  /* ----- cookies ----- */

  /** The entries of `document.cookie`: split at `;` and trimmed. */
  function Entries(cookie: string): (es: seq<string>)
  {
    var parts := Split(cookie, ';');
    seq(|parts|, i requires 0 <= i < |parts| => Strip(parts[i], JsWhitespace))
  }

  /** A trimmed entry belongs to `name` when its first `|name| + 1` characters are
      `name=`; a shorter entry, whose `substring` is the whole entry, never does. */
  predicate NamesCookie(entry: string, name: string) {
    |entry| >= |name| + 1 && entry[..|name| + 1] == name + "="
  }

  /** `getCookie(name)`: the value, passed through `decode` (`decodeURIComponent`), of
      the first entry that belongs to `name`; `None` (null) for an empty cookie string
      or when no entry belongs to `name`. */
  function GetCookie(cookie: string, name: string, decode: string -> string): (r: Option<string>)
    ensures r.None? <==>
      cookie == "" || forall i :: 0 <= i < |Entries(cookie)| ==> !NamesCookie(Entries(cookie)[i], name)
    ensures r.Some? ==>
      exists i :: 0 <= i < |Entries(cookie)| && NamesCookie(Entries(cookie)[i], name)
        && (forall j :: 0 <= j < i ==> !NamesCookie(Entries(cookie)[j], name))
        && r.value == decode(Entries(cookie)[i][|name| + 1..])
  {
    if cookie == "" then None
    else
      var es := Entries(cookie);
      match FirstNamed(es, name)
      case None => None
      case Some(i) => Some(decode(es[i][|name| + 1..]))
  }

  /** The position of the first entry belonging to `name` (the loop's `break`). */
  function FirstNamed(es: seq<string>, name: string): (r: Option<nat>)
    ensures r.Some? ==> r.value < |es| && NamesCookie(es[r.value], name)
    ensures r.Some? ==> forall j :: 0 <= j < r.value ==> !NamesCookie(es[j], name)
    ensures r.None? <==> forall j :: 0 <= j < |es| ==> !NamesCookie(es[j], name)
    decreases |es|
  {
    if es == [] then None
    else if NamesCookie(es[0], name) then Some(0)
    else
      match FirstNamed(es[1..], name)
      case None => None
      case Some(i) => Some(i + 1)
  }

  /** Names are matched exactly: because the compared prefix includes `=`, an entry
      `other=value` belongs to `name` only when `other` is `name` (neither containing `=`). */
  lemma CookieNameExact(other: string, value: string, name: string)
    requires '=' !in other && '=' !in name
    requires NamesCookie(other + "=" + value, name)
    ensures other == name
  {
    var e := other + "=" + value;
    var p := e[..|name| + 1];
    assert e[|other|] == '=';
    assert p[|name|] == '=';
    assert |other| == |name|;
    forall k | 0 <= k < |name| ensures other[k] == name[k] {
      assert p[k] == e[k];
    }
  }

  /** The text before the first separator of `j` is determined by `j`: two
      separator-free prefixes that each end at a separator or at the end agree. */
  lemma FirstPieceUnique(j: string, p: string, q: string, sep: char)
    requires p <= j && q <= j && sep !in p && sep !in q
    requires |p| == |j| || j[|p|] == sep
    requires |q| == |j| || j[|q|] == sep
    ensures p == q
  {
    assert |p| == |q|;
  }

  /** Two joins of pieces free of the separator are equal only when the pieces are. */
  lemma {:induction false} JoinInjective(a: seq<string>, b: seq<string>, sep: char)
    requires |a| >= 1 && |b| >= 1
    requires forall i :: 0 <= i < |a| ==> sep !in a[i]
    requires forall i :: 0 <= i < |b| ==> sep !in b[i]
    requires Join(a, [sep]) == Join(b, [sep])
    ensures a == b
    decreases |a|
  {
    var j := Join(a, [sep]);
    assert |a| == 1 ==> j == a[0];
    assert |b| == 1 ==> j == b[0];
    assert |a| > 1 ==> j == a[0] + [sep] + Join(a[1..], [sep]) && j[|a[0]|] == sep;
    assert |b| > 1 ==> j == b[0] + [sep] + Join(b[1..], [sep]) && j[|b[0]|] == sep;
    FirstPieceUnique(j, a[0], b[0], sep);
    assert |a| == 1 <==> |b| == 1;
    if |a| > 1 {
      var ra, rb := Join(a[1..], [sep]), Join(b[1..], [sep]);
      assert ra == j[|a[0]| + 1..];
      assert rb == j[|b[0]| + 1..];
      forall i | 0 <= i < |a[1..]| ensures sep !in a[1..][i] { assert a[1..][i] == a[i + 1]; }
      forall i | 0 <= i < |b[1..]| ensures sep !in b[1..][i] { assert b[1..][i] == b[i + 1]; }
      JoinInjective(a[1..], b[1..], sep);
      assert a == [a[0]] + a[1..] && b == [b[0]] + b[1..];
    }
  }

  /** Splitting a join of `;`-free pieces gives the pieces back. */
  lemma SplitJoin(parts: seq<string>, sep: char)
    requires |parts| >= 1
    requires forall i :: 0 <= i < |parts| ==> sep !in parts[i]
    ensures Split(Join(parts, [sep]), sep) == parts
  {
    var s := Join(parts, [sep]);
    JoinInjective(Split(s, sep), parts, sep);
  }

  /** `name=value` belongs to `name` and carries `value`. */
  lemma NameValueNamed(name: string, value: string)
    ensures NamesCookie(name + "=" + value, name)
    ensures (name + "=" + value)[|name| + 1..] == value
  {
    var e := name + "=" + value;
    assert e[..|name| + 1] == name + "=";
  }

  /** The trimmed text occurs in the untrimmed one. */
  lemma TrimmedInside(s: string)
    ensures exists k :: OccursAt(s, Strip(s, JsWhitespace), k)
  {
    var r := Strip(s, JsWhitespace);
    var k :| OccursAt(s, r, k) && AllWs(s[..k], JsWhitespace) && AllWs(s[k + |r|..], JsWhitespace);
  }

  /** The search stops at the first entry belonging to `name`. */
  lemma FirstNamedAt(es: seq<string>, name: string, i: int)
    requires 0 <= i < |es| && NamesCookie(es[i], name)
    requires forall j :: 0 <= j < i ==> !NamesCookie(es[j], name)
    ensures FirstNamed(es, name) == Some(i)
  {
  }

  /** A cookie string joined from entries finds the value of the first entry that,
      once trimmed, reads `name=value`. */
  lemma GetCookieFindsEntry(parts: seq<string>, name: string, value: string, i: int, decode: string -> string)
    requires 0 <= i < |parts|
    requires forall j :: 0 <= j < |parts| ==> ';' !in parts[j]
    requires Strip(parts[i], JsWhitespace) == name + "=" + value
    requires forall j :: 0 <= j < i ==> !NamesCookie(Strip(parts[j], JsWhitespace), name)
    ensures GetCookie(Join(parts, [';']), name, decode) == Some(decode(value))
  {
    var cookie := Join(parts, [';']);
    SplitJoin(parts, ';');
    var es := Entries(cookie);
    NameValueNamed(name, value);
    FirstNamedAt(es, name, i);
    TrimmedInside(parts[i]);
    JoinedPartOccurs(parts, [';'], i);
    assert |cookie| >= |parts[i]| >= |es[i]| > 0;
  }

  /** `localIsAuthenticated()`: whether the cookie string contains `sessionid` anywhere. */
  function LocalIsAuthenticated(cookie: string): (r: bool)
    ensures r <==> exists k :: OccursAt(cookie, "sessionid", k)
  {
    Includes(cookie, "sessionid")
  }

  lemma NamedEntryStartsWithName(entry: string, name: string)
    requires NamesCookie(entry, name)
    ensures OccursAt(entry, name, 0)
  {
    assert entry[..|name|] == entry[..|name| + 1][..|name|];
  }

  /** Every trimmed entry occurs in the cookie string. */
  lemma EntryOccurs(cookie: string, i: int)
    requires 0 <= i < |Entries(cookie)|
    ensures exists k :: OccursAt(cookie, Entries(cookie)[i], k)
  {
    var parts := Split(cookie, ';');
    var e := Entries(cookie)[i];
    JoinedPartOccurs(parts, [';'], i);
    var k1 :| OccursAt(cookie, parts[i], k1);
    TrimmedInside(parts[i]);
    var k2 :| OccursAt(parts[i], e, k2);
    OccursAtTrans(cookie, parts[i], e, k1, k2);
  }

  /** Whenever `getCookie('sessionid')` finds a session cookie, the local check agrees. */
  lemma SessionCookieAuthenticates(cookie: string, decode: string -> string)
    requires GetCookie(cookie, "sessionid", decode).Some?
    ensures LocalIsAuthenticated(cookie)
  {
    var es := Entries(cookie);
    var i :| 0 <= i < |es| && NamesCookie(es[i], "sessionid");
    EntryOccurs(cookie, i);
    var k :| OccursAt(cookie, es[i], k);
    NamedEntryStartsWithName(es[i], "sessionid");
    OccursAtTrans(cookie, es[i], "sessionid", k, 0);
  }

  /** A cookie string without `;` is a single entry. */
  lemma SplitWithoutSeparator(cookie: string)
    requires ';' !in cookie
    ensures Split(cookie, ';') == [cookie]
  {
    JoinInjective(Split(cookie, ';'), [cookie], ';');
  }

  /** A cookie string without `;` and with no whitespace at either end is one entry. */
  lemma SingleEntry(c: string)
    requires c != "" && ';' !in c && !JsWhitespace(c[0]) && !JsWhitespace(c[|c| - 1])
    ensures Entries(c) == [c]
  {
    SplitWithoutSeparator(c);
    StripNoop(c, JsWhitespace);
  }

  /** A one-entry cookie `x` followed by `name`, where `x` is not the first letter of
      `name`, contains `name` but has no entry belonging to it. */
  lemma PrefixedNameIsNoEntry(x: char, name: string, decode: string -> string)
    requires name != "" && x != name[0] && x != ';' && ';' !in name
    requires !JsWhitespace(x) && !JsWhitespace(name[|name| - 1])
    ensures Includes([x] + name, name)
    ensures GetCookie([x] + name, name, decode).None?
  {
    PrefixedNameIncluded(x, name);
    PrefixedNameUnnamed(x, name);
    UnnamedSingleEntry([x] + name, name, decode);
  }

  lemma PrefixedNameIncluded(x: char, name: string)
    ensures Includes([x] + name, name)
  {
    var c := [x] + name;
    assert c[1..1 + |name|] == name;
    assert OccursAt(c, name, 1);
  }

  lemma PrefixedNameUnnamed(x: char, name: string)
    requires name != "" && x != name[0]
    ensures !NamesCookie([x] + name, name)
  {
    var c := [x] + name;
    if |c| >= |name| + 1 {
      assert c[..|name| + 1][0] == x && (name + "=")[0] == name[0];
    }
  }

  /** A one-entry cookie that does not belong to `name` gives no value for it. */
  lemma UnnamedSingleEntry(c: string, name: string, decode: string -> string)
    requires c != "" && ';' !in c && !JsWhitespace(c[0]) && !JsWhitespace(c[|c| - 1])
    requires !NamesCookie(c, name)
    ensures GetCookie(c, name, decode).None?
  {
    SingleEntry(c);
  }

  /** The local check is looser than a session cookie: a cookie such as
      `xsessionid` passes it although no entry is named `sessionid`. */
  lemma SubstringCheckIsLoose(x: char, decode: string -> string)
    requires x != 's' && x != ';' && !JsWhitespace(x)
    ensures LocalIsAuthenticated([x] + "sessionid")
    ensures GetCookie([x] + "sessionid", "sessionid", decode).None?
  {
    PrefixedNameIsNoEntry(x, "sessionid", decode);
  }

  /** A JavaScript value of `UserContext.isAdmin`. */
  datatype JsValue = JsBool(b: bool) | JsNonBoolean

  /** `localIsAdmin()`; `userContext` is `None` when `window.UserContext` is absent and
      holds `None` when it has no `isAdmin` property. */
  function LocalIsAdmin(userContext: Option<Option<JsValue>>): (r: bool)
    ensures r <==> userContext == Some(Some(JsBool(true)))
  {
    match userContext
    case Some(Some(JsBool(b))) => b
    case _ => false
  }

  /* ----- the e-mail shape ----- */

  /** A character the class `[^\s@]` accepts. */
  predicate Plain(c: char) {
    !JsWhitespace(c) && c != '@'
  }

  predicate AllPlain(s: string) {
    forall i :: 0 <= i < |s| ==> Plain(s[i])
  }

  /** The language of `^[^\s@]+@[^\s@]+\.[^\s@]+$`. */
  ghost predicate EmailPattern(e: string) {
    exists a: string, b: string, c: string ::
      && e == a + "@" + b + "." + c
      && a != "" && b != "" && c != ""
      && AllPlain(a) && AllPlain(b) && AllPlain(c)
  }

  /** The position of the first `@`. */
  function FirstAt(e: string): (r: Option<nat>)
    ensures r.Some? ==> r.value < |e| && e[r.value] == '@'
    ensures r.Some? ==> forall j :: 0 <= j < r.value ==> e[j] != '@'
    ensures r.None? <==> '@' !in e
    decreases |e|
  {
    if e == [] then None
    else if e[0] == '@' then Some(0)
    else
      match FirstAt(e[1..])
      case None => None
      case Some(i) => Some(i + 1)
  }

  /** The test the signup form applies: one `@` with plain characters around it, and
      a `.` strictly inside the part after it. */
  function IsEmail(e: string): (r: bool) {
    match FirstAt(e)
    case None => false
    case Some(at) =>
      var domain := e[at + 1..];
      && at > 0 && AllPlain(e[..at]) && AllPlain(domain)
      && exists k :: 0 < k < |domain| - 1 && domain[k] == '.'
  }

  lemma AllPlainConcat(a: string, b: string)
    requires AllPlain(a) && AllPlain(b)
    ensures AllPlain(a + b)
  {
    forall i | 0 <= i < |a + b| ensures Plain((a + b)[i]) {
      if i >= |a| { assert (a + b)[i] == b[i - |a|]; }
    }
  }

  /** Every string the computed test accepts matches the regular expression. */
  lemma IsEmailSound(e: string)
    requires IsEmail(e)
    ensures EmailPattern(e)
  {
    var at := FirstAt(e).value;
    var domain := e[at + 1..];
    var k :| 0 < k < |domain| - 1 && domain[k] == '.';
    var a, b, c := e[..at], domain[..k], domain[k + 1..];
    PiecesJoin(e, at, k);
    PlainSlice(domain, 0, k);
    PlainSlice(domain, k + 1, |domain|);
    assert e == a + "@" + b + "." + c && AllPlain(b) && AllPlain(c);
  }

  lemma PlainSlice(s: string, i: int, j: int)
    requires AllPlain(s) && 0 <= i <= j <= |s|
    ensures AllPlain(s[i..j])
  {
    forall n | 0 <= n < j - i ensures Plain(s[i..j][n]) { assert s[i..j][n] == s[i + n]; }
  }

  /** Cutting at an `@` and at a `.` after it, and joining again, gives the string back. */
  lemma PiecesJoin(e: string, at: int, k: int)
    requires 0 <= at < |e| && e[at] == '@'
    requires 0 <= k < |e| - at - 1 && e[at + 1 + k] == '.'
    ensures e == e[..at] + "@" + e[at + 1..][..k] + "." + e[at + 1..][k + 1..]
  {
    var domain := e[at + 1..];
    assert domain == domain[..k] + "." + domain[k + 1..];
    assert e == e[..at] + "@" + domain;
  }

  /** Every string the regular expression matches passes the computed test. */
  lemma IsEmailComplete(e: string, a: string, b: string, c: string)
    requires e == a + "@" + b + "." + c
    requires a != "" && b != "" && c != ""
    requires AllPlain(a) && AllPlain(b) && AllPlain(c)
    ensures IsEmail(e)
  {
    assert e[|a|] == '@';
    forall j | 0 <= j < |a| ensures e[j] != '@' {
      assert e[j] == a[j];
    }
    assert FirstAt(e) == Some(|a|);
    var domain := e[|a| + 1..];
    assert domain == b + "." + c;
    assert e[..|a|] == a;
    AllPlainConcat(b, ".");
    AllPlainConcat(b + ".", c);
    assert domain[|b|] == '.';
  }

  /** The computed test accepts exactly the strings the regular expression matches. */
  lemma IsEmailMatchesPattern(e: string)
    ensures IsEmail(e) <==> EmailPattern(e)
  {
    if IsEmail(e) {
      IsEmailSound(e);
    }
    if EmailPattern(e) {
      var a: string, b: string, c: string :|
        && e == a + "@" + b + "." + c
        && a != "" && b != "" && c != ""
        && AllPlain(a) && AllPlain(b) && AllPlain(c);
      IsEmailComplete(e, a, b, c);
    }
  }

  /* ----- the signup form ----- */

  const MinPasswordLength: nat := 8

  /** What the signup form holds when it is submitted; `isAdminChoice` is the value of
      the checked `is_admin` radio button, if any. */
  datatype SignupForm = SignupForm(username: string, email: string, password: string,
                                   confirmPassword: string, isAdminChoice: Option<string>)

  /** The JSON body `handleSignup` posts. */
  datatype SignupRequest = SignupRequest(username: string, email: string, password: string, isAdmin: string)

  /** The client-side checks, given whether the password counts as too short: the
      request to send, or `None` when any check fails. */
  function CheckedRequest(f: SignupForm, passwordShort: bool): (r: Option<SignupRequest>)
    ensures r.None? <==>
      || Strip(f.username, JsWhitespace) == ""
      || !EmailPattern(Strip(f.email, JsWhitespace))
      || passwordShort
      || f.password != f.confirmPassword
    ensures r.Some? ==> r.value.username == Strip(f.username, JsWhitespace)
    ensures r.Some? ==> r.value.email == Strip(f.email, JsWhitespace)
    ensures r.Some? ==> r.value.password == f.password
    ensures r.Some? ==> r.value.isAdmin == f.isAdminChoice.GetOr("false")
  {
    var username := Strip(f.username, JsWhitespace);
    var email := Strip(f.email, JsWhitespace);
    IsEmailMatchesPattern(email);
    var hasError :=
      username == "" || email == "" || !IsEmail(email)
      || passwordShort || f.password != f.confirmPassword;
    if hasError then None
    else Some(SignupRequest(username, email, f.password, f.isAdminChoice.GetOr("false")))
  }

  /** The client-side checks with the password's length counted in characters, as
      the server counts it. */
  function SignupRequestOf(f: SignupForm): (r: Option<SignupRequest>)
    ensures r.None? <==>
      || Strip(f.username, JsWhitespace) == ""
      || !EmailPattern(Strip(f.email, JsWhitespace))
      || |f.password| < MinPasswordLength
      || f.password != f.confirmPassword
    ensures r.Some? ==> r.value.username == Strip(f.username, JsWhitespace)
    ensures r.Some? ==> r.value.email == Strip(f.email, JsWhitespace)
    ensures r.Some? ==> r.value.password == f.password
    ensures r.Some? ==> r.value.isAdmin == f.isAdminChoice.GetOr("false")
  {
    CheckedRequest(f, |f.password| < MinPasswordLength)
  }

  /** The client-side checks as written: `password.length` counts UTF-16 code units,
      in which a character outside the Basic Multilingual Plane counts twice. Every
      form the corrected checks send is sent alike; the only other forms sent hold a
      password of fewer than 8 characters. */
  function SignupRequestOfAsWritten(f: SignupForm): (r: Option<SignupRequest>)
    ensures r.None? <==>
      || Strip(f.username, JsWhitespace) == ""
      || !EmailPattern(Strip(f.email, JsWhitespace))
      || Utf16Length(f.password) < MinPasswordLength
      || f.password != f.confirmPassword
    ensures SignupRequestOf(f).Some? ==> r == SignupRequestOf(f)
    ensures r.Some? && SignupRequestOf(f).None? ==> |f.password| < MinPasswordLength <= Utf16Length(f.password)
  {
    CheckedRequest(f, Utf16Length(f.password) < MinPasswordLength)
  }

  /** What `fetch` produced: a parsed JSON body, or a rejected promise (no connection,
      or a body that is not JSON). */
  datatype SignupAnswer = SignupNetworkFailure | SignupJson(success: bool, message: Option<string>)

  datatype AuthResult = AuthResult(success: bool, isAdmin: bool, message: Option<string>)

  /** `handleSignup`: a missing endpoint and a failed request become failures with a
      fixed message; otherwise the server's JSON is returned. */
  function HandleSignup(configured: bool, answer: SignupAnswer): (r: AuthResult)
    ensures !configured ==> r == AuthResult(false, false, Some("Configuration error for signup."))
    ensures configured && answer.SignupNetworkFailure? ==>
      r == AuthResult(false, false, Some("Network error or server issue during signup."))
    ensures configured && answer.SignupJson? ==>
      r.success == answer.success && r.message == answer.message
  {
    if !configured then AuthResult(false, false, Some("Configuration error for signup."))
    else match answer
      case SignupNetworkFailure => AuthResult(false, false, Some("Network error or server issue during signup."))
      case SignupJson(ok, m) => AuthResult(ok, false, m)
  }

  /** A field error slot a failed signup message is shown in, or an alert. */
  datatype Route = ToUsername | ToEmail | ToPassword | ToAlert

  /** The message mentions `word`, ignoring case. */
  predicate Mentions(message: string, word: string) {
    Includes(Lower(message), word)
  }

  /** Routing of a failed signup message: the first of `username`, `email`,
      `password` it mentions picks the slot; a message mentioning none is alerted. */
  function RouteOf(message: string): (r: Route)
    ensures r == ToUsername <==> Mentions(message, "username")
    ensures r == ToEmail <==> !Mentions(message, "username") && Mentions(message, "email")
    ensures r == ToPassword <==>
      !Mentions(message, "username") && !Mentions(message, "email") && Mentions(message, "password")
  {
    if Mentions(message, "username") then ToUsername
    else if Mentions(message, "email") then ToEmail
    else if Mentions(message, "password") then ToPassword
    else ToAlert
  }

  /** A word whose first `|w|` lower-cased characters start the message is mentioned. */
  lemma MentionedFirst(message: string, w: string)
    requires |w| <= |message| && forall i :: 0 <= i < |w| ==> LowerChar(message[i]) == w[i]
    ensures Mentions(message, w)
  {
    assert Lower(message)[..|w|] == w;
    assert OccursAt(Lower(message), w, 0);
  }

  /** A word is not mentioned when two of its adjacent letters never appear together
      in the lower-cased message. */
  lemma UnmentionedPair(message: string, w: string, j: nat)
    requires j + 1 < |w|
    requires forall i :: 0 <= i < |message| - 1 ==> !(LowerChar(message[i]) == w[j] && LowerChar(message[i + 1]) == w[j + 1])
    ensures !Mentions(message, w)
  {
    var s := Lower(message);
    forall k ensures !OccursAt(s, w, k) {
      if 0 <= k && k + |w| <= |s| {
        assert s[k..k + |w|][j] == s[k + j];
        assert s[k..k + |w|][j + 1] == s[k + j + 1];
      }
    }
  }

  /** A word is not mentioned when one of its lower-case letters occurs in the message
      in neither case. */
  lemma UnmentionedLetter(message: string, w: string, j: nat)
    requires j < |w| && 'a' <= w[j] <= 'z'
    requires forall i :: 0 <= i < |message| ==> message[i] != w[j] && message[i] != (w[j] as int - 32) as char
    ensures !Mentions(message, w)
  {
    var s := Lower(message);
    forall k ensures !OccursAt(s, w, k) {
      if 0 <= k && k + |w| <= |s| {
        assert s[k..k + |w|][j] == s[k + j];
      }
    }
  }

  lemma UsernameTakenRoute()
    ensures RouteOf(Views.Message(Views.UsernameTaken)) == ToUsername
  {
    MentionedFirst(Views.Message(Views.UsernameTaken), "username");
  }

  lemma EmailTakenRoute()
    ensures RouteOf(Views.Message(Views.EmailTaken)) == ToEmail
  {
    EmailTakenWords(Views.Message(Views.EmailTaken));
    EmailRoute(Views.Message(Views.EmailTaken));
  }

  lemma PasswordTooShortRoute()
    ensures RouteOf(Views.Message(Views.PasswordTooShort)) == ToPassword
  {
    PasswordTooShortWords(Views.Message(Views.PasswordTooShort));
  }

  /** The words of the short-password message: it starts with `password`, holds no
      `i` for `email`, and no `s` followed by `e` for `username`. */
  lemma PasswordTooShortWords(m: string)
    requires m == "Password must be at least 8 characters long."
    ensures !Mentions(m, "username") && !Mentions(m, "email") && Mentions(m, "password")
  {
    PasswordTooShortPairs(m);
    UnmentionedPair(m, "username", 1);
    PasswordTooShortLetters(m);
    UnmentionedLetter(m, "email", 3);
    PasswordTooShortStart(m);
    MentionedFirst(m, "password");
  }

  lemma PasswordTooShortPairs(m: string)
    requires m == "Password must be at least 8 characters long."
    ensures forall i :: 0 <= i < |m| - 1 ==> !(LowerChar(m[i]) == 's' && LowerChar(m[i + 1]) == 'e')
  {
  }

  lemma PasswordTooShortLetters(m: string)
    requires m == "Password must be at least 8 characters long."
    ensures forall i :: 0 <= i < |m| ==> m[i] != 'i' && m[i] != 'I'
  {
  }

  lemma PasswordTooShortStart(m: string)
    requires m == "Password must be at least 8 characters long."
    ensures 8 <= |m| && forall i :: 0 <= i < 8 ==> LowerChar(m[i]) == "password"[i]
  {
  }

  lemma AllFieldsRequiredRoute()
    ensures RouteOf(Views.Message(Views.AllFieldsRequired)) == ToAlert
  {
    AllFieldsRequiredWords(Views.Message(Views.AllFieldsRequired));
  }

  /** The presence refusal names no field: it holds no `n`, `m` or `p`. */
  lemma AllFieldsRequiredWords(m: string)
    requires m == "All fields are required."
    ensures !Mentions(m, "username") && !Mentions(m, "email") && !Mentions(m, "password")
  {
    AbsentLetters(m);
    UnmentionedLetter(m, "username", 4);
    UnmentionedLetter(m, "email", 1);
    UnmentionedLetter(m, "password", 0);
  }

  lemma SignupFailedRoute()
    ensures RouteOf(Views.Message(Views.SignupFailed)) == ToAlert
  {
    SignupFailedWords(Views.Message(Views.SignupFailed));
  }

  /** The generic failure names no field: it holds no `m` and no `w`. */
  lemma SignupFailedWords(m: string)
    requires m == "An unexpected error occurred during signup."
    ensures !Mentions(m, "username") && !Mentions(m, "email") && !Mentions(m, "password")
  {
    AbsentLetters(m);
    UnmentionedLetter(m, "username", 6);
    UnmentionedLetter(m, "email", 1);
    UnmentionedLetter(m, "password", 4);
  }

  lemma AbsentLetters(m: string)
    requires m == "All fields are required." || m == "An unexpected error occurred during signup."
    ensures m == "All fields are required." ==>
      forall i :: 0 <= i < |m| ==> m[i] !in {'n', 'N', 'm', 'M', 'p', 'P'}
    ensures m == "An unexpected error occurred during signup." ==>
      forall i :: 0 <= i < |m| ==> m[i] !in {'m', 'M', 'w', 'W'}
  {
  }

  /** The words of the duplicate-email message. */
  lemma EmailTakenWords(m: string)
    requires m == "Email already exists."
    ensures !Mentions(m, "username") && Mentions(m, "email")
  {
    UnmentionedLetter(m, "username", 0);
    MentionedFirst(m, "email");
  }

  /** A message that mentions `email` but not `username` goes to the email slot. */
  lemma EmailRoute(m: string)
    requires !Mentions(m, "username") && Mentions(m, "email")
    ensures RouteOf(m) == ToEmail
  {
  }

  /** Routing ignores case: a message and its lower-cased form go to the same place. */
  lemma RouteIgnoresCase(message: string)
    ensures RouteOf(Lower(message)) == RouteOf(message)
  {
    LowerIdempotent(message);
  }

  datatype Page = LoginPage | AdminDashboard | UserDashboard

  /** The four error slots of the signup form. */
  datatype SignupSlots = SignupSlots(username: string, email: string, password: string, confirmPassword: string)

  /** The visible result of one submit: whether a request went out, the error slots,
      an alert, and a page to go to. */
  datatype SignupOutcome = SignupOutcome(sent: bool, slots: SignupSlots, alert: Option<string>, goTo: Option<Page>)

  const Cleared := SignupSlots("", "", "", "")

  /** What the signup form shows for the result of a request it sent. A success
      alerts the server's message (`undefined` when it has none) and goes to the login
      page; a failure with a non-empty message shows it in the slot `RouteOf` picks or
      in an alert; any other failure alerts a fixed text. */
  function ShowSignupResult(result: AuthResult): (o: SignupOutcome)
    ensures o.sent
    ensures o.goTo.Some? <==> result.success
    ensures o.goTo.Some? ==> o.goTo == Some(LoginPage) && o.slots == Cleared
    ensures result.success && result.message.Some? ==> o.alert == result.message
    ensures !result.success && (result.message.None? || result.message.value == "") ==>
      o.slots == Cleared && o.alert == Some("Signup failed due to an unknown error.")
    ensures !result.success && result.message.Some? && result.message.value != "" ==>
      var m := result.message.value;
      && (RouteOf(m) == ToUsername ==> o.slots == Cleared.(username := m) && o.alert.None?)
      && (RouteOf(m) == ToEmail ==> o.slots == Cleared.(email := m) && o.alert.None?)
      && (RouteOf(m) == ToPassword ==> o.slots == Cleared.(password := m) && o.alert.None?)
      && (RouteOf(m) == ToAlert ==> o.slots == Cleared && o.alert == Some("Signup failed: " + m))
  {
    if result.success then
      SignupOutcome(true, Cleared, Some(result.message.GetOr("undefined")), Some(LoginPage))
    else if result.message.None? || result.message.value == "" then
      SignupOutcome(true, Cleared, Some("Signup failed due to an unknown error."), None)
    else
      var m := result.message.value;
      match RouteOf(m)
      case ToUsername => SignupOutcome(true, Cleared.(username := m), None, None)
      case ToEmail => SignupOutcome(true, Cleared.(email := m), None, None)
      case ToPassword => SignupOutcome(true, Cleared.(password := m), None, None)
      case ToAlert => SignupOutcome(true, Cleared, Some("Signup failed: " + m), None)
  }

  /** The signup form's submit handler. The slots are cleared first; a form failing the
      client checks sends nothing and shows nothing more. */
  function SubmitSignup(f: SignupForm, configured: bool, answer: SignupAnswer): (o: SignupOutcome)
    ensures o.sent <==> SignupRequestOf(f).Some?
    ensures !o.sent ==> o == SignupOutcome(false, Cleared, None, None)
    ensures o.sent ==> o == ShowSignupResult(HandleSignup(configured, answer))
  {
    match SignupRequestOf(f)
    case None => SignupOutcome(false, Cleared, None, None)
    case Some(_) => ShowSignupResult(HandleSignup(configured, answer))
  }

  /* ----- the login form ----- */

  datatype LoginAnswer = LoginNetworkFailure | LoginJson(success: bool, isAdmin: bool, message: Option<string>)

  /** `handleLogin`, as `HandleSignup` with the login texts. */
  function HandleLogin(configured: bool, answer: LoginAnswer): (r: AuthResult)
    ensures !configured ==> r == AuthResult(false, false, Some("Configuration error for login."))
    ensures configured && answer.LoginNetworkFailure? ==>
      r == AuthResult(false, false, Some("Network error or server issue during login."))
    ensures configured && answer.LoginJson? ==>
      r == AuthResult(answer.success, answer.isAdmin, answer.message)
  {
    if !configured then AuthResult(false, false, Some("Configuration error for login."))
    else match answer
      case LoginNetworkFailure => AuthResult(false, false, Some("Network error or server issue during login."))
      case LoginJson(ok, admin, m) => AuthResult(ok, admin, m)
  }

  /** The visible result of a login submit; `passwordError` is the password slot
      (the username slot is only ever cleared). */
  datatype LoginOutcome = LoginOutcome(sent: bool, passwordError: string, goTo: Option<Page>)

  /** The login form's submit handler: nothing is sent when the trimmed username or the
      password is empty; a success goes to the admin dashboard exactly when the answer
      says the user is an admin; a failure shows the message, or `Login failed.`. */
  function SubmitLogin(username: string, password: string, configured: bool, answer: LoginAnswer): (o: LoginOutcome)
    ensures o.sent <==> Strip(username, JsWhitespace) != "" && password != ""
    ensures !o.sent ==> o == LoginOutcome(false, "", None)
    ensures o.goTo.Some? <==> o.sent && HandleLogin(configured, answer).success
    ensures o.goTo == Some(AdminDashboard) <==> o.sent && HandleLogin(configured, answer).success && HandleLogin(configured, answer).isAdmin
    ensures o.goTo == Some(UserDashboard) <==> o.sent && HandleLogin(configured, answer).success && !HandleLogin(configured, answer).isAdmin
    ensures o.sent && o.goTo.None? ==> o.passwordError != ""
  {
    if Strip(username, JsWhitespace) == "" || password == "" then LoginOutcome(false, "", None)
    else
      var result := HandleLogin(configured, answer);
      if result.success then LoginOutcome(true, "", Some(if result.isAdmin then AdminDashboard else UserDashboard))
      else
        var shown := if result.message.Some? && result.message.value != "" then result.message.value else "Login failed.";
        LoginOutcome(true, shown, None)
  }

  /* ----- the forms against the server ----- */

  /** The JSON the server's signup reply carries. */
  function SignupAnswerOf(reply: Views.Reply): (a: SignupAnswer)
    ensures a.SignupJson? && a.success == reply.SignedUp? && a.message == Some(Views.Message(reply))
  {
    SignupJson(reply.SignedUp?, Some(Views.Message(reply)))
  }

  /** The JSON the server's login reply carries: a success has no message. */
  function LoginAnswerOf(reply: Views.Reply): (a: LoginAnswer)
    ensures a.LoginJson? && a.success == reply.LoggedIn?
    ensures reply.LoggedIn? ==> a.isAdmin == reply.isAdmin && a.message.None?
    ensures !reply.LoggedIn? ==> a.message == Some(Views.Message(reply))
  {
    if reply.LoggedIn? then LoginJson(true, reply.isAdmin, None)
    else LoginJson(false, false, Some(Views.Message(reply)))
  }

  /** The body `signup_api_view` parses from a request the form sends. */
  function SignupBodyOf(r: SignupRequest): (b: Views.SignupBody)
    ensures b.username == Some(r.username) && b.email == Some(r.email)
    ensures b.password == Some(r.password) && b.isAdmin == Some(r.isAdmin)
  {
    Views.SignupBody(Some(r.username), Some(r.email), Some(r.password), Some(r.isAdmin))
  }

  /** A signup the form lets through never meets the server's presence and length
      checks; the server creates the account exactly when the name, its normalized
      form and the address are free, and the account is an admin exactly when the
      chosen value is `true` in any case. */
  lemma SentSignupPassesServerChecks(lib: Models.Library, f: SignupForm, nfkc: string -> string)
    requires SignupRequestOf(f).Some?
    ensures var s := Views.Signup(lib, true, Some(SignupBodyOf(SignupRequestOf(f).value)), nfkc);
      && s.reply != Views.AllFieldsRequired && s.reply != Views.PasswordTooShort
      && (s.reply.SignedUp? <==>
           !Views.UsernameInUse(lib.users, Strip(f.username, JsWhitespace))
           && !Views.EmailInUse(lib.users, Strip(f.email, JsWhitespace))
           && !Views.UsernameInUse(lib.users, nfkc(Strip(f.username, JsWhitespace))))
      && (s.reply.SignedUp? ==>
           s.lib.users[|lib.users|].isAdmin == (Lower(f.isAdminChoice.GetOr("false")) == "true"))
  {
    var req := SignupRequestOf(f).value;
    SentRequestIsComplete(f);
    var body := SignupBodyOf(req);
    assert Views.Given(body.username) && Views.Given(body.email) && Views.Given(body.password);
  }

  /** A form the checks as written send although the corrected checks keep it back is
      refused by `signup_api_view` for its short password, and the form shows the
      refusal in the password slot. */
  lemma ShortPasswordSentAsWritten(lib: Models.Library, f: SignupForm, nfkc: string -> string)
    requires SignupRequestOfAsWritten(f).Some? && SignupRequestOf(f).None?
    ensures var s := Views.Signup(lib, true, Some(SignupBodyOf(SignupRequestOfAsWritten(f).value)), nfkc);
      && s.reply == Views.PasswordTooShort && s.lib == lib
      && ShowSignupResult(HandleSignup(true, SignupAnswerOf(s.reply))).slots
           == Cleared.(password := Views.Message(Views.PasswordTooShort))
  {
    var req := SignupRequestOfAsWritten(f).value;
    AsWrittenExtraIsShort(f);
    ShortPasswordRefused(lib, SignupBodyOf(req), nfkc);
    PasswordTooShortShown();
  }

  /** `signup_api_view` refuses a complete body with a short password, changing nothing. */
  lemma ShortPasswordRefused(lib: Models.Library, body: Views.SignupBody, nfkc: string -> string)
    requires Views.Given(body.username) && Views.Given(body.email) && Views.Given(body.password)
    requires |body.password.value| < MinPasswordLength
    ensures Views.Signup(lib, true, Some(body), nfkc) == Views.Step(Views.PasswordTooShort, lib)
  {
  }

  /** What only the checks as written let through is complete but for the length of
      its password. */
  lemma AsWrittenExtraIsShort(f: SignupForm)
    requires SignupRequestOfAsWritten(f).Some? && SignupRequestOf(f).None?
    ensures var req := SignupRequestOfAsWritten(f).value;
      req.username != "" && req.email != "" && |req.password| < MinPasswordLength
  {
    var e := Strip(f.email, JsWhitespace);
    var a: string, b: string, c: string :| e == a + "@" + b + "." + c && a != "";
  }

  /** The password of four U+1F600 characters: eight UTF-16 code units, four characters. */
  const WidePassword: string := "\U{1F600}\U{1F600}\U{1F600}\U{1F600}"

  /** Such a password passes the length check as written and fails the server's. */
  lemma WidePasswordSentAsWritten(f: SignupForm)
    requires Strip(f.username, JsWhitespace) != "" && EmailPattern(Strip(f.email, JsWhitespace))
    requires f.password == WidePassword && f.confirmPassword == WidePassword
    ensures SignupRequestOfAsWritten(f).Some? && SignupRequestOf(f).None?
  {
    WidePasswordLengths();
  }

  lemma WidePasswordLengths()
    ensures |WidePassword| == 4 && Utf16Length(WidePassword) == 8
  {
    Utf16LengthOfWide(WidePassword);
  }

  /** A request the form sends has a name, an address and a long enough password. */
  lemma SentRequestIsComplete(f: SignupForm)
    requires SignupRequestOf(f).Some?
    ensures SignupRequestOf(f).value.username != ""
    ensures SignupRequestOf(f).value.email != ""
    ensures |SignupRequestOf(f).value.password| >= MinPasswordLength
  {
    var e := Strip(f.email, JsWhitespace);
    var a: string, b: string, c: string :| e == a + "@" + b + "." + c && a != "";
  }

  /** As written, a sent sign-up has a name, an address and a password of at least 8
      UTF-16 code units, which is at least 4 characters but may be fewer than 8. */
  lemma SentRequestIsCompleteAsWritten(f: SignupForm)
    requires SignupRequestOfAsWritten(f).Some?
    ensures SignupRequestOfAsWritten(f).value.username != ""
    ensures SignupRequestOfAsWritten(f).value.email != ""
    ensures Utf16Length(SignupRequestOfAsWritten(f).value.password) >= MinPasswordLength
    ensures 2 * |SignupRequestOfAsWritten(f).value.password| >= MinPasswordLength
  {
    if SignupRequestOf(f).Some? {
      SentRequestIsComplete(f);
    } else {
      var e := Strip(f.email, JsWhitespace);
      var a: string, b: string, c: string :| e == a + "@" + b + "." + c && a != "";
    }
  }

  /** A login the form lets through never meets the server's presence check, and with
      unique user names it goes to the admin dashboard exactly when an admin with
      these credentials is stored. */
  lemma SentLoginFollowsServer(lib: Models.Library, username: string, password: string)
    requires Models.UsersOk(lib)
    requires Strip(username, JsWhitespace) != "" && password != ""
    ensures var s := Views.Login(lib, true, Some(Views.LoginBody(Some(Strip(username, JsWhitespace)), Some(password))));
      var o := SubmitLogin(username, password, true, LoginAnswerOf(s.reply));
      && s.reply != Views.CredentialsRequired
      && (o.goTo == Some(AdminDashboard) <==>
           exists i :: 0 <= i < |lib.users| && lib.users[i].username == Strip(username, JsWhitespace)
             && lib.users[i].password == password && lib.users[i].isAdmin)
      && (s.reply == Views.BadCredentials ==> o.passwordError == "Invalid username or password.")
  {
    var s := Views.Login(lib, true, Some(Views.LoginBody(Some(Strip(username, JsWhitespace)), Some(password))));
    LoginReplyShown(username, password, s.reply);
    AdminLogin(lib, Strip(username, JsWhitespace), password);
  }

  /** How a sent login shows a reply of `login_api_view`. */
  lemma LoginReplyShown(username: string, password: string, reply: Views.Reply)
    requires Strip(username, JsWhitespace) != "" && password != ""
    ensures var o := SubmitLogin(username, password, true, LoginAnswerOf(reply));
      && (o.goTo == Some(AdminDashboard) <==> reply.LoggedIn? && reply.isAdmin)
      && (reply == Views.BadCredentials ==> o.passwordError == "Invalid username or password.")
  {
  }

  /** With unique user names, `login_api_view` logs in an admin exactly when an admin
      with these credentials is stored. */
  lemma AdminLogin(lib: Models.Library, name: string, password: string)
    requires Models.UsersOk(lib)
    requires name != "" && password != ""
    ensures var s := Views.Login(lib, true, Some(Views.LoginBody(Some(name), Some(password))));
      && s.reply != Views.CredentialsRequired
      && (s.reply.LoggedIn? && s.reply.isAdmin <==>
           exists i :: 0 <= i < |lib.users| && lib.users[i].username == name
             && lib.users[i].password == password && lib.users[i].isAdmin)
  {
    var s := Views.Login(lib, true, Some(Views.LoginBody(Some(name), Some(password))));
    if s.reply.LoggedIn? {
      var i :| 0 <= i < |lib.users| && lib.users[i].username == name
           && lib.users[i].password == password
           && lib.users[i].isAdmin == s.reply.isAdmin && lib.users[i].username == s.reply.username;
    }
    forall i | 0 <= i < |lib.users| && lib.users[i].username == name && lib.users[i].password == password
      ensures s.reply.LoggedIn? && s.reply.isAdmin == lib.users[i].isAdmin
    {
      var j := Models.FindUser(lib.users, name).value;
      assert j == i;
    }
  }

  /** A signup the form sends, answered by `signup_api_view`: a taken name is shown in
      the username slot, a taken address in the email slot, and a created account is
      announced before going to the login page. */
  lemma SignupAgainstServer(lib: Models.Library, f: SignupForm, nfkc: string -> string)
    requires SignupRequestOf(f).Some?
    ensures var s := Views.Signup(lib, true, Some(SignupBodyOf(SignupRequestOf(f).value)), nfkc);
      var o := SubmitSignup(f, true, SignupAnswerOf(s.reply));
      && o.sent
      && (s.reply == Views.UsernameTaken ==> o.slots == Cleared.(username := Views.Message(Views.UsernameTaken)) && o.alert.None?)
      && (s.reply == Views.EmailTaken ==> o.slots == Cleared.(email := Views.Message(Views.EmailTaken)) && o.alert.None?)
      && (s.reply == Views.SignupFailed ==>
           o.slots == Cleared && o.alert == Some("Signup failed: " + Views.Message(Views.SignupFailed)))
      && (s.reply.SignedUp? ==>
           o.goTo == Some(LoginPage) && o.alert == Some(Views.Message(Views.SignedUp)))
  {
    var reply := Views.Signup(lib, true, Some(SignupBodyOf(SignupRequestOf(f).value)), nfkc).reply;
    FieldReplyShown(reply);
    AlertReplyShown(reply);
  }

  /** How the form shows the replies of `signup_api_view` that name a field: each
      message goes into the slot of the field it names. */
  lemma FieldReplyShown(reply: Views.Reply)
    ensures var o := ShowSignupResult(HandleSignup(true, SignupAnswerOf(reply)));
      && (reply == Views.UsernameTaken ==> o.slots == Cleared.(username := Views.Message(Views.UsernameTaken)) && o.alert.None?)
      && (reply == Views.EmailTaken ==> o.slots == Cleared.(email := Views.Message(Views.EmailTaken)) && o.alert.None?)
      && (reply == Views.PasswordTooShort ==>
           o.slots == Cleared.(password := Views.Message(Views.PasswordTooShort)) && o.alert.None?)
  {
    if reply == Views.UsernameTaken {
      UsernameTakenShown();
    } else if reply == Views.EmailTaken {
      EmailTakenShown();
    } else if reply == Views.PasswordTooShort {
      PasswordTooShortShown();
    }
  }

  lemma UsernameTakenShown()
    ensures var o := ShowSignupResult(HandleSignup(true, SignupAnswerOf(Views.UsernameTaken)));
      o.slots == Cleared.(username := Views.Message(Views.UsernameTaken)) && o.alert.None?
  {
    UsernameTakenRoute();
    RoutedFailureShown(Views.Message(Views.UsernameTaken));
  }

  lemma EmailTakenShown()
    ensures var o := ShowSignupResult(HandleSignup(true, SignupAnswerOf(Views.EmailTaken)));
      o.slots == Cleared.(email := Views.Message(Views.EmailTaken)) && o.alert.None?
  {
    EmailTakenRoute();
    RoutedFailureShown(Views.Message(Views.EmailTaken));
  }

  lemma PasswordTooShortShown()
    ensures var o := ShowSignupResult(HandleSignup(true, SignupAnswerOf(Views.PasswordTooShort)));
      o.slots == Cleared.(password := Views.Message(Views.PasswordTooShort)) && o.alert.None?
  {
    PasswordTooShortRoute();
    RoutedFailureShown(Views.Message(Views.PasswordTooShort));
  }

  /** How the form shows the other replies of `signup_api_view`: a refusal naming no
      field is alerted with every slot cleared, and a created account is announced. */
  lemma AlertReplyShown(reply: Views.Reply)
    ensures var o := ShowSignupResult(HandleSignup(true, SignupAnswerOf(reply)));
      && (reply == Views.AllFieldsRequired ==>
           o.slots == Cleared && o.alert == Some("Signup failed: " + Views.Message(Views.AllFieldsRequired)))
      && (reply == Views.SignupFailed ==>
           o.slots == Cleared && o.alert == Some("Signup failed: " + Views.Message(Views.SignupFailed)))
      && (reply.SignedUp? ==>
           o.goTo == Some(LoginPage) && o.alert == Some(Views.Message(Views.SignedUp)))
  {
    if reply == Views.AllFieldsRequired {
      AllFieldsRequiredRoute();
      AlertedFailureShown(Views.Message(reply));
    } else if reply == Views.SignupFailed {
      SignupFailedRoute();
      AlertedFailureShown(Views.Message(reply));
    } else if reply.SignedUp? {
      SuccessShown(Views.Message(reply));
    }
  }

  /** A failed signup with a non-empty message shows it in the slot it is routed to. */
  lemma RoutedFailureShown(m: string)
    requires m != ""
    ensures var o := ShowSignupResult(AuthResult(false, false, Some(m)));
      && (RouteOf(m) == ToUsername ==> o.slots == Cleared.(username := m) && o.alert.None?)
      && (RouteOf(m) == ToEmail ==> o.slots == Cleared.(email := m) && o.alert.None?)
      && (RouteOf(m) == ToPassword ==> o.slots == Cleared.(password := m) && o.alert.None?)
  {
  }

  /** A failed signup whose message names no field alerts it, with every slot cleared. */
  lemma AlertedFailureShown(m: string)
    requires m != "" && RouteOf(m) == ToAlert
    ensures var o := ShowSignupResult(AuthResult(false, false, Some(m)));
      o.slots == Cleared && o.alert == Some("Signup failed: " + m)
  {
  }

  /** A successful signup alerts its message and goes to the login page. */
  lemma SuccessShown(m: string)
    ensures var o := ShowSignupResult(AuthResult(true, false, Some(m)));
      o.goTo == Some(LoginPage) && o.alert == Some(m)
  {
  }
}
