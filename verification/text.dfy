/** String operations the browser scripts and the server rely on: case folding,
    substring search (`String.prototype.includes`), whitespace stripping (JavaScript's
    `trim` and Python's `str.strip`), splitting on a separator, joining, JavaScript's
    UTF-16 `length`, and the code-unit order used by a comparator-less
    `Array.prototype.sort`. */
module Text {

  /** Lower-cases one character. Only ASCII letters are folded. */
  function LowerChar(c: char): char {
    if 'A' <= c <= 'Z' then (c as int + 32) as char else c
  }

  /** `toLowerCase()` / `lower()`: maps every character through `LowerChar`. */
  function Lower(s: string): (r: string)
    ensures |r| == |s|
    ensures forall i :: 0 <= i < |s| ==> r[i] == LowerChar(s[i])
    ensures forall i :: 0 <= i < |r| ==> !('A' <= r[i] <= 'Z')
  {
    seq(|s|, i requires 0 <= i < |s| => LowerChar(s[i]))
  }

  /** Lower-casing twice is lower-casing once. */
  lemma LowerIdempotent(s: string)
    ensures Lower(Lower(s)) == Lower(s)
  {
  }

  /** `q` occurs in `s` starting at index `k`. */
  predicate OccursAt(s: string, q: string, k: int) {
    0 <= k && k + |q| <= |s| && s[k..k + |q|] == q
  }

  lemma OccursAtTail(s: string, q: string, k: int)
    requires |s| > 0 && k >= 0
    ensures OccursAt(s[1..], q, k) <==> OccursAt(s, q, k + 1)
  {
    if k + |q| <= |s| - 1 {
      assert s[1..][k..k + |q|] == s[k + 1..k + 1 + |q|];
    }
  }

  /** An occurrence inside an occurrence is an occurrence. */
  lemma OccursAtTrans(s: string, m: string, q: string, k1: int, k2: int)
    requires OccursAt(s, m, k1) && OccursAt(m, q, k2)
    ensures OccursAt(s, q, k1 + k2)
  {
    forall i | 0 <= i < |q| ensures s[k1 + k2 + i] == q[i] {
      assert m[k2 + i] == q[i];
      assert s[k1..k1 + |m|][k2 + i] == s[k1 + k2 + i];
    }
    assert s[k1 + k2..k1 + k2 + |q|] == q;
  }

  /** `s.includes(q)`: whether `q` occurs anywhere in `s`. */
  function Includes(s: string, q: string): (r: bool)
    ensures r <==> exists k :: OccursAt(s, q, k)
    decreases |s|
  {
    if |q| > |s| then false
    else if s[..|q|] == q then
      assert OccursAt(s, q, 0);
      true
    else
      var r := Includes(s[1..], q);
      assert r <==> exists k :: OccursAt(s, q, k) by {
        if r {
          var k :| OccursAt(s[1..], q, k);
          OccursAtTail(s, q, k);
        } else {
          forall k | OccursAt(s, q, k) ensures false {
            assert k != 0;
            OccursAtTail(s, q, k - 1);
          }
        }
      }
      r
  }

  /** Whitespace as JavaScript's `trim` and the regular-expression class `\s` see it:
      the WhiteSpace and LineTerminator characters of ECMAScript. */
  predicate JsWhitespace(c: char) {
    || c == '\t' || c == '\U{000B}' || c == '\U{000C}' || c == ' ' || c == '\U{00A0}'
    || c == '\U{FEFF}' || c == '\n' || c == '\r' || c == '\U{2028}' || c == '\U{2029}'
    || c == '\U{1680}' || ('\U{2000}' <= c <= '\U{200A}') || c == '\U{202F}'
    || c == '\U{205F}' || c == '\U{3000}'
  }

  /** Whitespace as Python's `str.strip()` (and so Django's form fields) see it. */
  predicate PyWhitespace(c: char) {
    || ('\t' <= c <= '\r') || ('\U{001C}' <= c <= '\U{001F}') || c == ' '
    || c == '\U{0085}' || c == '\U{00A0}' || c == '\U{1680}'
    || ('\U{2000}' <= c <= '\U{200A}') || c == '\U{2028}' || c == '\U{2029}'
    || c == '\U{202F}' || c == '\U{205F}' || c == '\U{3000}'
  }

  ghost predicate AllWs(s: string, ws: char -> bool) {
    forall i :: 0 <= i < |s| ==> ws(s[i])
  }

  /** Drops the leading characters satisfying `ws`. */
  function StripStart(s: string, ws: char -> bool): (r: string)
    ensures |r| <= |s| && r == s[|s| - |r|..]
    ensures AllWs(s[..|s| - |r|], ws)
    ensures r == [] || !ws(r[0])
    decreases |s|
  {
    if s != [] && ws(s[0]) then
      var r := StripStart(s[1..], ws);
      assert s[1..][|s| - 1 - |r|..] == s[|s| - |r|..];
      assert forall i :: 1 <= i < |s| - |r| ==> s[i] == s[1..][..|s| - 1 - |r|][i - 1];
      r
    else s
  }

  /** Drops the trailing characters satisfying `ws`. */
  function StripEnd(s: string, ws: char -> bool): (r: string)
    ensures |r| <= |s| && r == s[..|r|]
    ensures AllWs(s[|r|..], ws)
    ensures r == [] || !ws(r[|r| - 1])
    decreases |s|
  {
    if s != [] && ws(s[|s| - 1]) then
      var r := StripEnd(s[..|s| - 1], ws);
      assert s[..|s| - 1][..|r|] == s[..|r|];
      assert forall i :: |r| <= i < |s| - 1 ==> s[i] == s[..|s| - 1][|r|..][i - |r|];
      r
    else s
  }

  /** `trim()` / `strip()`: removes the `ws` characters at both ends; what remains
      occurs in `s` with only `ws` characters around it. */
  function Strip(s: string, ws: char -> bool): (r: string)
    ensures r == [] || (!ws(r[0]) && !ws(r[|r| - 1]))
    ensures exists k :: OccursAt(s, r, k) && AllWs(s[..k], ws) && AllWs(s[k + |r|..], ws)
  {
    var m := StripStart(s, ws);
    var r := StripEnd(m, ws);
    StripOccurs(s, m, r);
    StripLeavesEnds(m, r, ws);
    var k := |s| - |m|;
    assert OccursAt(s, r, k) && AllWs(s[..k], ws) && AllWs(s[k + |r|..], ws);
    r
  }

  /** The stripped middle occurs where the leading run ends, followed by the trailing run. */
  lemma StripOccurs(s: string, m: string, r: string)
    requires |m| <= |s| && m == s[|s| - |m|..]
    requires |r| <= |m| && r == m[..|r|]
    ensures OccursAt(s, r, |s| - |m|)
    ensures s[|s| - |m| + |r|..] == m[|r|..]
  {
    var k := |s| - |m|;
    assert s[k..k + |r|] == m[..|r|];
  }

  lemma StripLeavesEnds(m: string, r: string, ws: char -> bool)
    requires m == [] || !ws(m[0])
    requires |r| <= |m| && r == m[..|r|] && (r == [] || !ws(r[|r| - 1]))
    ensures r == [] || (!ws(r[0]) && !ws(r[|r| - 1]))
  {
    if r != [] {
      assert r[0] == m[0];
    }
  }

  /** Stripping a string that has no `ws` character at either end changes nothing;
      in particular stripping is idempotent. */
  lemma StripNoop(s: string, ws: char -> bool)
    requires s == [] || (!ws(s[0]) && !ws(s[|s| - 1]))
    ensures Strip(s, ws) == s
  {
  }

  lemma StripIdempotent(s: string, ws: char -> bool)
    ensures Strip(Strip(s, ws), ws) == Strip(s, ws)
  {
    StripNoop(Strip(s, ws), ws);
  }

  /** `parts.join(sep)`. */
  function Join(parts: seq<string>, sep: string): string
    decreases |parts|
  {
    if |parts| == 0 then ""
    else if |parts| == 1 then parts[0]
    else parts[0] + sep + Join(parts[1..], sep)
  }

  lemma JoinConsHead(c: char, p: string, ps: seq<string>, sep: string)
    ensures Join([[c] + p] + ps, sep) == [c] + Join([p] + ps, sep)
  {
    assert ([[c] + p] + ps)[1..] == ps;
    assert ([p] + ps)[1..] == ps;
  }

  /** `s.split(sep)` for a one-character separator: the pieces between separators,
      which contain no separator and join back to `s`. */
  function Split(s: string, sep: char): (r: seq<string>)
    ensures |r| >= 1
    ensures forall i :: 0 <= i < |r| ==> sep !in r[i]
    ensures Join(r, [sep]) == s
    decreases |s|
  {
    if s == [] then [""]
    else
      var rest := Split(s[1..], sep);
      if s[0] == sep then
        var r := [""] + rest;
        assert r[1..] == rest;
        assert s == [sep] + s[1..];
        r
      else
        var r := [[s[0]] + rest[0]] + rest[1..];
        JoinConsHead(s[0], rest[0], rest[1..], [sep]);
        assert [rest[0]] + rest[1..] == rest;
        assert s == [s[0]] + s[1..];
        r
  }

  /** Every piece of a join occurs in the joined string. */
  lemma {:induction false} JoinedPartOccurs(parts: seq<string>, sep: string, i: int)
    requires 0 <= i < |parts|
    ensures exists k :: OccursAt(Join(parts, sep), parts[i], k)
    decreases |parts|
  {
    var j := Join(parts, sep);
    if |parts| == 1 {
      assert OccursAt(j, parts[i], 0);
    } else if i == 0 {
      assert j[..|parts[0]|] == parts[0];
      assert OccursAt(j, parts[0], 0);
    } else {
      JoinedPartOccurs(parts[1..], sep, i - 1);
      var rest := Join(parts[1..], sep);
      var k :| OccursAt(rest, parts[1..][i - 1], k);
      var off := |parts[0]| + |sep|;
      assert j[off..] == rest;
      assert OccursAt(j, rest, off);
      OccursAtTrans(j, rest, parts[i], off, k);
    }
  }

  /* ----- numbers ----- */

  function DigitChar(d: nat): (c: char)
    requires d < 10
    ensures '0' <= c <= '9' && c as int - '0' as int == d
  {
    ('0' as int + d) as char
  }

  /** Python's `%d` of a non-negative integer: its decimal digits, no leading zero. */
  function NatString(n: nat): (s: string)
    ensures s != [] && (forall i :: 0 <= i < |s| ==> '0' <= s[i] <= '9')
    ensures |s| > 1 ==> s[0] != '0'
    decreases n
  {
    if n < 10 then [DigitChar(n)] else NatString(n / 10) + [DigitChar(n % 10)]
  }

  /** The number a string of decimal digits denotes. */
  function DigitsValue(s: string): nat
    requires forall i :: 0 <= i < |s| ==> '0' <= s[i] <= '9'
    decreases |s|
  {
    if s == [] then 0 else DigitsValue(s[..|s| - 1]) * 10 + (s[|s| - 1] as int - '0' as int)
  }

  /** Reading the digits back gives the number. */
  lemma {:induction false} NatStringRoundTrip(n: nat)
    ensures DigitsValue(NatString(n)) == n
    decreases n
  {
    if n >= 10 {
      NatStringRoundTrip(n / 10);
      var s := NatString(n);
      assert s[..|s| - 1] == NatString(n / 10);
    }
  }

  /** Python's `%d` / `%s` of an integer. */
  function IntString(i: int): (s: string)
    ensures i >= 0 ==> s == NatString(i)
    ensures i < 0 ==> s == "-" + NatString(-i)
  {
    if i < 0 then "-" + NatString(-i) else NatString(i)
  }

  /* ----- UTF-16 ----- */

  /** The UTF-16 code units of one character: the character itself up to U+FFFF,
      otherwise a high surrogate followed by a low surrogate. */
  function Utf16Units(c: char): (u: seq<int>)
    ensures |u| == 1 <==> c as int < 0x1_0000
    ensures |u| == 1 || |u| == 2
    ensures |u| == 2 ==> 0xD800 <= u[0] < 0xDC00 && 0xDC00 <= u[1] < 0xE000
    ensures forall k :: 0 <= k < |u| ==> 0 <= u[k] < 0x1_0000
  {
    if c as int < 0x1_0000 then [c as int]
    else [0xD800 + (c as int - 0x1_0000) / 0x400, 0xDC00 + (c as int - 0x1_0000) % 0x400]
  }

  /** JavaScript's `length` of a string: the number of its UTF-16 code units. */
  function Utf16Length(s: string): (n: nat)
    ensures |s| <= n <= 2 * |s|
    decreases |s|
  {
    if s == [] then 0 else |Utf16Units(s[0])| + Utf16Length(s[1..])
  }

  /** A string without characters above U+FFFF has as many code units as characters. */
  lemma {:induction false} Utf16LengthOfBmp(s: string)
    requires forall i :: 0 <= i < |s| ==> s[i] as int < 0x1_0000
    ensures Utf16Length(s) == |s|
    decreases |s|
  {
    if s != [] {
      Utf16LengthOfBmp(s[1..]);
    }
  }

  /** Every character above U+FFFF adds a second code unit. */
  lemma {:induction false} Utf16LengthOfWide(s: string)
    requires forall i :: 0 <= i < |s| ==> s[i] as int >= 0x1_0000
    ensures Utf16Length(s) == 2 * |s|
    decreases |s|
  {
    if s != [] {
      Utf16LengthOfWide(s[1..]);
    }
  }

  /** Strict lexicographic order of code-unit sequences. */
  predicate UnitsLt(u: seq<int>, v: seq<int>)
    decreases |u|
  {
    if v == [] then false
    else if u == [] then true
    else if u[0] != v[0] then u[0] < v[0]
    else UnitsLt(u[1..], v[1..])
  }

  /** Ranks a character where its UTF-16 encoding sorts: characters below the
      surrogate range first, then those above U+FFFF (whose high surrogates start at
      U+D800), then U+E000 to U+FFFF. */
  function CodeUnitRank(c: char): (r: int)
    ensures c as int < 0xD800 ==> r < 0xD800
    ensures c as int >= 0x1_0000 ==> 0xD800 <= r < 0x11_0000
    ensures 0xE000 <= c as int < 0x1_0000 ==> r >= 0x11_0000
  {
    if c as int < 0xD800 || c as int >= 0x1_0000 then c as int else c as int + 0x11_0000
  }

  /** Two distinct characters have distinct ranks, and the lower rank belongs to the
      character whose UTF-16 encoding comes first. */
  lemma RankFollowsCodeUnits(c: char, d: char)
    requires c != d
    ensures CodeUnitRank(c) != CodeUnitRank(d)
    ensures CodeUnitRank(c) < CodeUnitRank(d) <==> UnitsLt(Utf16Units(c), Utf16Units(d))
  {
    var u, v := Utf16Units(c), Utf16Units(d);
    if |u| == 2 && |v| == 2 && u[0] == v[0] {
      assert (c as int - 0x1_0000) / 0x400 == (d as int - 0x1_0000) / 0x400;
      assert UnitsLt(u, v) == UnitsLt(u[1..], v[1..]);
    }
  }

  /** `a <= b` on JavaScript strings, the order a comparator-less
      `Array.prototype.sort` uses: lexicographic by UTF-16 code units, that is, by
      `CodeUnitRank` character by character. */
  predicate LexLe(a: string, b: string)
    decreases |a|
  {
    if a == [] then true
    else if b == [] then false
    else if a[0] != b[0] then CodeUnitRank(a[0]) < CodeUnitRank(b[0])
    else LexLe(a[1..], b[1..])
  }

  /** U+FF21 (a BMP letter above the surrogates) sorts after U+1F600, whose first
      code unit is the surrogate U+D83D. */
  lemma WideCharSortsFirst()
    ensures LexLe("\U{1F600}", "\U{FF21}") && !LexLe("\U{FF21}", "\U{1F600}")
  {
  }

  lemma {:induction false} LexLeTotal(a: string, b: string)
    ensures LexLe(a, b) || LexLe(b, a)
    decreases |a|
  {
    if a != [] && b != [] {
      if a[0] == b[0] {
        LexLeTotal(a[1..], b[1..]);
      } else {
        RankFollowsCodeUnits(a[0], b[0]);
      }
    }
  }

  lemma {:induction false} LexLeTransitive(a: string, b: string, c: string)
    requires LexLe(a, b) && LexLe(b, c)
    ensures LexLe(a, c)
    decreases |a|
  {
    if a != [] && b != [] && c != [] && a[0] == b[0] && b[0] == c[0] {
      LexLeTransitive(a[1..], b[1..], c[1..]);
    }
  }

  lemma {:induction false} LexLeAntisymmetric(a: string, b: string)
    requires LexLe(a, b) && LexLe(b, a)
    ensures a == b
    decreases |a|
  {
    if a != [] && b != [] {
      LexLeAntisymmetric(a[1..], b[1..]);
      assert a == [a[0]] + a[1..] && b == [b[0]] + b[1..];
    }
  }
}
