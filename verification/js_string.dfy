/**
 * The JavaScript string operations the graph editor relies on, stated over
 * `seq<char>`: `split`/`join` on a one-character separator, `trim`,
 * `toLowerCase`, `indexOf` and the string quoting of `JSON.stringify`.
 */
module JsString {

  import Seqs

  /** The characters `String.prototype.trim` removes: WhiteSpace and LineTerminator of ECMAScript. */
  predicate IsWhitespace(c: char) {
    || c == '\t' || c == '\n' || c == '\U{000B}' || c == '\U{000C}' || c == '\r'
    || c == ' ' || c == '\U{00A0}' || c == '\U{1680}'
    || ('\U{2000}' <= c <= '\U{200A}')
    || c == '\U{2028}' || c == '\U{2029}' || c == '\U{202F}' || c == '\U{205F}'
    || c == '\U{3000}' || c == '\U{FEFF}'
  }

  /** Neither end of `s` is whitespace: the strings `trim` leaves alone. */
  predicate Trimmed(s: string) {
    s == [] || (!IsWhitespace(s[0]) && !IsWhitespace(s[|s| - 1]))
  }

  // ---------------------------------------------------------------------------
  // split / join / replace on a single character

  /** `s.replaceAll(a, b)` for single characters: every `a` becomes `b`, nothing else moves. */
  function Replace(s: string, a: char, b: char): (r: string)
    ensures |r| == |s|
    ensures forall i :: 0 <= i < |s| ==> r[i] == (if s[i] == a then b else s[i])
  {
    if s == [] then [] else [if s[0] == a then b else s[0]] + Replace(s[1..], a, b)
  }

  /**
   * `s.split(sep)` for a one-character separator: the maximal separator-free
   * pieces between separators, so there is always at least one piece
   * (`"".split(" ")` is `[""]`).
   */
  function Split(s: string, sep: char): (parts: seq<string>)
    ensures |parts| >= 1
    ensures forall i :: 0 <= i < |parts| ==> sep !in parts[i]
  {
    if s == [] then [[]]
    else
      var rest := Split(s[1..], sep);
      if s[0] == sep then [[]] + rest
      else [[s[0]] + rest[0]] + rest[1..]
  }

  /**
   * `parts.join(sep)` for a one-character separator (`[].join(sep)` is `""`):
   * the first piece starts the result, the separator follows it when there
   * is more than one piece, and the last piece ends the result.
   */
  function Join(parts: seq<string>, sep: char): (r: string)
    ensures |parts| == 0 ==> r == []
    ensures |parts| >= 1 ==> |parts[0]| <= |r| && r[..|parts[0]|] == parts[0]
    ensures |parts| >= 2 ==> |parts[0]| < |r| && r[|parts[0]|] == sep
    ensures |parts| >= 1 ==> |parts[|parts| - 1]| <= |r| && r[|r| - |parts[|parts| - 1]|..] == parts[|parts| - 1]
  {
    if |parts| == 0 then []
    else if |parts| == 1 then parts[0]
    else parts[0] + [sep] + Join(parts[1..], sep)
  }

  /** Prefixing the first piece prefixes the joined string. */
  lemma {:induction false} JoinPrefixFirst(p: string, parts: seq<string>, sep: char)
    requires |parts| >= 1
    ensures Join([p + parts[0]] + parts[1..], sep) == p + Join(parts, sep)
  {
    var q := [p + parts[0]] + parts[1..];
    assert q[1..] == parts[1..];
    if |parts| >= 2 {
      Seqs.AppendAssoc(p, parts[0], [sep] + Join(parts[1..], sep));
      Seqs.AppendAssoc(parts[0], [sep], Join(parts[1..], sep));
      Seqs.AppendAssoc(p + parts[0], [sep], Join(parts[1..], sep));
    }
  }

  /**
   * `s.split(a).join(b)`, the idiom the editor uses to swap one character for
   * another, is exactly `Replace(s, a, b)`.
   */
  lemma {:induction false} SplitJoinIsReplace(s: string, a: char, b: char)
    ensures Join(Split(s, a), b) == Replace(s, a, b)
  {
    if s != [] {
      SplitJoinIsReplace(s[1..], a, b);
      var rest := Split(s[1..], a);
      if s[0] == a {
        assert ([[]] + rest)[1..] == rest;
      } else {
        JoinPrefixFirst([s[0]], rest, b);
      }
    }
  }

  // ---------------------------------------------------------------------------
  // trim

  /** `s.trimStart()`: drops the longest all-whitespace prefix. */
  function TrimStart(s: string): (r: string)
    ensures |r| <= |s| && r == s[|s| - |r|..]
    ensures forall i :: 0 <= i < |s| - |r| ==> IsWhitespace(s[i])
    ensures r == [] || !IsWhitespace(r[0])
  {
    if s != [] && IsWhitespace(s[0]) then TrimStart(s[1..]) else s
  }

  /** `s.trimEnd()`: drops the longest all-whitespace suffix. */
  function TrimEnd(s: string): (r: string)
    ensures |r| <= |s| && r == s[..|r|]
    ensures forall i :: |r| <= i < |s| ==> IsWhitespace(s[i])
    ensures r == [] || !IsWhitespace(r[|r| - 1])
  {
    if s != [] && IsWhitespace(s[|s| - 1]) then TrimEnd(s[..|s| - 1]) else s
  }

  /** `s.trim()`: a contiguous piece of `s` with no whitespace at either end, everything cut away being whitespace. */
  function Trim(s: string): (r: string)
    ensures Trimmed(r)
    ensures exists i, j ::
              && 0 <= i <= j <= |s| && r == s[i..j]
              && (forall k :: 0 <= k < i ==> IsWhitespace(s[k]))
              && (forall k :: j <= k < |s| ==> IsWhitespace(s[k]))
  {
    var t := TrimStart(s);
    var r := TrimEnd(t);
    assert r == s[|s| - |t|..|s| - |t| + |r|];
    r
  }

  /** `trim` leaves an already trimmed string unchanged. */
  lemma TrimTrimmed(s: string)
    requires Trimmed(s)
    ensures Trim(s) == s
  {
  }

  /** Appending whitespace to `s` moves the start of `s.trimStart()` only when nothing but whitespace is left. */
  lemma {:induction false} TrimStartAppend(s: string, c: char)
    requires IsWhitespace(c)
    ensures TrimStart(s + [c]) == if TrimStart(s) == [] then [] else TrimStart(s) + [c]
  {
    if s != [] && IsWhitespace(s[0]) {
      assert (s + [c])[1..] == s[1..] + [c];
      TrimStartAppend(s[1..], c);
    }
  }

  /** Trailing whitespace does not change `trim`. */
  lemma TrimAppendWhitespace(s: string, c: char)
    requires IsWhitespace(c)
    ensures Trim(s + [c]) == Trim(s)
  {
    TrimStartAppend(s, c);
    var t := TrimStart(s);
    if t != [] {
      assert (t + [c])[..|t|] == t;
    }
  }

  // ---------------------------------------------------------------------------
  // toLowerCase

  /** Lower-cases one character (ASCII letters only). */
  function LowerChar(c: char): (d: char)
    ensures 'A' <= c <= 'Z' ==> 'a' <= d <= 'z' && d as int - c as int == 32
    ensures !('A' <= c <= 'Z') ==> d == c
  {
    if 'A' <= c <= 'Z' then (c as int + 32) as char else c
  }

  /** `s.toLowerCase()`, character by character. */
  function ToLower(s: string): (r: string)
    ensures |r| == |s|
    ensures forall i :: 0 <= i < |s| ==> r[i] == LowerChar(s[i])
  {
    if s == [] then [] else [LowerChar(s[0])] + ToLower(s[1..])
  }

  /** Lower-casing twice is lower-casing once. */
  lemma ToLowerIdempotent(s: string)
    ensures ToLower(ToLower(s)) == ToLower(s)
  {
  }

  // ---------------------------------------------------------------------------
  // indexOf

  /** `q` occurs in `s` starting at index `i`. */
  predicate OccursAt(s: string, q: string, i: int) {
    0 <= i && i + |q| <= |s| && s[i..i + |q|] == q
  }

  /** `q` is a substring of `s`. */
  ghost predicate IsInfix(q: string, s: string) {
    exists i :: OccursAt(s, q, i)
  }

  /** An occurrence one position into `s` is an occurrence in `s[1..]` one position earlier. */
  lemma OccursAtTail(s: string, q: string)
    requires s != []
    ensures forall i :: 0 <= i ==> (OccursAt(s[1..], q, i) <==> OccursAt(s, q, i + 1))
    ensures forall i :: 1 <= i ==> (OccursAt(s, q, i) <==> OccursAt(s[1..], q, i - 1))
  {
    forall i | 0 <= i
      ensures OccursAt(s[1..], q, i) <==> OccursAt(s, q, i + 1)
    {
      if i + 1 + |q| <= |s| {
        var a, b := s[i + 1..i + 1 + |q|], s[1..][i..i + |q|];
        assert |a| == |b| && forall k :: 0 <= k < |a| ==> a[k] == b[k];
      }
    }
    forall i | 1 <= i
      ensures OccursAt(s, q, i) <==> OccursAt(s[1..], q, i - 1)
    {
      assert OccursAt(s[1..], q, i - 1) <==> OccursAt(s, q, i - 1 + 1);
    }
  }

  /** `s.indexOf(q)`: the first index where `q` occurs in `s`, or -1 when it does not occur. */
  function IndexOf(s: string, q: string): (r: int)
    ensures -1 <= r
    ensures r >= 0 <==> IsInfix(q, s)
    ensures r >= 0 ==> OccursAt(s, q, r) && forall i :: 0 <= i < r ==> !OccursAt(s, q, i)
  {
    if |q| > |s| then
      assert forall i :: !OccursAt(s, q, i);
      -1
    else if s[..|q|] == q then
      assert OccursAt(s, q, 0);
      0
    else
      var t := IndexOf(s[1..], q);
      OccursAtTail(s, q);
      if t < 0 then
        assert !OccursAt(s, q, 0);
        -1
      else
        assert OccursAt(s[1..], q, t);
        assert !OccursAt(s, q, 0);
        t + 1
  }

  /** An occurrence of `p` inside an occurrence of `q` inside `s` is an occurrence of `p` in `s`. */
  lemma OccursAtCompose(s: string, q: string, p: string, i: int, j: int)
    requires OccursAt(s, q, i) && OccursAt(q, p, j)
    ensures OccursAt(s, p, i + j)
  {
    var a, b := s[i + j..i + j + |p|], s[i..i + |q|][j..j + |p|];
    assert |a| == |b| && forall k :: 0 <= k < |a| ==> a[k] == b[k];
  }

  /** Being a substring is transitive. */
  lemma InfixTransitive(p: string, q: string, s: string)
    requires IsInfix(p, q) && IsInfix(q, s)
    ensures IsInfix(p, s)
  {
    var j :| OccursAt(q, p, j);
    var i :| OccursAt(s, q, i);
    OccursAtCompose(s, q, p, i, j);
  }

  /** Every prefix of a string is a substring of it. */
  lemma PrefixIsInfix(p: string, s: string)
    requires |p| <= |s| && s[..|p|] == p
    ensures IsInfix(p, s)
  {
    assert OccursAt(s, p, 0);
  }

  /** Lower-casing commutes with appending. */
  lemma ToLowerAppend(s: string, t: string)
    ensures ToLower(s + t) == ToLower(s) + ToLower(t)
  {
    var a, b := ToLower(s + t), ToLower(s) + ToLower(t);
    assert |a| == |b|;
    forall i | 0 <= i < |a|
      ensures a[i] == b[i]
    {
      if i < |s| {
        assert (s + t)[i] == s[i];
      } else {
        assert (s + t)[i] == t[i - |s|];
      }
    }
  }

  // ---------------------------------------------------------------------------
  // JSON.stringify of a string

  /** The lower-case hexadecimal digit for `n`. */
  function HexDigit(n: nat): char
    requires n < 16
  {
    if n < 10 then ('0' as int + n) as char else ('a' as int + n - 10) as char
  }

  /** How `JSON.stringify` writes one character inside a string literal. */
  function JsonEscapeChar(c: char): (r: string)
    ensures c != '"' && c != '\\' && c as int >= 0x20 ==> r == [c]
    ensures |r| >= 1 && r[0] != '"'
    ensures c == '"' || c == '\\' || c as int < 0x20 ==> |r| >= 2 && r[0] == '\\'
  {
    if c == '"' then "\\\""
    else if c == '\\' then "\\\\"
    else if c == '\U{0008}' then "\\b"
    else if c == '\U{000C}' then "\\f"
    else if c == '\n' then "\\n"
    else if c == '\r' then "\\r"
    else if c == '\t' then "\\t"
    else if c as int < 0x20 then "\\u00" + [HexDigit(c as int / 16), HexDigit(c as int % 16)]
    else [c]
  }

  /** `JSON.stringify(s)` for a string `s`: quoted, with quotes, backslashes and control characters escaped. */
  function JsonQuote(s: string): (r: string)
    ensures |r| >= |s| + 2 && r[0] == '"' && r[|r| - 1] == '"'
  {
    "\"" + JsonEscapeBody(s) + "\""
  }

  /** The escaped characters of `s`, without the surrounding quotes. */
  function JsonEscapeBody(s: string): (r: string)
    ensures |r| >= |s|
  {
    if s == [] then [] else JsonEscapeChar(s[0]) + JsonEscapeBody(s[1..])
  }

  /** `HexDigit` tells its digits apart. */
  lemma HexDigitInjective(m: nat, n: nat)
    requires m < 16 && n < 16 && HexDigit(m) == HexDigit(n)
    ensures m == n
  {
  }

  /**
   * The escapes of `JSON.stringify` form a prefix code: when two escapes start
   * the same text, they are the escapes of the same character and what
   * follows them is the same.
   */
  lemma EscapeCharPrefixCode(a: char, b: char, x: string, y: string)
    requires JsonEscapeChar(a) + x == JsonEscapeChar(b) + y
    ensures a == b && x == y
  {
    var ea, eb := JsonEscapeChar(a), JsonEscapeChar(b);
    assert (ea + x)[0] == ea[0] && (eb + y)[0] == eb[0];
    if ea[0] != '\\' {
      assert ea == [a] && eb == [b];
    } else {
      assert (ea + x)[1] == ea[1] && (eb + y)[1] == eb[1];
      if ea[1] == 'u' {
        assert (ea + x)[4] == ea[4] && (eb + y)[4] == eb[4];
        assert (ea + x)[5] == ea[5] && (eb + y)[5] == eb[5];
        HexDigitInjective(a as int / 16, b as int / 16);
        HexDigitInjective(a as int % 16, b as int % 16);
      }
    }
    assert ea == eb;
    assert x == (ea + x)[|ea|..];
  }

  /** The escaped body of a string, followed by a closing quote, can be read back in one way only. */
  lemma {:induction false} EscapedBodyUnique(s: string, t: string, x: string, y: string)
    requires |x| >= 1 && x[0] == '"' && |y| >= 1 && y[0] == '"'
    requires JsonEscapeBody(s) + x == JsonEscapeBody(t) + y
    ensures s == t && x == y
  {
    EscapedBodyHead(s, x);
    EscapedBodyHead(t, y);
    if s == [] {
      assert JsonEscapeBody(s) == [] && JsonEscapeBody(t) == [];
      assert x == JsonEscapeBody(s) + x && y == JsonEscapeBody(t) + y;
    } else {
      EscapedBodyStep(s, t, x, y);
      EscapedBodyUnique(s[1..], t[1..], x, y);
      assert s == [s[0]] + s[1..] && t == [t[0]] + t[1..];
    }
  }

  /** An escaped body followed by a closing quote starts with that quote exactly when the body is empty. */
  lemma EscapedBodyHead(s: string, x: string)
    requires |x| >= 1 && x[0] == '"'
    ensures |JsonEscapeBody(s) + x| >= 1
    ensures (JsonEscapeBody(s) + x)[0] == '"' <==> s == []
  {
    if s == [] {
      assert JsonEscapeBody(s) + x == x;
    } else {
      var e, b := JsonEscapeChar(s[0]), JsonEscapeBody(s[1..]);
      assert JsonEscapeBody(s) == e + b;
      assert (JsonEscapeBody(s) + x)[0] == e[0];
    }
  }

  /** Two equal escaped texts start with the escape of the same character, and agree after it. */
  lemma EscapedBodyStep(s: string, t: string, x: string, y: string)
    requires s != [] && t != []
    requires JsonEscapeBody(s) + x == JsonEscapeBody(t) + y
    ensures s[0] == t[0] && JsonEscapeBody(s[1..]) + x == JsonEscapeBody(t[1..]) + y
  {
    var es, bs := JsonEscapeChar(s[0]), JsonEscapeBody(s[1..]);
    var et, bt := JsonEscapeChar(t[0]), JsonEscapeBody(t[1..]);
    assert JsonEscapeBody(s) == es + bs && JsonEscapeBody(t) == et + bt;
    Seqs.AppendAssoc(es, bs, x);
    Seqs.AppendAssoc(et, bt, y);
    EscapeCharPrefixCode(s[0], t[0], bs + x, bt + y);
  }

  /**
   * A `JSON.stringify`-quoted string is self-delimiting: when two quoted
   * strings start the same text, they quote the same string and the rest of
   * the text is the same.
   */
  lemma JsonQuoteUnique(s: string, t: string, x: string, y: string)
    requires JsonQuote(s) + x == JsonQuote(t) + y
    ensures s == t && x == y
  {
    var q: string := "\"";
    var bs, bt := JsonEscapeBody(s), JsonEscapeBody(t);
    assert JsonQuote(s) == q + bs + q && JsonQuote(t) == q + bt + q;
    Seqs.AppendAssoc(q + bs, q, x);
    Seqs.AppendAssoc(q, bs, q + x);
    Seqs.AppendAssoc(q + bt, q, y);
    Seqs.AppendAssoc(q, bt, q + y);
    Seqs.PrefixCancel(q, bs + (q + x), bt + (q + y));
    EscapedBodyUnique(s, t, q + x, q + y);
    Seqs.PrefixCancel(q, x, y);
  }

}
