/**
 * String primitives shared by the Python services and the JavaScript
 * clients: whitespace classes, strip/trim, single-character split,
 * substring tests, ASCII upper-casing and decimal rendering.
 */
module Text {

  /** Which language's notion of whitespace a strip or trim uses. */
  datatype Spaces = Python | JavaScript

  /**
   * Python `str.isspace` for one character: the ASCII controls 9-13 and
   * 28-31, the space, NEL, NBSP and the Unicode space separators and line
   * and paragraph separators.
   */
  predicate IsPySpace(c: char)
  {
    ('\t' <= c <= '\r') || ('\U{001C}' <= c <= ' ') || c == '\U{0085}' || c == '\U{00A0}'
    || c == '\U{1680}' || ('\U{2000}' <= c <= '\U{200A}') || c == '\U{2028}' || c == '\U{2029}'
    || c == '\U{202F}' || c == '\U{205F}' || c == '\U{3000}'
  }

  /**
   * ECMAScript WhiteSpace or LineTerminator, the characters that
   * `String.prototype.trim` and `parseInt` skip.
   */
  predicate IsJsSpace(c: char)
  {
    ('\t' <= c <= '\r') || c == ' ' || c == '\U{00A0}' || c == '\U{FEFF}'
    || c == '\U{1680}' || ('\U{2000}' <= c <= '\U{200A}') || c == '\U{2028}' || c == '\U{2029}'
    || c == '\U{202F}' || c == '\U{205F}' || c == '\U{3000}'
  }

  predicate IsSpace(k: Spaces, c: char)
  {
    match k
    case Python => IsPySpace(c)
    case JavaScript => IsJsSpace(c)
  }

  predicate AllSpace(k: Spaces, s: string)
  {
    forall i :: 0 <= i < |s| ==> IsSpace(k, s[i])
  }

  /** Drops leading whitespace (`lstrip()` / `trimStart()`). */
  function StripStart(k: Spaces, s: string): (r: string)
    ensures |r| <= |s| && r == s[|s| - |r|..]
    ensures r == [] || !IsSpace(k, r[0])
  {
    if s == [] || !IsSpace(k, s[0]) then s else StripStart(k, s[1..])
  }

  /** What `StripStart` drops is whitespace only. */
  lemma {:induction false} StripStartDropsSpace(k: Spaces, s: string)
    ensures AllSpace(k, s[..|s| - |StripStart(k, s)|])
  {
    if s != [] && IsSpace(k, s[0]) {
      StripStartDropsSpace(k, s[1..]);
      var n := |s| - |StripStart(k, s)|;
      assert forall i :: 1 <= i < n ==> s[..n][i] == s[1..][..n - 1][i - 1];
    }
  }

  /** Drops trailing whitespace (`rstrip()` / `trimEnd()`). */
  function StripEnd(k: Spaces, s: string): (r: string)
    ensures |r| <= |s| && r == s[..|r|]
    ensures r == [] || !IsSpace(k, r[|r| - 1])
  {
    if s == [] || !IsSpace(k, s[|s| - 1]) then s else StripEnd(k, s[..|s| - 1])
  }

  /** What `StripEnd` drops is whitespace only. */
  lemma {:induction false} StripEndDropsSpace(k: Spaces, s: string)
    ensures AllSpace(k, s[|StripEnd(k, s)|..])
  {
    if s != [] && IsSpace(k, s[|s| - 1]) {
      StripEndDropsSpace(k, s[..|s| - 1]);
      var n := |StripEnd(k, s)|;
      assert forall j :: 0 <= j < |s| - 1 - n ==> s[n..][j] == s[..|s| - 1][n..][j];
    }
  }

  /** Python `str.strip()` or JavaScript `String.prototype.trim()`. */
  function Strip(k: Spaces, s: string): (r: string)
    ensures |r| <= |s|
    ensures Stripped(k, r)
  {
    StripEnd(k, StripStart(k, s))
  }

  /** No whitespace at either end. */
  predicate Stripped(k: Spaces, s: string)
  {
    s == [] || (!IsSpace(k, s[0]) && !IsSpace(k, s[|s| - 1]))
  }

  /** Stripping leaves nothing exactly when there was nothing but whitespace. */
  lemma StripEmpty(k: Spaces, s: string)
    ensures Strip(k, s) == [] <==> AllSpace(k, s)
  {
    var t := StripStart(k, s);
    StripStartDropsSpace(k, s);
    if t == [] {
      assert s[..|s|] == s;
    } else {
      assert t[0] == s[|s| - |t|];
      StripEndDropsSpace(k, t);
      assert t[0..] == t;
      assert !AllSpace(k, t);
    }
  }

  predicate StartsWith(s: string, prefix: string)
  {
    |prefix| <= |s| && s[..|prefix|] == prefix
  }

  /** Substring test: Python `sub in s`, JavaScript `s.includes(sub)`. */
  predicate Contains(s: string, sub: string)
  {
    exists i :: 0 <= i <= |s| && OccursAt(s, sub, i)
  }

  predicate OccursAt(s: string, sub: string, i: int)
  {
    0 <= i && i + |sub| <= |s| && s[i..i + |sub|] == sub
  }

  /** Index of the first occurrence of `c`, or `|s|` when there is none. */
  function FindChar(s: string, c: char): (i: nat)
    ensures i <= |s|
    ensures c !in s[..i]
    ensures i < |s| <==> c in s
    ensures i < |s| ==> s[i] == c
  {
    if s == [] then 0
    else if s[0] == c then 0
    else 1 + FindChar(s[1..], c)
  }

  /** `s.split(c)[0]`: the text before the first `c`. */
  function Before(s: string, c: char): (r: string)
    ensures c !in r
    ensures StartsWith(s, r)
    ensures r == s <==> c !in s
  {
    s[..FindChar(s, c)]
  }

  /** Concatenates `parts` with `sep` between neighbours (`sep.join(parts)`). */
  function Join(parts: seq<string>, sep: char): string
  {
    if parts == [] then ""
    else if |parts| == 1 then parts[0]
    else parts[0] + [sep] + Join(parts[1..], sep)
  }

  /**
   * `s.split(sep)` for a one-character separator, identical in Python and
   * JavaScript: empty pieces are kept and there is always a first piece.
   */
  function Split(s: string, sep: char): (parts: seq<string>)
    ensures |parts| >= 1
    ensures forall j :: 0 <= j < |parts| ==> sep !in parts[j]
    ensures Join(parts, sep) == s
    ensures |parts| == 1 <==> sep !in s
    ensures parts[0] == Before(s, sep)
    decreases |s|
  {
    var i := FindChar(s, sep);
    if i == |s| then
      assert s[..i] == s;
      [s]
    else
      var rest := Split(s[i + 1..], sep);
      var parts := [s[..i]] + rest;
      JoinCons(s[..i], rest, sep);
      Around(s, i);
      assert forall j :: 1 <= j < |parts| ==> parts[j] == rest[j - 1];
      parts
  }

  /** A string is the text before position `i`, the character there, and the text after. */
  lemma Around(s: string, i: nat)
    requires i < |s|
    ensures s == s[..i] + [s[i]] + s[i + 1..]
  {
  }

  lemma JoinCons(p: string, rest: seq<string>, sep: char)
    requires rest != []
    ensures Join([p] + rest, sep) == p + [sep] + Join(rest, sep)
  {
    assert ([p] + rest)[1..] == rest;
  }

  /** The first `c` of `a + [c] + b` is the one after `a` when `a` holds none. */
  lemma {:induction false} FindCharAfter(a: string, c: char, b: string)
    requires c !in a
    ensures FindChar(a + [c] + b, c) == |a|
    decreases |a|
  {
    if a != [] {
      assert (a + [c] + b)[1..] == a[1..] + [c] + b;
      FindCharAfter(a[1..], c, b);
    }
  }

  /** Splitting undoes joining, when no part holds the separator. */
  lemma {:induction false} SplitOfJoin(parts: seq<string>, sep: char)
    requires |parts| >= 1 && forall j :: 0 <= j < |parts| ==> sep !in parts[j]
    ensures Split(Join(parts, sep), sep) == parts
    decreases |parts|
  {
    if |parts| > 1 {
      var rest := Join(parts[1..], sep);
      assert Join(parts, sep) == parts[0] + [sep] + rest;
      SplitOfJoin(parts[1..], sep);
      SplitAfter(parts[0], sep, rest);
      assert parts == [parts[0]] + parts[1..];
    }
  }

  lemma SplitAfter(a: string, sep: char, b: string)
    requires sep !in a
    ensures Split(a + [sep] + b, sep) == [a] + Split(b, sep)
  {
    var s := a + [sep] + b;
    FindCharAfter(a, sep, b);
    assert s[..|a|] == a;
    assert s[|a| + 1..] == b;
  }

  /** Index of the first whitespace character, or `|s|` when there is none. */
  function FindSpace(k: Spaces, s: string): (i: nat)
    ensures i <= |s|
    ensures forall j :: 0 <= j < i ==> !IsSpace(k, s[j])
    ensures i < |s| ==> IsSpace(k, s[i])
  {
    if s == [] || IsSpace(k, s[0]) then 0 else 1 + FindSpace(k, s[1..])
  }

  /** Python `str.split()` with no separator: the maximal runs of non-whitespace, in order. */
  function Words(s: string): (ws: seq<string>)
    decreases |s|
  {
    var t := StripStart(Python, s);
    if t == [] then []
    else
      var n := FindSpace(Python, t);
      assert n >= 1 by { assert t[0] == s[|s| - |t|]; }
      [t[..n]] + Words(t[n..])
  }

  /** A token `split()` can return: non-empty, with no whitespace in it. */
  predicate IsWord(k: Spaces, w: string)
  {
    w != [] && forall j :: 0 <= j < |w| ==> !IsSpace(k, w[j])
  }

  /** Every token of `Words` is a word. */
  lemma {:induction false} WordsAreWords(s: string)
    ensures forall i :: 0 <= i < |Words(s)| ==> IsWord(Python, Words(s)[i])
    decreases |s|
  {
    var t := StripStart(Python, s);
    if t != [] {
      var n := FindSpace(Python, t);
      PrefixIsWord(t, n);
      WordsAreWords(t[n..]);
      var rest := Words(t[n..]);
      assert Words(s) == [t[..n]] + rest;
      forall i | 0 < i < |Words(s)|
        ensures IsWord(Python, Words(s)[i])
      {
        assert Words(s)[i] == rest[i - 1];
      }
    }
  }

  lemma PrefixIsWord(t: string, n: nat)
    requires 1 <= n <= |t|
    requires forall j :: 0 <= j < n ==> !IsSpace(Python, t[j])
    ensures IsWord(Python, t[..n])
  {
    assert forall j :: 0 <= j < n ==> t[..n][j] == t[j];
  }

  /** There are no tokens exactly when the text is all whitespace. */
  lemma WordsEmpty(s: string)
    ensures Words(s) == [] <==> AllSpace(Python, s)
  {
    var t := StripStart(Python, s);
    StripStartDropsSpace(Python, s);
    if t == [] {
      assert s[..|s|] == s;
    } else {
      assert t[0] == s[|s| - |t|];
    }
  }

  /** A stripped string is a slice of the original, so it has no character the original lacks. */
  lemma StripIsSlice(k: Spaces, s: string)
    ensures forall c :: c in Strip(k, s) ==> c in s
  {
    var t := StripStart(k, s);
    var r := StripEnd(k, t);
    var a := |s| - |t|;
    assert r == s[a..a + |r|];
    forall c | c in r
      ensures c in s
    {
      var i :| 0 <= i < |r| && r[i] == c;
      assert s[a + i] == c;
    }
  }

  /** A string with no whitespace at either end is already stripped. */
  lemma StripUnchanged(k: Spaces, s: string)
    requires s != [] && !IsSpace(k, s[0]) && !IsSpace(k, s[|s| - 1])
    ensures Strip(k, s) == s
  {
    assert StripStart(k, s) == s;
    assert StripEnd(k, s) == s;
  }

  /** Stripping keeps a last character that is not whitespace. */
  lemma StripKeepsLast(k: Spaces, s: string)
    requires s != [] && !IsSpace(k, s[|s| - 1])
    ensures Strip(k, s) != [] && Strip(k, s)[|Strip(k, s)| - 1] == s[|s| - 1]
  {
    var t := StripStart(k, s);
    StripStartDropsSpace(k, s);
    assert !AllSpace(k, s);
    assert s[..|s|] == s;
    assert t != [];
    assert t[|t| - 1] == s[|s| - 1];
    assert StripEnd(k, t) == t;
  }

  /** Python `str.upper()` restricted to ASCII letters. */
  function UpperChar(c: char): char
  {
    if 'a' <= c <= 'z' then (c as int - 32) as char else c
  }

  function Upper(s: string): (r: string)
    ensures |r| == |s|
    ensures forall i :: 0 <= i < |s| ==> r[i] == UpperChar(s[i])
  {
    seq(|s|, i requires 0 <= i < |s| => UpperChar(s[i]))
  }

  predicate IsDigit(c: char)
  {
    '0' <= c <= '9'
  }

  function DigitChar(d: int): char
    requires 0 <= d < 10
  {
    (48 + d) as char
  }

  /** Decimal rendering of a natural number, without leading zeros. */
  function NatToString(n: nat): (r: string)
    ensures |r| >= 1
    ensures forall i :: 0 <= i < |r| ==> IsDigit(r[i])
    ensures r[0] == '0' ==> n == 0
    decreases n
  {
    if n < 10 then [DigitChar(n)] else NatToString(n / 10) + [DigitChar(n % 10)]
  }

  /** Decimal rendering of an integer, as JavaScript `String(n)` writes it. */
  function IntToString(n: int): string
  {
    if n < 0 then "-" + NatToString(-n) else NatToString(n)
  }

  /** `s.padStart(width, c)`. */
  function PadStart(s: string, width: nat, c: char): (r: string)
    ensures |r| == if |s| < width then width else |s|
    ensures r[|r| - |s|..] == s
    ensures forall i :: 0 <= i < |r| - |s| ==> r[i] == c
  {
    if |s| < width then seq(width - |s|, _ => c) + s else s
  }
}
