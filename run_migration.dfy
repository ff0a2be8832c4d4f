/**
 * The statement splitter and the execution order of run_migration.py.
 * The migration text is cut at every `;` met outside a quoted string;
 * each piece is stripped and kept unless it is empty or starts with a
 * `--` comment. The statements then run CREATE TABLE first, CREATE INDEX
 * last, everything else in between.
 */
module RunMigration {
  import opened Base
  import opened Text
  import opened Listing

  /** The splitter's variables between two characters. */
  datatype Scan = Scan(statements: seq<string>, current: string, inString: bool, quote: Option<char>)

  const Start := Scan([], "", false, None)

  predicate IsQuote(c: char)
  {
    c == '\'' || c == '"'
  }

  /** A quote counts unless the character before it in the current statement is a backslash. */
  predicate Toggles(current: string, c: char)
  {
    IsQuote(c) && (current == [] || current[|current| - 1] != '\\')
  }

  /** `stmt and not stmt.startswith('--')`. */
  predicate Kept(stmt: string)
  {
    stmt != [] && !StartsWith(stmt, "--")
  }

  /** `(in_string, string_char)` after reading `c`. */
  function QuoteState(st: Scan, c: char): (bool, Option<char>)
  {
    if !Toggles(st.current, c) then (st.inString, st.quote)
    else if !st.inString then (true, Some(c))
    else if Some(c) == st.quote then (false, None)
    else (st.inString, st.quote)
  }

  /** One pass of the character loop. */
  function Step(st: Scan, c: char): Scan
  {
    var q := QuoteState(st, c);
    var current := st.current + [c];
    if !q.0 && c == ';' then
      var stmt := Strip(Python, current);
      Scan(if Kept(stmt) then st.statements + [stmt] else st.statements, "", q.0, q.1)
    else
      Scan(st.statements, current, q.0, q.1)
  }

  /** The loop's variables after reading `s` from state `st`. */
  function Run(st: Scan, s: string): Scan
  {
    if s == [] then st else Step(Run(st, s[..|s| - 1]), s[|s| - 1])
  }

  /** The loop's variables after reading all of `content`. */
  function Scanned(content: string): Scan
  {
    Run(Start, content)
  }

  /** The statements the splitter collects. */
  function SplitStatements(content: string): seq<string>
  {
    Scanned(content).statements
  }

  /** The character loop of `run_migration`. */
  method SplitSql(content: string) returns (statements: seq<string>)
    ensures statements == SplitStatements(content)
  {
    statements := [];
    var current := "";
    var inString := false;
    var stringChar: Option<char> := None;
    for i := 0 to |content|
      invariant Scan(statements, current, inString, stringChar) == Scanned(content[..i])
    {
      var c := content[i];
      assert content[..i + 1][..i] == content[..i];
      if IsQuote(c) && (current == [] || current[|current| - 1] != '\\') {
        if !inString {
          inString := true;
          stringChar := Some(c);
        } else if Some(c) == stringChar {
          inString := false;
          stringChar := None;
        }
      }
      current := current + [c];
      if !inString && c == ';' {
        var stmt := Strip(Python, current);
        if stmt != [] && !StartsWith(stmt, "--") {
          statements := statements + [stmt];
        }
        current := "";
      }
    }
    assert content[..|content|] == content;
  }

  lemma RunSnoc(st: Scan, s: string, c: char)
    ensures Run(st, s + [c]) == Step(Run(st, s), c)
  {
    assert (s + [c])[..|s|] == s;
  }

  lemma ScannedSnoc(s: string, c: char)
    ensures Scanned(s + [c]) == Step(Scanned(s), c)
  {
    RunSnoc(Start, s, c);
  }

  /** Reading `a` then `b` is reading `a + b`. */
  lemma {:induction false} RunAppend(st: Scan, a: string, b: string)
    ensures Run(st, a + b) == Run(Run(st, a), b)
    decreases |b|
  {
    if b == [] {
      assert a + b == a;
    } else {
      var init := b[..|b| - 1];
      var c := b[|b| - 1];
      assert b == init + [c];
      assert a + b == (a + init) + [c];
      RunAppend(st, a, init);
      RunSnoc(st, a + init, c);
      RunSnoc(Run(st, a), init, c);
    }
  }

  /**
   * One character adds a statement only when it is a `;` outside any
   * string and the stripped piece is kept; a `;` never changes the quote
   * state, and an unquoted one always starts a new piece.
   */
  lemma StepEmits(st: Scan, c: char)
    ensures var n := Step(st, c);
            && (|n.statements| > |st.statements| <==> c == ';' && !st.inString && Kept(Strip(Python, st.current + [c])))
            && (|n.statements| > |st.statements| ==> n.statements == st.statements + [Strip(Python, st.current + [c])])
            && (|n.statements| <= |st.statements| ==> n.statements == st.statements)
            && (c == ';' ==> n.inString == st.inString && n.quote == st.quote)
            && (c == ';' && !st.inString ==> n.current == "")
  {
  }

  /** A quote of the other kind inside a string is plain text: the string stays open. */
  lemma OtherQuoteInsideString(st: Scan, c: char)
    requires st.inString && st.quote.Some? && IsQuote(c) && Some(c) != st.quote
    ensures Step(st, c).inString && Step(st, c).quote == st.quote
  {
  }

  /** A quote right after a backslash neither opens nor closes a string. */
  lemma EscapedQuoteDoesNotToggle(st: Scan, c: char)
    requires IsQuote(c) && st.current != [] && st.current[|st.current| - 1] == '\\'
    ensures Step(st, c).inString == st.inString && Step(st, c).quote == st.quote
  {
  }

  /** Outside a string, a quote that counts opens a string of its kind. */
  lemma OpenQuote(st: Scan, q: char)
    requires !st.inString && Toggles(st.current, q)
    ensures Step(st, q) == Scan(st.statements, st.current + [q], true, Some(q))
  {
  }

  /** Inside a string, the matching quote, when it counts, closes it. */
  lemma CloseQuote(st: Scan, q: char)
    requires st.inString && st.quote == Some(q) && Toggles(st.current, q)
    ensures Step(st, q) == Scan(st.statements, st.current + [q], false, None)
  {
  }

  /** Outside a string a `;` ends the piece: it is stripped, kept or dropped, and a new piece begins. */
  lemma SemicolonOutside(st: Scan)
    requires !st.inString
    ensures var stmt := Strip(Python, st.current + [';']);
            Step(st, ';') == Scan(if Kept(stmt) then st.statements + [stmt] else st.statements, "", false, st.quote)
  {
  }

  /** Inside a string a `;` is plain text. */
  lemma SemicolonInside(st: Scan)
    requires st.inString
    ensures Step(st, ';') == Scan(st.statements, st.current + [';'], true, st.quote)
  {
  }

  /** What a statement the splitter emits looks like: kept, stripped, and ending with its `;`. */
  predicate WellFormed(stmt: string)
  {
    Kept(stmt) && stmt[|stmt| - 1] == ';' && !IsSpace(Python, stmt[0])
  }

  predicate AllWellFormed(statements: seq<string>)
  {
    forall i :: 0 <= i < |statements| ==> WellFormed(statements[i])
  }

  lemma AllWellFormedSnoc(statements: seq<string>, stmt: string)
    requires AllWellFormed(statements) && WellFormed(stmt)
    ensures AllWellFormed(statements + [stmt])
  {
    assert forall i :: 0 <= i < |statements| ==> (statements + [stmt])[i] == statements[i];
  }

  /** One character keeps every collected statement well formed. */
  lemma StepKeepsWellFormed(st: Scan, c: char)
    requires AllWellFormed(st.statements)
    ensures AllWellFormed(Step(st, c).statements)
  {
    var current := st.current + [c];
    var n := Step(st, c);
    if c == ';' && !QuoteState(st, c).0 {
      StripKeepsLast(Python, current);
      var stmt := Strip(Python, current);
      if Kept(stmt) {
        assert n.statements == st.statements + [stmt];
        assert WellFormed(stmt);
        AllWellFormedSnoc(st.statements, stmt);
      } else {
        assert n.statements == st.statements;
      }
    } else {
      assert n.statements == st.statements;
    }
  }

  /** Every collected statement is well formed. */
  lemma {:induction false} StatementsWellFormed(content: string)
    ensures AllWellFormed(SplitStatements(content))
    decreases |content|
  {
    if content != [] {
      StatementsWellFormed(content[..|content| - 1]);
      StepKeepsWellFormed(Scanned(content[..|content| - 1]), content[|content| - 1]);
    }
  }

  /** Text after the last `;` never becomes a statement. */
  lemma {:induction false} TrailingTextDiscarded(prefix: string, tail: string)
    requires ';' !in tail
    ensures SplitStatements(prefix + tail) == SplitStatements(prefix)
    decreases |tail|
  {
    if tail == [] {
      assert prefix + tail == prefix;
    } else {
      var init := tail[..|tail| - 1];
      var c := tail[|tail| - 1];
      assert tail == init + [c];
      assert ';' !in init;
      TrailingTextDiscarded(prefix, init);
      assert prefix + tail == (prefix + init) + [c];
      ScannedSnoc(prefix + init, c);
    }
  }

  /** A character that is neither a quote nor a `;` is only appended. */
  lemma PlainStep(st: Scan, c: char)
    requires !IsQuote(c) && c != ';'
    ensures Step(st, c) == Scan(st.statements, st.current + [c], st.inString, st.quote)
  {
  }

  /** Text with no quote, no `;` and no backslash: the splitter only appends it. */
  predicate Plain(s: string)
  {
    forall j :: 0 <= j < |s| ==> !IsQuote(s[j]) && s[j] != ';' && s[j] != '\\'
  }

  /** Plain text is carried whole into the current piece. */
  lemma {:induction false} RunPlain(st: Scan, s: string)
    requires Plain(s)
    ensures Run(st, s) == Scan(st.statements, st.current + s, st.inString, st.quote)
    decreases |s|
  {
    if s == [] {
      assert st.current + s == st.current;
    } else {
      var init := s[..|s| - 1];
      assert s == init + [s[|s| - 1]];
      RunPlain(st, init);
      PlainStep(Run(st, init), s[|s| - 1]);
      assert st.current + init + [s[|s| - 1]] == st.current + s;
    }
  }

  /** Between two statements: nothing pending and no string open. */
  predicate AtBoundary(st: Scan)
  {
    st.current == [] && !st.inString && st.quote.None?
  }

  lemma DashesPlain(body: string)
    requires Plain(body)
    ensures Plain("--" + body)
  {
    var piece := "--" + body;
    forall j | 0 <= j < |piece|
      ensures !IsQuote(piece[j]) && piece[j] != ';' && piece[j] != '\\'
    {
      if j >= 2 {
        assert piece[j] == body[j - 2];
      }
    }
  }

  /**
   * A `--` comment line glued to the statement after it makes one piece,
   * which starts with `--` and is dropped, statement and all.
   */
  lemma CommentSwallowsStatement(prior: string, body: string)
    requires AtBoundary(Scanned(prior)) && Plain(body)
    ensures Scanned(prior + ("--" + body + ";")) == Scanned(prior)
  {
    var st := Scanned(prior);
    var piece := "--" + body;
    var whole := piece + [';'];
    DashesPlain(body);
    RunPlain(st, piece);
    assert st.current + piece == piece;
    SemicolonOutside(Run(st, piece));
    CommentPieceDropped(piece);
    RunSnoc(st, piece, ';');
    assert "--" + body + ";" == whole;
    RunAppend(Start, prior, whole);
  }

  /** A piece that starts with `--` is dropped at its `;`. */
  lemma CommentPieceDropped(piece: string)
    requires StartsWith(piece, "--")
    ensures !Kept(Strip(Python, piece + [';']))
  {
    assert !IsSpace(Python, piece[0]) by {
      assert piece[..2][0] == piece[0];
    }
    StripUnchanged(Python, piece + [';']);
    assert StartsWith(piece + [';'], "--") by {
      assert (piece + [';'])[..2] == piece[..2];
    }
  }

  /** No quote and no backslash: inside a string this is all text, `;` included. */
  predicate Unquoted(s: string)
  {
    forall j :: 0 <= j < |s| ==> !IsQuote(s[j]) && s[j] != '\\'
  }

  /** Inside a string, text without quotes, semicolons included, is carried whole into the current piece. */
  lemma {:induction false} RunInString(st: Scan, s: string)
    requires st.inString && Unquoted(s)
    ensures Run(st, s) == Scan(st.statements, st.current + s, true, st.quote)
    decreases |s|
  {
    if s == [] {
      assert st.current + s == st.current;
    } else {
      var init := s[..|s| - 1];
      var c := s[|s| - 1];
      assert s == init + [c];
      RunInString(st, init);
      if c == ';' {
        SemicolonInside(Run(st, init));
      } else {
        PlainStep(Run(st, init), c);
      }
      assert st.current + init + [c] == st.current + s;
    }
  }

  /**
   * A `;` inside a quoted string does not cut the statement: a statement
   * made of one quoted string, semicolons and all, comes out whole.
   */
  lemma QuotedSemicolonKept(prior: string, q: char, body: string)
    requires AtBoundary(Scanned(prior)) && IsQuote(q) && Unquoted(body)
    ensures var text := [q] + body + [q, ';'];
            Scanned(prior + text) == Scan(SplitStatements(prior) + [text], "", false, None)
  {
    var text := [q] + body + [q, ';'];
    QuotedFrom(Scanned(prior), q, body);
    RunAppend(Start, prior, text);
  }

  lemma QuotedFrom(st: Scan, q: char, body: string)
    requires AtBoundary(st) && IsQuote(q) && Unquoted(body)
    ensures Run(st, [q] + body + [q, ';']) == Scan(st.statements + [[q] + body + [q, ';']], "", false, None)
  {
    OpenQuote(st, q);
    RunSnoc(st, [], q);
    assert [] + [q] == [q] && st.current + [q] == [q];
    var cur := [q] + body;
    RunInString(Run(st, [q]), body);
    RunAppend(st, [q], body);
    assert cur[|cur| - 1] != '\\' by {
      if body != [] {
        assert cur[|cur| - 1] == body[|body| - 1];
      }
    }
    CloseQuote(Run(st, cur), q);
    RunSnoc(st, cur, q);
    var text := cur + [q] + [';'];
    SemicolonOutside(Run(st, cur + [q]));
    RunSnoc(st, cur + [q], ';');
    StripTextAndKept(text, q);
    assert text == [q] + body + [q, ';'];
  }

  /** A piece that opens with a quote and ends with `;` is emitted as it is. */
  lemma StripTextAndKept(text: string, q: char)
    requires |text| >= 2 && text[0] == q && IsQuote(q) && text[|text| - 1] == ';'
    ensures Strip(Python, text) == text && Kept(text)
  {
    StripUnchanged(Python, text);
    assert !StartsWith(text, "--") by {
      assert text[..2][0] == text[0];
    }
  }

  // ---------------------------------------------------------------------
  // Execution order
  // ---------------------------------------------------------------------

  /** 0: CREATE TABLE, 1: anything else, 2: CREATE INDEX; the table test wins when both occur. */
  function Group(stmt: string): (g: nat)
    ensures g <= 2
    ensures g == 0 <==> Contains(Upper(stmt), "CREATE TABLE")
    ensures g == 2 <==> !Contains(Upper(stmt), "CREATE TABLE") && Contains(Upper(stmt), "CREATE INDEX")
  {
    var upper := Upper(stmt);
    if Contains(upper, "CREATE TABLE") then 0
    else if Contains(upper, "CREATE INDEX") then 2
    else 1
  }

  function InGroup(g: nat): string -> bool
  {
    (stmt: string) => Group(stmt) == g
  }

  /** `create_table_statements + other_statements + create_index_statements`. */
  function ExecutionOrder(statements: seq<string>): seq<string>
  {
    Filter(statements, InGroup(0)) + Filter(statements, InGroup(1)) + Filter(statements, InGroup(2))
  }

  /** The partition loop of `run_migration`. */
  method Reorder(statements: seq<string>) returns (all: seq<string>)
    ensures all == ExecutionOrder(statements)
  {
    var tables: seq<string> := [];
    var indexes: seq<string> := [];
    var others: seq<string> := [];
    for i := 0 to |statements|
      invariant tables == Filter(statements[..i], InGroup(0))
      invariant others == Filter(statements[..i], InGroup(1))
      invariant indexes == Filter(statements[..i], InGroup(2))
    {
      var stmt := statements[i];
      assert statements[..i + 1] == statements[..i] + [stmt];
      FilterSnoc(statements[..i], stmt, InGroup(0));
      FilterSnoc(statements[..i], stmt, InGroup(1));
      FilterSnoc(statements[..i], stmt, InGroup(2));
      var upper := Upper(stmt);
      if Contains(upper, "CREATE TABLE") {
        tables := tables + [stmt];
      } else if Contains(upper, "CREATE INDEX") {
        indexes := indexes + [stmt];
      } else {
        others := others + [stmt];
      }
    }
    assert statements[..|statements|] == statements;
    all := tables + others + indexes;
  }

  /** Reordering loses and invents nothing: the same statements, as often each. */
  lemma ExecutionOrderIsPermutation(statements: seq<string>)
    ensures multiset(ExecutionOrder(statements)) == multiset(statements)
  {
    FilterMultiset(statements, InGroup(0));
    FilterMultiset(statements, InGroup(1));
    FilterMultiset(statements, InGroup(2));
    var r := ExecutionOrder(statements);
    assert forall x :: multiset(r)[x] == multiset(statements)[x];
  }

  /** Filtering one group by another gives the group itself, or nothing. */
  lemma RefilterGroup(statements: seq<string>, h: nat, g: nat)
    ensures Filter(Filter(statements, InGroup(h)), InGroup(g)) == if h == g then Filter(statements, InGroup(g)) else []
  {
    if h == g {
      FilterIdempotent(statements, InGroup(g));
    } else {
      FilterDisjoint(statements, InGroup(h), InGroup(g));
    }
  }

  /** Within each group the statements keep the order they had in the file. */
  lemma ExecutionOrderKeepsGroupOrder(statements: seq<string>, g: nat)
    requires g <= 2
    ensures Filter(ExecutionOrder(statements), InGroup(g)) == Filter(statements, InGroup(g))
  {
    var t := Filter(statements, InGroup(0));
    var o := Filter(statements, InGroup(1));
    var x := Filter(statements, InGroup(2));
    FilterAppend(t + o, x, InGroup(g));
    FilterAppend(t, o, InGroup(g));
    var ft, fo, fx := Filter(t, InGroup(g)), Filter(o, InGroup(g)), Filter(x, InGroup(g));
    assert Filter(ExecutionOrder(statements), InGroup(g)) == ft + fo + fx;
    RefilterGroup(statements, 0, g);
    RefilterGroup(statements, 1, g);
    RefilterGroup(statements, 2, g);
    var mine := Filter(statements, InGroup(g));
    if g == 0 {
      assert ft == mine && fo == [] && fx == [];
    } else if g == 1 {
      assert ft == [] && fo == mine && fx == [];
    } else {
      assert ft == [] && fo == [] && fx == mine;
    }
  }

  /** Every CREATE TABLE runs before everything else, and every CREATE INDEX after everything else. */
  lemma ExecutionOrderByGroup(statements: seq<string>)
    ensures var r := ExecutionOrder(statements);
            forall i, j :: 0 <= i < j < |r| ==> Group(r[i]) <= Group(r[j])
  {
    var t := Filter(statements, InGroup(0));
    var o := Filter(statements, InGroup(1));
    var x := Filter(statements, InGroup(2));
    var r := ExecutionOrder(statements);
    forall k | 0 <= k < |r|
      ensures Group(r[k]) == if k < |t| then 0 else if k < |t| + |o| then 1 else 2
    {
      if k < |t| {
        assert r[k] == t[k] && t[k] in t;
      } else if k < |t| + |o| {
        assert r[k] == o[k - |t|] && o[k - |t|] in o;
      } else {
        assert r[k] == x[k - |t| - |o|] && x[k - |t| - |o|] in x;
      }
    }
  }
}
