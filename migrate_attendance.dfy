/**
 * The statement splitter and the skip checks of
 * migrate_attendance_refactor.py. Every line is stripped and kept unless
 * it is empty or a `--` comment; the kept lines are joined with newlines
 * and the result is cut at every `;`, with no regard for quotes. Before
 * a statement runs, an ALTER TABLE whose column already exists and a
 * CREATE TABLE whose table already exists are skipped. The database
 * schema becomes a map from table names to their column names.
 */
module AttendanceRefactorMigration {
  import opened Text
  import opened Listing
  import RunMigration

  /** `line.startswith('--')`, spelt out character by character. */
  predicate IsComment(line: string)
  {
    |line| >= 2 && line[0] == '-' && line[1] == '-'
  }

  lemma IsCommentMeansStartsWith(line: string)
    ensures IsComment(line) <==> StartsWith(line, "--")
  {
    if |line| >= 2 {
      assert line[..2] == [line[0], line[1]];
    }
  }

  /** `line and not line.startswith('--')`, on a stripped line. */
  predicate KeptLine(line: string)
  {
    line != [] && !IsComment(line)
  }

  /** `s.strip()` as a function value. */
  function PyStrip(): string -> string
  {
    (s: string) => Strip(Python, s)
  }

  predicate NonEmpty(s: string)
  {
    s != []
  }

  /** The stripped lines the line loop keeps, in file order. */
  function KeptLines(lines: seq<string>): seq<string>
  {
    Filter(Map(lines, PyStrip()), KeptLine)
  }

  /** The line loop of `run_migration` in migrate_attendance_refactor.py. */
  method CollectLines(content: string) returns (statements: seq<string>)
    ensures statements == KeptLines(Split(content, '\n'))
  {
    var lines := Split(content, '\n');
    statements := [];
    for i := 0 to |lines|
      invariant statements == KeptLines(lines[..i])
    {
      var line := Strip(Python, lines[i]);
      KeptLinesStep(lines, i);
      IsCommentMeansStartsWith(line);
      if line != [] && !StartsWith(line, "--") {
        statements := statements + [line];
      }
    }
    assert lines[..|lines|] == lines;
  }

  /** One more line adds its stripped text when that is kept. */
  lemma KeptLinesStep(lines: seq<string>, i: nat)
    requires i < |lines|
    ensures var line := Strip(Python, lines[i]);
            KeptLines(lines[..i + 1]) == KeptLines(lines[..i]) + if KeptLine(line) then [line] else []
  {
    assert lines[..i + 1] == lines[..i] + [lines[i]];
    MapSnoc(lines[..i], lines[i], PyStrip());
    FilterSnoc(Map(lines[..i], PyStrip()), Strip(Python, lines[i]), KeptLine);
  }

  /**
   * A line's stripped text is kept exactly when it is neither empty nor
   * a comment; what is kept is stripped.
   */
  lemma KeptLinesExactly(lines: seq<string>)
    ensures forall l :: l in KeptLines(lines) <==> KeptLine(l) && exists i :: 0 <= i < |lines| && Strip(Python, lines[i]) == l
    ensures forall l :: l in KeptLines(lines) ==> Stripped(Python, l)
  {
    StrippedMembers(lines, KeptLine);
  }

  /** Some piece strips to `s`. */
  predicate StripsTo(pieces: seq<string>, s: string)
  {
    exists i :: 0 <= i < |pieces| && Strip(Python, pieces[i]) == s
  }

  /** What survives stripping then filtering: the stripped pieces that pass. */
  lemma StrippedMembers(pieces: seq<string>, p: string -> bool)
    ensures forall s :: s in Filter(Map(pieces, PyStrip()), p) <==> p(s) && StripsTo(pieces, s)
    ensures forall s :: s in Filter(Map(pieces, PyStrip()), p) ==> Stripped(Python, s)
  {
    var stripped := Map(pieces, PyStrip());
    forall s
      ensures s in stripped <==> StripsTo(pieces, s)
    {
      if s in stripped {
        var i :| 0 <= i < |stripped| && stripped[i] == s;
        assert Strip(Python, pieces[i]) == s;
      }
      if StripsTo(pieces, s) {
        var i :| 0 <= i < |pieces| && Strip(Python, pieces[i]) == s;
        assert stripped[i] == s;
      }
    }
    forall s | s in stripped
      ensures Stripped(Python, s)
    {
      var i :| 0 <= i < |stripped| && stripped[i] == s;
      assert s == Strip(Python, pieces[i]);
    }
  }

  /** `[s.strip() for s in pieces if s.strip()]`. */
  function NonEmptyStripped(pieces: seq<string>): seq<string>
  {
    Filter(Map(pieces, PyStrip()), NonEmpty)
  }

  /** Each piece that is not blank comes out stripped, and nothing else comes out. */
  lemma NonEmptyStrippedExactly(pieces: seq<string>)
    ensures forall s :: s in NonEmptyStripped(pieces) <==> s != [] && exists i :: 0 <= i < |pieces| && Strip(Python, pieces[i]) == s
    ensures forall s :: s in NonEmptyStripped(pieces) ==> Stripped(Python, s)
  {
    StrippedMembers(pieces, NonEmpty);
  }

  /** `full_sql = '\n'.join(statements)`. */
  function FullSql(content: string): string
  {
    Join(KeptLines(Split(content, '\n')), '\n')
  }

  /** `sql_statements`: the kept text cut at every `;`. */
  function SqlStatements(content: string): seq<string>
  {
    NonEmptyStripped(Split(FullSql(content), ';'))
  }

  /** Every statement is non-empty, stripped, and holds no `;`, even one that stood inside a quoted string. */
  lemma StatementsShape(content: string)
    ensures forall s :: s in SqlStatements(content) ==> s != [] && Stripped(Python, s) && ';' !in s
  {
    var pieces := Split(FullSql(content), ';');
    NonEmptyStrippedExactly(pieces);
    forall s | s in SqlStatements(content)
      ensures ';' !in s
    {
      var i :| 0 <= i < |pieces| && Strip(Python, pieces[i]) == s && s != [];
      StripIsSlice(Python, pieces[i]);
    }
  }

  /**
   * The two splitters part ways on a `;` inside a string: run_migration.py
   * keeps a quoted statement whole, while here no statement can equal it.
   */
  lemma SplittersDisagreeOnQuotedSemicolon(q: char, body: string)
    requires RunMigration.IsQuote(q) && RunMigration.Unquoted(body) && ';' in body
    ensures var text := [q] + body + [q, ';'];
            RunMigration.SplitStatements(text) == [text] && text !in SqlStatements(text)
  {
    var text := [q] + body + [q, ';'];
    assert text[|text| - 1] == ';';
    SemicolonNeverInAStatement(text, text);
    QuotedWholeInRunMigration(q, body);
  }

  lemma SemicolonNeverInAStatement(content: string, t: string)
    requires ';' in t
    ensures t !in SqlStatements(content)
  {
    StatementsShape(content);
  }

  lemma QuotedWholeInRunMigration(q: char, body: string)
    requires RunMigration.IsQuote(q) && RunMigration.Unquoted(body)
    ensures RunMigration.SplitStatements([q] + body + [q, ';']) == [[q] + body + [q, ';']]
  {
    var text := [q] + body + [q, ';'];
    assert RunMigration.Scanned([]) == RunMigration.Start;
    assert [] + text == text;
    RunMigration.QuotedSemicolonKept([], q, body);
    assert RunMigration.SplitStatements([]) + [text] == [text];
  }

  // ---------------------------------------------------------------------
  // Skip checks
  // ---------------------------------------------------------------------

  /** What the loop does with one statement. */
  datatype Decision =
    | Execute
    | Skip
    | Abort   // `sql.split()[2]` raises IndexError, which ends the whole migration with exit status 1

  /** `PRAGMA table_info(t)` column names: none for a table that does not exist. */
  function ColumnsOf(schema: map<string, seq<string>>, table: string): seq<string>
  {
    if table in schema then schema[table] else []
  }

  predicate IsAlter(sql: string)
  {
    StartsWith(Upper(sql), "ALTER TABLE")
  }

  predicate IsCreate(sql: string)
  {
    StartsWith(Upper(sql), "CREATE TABLE")
  }

  /** The two checks of the statement loop, in source order. */
  function Decide(sql: string, schema: map<string, seq<string>>): Decision
  {
    var parts := Words(sql);
    if IsAlter(sql) && |parts| >= 6 && parts[5] in ColumnsOf(schema, parts[2]) then Skip
    else if IsCreate(sql) then
      if |parts| < 3 then Abort
      else if parts[2] in schema then Skip
      else Execute
    else Execute
  }

  lemma AlterIsNotCreate(sql: string)
    ensures !(IsAlter(sql) && IsCreate(sql))
  {
    var upper := Upper(sql);
    if |upper| >= 12 {
      assert upper[..11][0] == upper[0] && upper[..12][0] == upper[0];
    }
  }

  /**
   * A statement is skipped exactly when what it would add is already
   * there: the column (token 5) of the ALTER TABLE's table (token 2), or
   * the CREATE TABLE's table (token 2).
   */
  lemma SkipExactlyWhenPresent(sql: string, schema: map<string, seq<string>>)
    ensures var parts := Words(sql);
            Decide(sql, schema) == Skip <==>
              (IsAlter(sql) && |parts| >= 6 && parts[5] in ColumnsOf(schema, parts[2]))
              || (IsCreate(sql) && |parts| >= 3 && parts[2] in schema)
  {
    AlterIsNotCreate(sql);
  }

  /** Only a CREATE TABLE with fewer than three tokens aborts the run. */
  lemma AbortOnlyOnShortCreate(sql: string, schema: map<string, seq<string>>)
    ensures Decide(sql, schema) == Abort <==> IsCreate(sql) && |Words(sql)| < 3
  {
    AlterIsNotCreate(sql);
  }

  /** Any other statement runs, whatever the schema. */
  lemma OthersAlwaysRun(sql: string, schema: map<string, seq<string>>)
    requires !IsAlter(sql) && !IsCreate(sql)
    ensures Decide(sql, schema) == Execute
  {
  }

  /**
   * Running the migration again is harmless for these two kinds: once the
   * ALTER TABLE's column or the CREATE TABLE's table exists, the statement
   * is skipped.
   */
  lemma RerunSkips(sql: string, schema: map<string, seq<string>>)
    ensures var parts := Words(sql);
            IsAlter(sql) && |parts| >= 6 ==>
              Decide(sql, schema[parts[2] := ColumnsOf(schema, parts[2]) + [parts[5]]]) == Skip
    ensures var parts := Words(sql);
            IsCreate(sql) && |parts| >= 3 ==>
              Decide(sql, schema[parts[2] := []]) == Skip
  {
    var parts := Words(sql);
    if IsAlter(sql) && |parts| >= 6 {
      var after := schema[parts[2] := ColumnsOf(schema, parts[2]) + [parts[5]]];
      assert parts[5] in ColumnsOf(after, parts[2]);
    }
  }
}
