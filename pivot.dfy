/** The crosstab ("pivot") statement builder of Transform.py, lines 38-71.

    `transform` validates the aggregate operator, asks the database for the
    distinct values of the pivot column, emits one CASE-aggregated column per
    value, and closes the statement with a `Total` column grouped and ordered by
    the row headings with their aliases stripped. Here the database is an input:
    `rows` holds the first field of each row the discovery query returns, in the
    order it returns them, and the result names the texts handed to the cursor. */
module Pivot {
  import opened AliasStrip

  /** The operators `transform` accepts (Transform.py, line 45). */
  const Operations: seq<string> :=
    ["SUM", "COUNT", "MAX", "MIN", "AVG", "STDEV", "VAR", "VARP", "STDEVP"]

  predicate IsOperation(op: string) {
    op in Operations
  }

  /** Text spliced before ` END` in every CASE; always empty (Transform.py, line 47). */
  const CaseElse: string := ""

  /** What `transform` hands to the cursor. An illegal operator raises before the
      cursor is used at all; otherwise the discovery query is executed first and
      the generated statement last. */
  datatype Outcome =
    | IllegalOperation
    | Issued(discovery: string, statement: string)

  /** The pivot column for one discovered value (Transform.py, lines 62-65). The
      empty string stands for the NULL bucket; any other value is inserted
      verbatim, unescaped, both as the compared literal and as the label. */
  function Fragment(op: string, col: string, arg: string, v: string): string {
    if v == "" then
      op + "(CASE WHEN " + col + " is null THEN " + arg + CaseElse + " END) AS [NULL]"
    else
      op + "(CASE " + col + " WHEN '" + v + "' THEN " + arg + CaseElse + " END) as '" + v + "'"
  }

  /** The pivot columns for `rows`, one per row and in the same order. */
  function Columns(op: string, col: string, arg: string, rows: seq<string>): seq<string> {
    seq(|rows|, i requires 0 <= i < |rows| => Fragment(op, col, arg, rows[i]))
  }

  /** Every part followed by `, `, as the loop at Transform.py, lines 61-67,
      accumulates them. */
  function Separated(parts: seq<string>): string
    decreases |parts|
  {
    if parts == [] then "" else Separated(parts[..|parts| - 1]) + parts[|parts| - 1] + ", "
  }

  /** The text the loop adds to the SELECT list for `rows`. */
  function PivotList(op: string, col: string, arg: string, rows: seq<string>): string {
    Separated(Columns(op, col, arg, rows))
  }

  /** The statement `transform` executes last (Transform.py, lines 51, 61-69). */
  function Statement(op: string, arg: string, base: string, rowHeadings: string, col: string,
                     rows: seq<string>): string
  {
    "SELECT " + rowHeadings + ", " + PivotList(op, col, arg, rows)
      + TotalClause(op, arg, base, StripAliases(rowHeadings))
  }

  /** The closing `Total` column with its FROM, GROUP BY and ORDER BY (Transform.py, line 69). */
  function TotalClause(op: string, arg: string, base: string, groupBy: string): string {
    op + "(" + arg + ") as Total FROM " + base + " GROUP BY " + groupBy + " ORDER BY " + groupBy
  }

  /** `transform(curs, Operation, Op_Argument, Base_Data_SQL, Row_Headings,
      Column_Heading)`, with `rows` standing for what `curs.fetchall()` returns
      after the discovery query. */
  method Transform(op: string, arg: string, base: string, rowHeadings: string, col: string,
                   rows: seq<string>) returns (r: Outcome)
    ensures r.IllegalOperation? <==> !IsOperation(op)
    ensures r.Issued? ==> r.discovery == "SELECT DISTINCT " + col + " from " + base + " order by " + col
    ensures r.Issued? ==> r.statement == Statement(op, arg, base, rowHeadings, col, rows)
  {
    if op !in Operations {
      return IllegalOperation;
    }
    var discovery := "SELECT DISTINCT " + col + " from " + base + " order by " + col;
    var sql := BuildStatement(op, arg, base, rowHeadings, col, rows);
    return Issued(discovery, sql);
  }

  /** The string building of `transform` once the operator is accepted: the
      SELECT list is started, one pivot column and separator is appended per
      discovered row, and the `Total` column, GROUP BY and ORDER BY close it. */
  method BuildStatement(op: string, arg: string, base: string, rowHeadings: string, col: string,
                        rows: seq<string>) returns (sql: string)
    ensures sql == Statement(op, arg, base, rowHeadings, col, rows)
  {
    sql := "SELECT " + rowHeadings + ", ";
    for i := 0 to |rows|
      invariant sql == "SELECT " + rowHeadings + ", " + PivotList(op, col, arg, rows[..i])
    {
      var pivot := Fragment(op, col, arg, rows[i]);
      ghost var done := Columns(op, col, arg, rows[..i + 1]);
      assert done[..i] == Columns(op, col, arg, rows[..i]) && done[i] == pivot;
      sql := sql + pivot + ", ";
    }
    assert rows[..|rows|] == rows;
    var groupBy := StripAliases(rowHeadings);
    sql := sql + TotalClause(op, arg, base, groupBy);
  }

  // ---------------------------------------------------------------------------
  // Properties of the generated statement

  lemma {:induction false} SeparatedConcat(a: seq<string>, b: seq<string>)
    ensures Separated(a + b) == Separated(a) + Separated(b)
    decreases |b|
  {
    if b == [] {
      assert a + b == a;
    } else {
      var b' := b[..|b| - 1];
      assert (a + b)[..|a + b| - 1] == a + b';
      assert (a + b)[|a + b| - 1] == b[|b| - 1];
      SeparatedConcat(a, b');
    }
  }

  /** The pivot columns of `a + b` are those of `a` followed by those of `b`. */
  lemma PivotListConcat(op: string, col: string, arg: string, a: seq<string>, b: seq<string>)
    ensures PivotList(op, col, arg, a + b) == PivotList(op, col, arg, a) + PivotList(op, col, arg, b)
  {
    assert Columns(op, col, arg, a + b) == Columns(op, col, arg, a) + Columns(op, col, arg, b);
    SeparatedConcat(Columns(op, col, arg, a), Columns(op, col, arg, b));
  }

  /** Exactly one column per discovered value, in the order of the rows: the
      column of row `i` sits after the columns of the rows before it and before
      those of the rows after it, followed by its separator. */
  lemma PivotListSlot(op: string, col: string, arg: string, rows: seq<string>, i: nat)
    requires i < |rows|
    ensures PivotList(op, col, arg, rows)
         == PivotList(op, col, arg, rows[..i]) + Fragment(op, col, arg, rows[i]) + ", "
            + PivotList(op, col, arg, rows[i + 1..])
  {
    assert rows == rows[..i] + [rows[i]] + rows[i + 1..];
    PivotListConcat(op, col, arg, rows[..i] + [rows[i]], rows[i + 1..]);
    PivotListConcat(op, col, arg, rows[..i], [rows[i]]);
    var one := Columns(op, col, arg, [rows[i]]);
    assert one == [Fragment(op, col, arg, rows[i])] && one[..0] == [];
    assert Separated(one) == Separated([]) + Fragment(op, col, arg, rows[i]) + ", ";
  }

  /** Distinct discovered values give distinct columns; in particular the NULL
      bucket's column is never produced for a non-empty value. */
  lemma FragmentInjective(op: string, col: string, arg: string, v: string, w: string)
    requires Fragment(op, col, arg, v) == Fragment(op, col, arg, w)
    ensures v == w
  {
    var f := Fragment(op, col, arg, v);
    FragmentLastChar(op, col, arg, v);
    FragmentLastChar(op, col, arg, w);
    if v != "" && w != "" {
      var pre := op + "(CASE " + col + " WHEN '";
      assert |v| == |w|;
      assert f[|pre|..|pre| + |v|] == v;
      assert Fragment(op, col, arg, w)[|pre|..|pre| + |w|] == w;
    }
  }

  /** The column labelled `[NULL]` is the one, and the only one, for the empty value. */
  lemma NullBucketIff(op: string, col: string, arg: string, v: string)
    ensures EndsWith(Fragment(op, col, arg, v), " AS [NULL]") <==> v == ""
  {
    FragmentLastChar(op, col, arg, v);
  }

  /** A NULL-bucket column ends in `]`, every other column in a quote. */
  lemma FragmentLastChar(op: string, col: string, arg: string, v: string)
    ensures var f := Fragment(op, col, arg, v);
      |f| > 0 && f[|f| - 1] == if v == "" then ']' else '\''
  {
  }

  /** The statement opens with the row headings as given and closes with the
      `Total` column, FROM, GROUP BY and ORDER BY, where the grouping and the
      ordering use the same alias-stripped headings. */
  lemma StatementLayout(op: string, arg: string, base: string, rowHeadings: string, col: string,
                        rows: seq<string>)
    ensures var stmt, g := Statement(op, arg, base, rowHeadings, col, rows), StripAliases(rowHeadings);
      StartsWith(stmt, "SELECT " + rowHeadings + ", ") &&
      EndsWith(stmt, op + "(" + arg + ") as Total FROM " + base + " GROUP BY " + g + " ORDER BY " + g)
  {
  }

  /** With no discovered values the SELECT list is the row headings and the
      `Total` column only. */
  lemma StatementWithoutRows(op: string, arg: string, base: string, rowHeadings: string, col: string)
    ensures var g := StripAliases(rowHeadings);
      Statement(op, arg, base, rowHeadings, col, [])
        == "SELECT " + rowHeadings + ", " + op + "(" + arg + ") as Total FROM " + base
           + " GROUP BY " + g + " ORDER BY " + g
  {
  }

  /** The documented call `transform('SUM', '[amt]', 'mediaSales', '[year]',
      '[type]')` over a database whose distinct types are CD, Tape and Vinyl. */
  lemma ExampleMediaSales(rows: seq<string>)
    requires rows == ["CD", "Tape", "Vinyl"]
    ensures Statement("SUM", "[amt]", "mediaSales", "[year]", "[type]", rows)
         == "SELECT [year], "
            + ("SUM(CASE [type] WHEN '" + "CD" + "' THEN [amt] END) as '" + "CD" + "'") + ", "
            + ("SUM(CASE [type] WHEN '" + "Tape" + "' THEN [amt] END) as '" + "Tape" + "'") + ", "
            + ("SUM(CASE [type] WHEN '" + "Vinyl" + "' THEN [amt] END) as '" + "Vinyl" + "'") + ", "
            + "SUM([amt]) as Total FROM mediaSales GROUP BY [year] ORDER BY [year]"
  {
    StatementOfThreeRows("SUM", "[amt]", "mediaSales", "[year]", "[type]", "CD", "Tape", "Vinyl");
    ExampleYearHeading("[year]");
    ExampleMediaColumn("CD");
    ExampleMediaColumn("Tape");
    ExampleMediaColumn("Vinyl");
    ExampleMediaTotal();
    assert "SELECT " + "[year]" + ", " == "SELECT [year], ";
  }

  /** The statement for three discovered values, with the pivot list unfolded. */
  lemma StatementOfThreeRows(op: string, arg: string, base: string, rowHeadings: string, col: string,
                             a: string, b: string, c: string)
    ensures Statement(op, arg, base, rowHeadings, col, [a, b, c])
         == "SELECT " + rowHeadings + ", "
            + Fragment(op, col, arg, a) + ", " + Fragment(op, col, arg, b) + ", "
            + Fragment(op, col, arg, c) + ", " + TotalClause(op, arg, base, StripAliases(rowHeadings))
  {
    var cols := Columns(op, col, arg, [a, b, c]);
    assert cols == [Fragment(op, col, arg, a), Fragment(op, col, arg, b), Fragment(op, col, arg, c)];
    assert cols[..2][..1] == cols[..1] && cols[..1][..0] == [];
    var f, g, h := cols[0], cols[1], cols[2];
    assert Separated(cols[..1]) == f + ", ";
    assert Separated(cols[..2]) == f + ", " + g + ", ";
    assert Separated(cols) == f + ", " + g + ", " + h + ", ";
  }

  /** The column of the documented call for one non-empty type `v`. */
  lemma ExampleMediaColumn(v: string)
    requires v != ""
    ensures Fragment("SUM", "[type]", "[amt]", v) == "SUM(CASE [type] WHEN '" + v + "' THEN [amt] END) as '" + v + "'"
  {
    assert "SUM" + "(CASE " + "[type]" + " WHEN '" == "SUM(CASE [type] WHEN '";
    assert "' THEN " + "[amt]" + CaseElse + " END) as '" == "' THEN [amt] END) as '";
  }

  /** The closing clause of the documented call. */
  lemma ExampleMediaTotal()
    ensures TotalClause("SUM", "[amt]", "mediaSales", "[year]")
         == "SUM([amt]) as Total FROM mediaSales GROUP BY [year] ORDER BY [year]"
  {
    assert "SUM" + "(" + "[amt]" + ") as Total FROM " == "SUM([amt]) as Total FROM ";
    assert "SUM([amt]) as Total FROM " + "mediaSales" == "SUM([amt]) as Total FROM mediaSales";
    assert "SUM([amt]) as Total FROM mediaSales" + " GROUP BY " + "[year]"
        == "SUM([amt]) as Total FROM mediaSales GROUP BY [year]";
    assert " ORDER BY " + "[year]" == " ORDER BY [year]";
  }

  /** The documented row heading carries no alias, so it groups by itself. */
  lemma ExampleYearHeading(s: string)
    requires s == "[year]"
    ensures StripAliases(s) == s
  {
    forall p: nat | p < |s| ensures !AliasStart(s, p) {
      AliasStartChars(s, p);
    }
    StripSegmentWithoutAlias(s);
  }

  predicate StartsWith(s: string, prefix: string) {
    |prefix| <= |s| && s[..|prefix|] == prefix
  }

  predicate EndsWith(s: string, suffix: string) {
    |suffix| <= |s| && s[|s| - |suffix|..] == suffix
  }
}
