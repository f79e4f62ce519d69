# Pivot: a verified model of the MySQL crosstab statement builder

`transform` in `Transform.py` builds a crosstab ("pivot") SELECT statement by
concatenating strings. It takes an aggregate operator, the column to aggregate,
a base table or subquery, the row headings and the pivot column. It rejects
any operator outside a fixed list of nine. It then asks the database for the
distinct values of the pivot column and emits one `CASE` column per value. The
empty value is treated as the NULL bucket. A `Total` column closes the SELECT
list, followed by GROUP BY and ORDER BY over the row headings with their
`as <alias>` parts removed by a regular-expression substitution.

The model has two modules:

- `AliasStrip` (`alias_strip.dfy`) models the one substitution
  `sub(r'as [^,\n\r]+(,|$)', r'\1', Row_Headings)` as a pure string function,
  `StripAliases`. It follows the pattern exactly for every input, including
  line breaks: `[^,\n\r]` refuses three characters, and Python's `$` also
  matches just before a newline that ends the string. It then proves the
  function's guarantees and a segment-by-segment reference meaning.
- `Pivot` (`pivot.dfy`) models the fragments, the statement they form, and
  `transform` itself. `Transform` is a method that checks the operator and
  then calls `BuildStatement`. `BuildStatement` is the accumulating loop,
  proved against the function `Statement`.

The database is an input. `rows` is the first field of each row that the
discovery query returns, in the order it returns them. The result of
`Transform` is an `Outcome`: `IllegalOperation`, where the source raises
before the cursor is used, or `Issued(discovery, statement)`, the two texts
the source hands to `curs.execute`, in that order. The postconditions of
`Transform` fix its outcome completely, so identical inputs give identical
text.

Two behaviours of the code that are easy to misread:

- The substitution at Transform.py:68 is case-sensitive and matches only
  lower-case `as `, so an upper-case `AS` alias is kept: `"[year] AS [Y]"` is
  unchanged (`ExampleUpperCase`). The pattern starts at `as`, so the space
  before it is kept: `"[year] as [Y]"` becomes `"[year] "` (`ExampleOneHeading`).
- With no discovered values, the statement has exactly one `", "` after the
  row headings, followed at once by the `Total` column (`StatementWithoutRows`).

## Model

| member | source | states |
|---|---|---|
| `Pivot.IsOperation` | Transform.py:45 | Holds exactly for the nine operator names of the constant `Operations`: SUM, COUNT, MAX, MIN, AVG, STDEV, VAR, VARP, STDEVP. Names are compared exactly, so case matters. |
| `Pivot.Fragment` | Transform.py:47-65 | The pivot column for one value. The empty value gives `op + "(CASE WHEN " + col + " is null THEN " + arg + " END) AS [NULL]"`. Any other `v` gives `op + "(CASE " + col + " WHEN '" + v + "' THEN " + arg + " END) as '" + v + "'"`, with `v` inserted unescaped. The constant `CaseElse` is the empty text of line 47 placed before ` END`. |
| `Pivot.Columns` | Transform.py:61-65 | One fragment per discovered row, in the order of the rows. |
| `Pivot.Separated` | Transform.py:67 | Each text followed by `", "`, concatenated in order. |
| `Pivot.PivotList` | Transform.py:61-67 | The text the loop adds to the SELECT list: the separated fragments of the rows. |
| `Pivot.TotalClause` | Transform.py:69 | `op + "(" + arg + ") as Total FROM " + base + " GROUP BY " + g + " ORDER BY " + g`. |
| `Pivot.Statement` | Transform.py:51-69 | `"SELECT " + rowHeadings + ", "`, then the pivot list of the rows, then the `Total` clause with `g` being the row headings after the alias substitution. |
| `Pivot.Transform` | Transform.py:38-71 | The outcome is `IllegalOperation` exactly when the operator is not one of SUM, COUNT, MAX, MIN, AVG, STDEV, VAR, VARP, STDEVP. In that case no query is issued. Otherwise the discovery query is exactly `"SELECT DISTINCT " + col + " from " + base + " order by " + col` and the statement is `Statement(...)` of the discovered rows. |
| `Pivot.BuildStatement` | Transform.py:51-69 | The loop that appends one fragment and `", "` per row produces exactly `Statement(...)`. The invariant is that after `i` rows the text is `"SELECT " + rowHeadings + ", "` followed by the pivot list of the first `i` rows. |
| `Pivot.PivotListConcat` | Transform.py:61-67 | The pivot list of `a + b` is the pivot list of `a` followed by that of `b`, so fragments keep the order of the rows. |
| `Pivot.PivotListSlot` | Transform.py:61-67 | Each row `i` contributes exactly one fragment plus `", "`. It sits after the text for rows `0..i-1` and before the text for the later rows. |
| `Pivot.FragmentInjective` | Transform.py:62-65 | Two values give the same fragment only if they are equal. So distinct discovered values give distinct columns, and a non-empty value never gives the NULL-bucket column. |
| `Pivot.NullBucketIff` | Transform.py:62-63 | A fragment ends in `" AS [NULL]"` if and only if the value is the empty string. |
| `Pivot.FragmentLastChar` | Transform.py:62-65 | A NULL-bucket fragment ends in `]`. Any other fragment ends in the quote that closes its verbatim label. |
| `Pivot.StatementLayout` | Transform.py:51-69 | The statement begins with `"SELECT " + rowHeadings + ", "`. It ends with `op + "(" + arg + ") as Total FROM " + base + " GROUP BY " + g + " ORDER BY " + g`, with the same alias-stripped `g` in both clauses. |
| `Pivot.StatementWithoutRows` | Transform.py:51-69 | With no discovered values the statement is exactly the row headings, one `", "` and the `Total` clause. |
| `Pivot.ExampleMediaSales` | Transform.py:34 | The documented call `transform('SUM', '[amt]', 'mediaSales', '[year]', '[type]')` over the values CD, Tape, Vinyl gives three `SUM(CASE [type] WHEN '<v>' THEN [amt] END) as '<v>'` columns in that order. Then comes `SUM([amt]) as Total FROM mediaSales GROUP BY [year] ORDER BY [year]`. |
| `AliasStrip.StripAliases` | Transform.py:68 | The `sub` call of line 68, scanning left to right for non-overlapping matches. A match ending on a comma is replaced by that comma and scanning continues after it. A match ending at `$` is replaced by nothing, and only a final newline, if any, remains. Elsewhere characters are copied. |
| `AliasStrip.StartsAlias` | Transform.py:68 | The text begins with `as ` and then one character other than `,`, `\n` or `\r`. |
| `AliasStrip.RunEnd` | Transform.py:68 | The end of the greedy run `[^,\n\r]+` of a match at the head of the text. It lies after the fourth character. |
| `AliasStrip.MatchesHere` | Transform.py:68 | The whole pattern matches at the head. After the greedy run comes a comma, the end of the text, or a newline that is the last character, which Python's `$` also accepts. |
| `AliasStrip.StripIsSubsequence` | Transform.py:68 | The result is the headings with some characters deleted and the rest kept in their original order. |
| `AliasStrip.Skip` | Transform.py:68 | The greedy scan of `[^,\n\r]+`. It returns the first index at or after `i` whose character stops the run, or the string's length, and no character before it stops. |
| `AliasStrip.StripNeverLonger` | Transform.py:68 | The substitution never makes the headings longer. |
| `AliasStrip.StripShortensOnMatch` | Transform.py:68 | If the pattern matches at some position, the result is strictly shorter. |
| `AliasStrip.StripUnchangedWithoutMatch` | Transform.py:68 | If the pattern matches nowhere, the headings come back unchanged. |
| `AliasStrip.StripFixedIff` | Transform.py:68 | The headings are left unchanged if and only if the pattern matches at no position. |
| `AliasStrip.StripWithoutAs` | Transform.py:68 | Headings that contain no `"as "` are returned unchanged. |
| `AliasStrip.StripKeepsCommas` | Transform.py:68 | The number of commas is preserved, because `\1` puts back the comma a match ended on. |
| `AliasStrip.StripOnlyDeletes` | Transform.py:68 | The result's multiset of characters is contained in the input's: no character is added and none is repeated. |
| `AliasStrip.FirstAlias` | Transform.py:68 | The first position at or after `i` where `"as "` starts and is followed by a non-comma character, or the length if there is none. No earlier position qualifies. |
| `AliasStrip.StripSegment` | Transform.py:68 | On a comma-free segment without line breaks, the substitution cuts the text at the first alias start, or leaves it whole if there is none. |
| `AliasStrip.StripSegmentAt` | Transform.py:68 | If `p` is the first alias start of such a segment, the result is the segment's first `p` characters, including the space before `as`. |
| `AliasStrip.StripAtComma` | Transform.py:68 | A comma splits the work. The segment before it and the text after it are stripped independently, and the comma is kept. |
| `AliasStrip.StripPerSegment` | Transform.py:68 | For headings without line breaks, the result is the comma-separated segments, each cut at its first alias, joined by the same commas. |
| `AliasStrip.StripIdempotent` | Transform.py:68 | For headings without line breaks, stripping twice gives the same as stripping once. |
| `AliasStrip.ExampleTwoHeadings` | Transform.py:68 | `"[year] as [Y], [type]"` becomes `"[year] , [type]"`. |
| `AliasStrip.ExampleOneHeading` | Transform.py:68 | `"[year] as [Y]"` becomes `"[year] "`. |
| `AliasStrip.ExamplePlainHeading` | Transform.py:68 | `" [type]"`, which has no alias, is unchanged. |
| `AliasStrip.ExampleUpperCase` | Transform.py:68 | `"[year] AS [Y]"` is unchanged, because matching is case-sensitive. |
| `AliasStrip.ExampleTrailingAs` | Transform.py:68 | `"[year] as "` is unchanged, because a trailing `as ` with nothing after it is not matched. |

## Left out

- Database I/O through `curs.execute` and `curs.fetchall` (Transform.py:57-58, 71) is not modelled. The discovered values are a parameter. The model returns the statement text instead of executing it, so the value that the final `curs.execute(SQL)` returns is not modelled.
- `print SQL` (Transform.py:70) is not modelled. It is a console side effect with no bearing on the result.
- `raise "illegal operation error"` (Transform.py:45) is a Python 2 string exception. It is modelled as the `IllegalOperation` outcome, not as exception mechanics.
- Non-string values from the database are not modelled. A `None` or a number in `row[0]` would make the concatenation at Transform.py:65 fail, so `rows` holds strings only.
- No general regular-expression engine is modelled. Only the one pattern at Transform.py:68 is written out.
- Whether the generated text is valid SQL, and what the query computes, are outside the model. So is the injection risk of inserting values verbatim. The model states the verbatim insertion, but does not reason about quoting.
- The example SQL in the header comment (Transform.py:26-32) is not modelled. It uses a `Pivot_Data` subquery and `'1'`, `'2'`, `'3'` literals that the code never produces.
- AliasStrip.StripPerSegment: stated only for headings without line breaks. With a newline or carriage return, `$` and `[^,\n\r]` make the substitution depend on more than the comma segments. `StripAliases` itself models those cases exactly.
- AliasStrip.StripIdempotent: stated only for headings without line breaks. With them, idempotence fails: `"as x\nas y"` strips to `"as x\n"`, and stripping that again gives `"\n"`.
