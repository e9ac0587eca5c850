/**
 * How a result set is printed: the display width of each column and the
 * three row renderers (CSV, fixed width, XML) of `odbcshell-odbc.c`.
 *
 * The driver is an input: a column is what `SQLDescribeCol` reported, and a
 * row is the sequence of what `SQLGetData` delivered for each column. The
 * text is what the renderers write, exactly as they write it: CSV fields
 * are wrapped in quotes without doubling the quotes inside them, and XML
 * character data is not escaped.
 */
module Render {
  import opened Text

  // SQL type codes, as the ODBC headers number them.
  const SQL_CHAR := 1
  const SQL_NUMERIC := 2
  const SQL_DECIMAL := 3
  const SQL_INTEGER := 4
  const SQL_SMALLINT := 5
  const SQL_FLOAT := 6
  const SQL_REAL := 7
  const SQL_DOUBLE := 8
  const SQL_DATE := 9
  const SQL_TIME := 10
  const SQL_TIMESTAMP := 11
  const SQL_VARCHAR := 12
  const SQL_TYPE_DATE := 91
  const SQL_TYPE_TIME := 92
  const SQL_TYPE_TIMESTAMP := 93
  const SQL_LONGVARCHAR := -1
  const SQL_BINARY := -2
  const SQL_LONGVARBINARY := -4
  const SQL_BIGINT := -5
  const SQL_TINYINT := -6
  const SQL_BIT := -7
  const SQL_WCHAR := -8
  const SQL_WVARCHAR := -9
  const SQL_WLONGVARCHAR := -10
  const SQL_GUID := -11

  /** The widest a column is ever shown. */
  const MaxWidth := 1023

  /** What `SQLDescribeCol` reports about one column; `name` is the name buffer it fills. */
  datatype Column = Column(name: string, sqlType: int, precision: nat, scale: int)

  /** The column's name as `strlen` measures it and `%s` prints it: the name buffer up to its first NUL. */
  function ColName(c: Column): string
  {
    CString(c.name)
  }

  /** The width the type alone asks for; `None` for a type the switch does not list. */
  function BaseWidth(sqlType: int, precision: nat, scale: int): Option<nat>
  {
    if sqlType in {SQL_VARCHAR, SQL_CHAR, SQL_WVARCHAR, SQL_WCHAR, SQL_GUID} then Some(precision)
    else if sqlType == SQL_BINARY then Some(precision * 2)
    else if sqlType in {SQL_LONGVARCHAR, SQL_WLONGVARCHAR, SQL_LONGVARBINARY} then Some(30)
    else if sqlType == SQL_BIT then Some(1)
    else if sqlType in {SQL_TINYINT, SQL_SMALLINT, SQL_INTEGER, SQL_BIGINT} then Some(precision + 1)
    else if sqlType in {SQL_DOUBLE, SQL_DECIMAL, SQL_NUMERIC, SQL_FLOAT, SQL_REAL} then Some(precision + 2)
    else if sqlType in {SQL_TYPE_DATE, SQL_DATE} then Some(10)
    else if sqlType in {SQL_TYPE_TIME, SQL_TIME} then Some(8)
    else if sqlType in {SQL_TYPE_TIMESTAMP, SQL_TIMESTAMP} then Some(if scale > 0 then 19 + scale + 1 else 19)
    else None
  }

  /**
   * The width switch of `odbcshell_odbc_result`: the type's width, raised
   * to the length of the column name and then capped at 1023; a type the
   * switch does not list gets 0 and skips both adjustments.
   */
  function Width(c: Column): nat
  {
    match BaseWidth(c.sqlType, c.precision, c.scale)
    case None => 0
    case Some(base) =>
      var raised := if base < |ColName(c)| then |ColName(c)| else base;
      if raised > MaxWidth then MaxWidth else raised
  }

  /** The width is the larger of the type's width and the name's length, capped at 1023; unknown types get 0. */
  lemma WidthPolicy(c: Column)
    ensures BaseWidth(c.sqlType, c.precision, c.scale).None? ==> Width(c) == 0
    ensures BaseWidth(c.sqlType, c.precision, c.scale).Some? ==>
              var base := BaseWidth(c.sqlType, c.precision, c.scale).value;
              Width(c) <= MaxWidth &&
              (Width(c) == MaxWidth || (Width(c) >= base && Width(c) >= |ColName(c)|)) &&
              (Width(c) == base || Width(c) == |ColName(c)| || Width(c) == MaxWidth) &&
              (Width(c) == MaxWidth ==> base >= MaxWidth || |ColName(c)| >= MaxWidth)
  {
  }

  /** The width of a listed type for a column whose name buffer holds no NUL. */
  lemma WidthOf(c: Column, base: nat)
    requires BaseWidth(c.sqlType, c.precision, c.scale) == Some(base)
    requires forall k :: 0 <= k < |c.name| ==> c.name[k] != '\0'
    ensures Width(c) == var raised := if base < |c.name| then |c.name| else base;
                        if raised > MaxWidth then MaxWidth else raised
  {
    CStringWhole(c.name);
  }

  /** A type the switch does not list (`SQL_VARBINARY`) gets width 0, whatever its precision and name. */
  lemma UnlistedWidthExample()
    ensures Width(Column("photo", -3, 100, 0)) == 0
  {
  }

  /** Width table: an integer column of precision 10 is one wider, for the sign. */
  lemma IntegerWidthExample()
    ensures Width(Column("id", SQL_INTEGER, 10, 0)) == 11
  {
    WidthOf(Column("id", SQL_INTEGER, 10, 0), 11);
  }

  /** Width table: a bit column is raised from 1 to the length of its name. */
  lemma BitWidthExample()
    ensures Width(Column("flag", SQL_BIT, 1, 0)) == 4
  {
    WidthOf(Column("flag", SQL_BIT, 1, 0), 1);
  }

  /** Width table: a timestamp with 3 fractional digits is 19 + 3 + 1 wide. */
  lemma TimestampWidthExample()
    ensures Width(Column("created", SQL_TYPE_TIMESTAMP, 0, 3)) == 23
  {
    WidthOf(Column("created", SQL_TYPE_TIMESTAMP, 0, 3), 23);
  }

  /** Width table: a binary column of precision 600 would be 1200 wide and is capped. */
  lemma BinaryWidthExample()
    ensures Width(Column("blob", SQL_BINARY, 600, 0)) == MaxWidth
  {
    WidthOf(Column("blob", SQL_BINARY, 600, 0), 1200);
  }

  /** What `SQLGetData` delivered for one cell: text, SQL NULL, or a failure. */
  datatype Cell = Text(s: string) | Null | Unreadable

  /**
   * The cell as `%s` prints it from `buff[1024]`: NULL prints as empty; text
   * prints up to its first NUL, and at most the 1023 characters that fit.
   */
  function CellText(c: Cell): (t: string)
    ensures |t| <= 1023
    ensures !c.Text? ==> t == []
  {
    match c
    case Text(s) =>
      var v := CString(s);
      if |v| <= 1023 then v else v[..1023]
    case Null => []
    case Unreadable => []
  }

  /**
   * What is printed of a text cell is how it starts, holds no NUL, and stops
   * only at the 1023rd character, at the end or at a NUL; text without a NUL
   * that fits prints unchanged.
   */
  lemma CellTextShown(c: Cell)
    requires c.Text?
    ensures var t := CellText(c);
            |t| <= |c.s| && t == c.s[..|t|] && (forall k :: 0 <= k < |t| ==> t[k] != '\0') &&
            (|t| == 1023 || |t| == |c.s| || c.s[|t|] == '\0')
    ensures |c.s| <= 1023 && (forall k :: 0 <= k < |c.s| ==> c.s[k] != '\0') ==> CellText(c) == c.s
  {
    var v := CString(c.s);
    CStringNoNul(c.s);
    if |v| > 1023 {
      assert v[..1023] == c.s[..1023];
    }
  }

  /** `printf("%-*.*s", w, w, s)`: the first `w` characters of `s`, padded with spaces to exactly `w`. */
  function Pad(s: string, w: nat): string
  {
    if |s| >= w then s[..w] else s + Repeat(' ', w - |s|)
  }

  lemma PadShape(s: string, w: nat)
    ensures |Pad(s, w)| == w
    ensures forall i :: 0 <= i < w && i < |s| ==> Pad(s, w)[i] == s[i]
    ensures forall i :: |s| <= i < w ==> Pad(s, w)[i] == ' '
  {
  }

  /** What `if (i < n - 1) emit(sep);` adds after item `i` of `n`. */
  function Sep(i: nat, n: nat, sep: string): string
  {
    if i + 1 < n then sep else []
  }

  /**
   * The text `for (i = 0; i < k; i++) { emit(parts[i]); if (i < n - 1) emit(sep); }`
   * writes, `n` being the number of parts.
   */
  function Emitted(parts: seq<string>, sep: string, k: nat): string
    requires k <= |parts|
  {
    if k == 0 then [] else Emitted(parts, sep, k - 1) + parts[k - 1] + Sep(k - 1, |parts|, sep)
  }

  lemma {:induction false} JoinSnoc(parts: seq<string>, x: string, sep: string)
    requires |parts| > 0
    ensures Join(parts + [x], sep) == Join(parts, sep) + sep + x
  {
    if |parts| > 1 {
      assert (parts + [x])[1..] == parts[1..] + [x];
      JoinSnoc(parts[1..], x, sep);
    } else {
      assert (parts + [x])[1..] == [x];
    }
  }

  lemma {:induction false} EmittedPrefix(parts: seq<string>, sep: string, k: nat)
    requires 0 < k <= |parts|
    ensures Emitted(parts, sep, k) == Join(parts[..k], sep) + Sep(k - 1, |parts|, sep)
  {
    if k == 1 {
      assert Emitted(parts, sep, 0) == [];
      assert parts[..1] == [parts[0]];
    } else {
      EmittedPrefix(parts, sep, k - 1);
      assert parts[..k] == parts[..k - 1] + [parts[k - 1]];
      JoinSnoc(parts[..k - 1], parts[k - 1], sep);
    }
  }

  /** The loop puts a separator between neighbouring items and none after the last one. */
  lemma EmittedIsJoin(parts: seq<string>, sep: string)
    ensures Emitted(parts, sep, |parts|) == Join(parts, sep)
  {
    if |parts| > 0 {
      EmittedPrefix(parts, sep, |parts|);
      assert parts[..|parts|] == parts;
    }
  }

  /** `ODBCSHELL_FORMAT_*`; `Unset` is any other value, for which nothing is rendered. */
  datatype Format = Fixed | Csv | Xml | Unset

  /** The text for one cell (of `n`) before its separator. */
  function Field(f: Format, col: Column, width: nat, text: string): string
  {
    match f
    case Csv => "\"" + text + "\""
    case Fixed => Pad(text, width)
    case Xml => "\t\t<" + ColName(col) + ">" + text + "</" + ColName(col) + ">\n"
    case Unset => []
  }

  /** What goes between two fields of a row. */
  function Separator(f: Format): string
  {
    match f
    case Csv => ","
    case Fixed => "|"
    case _ => []
  }

  function RowOpen(f: Format): string
  {
    if f == Xml then "\t<row>\n" else []
  }

  function RowClose(f: Format): string
  {
    if f == Xml then "\t</row>\n" else "\n"
  }

  /** The field a cell of column `col` prints as. */
  function CellField(f: Format, col: Column, c: Cell): string
  {
    Field(f, col, Width(col), CellText(c))
  }

  /** The fields of a row in column order (an unreadable cell's field is never printed). */
  function Fields(f: Format, cols: seq<Column>, row: seq<Cell>): (fs: seq<string>)
    requires |row| == |cols|
    ensures |fs| == |cols|
  {
    seq(|cols|, k requires 0 <= k < |cols| => CellField(f, cols[k], row[k]))
  }

  /** The index of the first cell `SQLGetData` failed on, or the row's length. */
  function FirstUnreadable(row: seq<Cell>): (j: nat)
    ensures j <= |row|
    ensures forall k :: 0 <= k < j ==> !row[k].Unreadable?
    ensures j < |row| ==> row[j].Unreadable?
  {
    if |row| == 0 || row[0].Unreadable? then 0 else 1 + FirstUnreadable(row[1..])
  }

  /** What fetching one row adds to the output, and whether the row was finished. */
  datatype RowOut = RowOut(done: bool, text: string)

  function RenderRow(f: Format, cols: seq<Column>, row: seq<Cell>): RowOut
    requires |row| == |cols|
  {
    var j := FirstUnreadable(row);
    if j < |row| then RowOut(false, RowOpen(f) + Emitted(Fields(f, cols, row), Separator(f), j))
    else RowOut(true, RowOpen(f) + Emitted(Fields(f, cols, row), Separator(f), |row|) + RowClose(f))
  }

  /** A row `SQLGetData` read in full is its fields joined by the separator, then the row's end. */
  lemma RowIsJoin(f: Format, cols: seq<Column>, row: seq<Cell>)
    requires |row| == |cols| && forall k :: 0 <= k < |row| ==> !row[k].Unreadable?
    ensures RenderRow(f, cols, row) ==
              RowOut(true, RowOpen(f) + Join(Fields(f, cols, row), Separator(f)) + RowClose(f))
  {
    EmittedIsJoin(Fields(f, cols, row), Separator(f));
  }

  /** A CSV field is the cell's text between two quotes, unchanged: quotes inside it are not doubled. */
  lemma CsvFieldVerbatim(col: Column, c: Cell)
    ensures var t := CellText(c); var fd := Field(Csv, col, Width(col), t);
            |fd| == |t| + 2 && fd[0] == '"' && fd[1..|t| + 1] == t && fd[|t| + 1] == '"'
  {
  }

  /** An XML element carries the cell's text unchanged: `<` and `&` are not escaped. */
  lemma XmlFieldVerbatim(col: Column, c: Cell)
    ensures var t := CellText(c); var fd := Field(Xml, col, Width(col), t);
            var at := |ColName(col)| + 4;
            at + |t| <= |fd| && fd[..at] == "\t\t<" + ColName(col) + ">" && fd[at..at + |t|] == t &&
            fd[at + |t|..] == "</" + ColName(col) + ">\n"
  {
    var t := CellText(c);
    var open, close := "\t\t<" + ColName(col) + ">", "</" + ColName(col) + ">\n";
    var fd := Field(Xml, col, Width(col), t);
    assert fd == open + t + close;
    assert (open + t + close)[..|open| + |t|] == open + t;
    assert (open + t)[|open|..] == t;
    assert (open + t)[..|open|] == open;
    assert (open + t + close)[|open| + |t|..] == close;
  }

  /** A fixed-width field is exactly as wide as its column, however long the text. */
  lemma FixedFieldWidth(col: Column, c: Cell)
    ensures |Field(Fixed, col, Width(col), CellText(c))| == Width(col)
  {
    PadShape(CellText(c), Width(col));
  }

  /** What a renderer's fetch loop returns, wrote and counted in `*row_countp`. */
  datatype Fetched = Fetched(code: int, out: string, rows: nat)

  /**
   * The fetch loop from row `i` on: each row is fetched, opened, its cells
   * written in order and closed, and counted; a failed `SQLGetData` returns
   * -1 in mid-row, and after the last row the fetch reports "no data"
   * (0) or, when `fetchFails`, an error (-1).
   */
  function FetchFrom(f: Format, cols: seq<Column>, rows: seq<seq<Cell>>, fetchFails: bool, i: nat): (r: Fetched)
    requires i <= |rows| && forall k :: 0 <= k < |rows| ==> |rows[k]| == |cols|
    ensures r.rows <= |rows| - i
    ensures r.code == 0 || r.code == -1
    decreases |rows| - i
  {
    if i == |rows| then Fetched(if fetchFails then -1 else 0, [], 0)
    else
      var row := RenderRow(f, cols, rows[i]);
      if !row.done then Fetched(-1, row.text, 0)
      else
        var rest := FetchFrom(f, cols, rows, fetchFails, i + 1);
        Fetched(rest.code, row.text + rest.out, rest.rows + 1)
  }

  /** Every cell of every row from `i` on can be read. */
  predicate ReadableFrom(rows: seq<seq<Cell>>, i: nat)
  {
    forall a, k :: i <= a < |rows| && 0 <= k < |rows[a]| ==> !rows[a][k].Unreadable?
  }

  /** A row is finished exactly when no cell of it is unreadable. */
  lemma RenderRowDone(f: Format, cols: seq<Column>, row: seq<Cell>)
    requires |row| == |cols|
    ensures RenderRow(f, cols, row).done <==> FirstUnreadable(row) == |row|
  {
  }

  /** The rows from `i` on are readable when row `i` is read in full and the rows after it are readable. */
  lemma ReadableFromStep(rows: seq<seq<Cell>>, i: nat)
    requires i < |rows|
    ensures ReadableFrom(rows, i) <==> FirstUnreadable(rows[i]) == |rows[i]| && ReadableFrom(rows, i + 1)
  {
    var j := FirstUnreadable(rows[i]);
    if j < |rows[i]| {
      assert rows[i][j].Unreadable?;
    }
  }

  /**
   * The loop returns 0 exactly when every cell could be read and the fetch
   * ended without error, and then it has counted every row; on -1 the count
   * is the rows finished before the failure.
   */
  lemma {:induction false} FetchOutcome(f: Format, cols: seq<Column>, rows: seq<seq<Cell>>, fetchFails: bool, i: nat)
    requires i <= |rows| && forall k :: 0 <= k < |rows| ==> |rows[k]| == |cols|
    ensures var r := FetchFrom(f, cols, rows, fetchFails, i);
            (r.code == 0 <==> !fetchFails && ReadableFrom(rows, i)) &&
            (r.code == 0 ==> r.rows == |rows| - i)
    decreases |rows| - i
  {
    if i < |rows| {
      FetchOutcome(f, cols, rows, fetchFails, i + 1);
      RenderRowDone(f, cols, rows[i]);
      ReadableFromStep(rows, i);
    }
  }

  /** One more turn of the emitting loop adds the next part and its separator. */
  lemma EmittedStep(parts: seq<string>, sep: string, k: nat)
    requires k < |parts|
    ensures Emitted(parts, sep, k + 1) == Emitted(parts, sep, k) + parts[k] + Sep(k, |parts|, sep)
  {
  }

  /** A row is cut at its first unreadable cell `k`, and finished when there is none. */
  lemma RenderRowAt(f: Format, cols: seq<Column>, row: seq<Cell>, k: nat)
    requires |row| == |cols| && k <= FirstUnreadable(row)
    requires k == |cols| || row[k].Unreadable?
    ensures var cells := Emitted(Fields(f, cols, row), Separator(f), k);
            RenderRow(f, cols, row) ==
            if k == |cols| then RowOut(true, RowOpen(f) + cells + RowClose(f)) else RowOut(false, RowOpen(f) + cells)
  {
    assert FirstUnreadable(row) == k;
  }

  /** A readable cell before the first unreadable one moves the bound on by one. */
  lemma FirstUnreadablePast(row: seq<Cell>, k: nat)
    requires k < |row| && k <= FirstUnreadable(row) && !row[k].Unreadable?
    ensures k + 1 <= FirstUnreadable(row)
  {
  }

  /** The inner loop of a renderer: one fetched row, cell by cell, stopping at a failed `SQLGetData`. */
  method WriteRow(f: Format, cols: seq<Column>, row: seq<Cell>) returns (done: bool, text: string)
    requires |row| == |cols|
    ensures RowOut(done, text) == RenderRow(f, cols, row)
  {
    ghost var fields := Fields(f, cols, row);
    var sep := Separator(f);
    var cells := [];
    var k := 0;
    while k < |cols| && !row[k].Unreadable?
      invariant 0 <= k <= |cols|
      invariant k <= FirstUnreadable(row)
      invariant cells == Emitted(fields, sep, k)
    {
      FirstUnreadablePast(row, k);
      EmittedStep(fields, sep, k);
      cells := cells + CellField(f, cols[k], row[k]) + Sep(k, |cols|, sep);
      k := k + 1;
    }
    RenderRowAt(f, cols, row, k);
    done := k == |cols|;
    text := if done then RowOpen(f) + cells + RowClose(f) else RowOpen(f) + cells;
  }

  /** The row loop so far: `out` and `count`, followed by what the loop does from row `i` on, is the whole. */
  ghost predicate FetchedSoFar(f: Format, cols: seq<Column>, rows: seq<seq<Cell>>, fetchFails: bool,
                               i: nat, out: string, count: nat)
    requires i <= |rows| && forall k :: 0 <= k < |rows| ==> |rows[k]| == |cols|
  {
    var rest := FetchFrom(f, cols, rows, fetchFails, i);
    FetchFrom(f, cols, rows, fetchFails, 0) == Fetched(rest.code, out + rest.out, count + rest.rows)
  }

  /** A row written in full is counted, and the loop goes on with the next. */
  lemma RowStep(f: Format, cols: seq<Column>, rows: seq<seq<Cell>>, fetchFails: bool,
                i: nat, out: string, count: nat, text: string)
    requires i < |rows| && forall k :: 0 <= k < |rows| ==> |rows[k]| == |cols|
    requires FetchedSoFar(f, cols, rows, fetchFails, i, out, count)
    requires RenderRow(f, cols, rows[i]) == RowOut(true, text)
    ensures FetchedSoFar(f, cols, rows, fetchFails, i + 1, out + text, count + 1)
  {
    var rest := FetchFrom(f, cols, rows, fetchFails, i + 1);
    assert out + (text + rest.out) == out + text + rest.out;
  }

  /** A row whose `SQLGetData` fails ends the loop with -1 and what was written of it. */
  lemma RowFails(f: Format, cols: seq<Column>, rows: seq<seq<Cell>>, fetchFails: bool,
                 i: nat, out: string, count: nat, text: string)
    requires i < |rows| && forall k :: 0 <= k < |rows| ==> |rows[k]| == |cols|
    requires FetchedSoFar(f, cols, rows, fetchFails, i, out, count)
    requires RenderRow(f, cols, rows[i]) == RowOut(false, text)
    ensures FetchFrom(f, cols, rows, fetchFails, 0) == Fetched(-1, out + text, count)
  {
  }

  /**
   * The row loop shared by `result_csv`, `result_fixedwidth` and
   * `result_xml` (after their headers): fetch, write the row, count it.
   */
  method FetchRows(f: Format, cols: seq<Column>, rows: seq<seq<Cell>>, fetchFails: bool) returns (code: int, out: string, count: nat)
    requires forall k :: 0 <= k < |rows| ==> |rows[k]| == |cols|
    ensures Fetched(code, out, count) == FetchFrom(f, cols, rows, fetchFails, 0)
  {
    out, count := [], 0;
    var i := 0;
    while i < |rows|
      invariant 0 <= i <= |rows|
      invariant FetchedSoFar(f, cols, rows, fetchFails, i, out, count)
    {
      var done, text := WriteRow(f, cols, rows[i]);
      if !done {
        RowFails(f, cols, rows, fetchFails, i, out, count, text);
        return -1, out + text, count;
      }
      RowStep(f, cols, rows, fetchFails, i, out, count, text);
      out := out + text;
      count := count + 1;
      i := i + 1;
    }
    code := if fetchFails then -1 else 0;
  }

  /** `result_csv`'s first line: every column name in quotes, separated by commas. */
  function CsvHeader(cols: seq<Column>): string
  {
    Emitted(seq(|cols|, k requires 0 <= k < |cols| => "\"" + ColName(cols[k]) + "\""), ",", |cols|) + "\n"
  }

  /** A line of dashes as wide as each column, with `+` where columns meet. */
  function Divider(cols: seq<Column>): string
  {
    Emitted(seq(|cols|, k requires 0 <= k < |cols| => Repeat('-', Width(cols[k]))), "+", |cols|) + "\n"
  }

  /** `result_fixedwidth`'s header: the names padded or cut to their widths, between two dividers. */
  function FixedHeader(cols: seq<Column>): string
  {
    Divider(cols) +
    Emitted(seq(|cols|, k requires 0 <= k < |cols| => Pad(ColName(cols[k]), Width(cols[k]))), "|", |cols|) + "\n" +
    Divider(cols)
  }

  /** What a renderer writes before its first fetch; the XML renderer writes nothing. */
  function Header(f: Format, cols: seq<Column>): string
  {
    match f
    case Csv => CsvHeader(cols)
    case Fixed => FixedHeader(cols)
    case _ => []
  }

  /** The CSV header names every column once, in quotes, with commas only between them. */
  lemma CsvHeaderIsJoin(cols: seq<Column>)
    ensures CsvHeader(cols) == Join(seq(|cols|, k requires 0 <= k < |cols| => "\"" + ColName(cols[k]) + "\""), ",") + "\n"
  {
    EmittedIsJoin(seq(|cols|, k requires 0 <= k < |cols| => "\"" + ColName(cols[k]) + "\""), ",");
  }

  /** Each divider segment is as long as its column is wide, with `+` only between segments. */
  lemma DividerIsJoin(cols: seq<Column>)
    ensures Divider(cols) == Join(seq(|cols|, k requires 0 <= k < |cols| => Repeat('-', Width(cols[k]))), "+") + "\n"
  {
    EmittedIsJoin(seq(|cols|, k requires 0 <= k < |cols| => Repeat('-', Width(cols[k]))), "+");
  }
}
