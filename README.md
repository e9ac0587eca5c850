# odbcshell core in Dafny

ODBC Shell is an interactive command shell for ODBC data sources. This
project models its sequential core and proves what that core does:

- the statement tokenizer (`odbcshell_parse_line`). It scans a NUL-terminated
  buffer in place and yields an argument vector and an end-of-statement index
  `eol`, where `eol == 0` means "need more input".
- the command dispatcher (`odbcshell_interpret_line`) and the buffer
  interpreter (`odbcshell_interpret_buffer`). The interpreter runs the
  `;`-separated statements of one buffer with its early-exit rules.
- the command table and its two lookups (`odbcshell_lookup_opt_by_name`,
  `odbcshell_lookup_opt_by_value`).
- the connection registry: an ordered list of named connections plus a
  non-owning `current` connection.
- result rendering: the column-width policy, the CSV, fixed-width and XML
  renderers, and the loop over the result sets of one statement.
- the session loop (`odbcshell_cli_loop`): it gathers input lines into a
  buffer, continues lines that end in a backslash, picks the prompt, and acts
  on the interpreter's outcome.

Modules, one per file:

| file | module | what |
|---|---|---|
| text.dfy | `Text` | `strcasecmp`, `strlen`, `Join` and similar string helpers |
| commands.dfy | `Commands` | the command table and both lookups |
| parse.dfy | `Parsing` | `ParseLine` on an `array<char>`, proved equal to the specification function `Parse`, plus lemmas on tokens |
| plain.dfy | `Plain` | statements of plain text: any runs of blanks between fields, ended at the first `;` or newline |
| interpret.dfy | `Interpret` | `InterpretLine` (lookup, arity, dispatch), and `InterpretBuffer` on an array, proved equal to `InterpretAll` |
| registry.dfy | `Registry` | class `Connections` (fields `conns: seq<Conn>`, `current: Conn?`) and class `Conn` |
| render.dfy | `Render` | widths, cells, the three renderers' row loops |
| results.dfy | `Results` | the result-set loop of `odbcshell_odbc_result` |
| cli.dfy | `Cli` | the session loop, calling the real `InterpretBuffer` on an array |

The ODBC driver is modelled as abstract inputs, and so is the terminal:
- a result set is a shape (the column count fails, describing fails, no
  columns, or columns) plus rows of cells (text, SQL NULL, or a failed
  `SQLGetData`) and a flag for a failing fetch;
- the answer of `SQLMoreResults` after the last set is an `Ending`;
- driver success of `connect`/`reconnect` is a boolean parameter;
- the command handlers are an opaque function
  `(configuration, handler, argv) -> (configuration, outcome)`;
- `readline` is a sequence of input lines, with end of input after the last one.

The model follows the code in these places a reader may not expect:
- `connect` makes the new connection current even when another one already
  was (it passes the new connection to `update_current`, which assigns it
  unconditionally).
- a quoted token's closing quote is looked for from the second character
  after the opening quote, so `''` never closes and `'''` yields the token `'`.
- `reconnect` that fails halfway leaves the connection with its handles
  released as far as it got, and returns -1.
- `reconnect` of an unknown name returns 0.
- a statement that starts with `;` or a newline (a lone `;`, or the empty
  statement in `a;;`) ends at index 0, which the interpreter reads as "need
  more input" (2). The session loop then keeps the buffer and appends every
  later line behind that terminator, so nothing typed afterwards runs, `quit`
  included, until end of input.

## Model

| member | source | states |
|---|---|---|
| Text.StrLen | src/odbcshell-parse.c:210 | the string of a buffer ends at its first NUL, or at the end of the buffer when it has none |
| Commands.ScanByName | src/odbcshell-variables.c:91-95 | the by-name walk stops at the first entry with a NULL name or a case-insensitively equal name, and passes only entries that do neither |
| Commands.ScanByValue | src/odbcshell-variables.c:107-111 | the by-value walk stops at the first entry with a NULL name or the given id, and passes only entries that do neither |
| Commands.LookupOptByName | src/odbcshell-variables.c:86-96 | NULL exactly for a NULL table; otherwise the first entry whose name equals the key ignoring case, or the sentinel, with no earlier entry matching |
| Commands.LookupOptByValue | src/odbcshell-variables.c:102-112 | NULL exactly for a NULL table; otherwise the first named entry with the given id, or the sentinel, with no earlier entry matching |
| Commands.CommandTableWellFormed | src/odbcshell-variables.c:61-72 | the table ends in the sentinel; every named entry has 1 <= min_arg <= max_arg; no two names are equal ignoring case |
| Commands.LookupFindsEntry | src/odbcshell-variables.c:92-94 | a name equal to a table entry's name (in any case) finds that entry |
| Commands.LookupUnknownIsSentinel | src/odbcshell-variables.c:89-95 | a name matching no entry finds the sentinel, whose min_arg and max_arg are -1 |
| Commands.LookupNeverNull | src/odbcshell-variables.c:86-96 | the by-name lookup over the command table never returns NULL |
| Commands.LookupByValueFindsEntry | src/odbcshell-variables.c:108-110 | looking up an entry's own id finds that entry |
| Commands.LookupByValueUnknownIsSentinel | src/odbcshell-variables.c:107-111 | an id that no named entry carries finds the sentinel; the sentinel's own -1 is never matched through its val |
| Parsing.SkipTo | src/odbcshell-parse.c:246-247 | the comment and unquoted-token scans land on a character they look for, or on the end of the string, and pass over none before it |
| Parsing.SkipPast | src/odbcshell-parse.c:259-260 | the quoted scan lands on the next identical quote, or on the end of the string, and passes over no such quote before it |
| Parsing.StepAt | src/odbcshell-parse.c:213-327 | one turn of the scan either stops with the tokens so far and a bounded `eol`, or moves strictly forward adding only non-empty tokens |
| Parsing.ScanFrom | src/odbcshell-parse.c:213-329 | the scan keeps the buffer's length, keeps `eol` within the string and only appends non-empty tokens |
| Parsing.FindFrom | src/odbcshell-parse.c:294-302 | the inner `while` loop on the array returns exactly `SkipTo` on the current characters |
| Parsing.FindQuote | src/odbcshell-parse.c:259-260 | the quoted inner loop on the array returns exactly `SkipPast` |
| Parsing.ParseStep | src/odbcshell-parse.c:215-312 | one turn on the array is the `Turn` that the specification function describes, and writes nothing outside the statement |
| Parsing.EscapeStep | src/odbcshell-parse.c:225-233 | a backslash becomes a space, and so does a newline right after it; a backslash at the end returns "need more input" |
| Parsing.CommentStep | src/odbcshell-parse.c:245-253 | a comment is skipped to its line end and past it; at the end of the string the statement ends |
| Parsing.QuoteStep | src/odbcshell-parse.c:256-289 | a quoted token is the text up to the matching quote; an unmatched quote returns "need more input" |
| Parsing.BareStep | src/odbcshell-parse.c:292-311 | an unquoted token runs to the next delimiter |
| Parsing.ParseTurn | src/odbcshell-parse.c:213-327 | one loop turn preserves the invariant that the rest of the scan gives the whole scan's result, and moves strictly forward when it does not stop |
| Parsing.ScanLine | src/odbcshell-parse.c:213-329 | the scanning loop ends with the tokens, `eol` and rewritten characters of the whole scan, and writes nothing outside the statement |
| Parsing.ParseLine | src/odbcshell-parse.c:187-330 | the tokens and `eol` are those of `Parse` on the string at `from`; the array afterwards is that string rewritten by the scan, with nothing else changed |
| Parsing.ScanFacts | src/odbcshell-parse.c:213-327 | the scan only turns backslashes, carriage returns and newlines into spaces; a statement ending inside the string ends on a `;` or `\n` left in place |
| Parsing.TokenTurn | src/odbcshell-parse.c:292-311 | an unquoted token is the longest run of non-delimiters from its first character, quotes included |
| Parsing.QuotedTokenTurn | src/odbcshell-parse.c:256-289 | a quoted token is exactly the text between the quote and the next identical quote looked for from two places on; `;`, `#`, blanks and the other quote are kept |
| Parsing.UnclosedQuoteTurn | src/odbcshell-parse.c:256-262 | a quote with no identical quote after it stops the scan with `eol` 0 |
| Parsing.CommentTurn | src/odbcshell-parse.c:245-253 | `#` skips to the next `\n` or `\r` and past it, so the statement goes on; a comment that reaches the end ends the statement at the string's length |
| Parsing.WordTurn | src/odbcshell-parse.c:256-311 | a well-formed word written out is one turn that yields exactly the word's text |
| Parsing.WordsMove | src/odbcshell-parse.c:213-327 | scanning written-out words collects their texts in order without rewriting anything |
| Parsing.ParseStatement | src/odbcshell-parse.c:213-223 | words followed by `;` or a newline give exactly their texts, `eol` at that terminator and the buffer unchanged, whatever follows |
| Parsing.ParseExample | src/odbcshell-parse.c:213-223 | `cmd arg1 arg2;` gives `cmd`, `arg1`, `arg2` and `eol` 13 |
| Parsing.SpacedMove | src/odbcshell-parse.c:213-327 | scanning words separated by runs of spaces and tabs collects their texts in order and passes the blanks, rewriting nothing |
| Parsing.ParseSpacedStatement | src/odbcshell-parse.c:213-242 | leading blanks, then bare or quoted words separated by any non-empty runs of spaces and tabs (and perhaps followed by some), then `;` or a newline: exactly the words' texts, `eol` at that first terminator outside quotes, and nothing rewritten, whatever follows |
| Parsing.ParseSpacedExample | src/odbcshell-parse.c:213-289 | `set  'a;b'<tab>c;` gives `set`, `a;b`, `c` and `eol` 12: the quoted `;` does not end the statement |
| Parsing.ParseToEnd | src/odbcshell-parse.c:210-213 | words with no terminator end at the string's length; the empty string gives no tokens and `eol` 0 |
| Parsing.ParseTrailingBackslash | src/odbcshell-parse.c:225-233 | a trailing backslash returns `eol` 0 with the words already tokens and the backslash turned into a space |
| Parsing.ParseUnclosedQuote | src/odbcshell-parse.c:256-262 | an opening quote never closed returns `eol` 0, whatever `;` or `#` follows it |
| Parsing.QuoteNeverCloses | src/odbcshell-parse.c:256-262 | from an unmatched quote the whole remaining scan is "need more input" with the string unchanged |
| Parsing.ParseCommentContinues | src/odbcshell-parse.c:245-253 | a comment closed by a newline does not end the statement: the words before and after it are the tokens |
| Parsing.ParseCommentToEnd | src/odbcshell-parse.c:248-252 | a comment that runs to the end of the string sets `eol` to the string's length |
| Parsing.ParseEscapedNewline | src/odbcshell-parse.c:225-233 | a backslash before a newline turns both into spaces and the statement goes on with the next line's words |
| Parsing.ParseEscapedChar | src/odbcshell-parse.c:225-228 | a backslash before an ordinary character becomes a space and splits the token: `a\b` gives `a` and `b` |
| Parsing.ParseEscapedSemicolon | src/odbcshell-parse.c:225-228 | an escaped `;` still ends the statement: `a\;b` gives `a` and `eol` 2 |
| Parsing.ParseCarriageReturn | src/odbcshell-parse.c:240-242 | a carriage return ends a token and is overwritten with a space |
| Parsing.ParseQuotedSemicolon | src/odbcshell-parse.c:274-289 | a `;` between double quotes is part of the token |
| Parsing.ParseEmptyQuotes | src/odbcshell-parse.c:256-262 | `''` never closes, so it gives "need more input" rather than an empty token |
| Parsing.ParseTripleQuote | src/odbcshell-parse.c:256-271 | `'''` gives the one token `'` |
| Plain.FieldLenRun | src/odbcshell-parse.c:294-301 | the first field of plain text is its longest run without a space, tab or carriage return |
| Plain.PlainScan | src/odbcshell-parse.c:213-242 | plain text (no quote, `#` or backslash) up to a `;`, a newline or the end of the string is scanned through to that first terminator: its blank-separated fields are the tokens, whatever runs of spaces, tabs and carriage returns separate them, and only its carriage returns become spaces |
| Plain.ParsePlain | src/odbcshell-parse.c:205-242 | a statement of plain text ends at its first `;` or newline, or at the end of the string, with its fields as the tokens |
| Plain.ParseSpaced | src/odbcshell-parse.c:213-242 | two words with any run of spaces and tabs between them, then `;` or a newline, give exactly the two words and `eol` at the terminator, with nothing rewritten |
| Interpret.InterpretLine | src/odbcshell-parse.c:129-179 | no tokens gives 0; any result other than "configuration unchanged, 0" comes from one handler call on the tokens |
| Interpret.DispatchKnown | src/odbcshell-parse.c:143-176 | a table command with an admissible token count runs the handler its id selects |
| Interpret.RefuseArity | src/odbcshell-parse.c:143-154 | too few or too many tokens (the command name counted) return 0 and dispatch nothing |
| Interpret.DispatchUnknown | src/odbcshell-parse.c:137-175 | an unknown name finds the sentinel, passes both arity guards and reaches the `default` handler, so the "unknown command" branch is never taken |
| Interpret.ConnectArity | src/odbcshell-variables.c:63 | `connect` (in any case) runs only with exactly one argument after its name |
| Interpret.SetArity | src/odbcshell-variables.c:68 | `set` (in any case) runs with up to two arguments after its name and is refused with more |
| Interpret.Segment | src/odbcshell-parse.c:98-121 | one statement turn keeps the buffer's length and, when it goes on, moves strictly forward |
| Interpret.ParseSegment | src/odbcshell-parse.c:100 | parsing the statement at `pos` in place gives `Parse` of the rest of the string and keeps the buffer free of NUL |
| Interpret.SegmentStep | src/odbcshell-parse.c:98-121 | one turn of the array loop is exactly the `Segment` turn of the specification function |
| Interpret.InterpretBuffer | src/odbcshell-parse.c:83-123 | code, `*offsetp`, configuration and the rewritten buffer are exactly those of `InterpretAll` on the string |
| Interpret.InterpretFacts | src/odbcshell-parse.c:98-122 | the outcome is 2, 1, 0 or -1; -1 only when the configuration does not say to continue; `*offsetp` stays within the string; the buffer only gains spaces |
| Interpret.LeadingTerminator | src/odbcshell-parse.c:100-103 | a statement starting with `;` or a newline returns 2 and dispatches nothing |
| Interpret.TokenlessStops | src/odbcshell-parse.c:100-105 | any statement that ends (`eol` past 0) with no tokens, whatever blanks or comment it holds, returns 0 with `*offsetp` and the configuration unchanged, and what follows it never runs |
| Interpret.BlankStatementStops | src/odbcshell-parse.c:100-105 | a statement of spaces, tabs and carriage returns alone, ended by `;`, a newline or the end of the string, returns 0 and what follows it never runs; only its carriage returns become spaces |
| Interpret.RunStatement | src/odbcshell-parse.c:107-120 | a statement of words ended by `;` or a newline is dispatched with exactly their texts; the run returns on outcome 1, on -1 unless continuing, and otherwise goes on past the terminator with `*offsetp` grown by its `eol` |
| Interpret.RunPlain | src/odbcshell-parse.c:98-121 | a statement of plain text is dispatched with its blank-separated fields; the run returns on outcome 1, on -1 unless continuing, and otherwise goes on past its terminator with `*offsetp` grown by its length |
| Interpret.DoubledSemicolon | src/odbcshell-parse.c:100-120 | after a statement that goes on, an empty statement returns 2 with the first statement's effects kept |
| Registry.IndexOf | src/odbcshell-odbc.c:98-107 | the lowest index whose name equals the key ignoring case, or -1 exactly when none does |
| Registry.WithoutShifts | src/odbcshell-odbc.c:124-127 | removal keeps the entries before the index, moves later ones down by one, and drops exactly that entry |
| Registry.WithoutKeepsDistinct | src/odbcshell-odbc.c:113-130 | removing an entry keeps the names distinct |
| Registry.AppendKeepsDistinct | src/odbcshell-odbc.c:177-244 | appending a connection under a name not yet taken keeps the names distinct |
| Registry.IndexOfMember | src/odbcshell-odbc.c:98-107 | with distinct names, looking a listed connection up by its own name in any case finds it |
| Registry.ChosenName | src/odbcshell-odbc.c:172-175 | a missing or empty name becomes "default", any other name is kept |
| Registry.Connections.ArrayAdd | src/odbcshell-odbc.c:70-92 | appends the connection at the end and returns 0; earlier entries and `current` do not change |
| Registry.Connections.FindIndex | src/odbcshell-odbc.c:98-107 | the loop returns `IndexOf` |
| Registry.Connections.ArrayRm | src/odbcshell-odbc.c:113-130 | a known name is removed by a stable left shift; an unknown name changes nothing; 0 either way |
| Registry.Connections.Close | src/odbcshell-odbc.c:135-157 | the list ends empty, `current` ends null, and 0 is returned |
| Registry.Connections.UpdateCurrent | src/odbcshell-odbc.c:1060-1075 | a given connection becomes current; without one, an existing current stays, else the last listed connection (or none) |
| Registry.Connections.Connect | src/odbcshell-odbc.c:164-249 | a taken name or a driver failure returns -1 with list and current unchanged; otherwise a fresh connection under the chosen name is appended and made current; the names stay distinct |
| Registry.Connections.Disconnect | src/odbcshell-odbc.c:255-288 | no name and no current, or an unknown name, returns -1 changing nothing; otherwise the entry is removed, current falls back when it was that entry and is kept otherwise |
| Registry.Connections.Reconnect | src/odbcshell-odbc.c:459-504 | nothing to resolve, or an unknown name, returns 0 changing nothing; otherwise only that connection's handles change, and the result is 0 exactly when both driver steps succeed; list and current never change |
| Registry.Connections.Use | src/odbcshell-odbc.c:1081-1110 | the first case-insensitive match becomes current with 0; an unknown name returns -1 with current unchanged; the list never changes |
| Text.CString | src/odbcshell-odbc.c:742 | what `%s` prints of a buffer is how it starts, and it stops only at the buffer's end or at a NUL |
| Text.CStringNoNul | src/odbcshell-odbc.c:742 | what `%s` prints is as long as `strlen` says and holds no NUL |
| Text.CStringWhole | src/odbcshell-odbc.c:742 | a buffer without NUL is printed whole |
| Render.WidthPolicy | src/odbcshell-odbc.c:573-643 | an unlisted type gets width 0; otherwise the width is at most 1023, is at least the type's width and the name's `strlen` unless capped, and is one of those three; it is 1023 only when the type's width or the name's `strlen` reaches 1023 |
| Render.WidthOf | src/odbcshell-odbc.c:573-643 | for a listed type and a name without NUL, the width is the type's width raised to the name's length and capped at 1023 |
| Render.IntegerWidthExample | src/odbcshell-odbc.c:597-643 | an integer column of precision 10 named `id` is 11 wide |
| Render.BitWidthExample | src/odbcshell-odbc.c:593-641 | a bit column named `flag` is 4 wide: the name is longer than the type's width of 1 |
| Render.TimestampWidthExample | src/odbcshell-odbc.c:626-643 | a timestamp column of scale 3 named `created` is 23 wide |
| Render.BinaryWidthExample | src/odbcshell-odbc.c:583-643 | a binary column of precision 600 is capped at 1023 |
| Render.UnlistedWidthExample | src/odbcshell-odbc.c:635-637 | a type the switch does not list is 0 wide |
| Render.CellText | src/odbcshell-odbc.c:740-742 | SQL NULL prints as empty; at most 1023 characters are printed |
| Render.CellTextShown | src/odbcshell-odbc.c:740-742 | a text cell prints as how its text starts, without NUL, stopping only at 1023 characters, at the text's end or at its first NUL; text without NUL that fits the 1024-byte buffer prints unchanged |
| Render.PadShape | src/odbcshell-odbc.c:825-827 | `%-*.*s` is exactly the width: the text's first characters, then spaces |
| Render.EmittedIsJoin | src/odbcshell-odbc.c:708-713 | the emit-then-separator-unless-last loop writes the parts joined by the separator, with none after the last |
| Render.FirstUnreadable | src/odbcshell-odbc.c:732-739 | the first cell whose `SQLGetData` fails, with every earlier cell read |
| Render.RowIsJoin | src/odbcshell-odbc.c:730-746 | a fully read row is its fields joined by the format's separator between the row's opening and closing text |
| Render.CsvFieldVerbatim | src/odbcshell-odbc.c:742 | a CSV field is the printed cell text (up to its first NUL) between two double quotes, with quotes inside it not doubled |
| Render.XmlFieldVerbatim | src/odbcshell-odbc.c:879-881 | an XML field is `\t\t<name>`, the text, then `</name>` and a newline, with the name cut at its first NUL; it holds the printed cell text unchanged, with `<` and `&` not escaped |
| Render.FixedFieldWidth | src/odbcshell-odbc.c:825-827 | a fixed-width field is exactly as wide as its column, however long the text |
| Render.FetchFrom | src/odbcshell-odbc.c:717-748 | the row loop returns 0 or -1 and counts no more rows than there are |
| Render.RenderRowDone | src/odbcshell-odbc.c:730-746 | a row is finished exactly when no `SQLGetData` on it fails |
| Render.FetchOutcome | src/odbcshell-odbc.c:717-748 | the row loop returns 0 exactly when every cell is readable and the fetch does not fail; then the count is the number of rows |
| Render.WriteRow | src/odbcshell-odbc.c:730-746 | the cell loop writes what `RenderRow` says and reports whether the row was read in full |
| Render.FetchRows | src/odbcshell-odbc.c:717-748 | the fetch loop's code, output and row count are exactly `FetchFrom` |
| Render.CsvHeaderIsJoin | src/odbcshell-odbc.c:708-714 | the CSV header names every column once (its name up to the first NUL), in quotes, with commas only between them |
| Render.DividerIsJoin | src/odbcshell-odbc.c:769-776 | each divider segment is as long as its column's width, with `+` only between segments |
| Results.FirstHalt | src/odbcshell-odbc.c:529-677 | the first result set that does not complete, with every earlier one completing |
| Results.OneSetOutcome | src/odbcshell-odbc.c:531-676 | a set lets the loop go on exactly when it completes; when it stops, it returns 0 exactly when it has no columns; its only summary is its own, with all its rows counted |
| Results.ChainCode | src/odbcshell-odbc.c:529-691 | the loop returns 0 exactly when its first stop returns 0, or when nothing stops it and `SQLMoreResults` reports no more results |
| Results.ChainLog | src/odbcshell-odbc.c:529-691 | everything written comes from one of the sets or is the closing tag |
| Results.ChainCloses | src/odbcshell-odbc.c:679-680 | when no set stops the loop, XML output ends with `</result>` |
| Results.HaltsAgree | src/odbcshell-odbc.c:529-677 | the loop stops at the first set that does not complete |
| Results.ResultsCode | src/odbcshell-odbc.c:509-692 | the result is 0 exactly when a set without columns comes before any failure, or when every set completes and no more results follow |
| Results.SummaryRows | src/odbcshell-odbc.c:670-672 | every summary names a rendered set, numbered from 1, with all its rows counted; XML output to the terminal has no summaries |
| Results.XmlClosed | src/odbcshell-odbc.c:679-680 | when every set completes, XML output ends with `</result>` even when `SQLMoreResults` then fails |
| Results.NoColumnsFirst | src/odbcshell-odbc.c:541-548 | a first statement without columns reports only its affected-row count and returns 0 |
| Results.ShowSet | src/odbcshell-odbc.c:531-676 | one turn of the loop is the `OneSet` outcome |
| Results.ShowResults | src/odbcshell-odbc.c:509-692 | the code and output are exactly `Results` |
| Cli.JoinedShape | src/odbcshell-cli.c:122-125 | the buffer, then one space exactly when it is non-empty and does not end in a blank, then the line |
| Cli.JoinedLast | src/odbcshell-cli.c:132 | the appended buffer ends with the line's last character |
| Cli.JoinedNoNul | src/odbcshell-cli.c:122-125 | appending lines without NUL gives a buffer without NUL |
| Cli.AllocationShort | src/odbcshell-cli.c:120 | the line `'a` is kept as the buffer for more input, and the next line `b'` then needs six bytes, where five are allocated |
| Cli.AllocationSuffices | src/odbcshell-cli.c:120-125 | the corrected size always holds the appended buffer; the size as written does exactly when no space is inserted |
| Cli.LineOutcome | src/odbcshell-cli.c:135-158 | a line ends the session only with 0 or -1, and with -1 only when the configuration does not say to continue |
| Cli.SessionOutcome | src/odbcshell-cli.c:116-161 | a session returns 0 or -1, -1 only when not continuing, showing between one prompt and one per line plus one, the first chosen by the buffer |
| Cli.RunsToEnd | src/odbcshell-cli.c:116-161 | with only empty lines, every prompt is the same and end of input returns 0 with the configuration unchanged |
| Cli.NothingAfterExit | src/odbcshell-cli.c:137-146 | after the line the loop exits on, no further input is read |
| Cli.ContinuedLine | src/odbcshell-cli.c:132-133 | a line ending in a backslash is held back uninterpreted and the next prompt is the continuation prompt |
| Cli.BlankLine | src/odbcshell-cli.c:118-130 | an empty line changes nothing and the same prompt comes back |
| Cli.IncompleteKeepsBuffer | src/odbcshell-cli.c:148-149 | "need more input" keeps the whole buffer, as the parser rewrote it, for the next line |
| Cli.StuckLine | src/odbcshell-cli.c:118-149 | a line read onto a buffer that starts with `;` or a newline leaves the buffer starting the same way and the configuration unchanged: nothing is dispatched |
| Cli.StuckOnTerminator | src/odbcshell-cli.c:114-161 | once the buffer starts with `;` or a newline, every later line is only gathered, every prompt is the continuation prompt, and the session ends at end of input with 0 and the configuration unchanged |
| Cli.LoneSemicolon | src/odbcshell-cli.c:114-161 | after a first line `;`, nothing typed later runs, `quit` included |
| Cli.Feed | src/odbcshell-cli.c:118-158 | appending the line into an array of the corrected size and interpreting it in place does what `LineStep` says |
| Cli.CliLoop | src/odbcshell-cli.c:114-161 | the loop's code, configuration and prompts are exactly those of `Cli` |

## Left out

- Command handler bodies: the handlers are not part of this model and are an opaque function of the configuration and the tokens.
- ODBC driver calls (`SQLDriverConnect`, `SQLFetchScroll`, `SQLGetData`, `SQLDescribeCol`, `SQLMoreResults`, …): abstract inputs, because they are a foreign library.
- `SQLMoreResults` returning anything other than success: modelled as the end of the sequence of result sets together with an `Ending` (no more results, or an error).
- The describe loop (`src/odbcshell-odbc.c:561-572`): collapsed into one flag for a failing `SQLDescribeCol` on some column.
- Column names longer than the driver's name buffer: names are taken as the driver returns them.
- `odbcshell_odbc_errors` and the thin wrappers (`show_*`, `version`, `initialize`, `exec`): driver interrogation plus the shared result path.
- Readline and history (`using_history`, `read_history`, `stifle_history`, `add_history`, `write_history`), the banner, and the connect to the default data source before the loop: terminal and file I/O.
- Allocation failures (`malloc`/`realloc`/`strdup` returning NULL, outcome -2): memory is unbounded in the model.
- Registry.Connections.ArrayAdd: does not model the `realloc` failure path, so it always returns 0.
- The one-byte-short token allocations before `strncat` in `src/odbcshell-parse.c:264-270` and `304-310`: tokens are strings, not byte buffers.
- Message text: verbose, error and summary wording, and the listing `use` prints without a name. Only the decision to print the summary is modelled.
- `precision * 2` and other width arithmetic in `SQLULEN`: integers are unbounded, so no overflow or wrap-around is modelled.
- The session loop's `if (offset == -1) continue;`: `*offsetp` is a sum of `eol` values and never -1, so the branch is modelled as never taken.
- The interpreter's `argv` storage reuse across calls: tokens are returned as a fresh sequence.
- Results.AllShaped and Interpret.NoNul are facts of the driver and of C strings: every fetched row has one cell per described column, and an input line holds no NUL.
- The out-of-bounds read of the quoted scan (`line[pos]` is read before `pos < len` is checked): the model tests the bound first; either way the result is "need more input".

## Findings

| source | as written | input that shows it | evidently intended | confidence | as-written member | corrected member |
|---|---|---|---|---|---|---|
| src/odbcshell-cli.c:120-125 | `realloc(buffer, strlen(buffer) + strlen(input) + 1)`, then a space and the line are appended | line `'a` (kept on "need more input"), then line `b'`: `'a b'` and its NUL need 6 bytes, 5 are allocated | room for the separating space too: `strlen(buffer) + strlen(input) + 2` | high, not executed | Cli.AllocationShort | Cli.AllocationSuffices |
